/**
 A user address space with its page tables: what mapping and page faults leave in the tables
 is what the regions say (memory/vm.c over arch/x86_64/ptm.c). The frames behind anonymous
 memory are given by the caller; other spaces may use the same tables in between.
 */
module VmPtm {
  import opened Basics
  import opened PtmModel
  import opened PtmSteps
  import opened Ptm
  import opened PtmTheorems
  import opened VmModel
  import Vm
  import RbShape
  import RbTree
  import VmUnmap
  import Division

  const USER_START: nat := 0x1000
  /** The addresses of the lower half. */
  const USER_TOP: nat := 0x8000_0000_0000
  const USER_END: nat := USER_TOP - 0x1000 - 1

  /** A walk ends where an address with these attributes says; memory that is backed on demand may still be absent. */
  ghost predicate Shows(a: Option<Attr>, w: Option<(Entry, nat)>, v: nat) {
    match (a, w)
    case (None, None) => true
    case (None, Some(_)) => false
    case (Some(b), None) => b.dynamic
    case (Some(b), Some((leaf, level))) =>
      && Carries(leaf, b.prot, b.cache, true, false)
      && (b.kind.Direct? ==> leaf.addr + Offset(v, level) == b.kind.phys)
      && (b.dynamic ==> level == 1)
  }

  /** Physical memory begins and goes on with the pages of an address, and lies where the tables can reach it. */
  predicate Reachable(a: Option<Attr>, v: nat) {
    a.Some? && a.value.kind.Direct? ==> a.value.kind.phys < TOP && a.value.kind.phys % FRAME == v % FRAME
  }

  ghost predicate AgreesAt(rs: seq<Region>, m: Memory, root: nat, v: nat) {
    Shows(Lookup(rs, v), Walk(m, root, LEVELS, Vpn(v)), v) && Reachable(Lookup(rs, v), v)
  }

  /** The tables of a user space show its regions, at every address. */
  ghost predicate Agrees(rs: seq<Region>, m: Memory, root: nat) {
    forall v: nat {:trigger AgreesAt(rs, m, root, v)} :: v < USER_TOP ==> AgreesAt(rs, m, root, v)
  }

  ghost predicate ShownAt(m: Memory, m': Memory, root: nat, r: Region, a: nat, e: nat, v: nat) {
    if a <= v < e then r.Has(v) && Shows(Some(AttrAt(r, v)), Walk(m', root, LEVELS, Vpn(v)), v) && Walk(m', root, LEVELS, Vpn(v)).Some?
    else Walk(m', root, LEVELS, Vpn(v)) == Walk(m, root, LEVELS, Vpn(v))
  }

  /** From m to m' exactly the addresses in [a, e) of region r have been mapped, as the region says. */
  ghost predicate Shown(m: Memory, m': Memory, root: nat, r: Region, a: nat, e: nat) {
    forall v: nat {:trigger ShownAt(m, m', root, r, a, e, v)} :: v < USER_TOP ==> ShownAt(m, m', root, r, a, e, v)
  }

  predicate SmallAt(m: Memory, root: nat, v: nat) {
    var w := Walk(m, root, LEVELS, Vpn(v)); w.None? || w.value.1 == 1
  }

  /** No large page lies in [a, e). */
  ghost predicate Small(m: Memory, root: nat, a: nat, e: nat) {
    forall v: nat {:trigger SmallAt(m, root, v)} :: a <= v < e ==> SmallAt(m, root, v)
  }

  // ---------- one request ----------

  /** Page u of the lower half begins at u * FRAME. */
  lemma {:induction false} PageStart(u: nat)
    requires u < USER_TOP / FRAME
    ensures Vpn(u * FRAME) == u && !InKernelHalf(u)
  {
    LowerHalf(u * FRAME);
  }

  lemma {:induction false} Aligned(x: nat)
    ensures On(x, 1) <==> x % FRAME == 0
  {
    Division.RemIsMod(x, FRAME);
  }

  /** The request by which n bytes at address a of a user region are mapped. */
  function Asking(root: nat, r: Region, a: nat, paddr: nat, n: nat, gigabyte: bool): Request {
    Request(root, a, paddr, n, r.prot, r.cache, true, false, gigabyte)
  }

  /** Frames that can be mapped behind n bytes. */
  predicate Frames(paddr: nat, n: nat) { paddr % FRAME == 0 && paddr + n <= TOP }

  predicate AllFrames(frames: seq<nat>) { forall i: nat :: i < |frames| ==> Frames(frames[i], FRAME) }

  /** [a, a + n) are whole pages of a user region. */
  ghost predicate Inside(r: Region, a: nat, n: nat) {
    r.base <= a && a + n <= r.End() && a + n <= USER_TOP && a % FRAME == 0 && n % FRAME == 0
  }

  lemma {:induction false} MayAsk(m: Memory, root: nat, r: Region, a: nat, paddr: nat, n: nat, gigabyte: bool)
    requires Inside(r, a, n) && n > 0 && Frames(paddr, n) && Small(m, root, a, a + n)
    ensures var q := Asking(root, r, a, paddr, n, gigabyte); q.Ok() && NothingLarger(m, q) && KernelOnly(q)
  {
    var q := Asking(root, r, a, paddr, n, gigabyte);
    LowerHalf(a);
    Aligned(a);
    Aligned(paddr);
    Aligned(n);
    forall u: nat | q.Hits(n, root, u)
      ensures !InKernelHalf(u) && (Walk(m, root, LEVELS, u).Some? ==> Walk(m, root, LEVELS, u).value.1 <= q.Level(u))
    {
      PageStart(u);
      assert SmallAt(m, root, u * FRAME);
    }
  }

  /** Which addresses of the lower half it hits. */
  lemma {:induction false} AskedHits(root: nat, r: Region, a: nat, paddr: nat, n: nat, gigabyte: bool, v: nat)
    requires Inside(r, a, n) && n > 0 && Frames(paddr, n) && v < USER_TOP
    ensures var q := Asking(root, r, a, paddr, n, gigabyte);
      && q.Ok() && Into(q, v) == v - a && (q.Hits(n, root, Vpn(v)) <==> a <= v < a + n)
      && (a <= v ==> Vpn(v) >= Vpn(a) && (Vpn(v) - Vpn(a)) * FRAME == Start(v - a, 1))
      && (n == FRAME && a <= v ==> q.Level(Vpn(v)) == 1)
  {
    var q := Asking(root, r, a, paddr, n, gigabyte);
    LowerHalf(a);
    LowerHalf(v);
    Aligned(a);
    Aligned(paddr);
    Aligned(n);
    PageInto(q, root, v);
    if n == FRAME && a <= v { OnePage(q, Vpn(v)); }
  }

  /** A leaf with a region's attributes and physical address shows it. */
  lemma {:induction false} LeafShows(r: Region, leaf: Entry, level: nat, v: nat)
    requires r.Has(v) && Carries(leaf, r.prot, r.cache, true, false) && (r.dynamic ==> level == 1)
    requires r.kind.Direct? ==> leaf.addr + Offset(v, level) == r.kind.phys + (v - r.base)
    ensures Shows(Some(AttrAt(r, v)), Some((leaf, level)), v)
  {
  }

  lemma {:induction false} LeafCarries(q: Request, u: nat)
    requires u >= Vpn(q.vaddr)
    ensures Carries(q.LeafOf(u), q.prot, q.cache, q.user, q.global)
  {
  }

  lemma {:induction false} AskedShownAt(m: Memory, m': Memory, role: map<nat, Role>, root: nat, r: Region, q: Request, v: nat)
    requires Inside(r, q.vaddr, q.length) && q.length > 0 && Frames(q.paddr, q.length) && Root(role, root) && v < USER_TOP
    requires q == Asking(root, r, q.vaddr, q.paddr, q.length, q.gigabyte)
    requires r.kind.Direct? ==> q.paddr == r.kind.phys + (q.vaddr - r.base)
    requires r.dynamic ==> q.length == FRAME
    requires MappedTo(m, m', role, q, q.length)
    ensures ShownAt(m, m', root, r, q.vaddr, q.vaddr + q.length, v)
  {
    AskedHits(root, r, q.vaddr, q.paddr, q.length, q.gigabyte, v);
    assert MappedToAt(m, m', q, q.length, root, Vpn(v));
    if q.vaddr <= v < q.vaddr + q.length {
      HitTranslates(m', q, root, v);
      LeafCarries(q, Vpn(v));
      LeafShows(r, q.LeafOf(Vpn(v)), q.Level(Vpn(v)), v);
    }
  }

  /** A request for part of a region shows it. */
  lemma {:induction false} AskedShown(m: Memory, m': Memory, role: map<nat, Role>, root: nat, r: Region, q: Request)
    requires Inside(r, q.vaddr, q.length) && q.length > 0 && Frames(q.paddr, q.length) && Root(role, root)
    requires q == Asking(root, r, q.vaddr, q.paddr, q.length, q.gigabyte)
    requires r.kind.Direct? ==> q.paddr == r.kind.phys + (q.vaddr - r.base)
    requires r.dynamic ==> q.length == FRAME
    requires MappedTo(m, m', role, q, q.length)
    ensures Shown(m, m', root, r, q.vaddr, q.vaddr + q.length)
  {
    forall v: nat {:trigger ShownAt(m, m', root, r, q.vaddr, q.vaddr + q.length, v)} | v < USER_TOP ensures ShownAt(m, m', root, r, q.vaddr, q.vaddr + q.length, v) {
      AskedShownAt(m, m', role, root, r, q, v);
    }
  }

  ghost predicate Maps(m: Memory, root: nat, a: nat, n: nat, paddr: nat) {
    forall v: nat {:trigger Translate(m, root, v)} :: a <= v < a + n ==> Translate(m, root, v) == Some(paddr + (v - a))
  }

  /** It puts its frames behind its addresses, in order. */
  lemma {:induction false} AskedMaps(m: Memory, m': Memory, role: map<nat, Role>, root: nat, r: Region, q: Request)
    requires Inside(r, q.vaddr, q.length) && q.length > 0 && Frames(q.paddr, q.length) && Root(role, root)
    requires q == Asking(root, r, q.vaddr, q.paddr, q.length, q.gigabyte)
    requires MappedTo(m, m', role, q, q.length)
    ensures Maps(m', root, q.vaddr, q.length, q.paddr)
  {
    forall v: nat | q.vaddr <= v < q.vaddr + q.length ensures Translate(m', root, v) == Some(q.paddr + (v - q.vaddr)) {
      AskedHits(root, r, q.vaddr, q.paddr, q.length, q.gigabyte, v);
      MapTranslates(m, m', role, q, root, v);
    }
  }

  /** A request for one page uses a small one. */
  lemma {:induction false} OnePage(q: Request, u: nat)
    requires q.Ok() && q.length == FRAME && u >= Vpn(q.vaddr)
    ensures q.Level(u) == 1
  {
    Division.RemIsMod(FRAME, Span(2));
    Division.RemIsMod(FRAME, Span(3));
  }

  // ---------- requests in turn ----------

  lemma {:induction false} ShownThen(m: Memory, m1: Memory, m2: Memory, root: nat, r: Region, a: nat, b: nat, e: nat)
    requires Shown(m, m1, root, r, a, b) && Shown(m1, m2, root, r, b, e) && a <= b <= e
    ensures Shown(m, m2, root, r, a, e)
  {
    forall v: nat | v < USER_TOP ensures ShownAt(m, m2, root, r, a, e, v) {
      assert ShownAt(m, m1, root, r, a, b, v) && ShownAt(m1, m2, root, r, b, e, v);
    }
  }

  lemma {:induction false} ShownNothing(m: Memory, root: nat, r: Region, a: nat)
    ensures Shown(m, m, root, r, a, a)
  {
  }

  lemma {:induction false} StillSmall(m: Memory, m': Memory, root: nat, r: Region, a: nat, b: nat, e: nat)
    requires Shown(m, m', root, r, a, b) && Small(m, root, a, e) && a <= b && e <= USER_TOP
    ensures Small(m', root, b, e)
  {
    forall v: nat | b <= v < e ensures SmallAt(m', root, v) {
      assert ShownAt(m, m', root, r, a, b, v) && SmallAt(m, root, v);
    }
  }

  /** Byte v of a range at `a` lies in its own frame. */
  predicate LiesAt(m: Memory, root: nat, a: nat, frames: seq<nat>, v: nat) {
    a <= v && (v - a) / FRAME < |frames| && Translate(m, root, v) == Some(frames[(v - a) / FRAME] + v % FRAME)
  }

  /** The pages from `a` on lie in the frames, one by one. */
  ghost predicate Backed(m: Memory, root: nat, a: nat, n: nat, frames: seq<nat>) {
    forall v: nat {:trigger LiesAt(m, root, a, frames, v)} :: a <= v < a + n ==> LiesAt(m, root, a, frames, v)
  }

  lemma {:induction false} BackedThen(m: Memory, m': Memory, root: nat, r: Region, a: nat, i: nat, frames: seq<nat>)
    requires Backed(m, root, a, i * FRAME, frames) && a % FRAME == 0 && i < |frames| && a + i * FRAME + FRAME <= USER_TOP
    requires Shown(m, m', root, r, a + i * FRAME, a + i * FRAME + FRAME) && Maps(m', root, a + i * FRAME, FRAME, frames[i])
    ensures Backed(m', root, a, (i + 1) * FRAME, frames)
  {
    var page := a + i * FRAME;
    forall v: nat | a <= v < a + (i + 1) * FRAME ensures LiesAt(m', root, a, frames, v) {
      if v < page {
        assert LiesAt(m, root, a, frames, v) && ShownAt(m, m', root, r, page, page + FRAME, v);
        TranslateSame(m, m', root, v);
        LiesStays(m, m', root, a, frames, v);
      } else {
        InPage(a, i, v);
        assert Translate(m', root, v) == Some(frames[i] + (v - page));
      }
    }
  }

  lemma {:induction false} InPage(a: nat, i: nat, v: nat)
    requires a % FRAME == 0 && a + i * FRAME <= v < a + i * FRAME + FRAME
    ensures (v - a) / FRAME == i && v % FRAME == v - (a + i * FRAME)
  {
  }

  /** No address of the lower half outside [a, e) is mapped differently. */
  ghost predicate Untouched(m: Memory, m': Memory, root: nat, a: nat, e: nat) {
    forall v: nat {:trigger SameAtPage(m, m', root, v)} :: v < USER_TOP && !(a <= v < e) ==> SameAtPage(m, m', root, v)
  }

  lemma {:induction false} ShownUntouched(m: Memory, m': Memory, root: nat, r: Region, a: nat, e: nat)
    requires Shown(m, m', root, r, a, e)
    ensures Untouched(m, m', root, a, e)
  {
    forall v: nat | v < USER_TOP && !(a <= v < e) ensures SameAtPage(m, m', root, v) { assert ShownAt(m, m', root, r, a, e, v); }
  }

  /** Pages stay where they are while they are not touched. */
  lemma {:induction false} BackedStays(m: Memory, m': Memory, root: nat, a: nat, n: nat, frames: seq<nat>, b: nat, e: nat)
    requires Backed(m, root, a, n, frames) && Untouched(m, m', root, b, e) && a + n <= USER_TOP && (a + n <= b || e <= a)
    ensures Backed(m', root, a, n, frames)
  {
    forall v: nat | a <= v < a + n ensures LiesAt(m', root, a, frames, v) {
      assert LiesAt(m, root, a, frames, v) && SameAtPage(m, m', root, v);
      TranslateSame(m, m', root, v);
      LiesStays(m, m', root, a, frames, v);
    }
  }

  lemma {:induction false} TranslateSame(m: Memory, m': Memory, root: nat, v: nat)
    requires Walk(m', root, LEVELS, Vpn(v)) == Walk(m, root, LEVELS, Vpn(v))
    ensures Translate(m', root, v) == Translate(m, root, v)
  {
  }

  lemma {:induction false} LiesStays(m: Memory, m': Memory, root: nat, a: nat, frames: seq<nat>, v: nat)
    requires LiesAt(m, root, a, frames, v) && Translate(m', root, v) == Translate(m, root, v)
    ensures LiesAt(m', root, a, frames, v)
  {
  }

  /** In distinct frames no two addresses share memory. */
  lemma {:induction false} BackedApart(m: Memory, root: nat, a: nat, n: nat, frames: seq<nat>, v: nat, w: nat)
    requires Backed(m, root, a, n, frames) && NoDup(frames) && a % FRAME == 0
    requires AllFrames(frames)
    requires a <= v < a + n && a <= w < a + n && v != w
    ensures Translate(m, root, v).Some? && Translate(m, root, w).Some? && Translate(m, root, v) != Translate(m, root, w)
  {
    assert LiesAt(m, root, a, frames, v) && LiesAt(m, root, a, frames, w);
    FramesApart(frames[(v - a) / FRAME], frames[(w - a) / FRAME], v, w, a);
  }

  /** Different bytes of one page, or of two frames, are different. */
  lemma {:induction false} FramesApart(f: nat, g: nat, v: nat, w: nat, a: nat)
    requires f % FRAME == 0 && g % FRAME == 0 && a % FRAME == 0 && a <= v && a <= w && v != w && (f == g ==> (v - a) / FRAME == (w - a) / FRAME)
    ensures f + v % FRAME != g + w % FRAME
  {
    if f + v % FRAME == g + w % FRAME {
      OneFrame(f / FRAME, g / FRAME, v % FRAME, w % FRAME);
      OnePlace(a / FRAME, v, w);
    }
  }

  lemma {:induction false} OneFrame(f: nat, g: nat, x: nat, y: nat)
    requires x < FRAME && y < FRAME && f * FRAME + x == g * FRAME + y
    ensures f == g && x == y
  {
  }

  lemma {:induction false} OnePlace(a: nat, v: nat, w: nat)
    requires a * FRAME <= v && a * FRAME <= w && (v - a * FRAME) / FRAME == (w - a * FRAME) / FRAME && v % FRAME == w % FRAME
    ensures v == w
  {
  }

  // ---------- the regions ----------

  /** Nothing is mapped in a free segment. */
  lemma {:induction false} HoleIsSmall(rs: seq<Region>, m: Memory, root: nat, a: nat, n: nat)
    requires Agrees(rs, m, root) && VmModel.DisjointFrom(rs, a, n) && a + n <= USER_TOP
    ensures Small(m, root, a, a + n)
  {
    forall v: nat | a <= v < a + n ensures SmallAt(m, root, v) {
      LookupNone(rs, v);
      assert AgreesAt(rs, m, root, v);
    }
  }

  lemma {:induction false} ReachableIn(r: Region, v: nat)
    requires r.Has(v) && r.base % FRAME == 0 && (r.kind.Direct? ==> Frames(r.kind.phys, r.length))
    ensures Reachable(Some(AttrAt(r, v)), v)
  {
  }

  /** A new region whose memory has been mapped, all of it or, if it is backed on demand, none. */
  lemma {:induction false} JoinedAgrees(rs: seq<Region>, rs': seq<Region>, m: Memory, m': Memory, root: nat, r: Region)
    requires Agrees(rs, m, root) && VmModel.DisjointFrom(rs, r.base, r.length) && Vm.Joined(rs, rs', r)
    requires if r.dynamic then m' == m else Shown(m, m', root, r, r.base, r.End())
    requires r.base % FRAME == 0 && (r.kind.Direct? ==> Frames(r.kind.phys, r.length))
    ensures Agrees(rs', m', root)
  {
    forall v: nat | v < USER_TOP ensures AgreesAt(rs', m', root, v) {
      assert AgreesAt(rs, m, root, v);
      if r.Has(v) {
        LookupNone(rs, v);
        ReachableIn(r, v);
      }
      if !r.dynamic { assert ShownAt(m, m', root, r, r.base, r.End(), v); }
    }
  }

  /** A page mapped where its region is. */
  lemma {:induction false} FixedAgrees(rs: seq<Region>, m: Memory, m': Memory, root: nat, i: nat, a: nat)
    requires Agrees(rs, m, root) && Sep(rs) && i < |rs| && rs[i].base <= a && a + FRAME <= rs[i].End() && a + FRAME <= USER_TOP
    requires Shown(m, m', root, rs[i], a, a + FRAME)
    ensures Agrees(rs, m', root)
  {
    forall v: nat | v < USER_TOP ensures AgreesAt(rs, m', root, v) {
      assert AgreesAt(rs, m, root, v) && ShownAt(m, m', root, rs[i], a, a + FRAME, v);
      if a <= v < a + FRAME { LookupIndex(rs, i, v); }
    }
  }

  /** A page of a region that is backed on demand is small if it is there, and can be mapped. */
  lemma {:induction false} DynamicIsSmall(rs: seq<Region>, m: Memory, root: nat, i: nat, a: nat)
    requires Agrees(rs, m, root) && Sep(rs) && i < |rs| && rs[i].dynamic && rs[i].base <= a && a + FRAME <= rs[i].End() && a + FRAME <= USER_TOP && a % FRAME == 0
    ensures Small(m, root, a, a + FRAME)
    ensures rs[i].kind.Direct? ==> Frames(rs[i].kind.phys + (a - rs[i].base), FRAME)
  {
    forall v: nat | a <= v < a + FRAME ensures SmallAt(m, root, v) && Lookup(rs, v) == Some(AttrAt(rs[i], v)) && Reachable(Lookup(rs, v), v) {
      LookupIndex(rs, i, v);
      assert AgreesAt(rs, m, root, v);
    }
    assert Lookup(rs, a) == Some(AttrAt(rs[i], a)) && Lookup(rs, a + FRAME - 1) == Some(AttrAt(rs[i], a + FRAME - 1));
  }

  lemma {:induction false} NotHeld(rs: seq<Region>, lo: nat, hi: nat, v: nat)
    requires VmModel.Wf(rs, lo, hi) && VmUnmap.Holder(rs, v) == -1
    ensures Lookup(rs, v) == None
  {
    forall i: nat | i < |rs| ensures !rs[i].Has(v) { VmUnmap.HolderUnique(rs, v, lo, hi, i); }
    LookupNone(rs, v);
  }

  /** The page of an address in a region. */
  lemma {:induction false} PageInside(rs: seq<Region>, lo: nat, hi: nat, i: nat, v: nat)
    requires VmModel.Wf(rs, lo, hi) && i < |rs| && rs[i].Has(v)
    ensures var a := v - v % FRAME; rs[i].base <= a <= v && a % FRAME == 0 && a + FRAME <= rs[i].End() <= hi
  {
    assert RegionOk(rs[i], lo, hi);
  }

  predicate SameAtPage(m: Memory, m': Memory, root: nat, v: nat) { Walk(m', root, LEVELS, Vpn(v)) == Walk(m, root, LEVELS, Vpn(v)) }

  /** No page of the lower half but that of `a` is mapped differently. */
  ghost predicate OnlyPage(m: Memory, m': Memory, root: nat, a: nat) {
    forall v: nat {:trigger SameAtPage(m, m', root, v)} :: v < USER_TOP && Vpn(v) != Vpn(a) ==> SameAtPage(m, m', root, v)
  }

  lemma {:induction false} ShownOnly(m: Memory, m': Memory, root: nat, r: Region, a: nat, vaddr: nat)
    requires Shown(m, m', root, r, a, a + FRAME) && a == vaddr - vaddr % FRAME && vaddr < USER_TOP
    ensures OnlyPage(m, m', root, vaddr)
  {
    LowerHalf(vaddr);
    forall v: nat | v < USER_TOP && Vpn(v) != Vpn(vaddr) ensures SameAtPage(m, m', root, v) {
      LowerHalf(v);
      assert ShownAt(m, m', root, r, a, a + FRAME, v);
    }
  }

  /** A request touches no user page of the space. */
  ghost predicate Elsewhere(q: Request, root: nat) {
    q.root != root || forall u: nat {:trigger InKernelHalf(u)} :: q.Hits(q.length, root, u) ==> InKernelHalf(u)
  }

  lemma {:induction false} ElsewhereAgrees(rs: seq<Region>, m: Memory, m': Memory, role: map<nat, Role>, root: nat, q: Request)
    requires Agrees(rs, m, root) && Root(role, root) && MappedTo(m, m', role, q, q.length) && Elsewhere(q, root)
    ensures Agrees(rs, m', root) && Untouched(m, m', root, 0, 0)
  {
    forall v: nat | v < USER_TOP ensures AgreesAt(rs, m', root, v) && SameAtPage(m, m', root, v) {
      LowerHalf(v);
      assert AgreesAt(rs, m, root, v) && MappedToAt(m, m', q, q.length, root, Vpn(v));
    }
  }

  lemma {:induction false} WalksAgree(rs: seq<Region>, m: Memory, m': Memory, role: map<nat, Role>, root: nat)
    requires Agrees(rs, m, root) && Root(role, root) && SameWalks(m, m', role)
    ensures Agrees(rs, m', root) && Untouched(m, m', root, 0, 0)
  {
    forall v: nat | v < USER_TOP ensures AgreesAt(rs, m', root, v) && SameAtPage(m, m', root, v) { assert AgreesAt(rs, m, root, v); }
  }

  /** A fresh space shows no regions. */
  lemma {:induction false} FreshAgrees(h: History, root: nat)
    requires h.Valid() && h.events != [] && h.events[|h.events| - 1] == Creation(root)
    ensures Root(h.tables.role, root) && Agrees([], h.tables.mem, root)
  {
    var n: nat := |h.events| - 1;
    assert StepAt(h.ms, h.roles, h.events, h.tables.kernel, n);
    assert Root(h.roles[n + 1], root);
    forall v: nat | v < USER_TOP ensures AgreesAt([], h.tables.mem, root, v) { LowerHalf(v); }
  }

  /** The frames for a region that is mapped at once. */
  predicate Backing(kind: Kind, dynamic: bool, length: nat, frames: seq<nat>) {
    match kind
    case Anon(_) => !dynamic ==> |frames| * FRAME >= length && AllFrames(frames)
    case Direct(phys) => Frames(phys, length)
  }

  lemma {:induction false} PlacedInside(rs: seq<Region>, hint: nat, length: nat, fixed: bool, lo: nat, hi: nat, r: Option<nat>,
                                         prot: Prot, cache: Cache, dynamic: bool, kind: Kind)
    requires Vm.Placed(rs, hint, length, fixed, lo, hi, r) && r.Some? && hi < USER_TOP
    ensures length > 0 && VmModel.DisjointFrom(rs, r.value, length)
    ensures Inside(Region(r.value, length, kind, prot, cache, dynamic), r.value, length)
  {
  }

  class UserSpace {
    const space: Vm.AddressSpace
    const history: History
    const root: nat
    /** The processor has 1G pages. */
    const gigabyte: bool

    ghost predicate Valid()
      reads space.space, space.space.tree, space.space.tree.repr, history, history.tables
    {
      && space.Valid() && history.Valid() && space.end < USER_TOP && Root(history.tables.role, root)
      && Agrees(space.space.regions, history.tables.mem, root)
    }

    /** arch_ptm_address_space_create */
    constructor (history: History, gigabyte: bool)
      requires history.Valid()
      modifies history, history.tables
      ensures Valid() && this.history == history && this.gigabyte == gigabyte && space.space.regions == [] && fresh(space.Footprint())
      ensures space.start == USER_START && space.end == USER_END
      ensures history.events == old(history.events) + [Creation(root)]
    {
      var r := history.CreateSpace();
      FreshAgrees(history, r);
      this.history, this.gigabyte, root := history, gigabyte, r;
      space := new Vm.AddressSpace(USER_START, USER_END);
    }

    /** One arch_ptm_map of region_map. */
    method Ask(r: Region, a: nat, paddr: nat, n: nat)
      requires history.Valid() && Root(history.tables.role, root)
      requires Inside(r, a, n) && n > 0 && Frames(paddr, n) && Small(history.tables.mem, root, a, a + n)
      requires r.kind.Direct? ==> paddr == r.kind.phys + (a - r.base)
      requires r.dynamic ==> n == FRAME
      modifies history, history.tables
      ensures history.Valid() && Root(history.tables.role, root)
      ensures Shown(old(history.tables.mem), history.tables.mem, root, r, a, a + n) && Maps(history.tables.mem, root, a, n, paddr)
    {
      ghost var m, role := history.tables.mem, history.tables.role;
      var q := Asking(root, r, a, paddr, n, gigabyte);
      MayAsk(m, root, r, a, paddr, n, gigabyte);
      history.Map(q);
      AskedShown(m, history.tables.mem, role, root, r, q);
      AskedMaps(m, history.tables.mem, role, root, r, q);
    }

    /** One turn of the loop of region_map over the pages of anonymous memory; m is the memory when it began. */
    method MapFrame(r: Region, address: nat, i: nat, end: nat, frames: seq<nat>, ghost m: Memory)
      requires history.Valid() && Root(history.tables.role, root)
      requires Inside(r, address + i * FRAME, FRAME) && Small(m, root, address, end) && address + i * FRAME + FRAME <= end <= USER_TOP && address % FRAME == 0
      requires r.kind.Anon? && i < |frames| && Frames(frames[i], FRAME) && Shown(m, history.tables.mem, root, r, address, address + i * FRAME)
      requires Backed(history.tables.mem, root, address, i * FRAME, frames)
      modifies history, history.tables
      ensures history.Valid() && Root(history.tables.role, root) && Shown(m, history.tables.mem, root, r, address, address + (i + 1) * FRAME)
      ensures Backed(history.tables.mem, root, address, (i + 1) * FRAME, frames)
    {
      ghost var m1 := history.tables.mem;
      var a := address + i * FRAME;
      StillSmall(m, m1, root, r, address, a, end);
      Ask(r, a, frames[i], FRAME);
      ShownThen(m, m1, history.tables.mem, root, r, address, a, a + FRAME);
      BackedThen(m1, history.tables.mem, root, r, address, i, frames);
    }

    /** The loop. */
    method MapFrames(r: Region, address: nat, length: nat, frames: seq<nat>)
      requires history.Valid() && Root(history.tables.role, root)
      requires Inside(r, address, length) && Small(history.tables.mem, root, address, address + length)
      requires r.kind.Anon? && |frames| * FRAME >= length && AllFrames(frames)
      modifies history, history.tables
      ensures history.Valid() && Root(history.tables.role, root)
      ensures Shown(old(history.tables.mem), history.tables.mem, root, r, address, address + length)
      ensures Backed(history.tables.mem, root, address, length, frames)
    {
      ghost var m := history.tables.mem;
      var i := 0;
      ShownNothing(m, root, r, address);
      while i * FRAME < length
        invariant i * FRAME <= length && history.Valid() && Root(history.tables.role, root)
        invariant Shown(m, history.tables.mem, root, r, address, address + i * FRAME)
        invariant Backed(history.tables.mem, root, address, i * FRAME, frames)
      {
        MapFrame(r, address, i, address + length, frames, m);
        i := i + 1;
      }
    }

    /** region_map */
    method RegionMap(r: Region, address: nat, length: nat, frames: seq<nat>)
      requires history.Valid() && Root(history.tables.role, root)
      requires Inside(r, address, length) && length > 0 && Small(history.tables.mem, root, address, address + length)
      requires r.kind.Direct? ==> Frames(r.kind.phys + (address - r.base), length)
      requires r.kind.Anon? ==> |frames| * FRAME >= length && AllFrames(frames)
      requires r.dynamic ==> length == FRAME
      modifies history, history.tables
      ensures history.Valid() && Root(history.tables.role, root)
      ensures Shown(old(history.tables.mem), history.tables.mem, root, r, address, address + length)
      ensures r.kind.Anon? ==> Backed(history.tables.mem, root, address, length, frames)
    {
      match r.kind
      case Direct(phys) => Ask(r, address, phys + (address - r.base), length);
      case Anon(_) => MapFrames(r, address, length, frames);
    }

    /** The memory of a new region, all of it unless it is backed on demand. */
    method BackNew(r: Region, frames: seq<nat>, ghost rs: seq<Region>, ghost rs': seq<Region>)
      requires history.Valid() && Root(history.tables.role, root) && Agrees(rs, history.tables.mem, root)
      requires Inside(r, r.base, r.length) && r.length > 0 && VmModel.DisjointFrom(rs, r.base, r.length) && Vm.Joined(rs, rs', r)
      requires Backing(r.kind, r.dynamic, r.length, frames)
      modifies history, history.tables
      ensures history.Valid() && Root(history.tables.role, root) && Agrees(rs', history.tables.mem, root)
      ensures r.kind.Anon? && !r.dynamic ==> Backed(history.tables.mem, root, r.base, r.length, frames)
      ensures Untouched(old(history.tables.mem), history.tables.mem, root, r.base, if r.dynamic then r.base else r.End())
    {
      ghost var m := history.tables.mem;
      HoleIsSmall(rs, m, root, r.base, r.length);
      if !r.dynamic {
        RegionMap(r, r.base, r.length, frames);
        ShownUntouched(m, history.tables.mem, root, r, r.base, r.End());
      }
      JoinedAgrees(rs, rs', m, history.tables.mem, root, r);
    }

    /** map_common without its page tables. */
    method MapRegion(hint: nat, length: nat, prot: Prot, cache: Cache, fixed: bool, dynamic: bool, kind: Kind) returns (r: Option<nat>)
      requires Valid() && hint < Vm.WORD && (kind.Direct? ==> kind.phys % PAGE == 0)
      modifies space.Footprint()
      ensures space.Valid() && fresh(space.Footprint() - old(space.Footprint()))
      ensures history.Valid() && Root(history.tables.role, root) && Agrees(old(space.space.regions), history.tables.mem, root)
      ensures history.tables.mem == old(history.tables.mem)
      ensures Vm.Placed(old(space.space.regions), hint, length, fixed, space.start, space.end, r)
      ensures r.None? ==> space.space.regions == old(space.space.regions)
      ensures r.Some? ==> Vm.Joined(old(space.space.regions), space.space.regions, Region(r.value, length, kind, prot, cache, dynamic))
    {
      r := space.Map(hint, length, prot, cache, fixed, dynamic, kind);
    }

    /** map_common with its page tables, which the source writes just before the region goes in. */
    method Map(hint: nat, length: nat, prot: Prot, cache: Cache, fixed: bool, dynamic: bool, kind: Kind, frames: seq<nat>) returns (r: Option<nat>)
      requires Valid() && hint < Vm.WORD && Backing(kind, dynamic, length, frames)
      modifies space.Footprint(), history, history.tables
      ensures Valid() && fresh(space.Footprint() - old(space.Footprint()))
      ensures Vm.Placed(old(space.space.regions), hint, length, fixed, space.start, space.end, r)
      ensures r.None? ==> space.space.regions == old(space.space.regions)
      ensures r.Some? ==> Vm.Joined(old(space.space.regions), space.space.regions, Region(r.value, length, kind, prot, cache, dynamic))
      ensures r.Some? && kind.Anon? && !dynamic ==> Backed(history.tables.mem, root, r.value, length, frames)
      ensures r.None? ==> history.tables.mem == old(history.tables.mem)
      ensures r.Some? ==> Untouched(old(history.tables.mem), history.tables.mem, root, r.value, if dynamic then r.value else r.value + length)
    {
      ghost var rs := space.space.regions;
      r := MapRegion(hint, length, prot, cache, fixed, dynamic, kind);
      if r.Some? {
        PlacedInside(rs, hint, length, fixed, space.start, space.end, r, prot, cache, dynamic, kind);
        BackNew(Region(r.value, length, kind, prot, cache, dynamic), frames, rs, space.space.regions);
      }
    }

    /** region_map of the page of an address in a region that is backed on demand. */
    method FixIn(r: Region, ghost rs: seq<Region>, ghost i: nat, ghost lo: nat, ghost hi: nat, vaddr: nat, frame: nat)
      requires history.Valid() && Root(history.tables.role, root) && Agrees(rs, history.tables.mem, root) && VmModel.Wf(rs, lo, hi) && hi < USER_TOP
      requires i < |rs| && rs[i] == r && r.Has(vaddr) && r.dynamic && Frames(frame, FRAME)
      modifies history, history.tables
      ensures history.Valid() && Root(history.tables.role, root) && Agrees(rs, history.tables.mem, root)
      ensures Walk(history.tables.mem, root, LEVELS, Vpn(vaddr)).Some?
      ensures OnlyPage(old(history.tables.mem), history.tables.mem, root, vaddr)
      ensures r.kind.Anon? ==> Backed(history.tables.mem, root, vaddr - vaddr % FRAME, FRAME, [frame])
    {
      var a := vaddr - vaddr % FRAME;
      ghost var m := history.tables.mem;
      PageInside(rs, lo, hi, i, vaddr);
      DynamicIsSmall(rs, m, root, i, a);
      RegionMap(r, a, FRAME, [frame]);
      assert ShownAt(m, history.tables.mem, root, r, a, a + FRAME, vaddr);
      ShownOnly(m, history.tables.mem, root, r, a, vaddr);
      FixedAgrees(rs, m, history.tables.mem, root, i, a);
    }

    /** address_space_fix_page: the page of an address in a region that is backed on demand. */
    method FixPage(vaddr: nat, frame: nat) returns (ok: bool)
      requires Valid() && vaddr < USER_TOP && Frames(frame, FRAME)
      modifies history, history.tables
      ensures Valid() && ok == (Lookup(space.space.regions, vaddr).Some? && Lookup(space.space.regions, vaddr).value.dynamic)
      ensures ok ==> Walk(history.tables.mem, root, LEVELS, Vpn(vaddr)).Some?
      ensures OnlyPage(old(history.tables.mem), history.tables.mem, root, vaddr)
      ensures !ok ==> history.tables.mem == old(history.tables.mem)
      ensures ok && Lookup(space.space.regions, vaddr).value.kind.Anon? ==> Backed(history.tables.mem, root, vaddr - vaddr % FRAME, FRAME, [frame])
    {
      var node, i := space.RegionAt(vaddr);
      if node == null {
        NotHeld(space.space.regions, space.start, space.end, vaddr);
        return false;
      }
      var region := space.space.of[node];
      VmModel.LookupIndex(space.space.regions, i, vaddr);
      if region.dynamic { FixIn(region, space.space.regions, i, space.start, space.end, vaddr, frame); }
      return region.dynamic;
    }

    /** Any map of another space, or of the kernel half. */
    method MapElsewhere(q: Request)
      requires Valid() && Root(history.tables.role, q.root) && q.Ok() && NothingLarger(history.tables.mem, q) && KernelOnly(q) && Elsewhere(q, root)
      modifies history, history.tables
      ensures Valid() && history.events == old(history.events) + [Mapping(q)]
      ensures Untouched(old(history.tables.mem), history.tables.mem, root, 0, 0)
    {
      ghost var m, role := history.tables.mem, history.tables.role;
      history.Map(q);
      ElsewhereAgrees(space.space.regions, m, history.tables.mem, role, root, q);
    }

    /** Any new space. */
    method CreateElsewhere() returns (other: nat)
      requires Valid()
      modifies history, history.tables
      ensures Valid() && other != root && history.events == old(history.events) + [Creation(other)]
      ensures Untouched(old(history.tables.mem), history.tables.mem, root, 0, 0)
    {
      ghost var m, role := history.tables.mem, history.tables.role;
      other := history.CreateSpace();
      assert Root(role, root);
      WalksAgree(space.space.regions, m, history.tables.mem, role, root);
    }

    /** The rights of a mapped address are those of its region. */
    lemma {:induction false} Rights(v: nat)
      requires Valid() && v < USER_TOP
      ensures var a, e := Lookup(space.space.regions, v), Effective(history.tables.mem, root, LEVELS, Vpn(v));
        && (a.None? ==> e.None?) && (a.Some? && !a.value.dynamic ==> e.Some?) && (e.Some? ==> a.Some? && e.value == PtmModel.Rights(a.value.prot.write, true, a.value.prot.exec))
    {
      assert AgreesAt(space.space.regions, history.tables.mem, root, v);
      EffectiveRights(history.tables.mem, history.tables.role, history.tables.kernel, root, Vpn(v));
    }

    /** A lookup finds every page of the regions that is not backed on demand, nothing else, and the physical address its region gives. */
    method Physical(vaddr: nat) returns (found: bool, paddr: nat)
      requires Valid() && vaddr < USER_TOP
      ensures var a := Lookup(space.space.regions, vaddr);
        && (found ==> a.Some?) && (a.Some? && !a.value.dynamic ==> found)
        && (found && a.value.kind.Direct? ==> paddr == a.value.kind.phys)
      ensures found <==> Walk(history.tables.mem, root, LEVELS, Vpn(vaddr)).Some?
      ensures found ==> Translate(history.tables.mem, root, vaddr) == Some(paddr)
    {
      found, paddr := history.Physical(root, vaddr);
      assert AgreesAt(space.space.regions, history.tables.mem, root, vaddr);
    }
  }
}
