/**
 Copying between a user address space and kernel memory (memory/vm.c): page by page through
 the page tables, with pages that are backed on demand mapped on the way.
 */
module VmCopy {
  import opened Basics
  import opened PtmModel
  import opened Ptm
  import opened PtmTheorems
  import opened VmModel
  import opened VmPtm
  import Vm
  import Division

  // ---------- physical memory ----------

  /** Stores data[k] at ps[k], in order. */
  function Store(ram: map<nat, bv8>, ps: seq<nat>, data: seq<bv8>): map<nat, bv8>
    requires |ps| == |data|
  {
    if ps == [] then ram else Store(ram, ps[..|ps| - 1], data[..|ps| - 1])[ps[|ps| - 1] := data[|ps| - 1]]
  }

  /** The first bytes of data have been stored at ps. */
  ghost predicate Stored(ram: map<nat, bv8>, ram': map<nat, bv8>, ps: seq<nat>, data: seq<bv8>) {
    |ps| <= |data| && ram' == Store(ram, ps, data[..|ps|])
  }

  function Load(ram: map<nat, bv8>, ps: seq<nat>): (data: seq<bv8>)
    requires forall p: nat :: p in ps ==> p in ram
    ensures |data| == |ps| && forall k: nat :: k < |ps| ==> data[k] == ram[ps[k]]
  {
    seq(|ps|, k requires 0 <= k < |ps| => ram[ps[k]])
  }

  function Stretch(p: nat, n: nat): (ps: seq<nat>)
    ensures |ps| == n && forall k: nat :: k < n ==> ps[k] == p + k
  {
    seq(n, k => p + k)
  }

  lemma {:induction false} StoreThen(ram: map<nat, bv8>, ps: seq<nat>, data: seq<bv8>, ps': seq<nat>, data': seq<bv8>)
    requires |ps| == |data| && |ps'| == |data'|
    ensures Store(ram, ps + ps', data + data') == Store(Store(ram, ps, data), ps', data')
    decreases |ps'|
  {
    if ps' == [] {
      assert ps + ps' == ps && data + data' == data;
    } else {
      var n := |ps'| - 1;
      StoreThen(ram, ps, data, ps'[..n], data'[..n]);
      assert (ps + ps')[..|ps| + n] == ps + ps'[..n] && (data + data')[..|ps| + n] == data + data'[..n];
    }
  }

  /** What is stored at distinct addresses is loaded again; every other byte is as before. */
  lemma {:induction false} LoadStored(ram: map<nat, bv8>, ps: seq<nat>, data: seq<bv8>, p: nat)
    requires |ps| == |data| && NoDup(ps)
    ensures forall k: nat :: k < |ps| ==> ps[k] in Store(ram, ps, data) && Store(ram, ps, data)[ps[k]] == data[k]
    ensures p !in ps ==> (p in Store(ram, ps, data) <==> p in ram) && (p in ram ==> Store(ram, ps, data)[p] == ram[p])
    decreases |ps|
  {
    if ps != [] { LoadStored(ram, ps[..|ps| - 1], data[..|ps| - 1], p); }
  }

  lemma {:induction false} StoreDomain(ram: map<nat, bv8>, ps: seq<nat>, data: seq<bv8>)
    requires |ps| == |data|
    ensures forall p: nat :: p in ram ==> p in Store(ram, ps, data)
    decreases |ps|
  {
    if ps != [] { StoreDomain(ram, ps[..|ps| - 1], data[..|ps| - 1]); }
  }

  class Ram {
    var bytes: map<nat, bv8>

    ghost predicate Valid()
      reads this
    {
      forall p: nat :: p < TOP ==> p in bytes
    }

    constructor (bytes: map<nat, bv8>)
      requires forall p: nat :: p < TOP ==> p in bytes
      ensures Valid() && this.bytes == bytes
    {
      this.bytes := bytes;
    }

    /** mem_copy to physical memory. */
    method Write(phys: nat, data: seq<bv8>)
      requires Valid()
      modifies this
      ensures Valid() && bytes == Store(old(bytes), Stretch(phys, |data|), data)
    {
      var i := 0;
      while i < |data|
        invariant 0 <= i <= |data| && Valid()
        invariant bytes == Store(old(bytes), Stretch(phys, i), data[..i])
      {
        bytes := bytes[phys + i := data[i]];
        i := i + 1;
        assert Stretch(phys, i)[..i - 1] == Stretch(phys, i - 1) && data[..i][..i - 1] == data[..i - 1];
      }
      assert data[..i] == data;
    }

    /** mem_copy from physical memory. */
    method Read(phys: nat, n: nat) returns (data: seq<bv8>)
      requires Valid() && phys + n <= TOP
      ensures data == Load(bytes, Stretch(phys, n))
    {
      data := [];
      while |data| < n
        invariant |data| <= n && forall k: nat :: k < |data| ==> data[k] == bytes[phys + k]
      {
        data := data + [bytes[phys + |data|]];
      }
    }
  }

  // ---------- inside a page ----------

  /** Inside a page physical addresses go on as virtual ones do. */
  lemma {:induction false} PageGoesOn(m: Memory, root: nat, v: nat, k: nat)
    requires v % FRAME + k < FRAME && v + k < USER_TOP && Translate(m, root, v).Some?
    ensures Translate(m, root, v + k) == Some(Translate(m, root, v).value + k)
  {
    LowerHalf(v);
    LowerHalf(v + k);
    var level := Walk(m, root, LEVELS, Vpn(v)).value.1;
    WalkLevel(m, root, LEVELS, Vpn(v));
    assert Vpn(v + k) == Vpn(v);
    OffsetGoesOn(v, k, level);
  }

  lemma {:induction false} OffsetGoesOn(v: nat, k: nat, level: nat)
    requires 1 <= level <= LEVELS && v % FRAME + k < FRAME
    ensures Offset(v + k, level) == Offset(v, level) + k
  {
    RemGoesOn(Span(level), if level == 1 then 1 else if level == 2 then 512 else 0x4_0000, v, k);
  }

  lemma {:induction false} RemGoesOn(n: nat, c: nat, v: nat, k: nat)
    requires c > 0 && n == FRAME * c && v % FRAME + k < FRAME
    ensures Division.Rem(v + k, n) == Division.Rem(v, n) + k
  {
    var s := v - Division.Rem(v, n);
    Division.Floored(n, v);
    Division.Coarser(FRAME, c, s);
    PageBelow(v, s, k, n);
    Division.FloorOf(n, s, v + k);
  }

  lemma {:induction false} PageBelow(v: nat, s: nat, k: nat, n: nat)
    requires Division.Rem(s, FRAME) == 0 && n % FRAME == 0 && s <= v < s + n && v % FRAME + k < FRAME
    ensures v + k < s + n
  {
    Division.RemIsMod(s, FRAME);
  }

  // ---------- a range of virtual addresses ----------

  ghost predicate BehindAt(m: Memory, root: nat, v: nat, ps: seq<nat>, k: nat) {
    k < |ps| && Translate(m, root, v + k) == Some(ps[k])
  }

  /** ps are the physical addresses behind v, v + 1, ... */
  ghost predicate Behind(m: Memory, root: nat, v: nat, ps: seq<nat>) {
    forall k: nat {:trigger BehindAt(m, root, v, ps, k)} :: k < |ps| ==> BehindAt(m, root, v, ps, k)
  }

  /** The walk of v is as it was, or v was absent in memory that is backed on demand and now lies in its page's frame. */
  ghost predicate StaysAt(rs: seq<Region>, m: Memory, m': Memory, root: nat, frames: nat -> nat, v: nat) {
    var w, w', a := Walk(m, root, LEVELS, Vpn(v)), Walk(m', root, LEVELS, Vpn(v)), Lookup(rs, v);
    w' == w || (w.None? && a.Some? && a.value.dynamic && (a.value.kind.Anon? ==> Translate(m', root, v) == Some(frames(Vpn(v)) + v % FRAME)))
  }

  /** Of the lower half only absent pages that are backed on demand have been mapped. */
  ghost predicate Stays(rs: seq<Region>, m: Memory, m': Memory, root: nat, frames: nat -> nat) {
    forall v: nat {:trigger StaysAt(rs, m, m', root, frames, v)} :: v < USER_TOP ==> StaysAt(rs, m, m', root, frames, v)
  }

  lemma {:induction false} StaysThen(rs: seq<Region>, m: Memory, m1: Memory, m2: Memory, root: nat, frames: nat -> nat)
    requires Stays(rs, m, m1, root, frames) && Stays(rs, m1, m2, root, frames)
    ensures Stays(rs, m, m2, root, frames)
  {
    forall v: nat | v < USER_TOP ensures StaysAt(rs, m, m2, root, frames, v) {
      assert StaysAt(rs, m, m1, root, frames, v) && StaysAt(rs, m1, m2, root, frames, v);
      StaysThenAt(rs, m, m1, m2, root, frames, v);
    }
  }

  lemma {:induction false} StaysThenAt(rs: seq<Region>, m: Memory, m1: Memory, m2: Memory, root: nat, frames: nat -> nat, v: nat)
    requires StaysAt(rs, m, m1, root, frames, v) && StaysAt(rs, m1, m2, root, frames, v)
    ensures StaysAt(rs, m, m2, root, frames, v)
  {
    if Walk(m2, root, LEVELS, Vpn(v)) == Walk(m1, root, LEVELS, Vpn(v)) { TranslateSame(m1, m2, root, v); }
  }

  lemma {:induction false} StaysSame(rs: seq<Region>, m: Memory, root: nat, frames: nat -> nat)
    ensures Stays(rs, m, m, root, frames)
  {
  }

  lemma {:induction false} FixStays(rs: seq<Region>, m: Memory, m': Memory, root: nat, a: nat, frames: nat -> nat)
    requires OnlyPage(m, m', root, a) && Walk(m, root, LEVELS, Vpn(a)).None? && a < USER_TOP
    requires Lookup(rs, a).Some? && (Lookup(rs, a).value.kind.Anon? ==> Backed(m', root, a - a % FRAME, FRAME, [frames(Vpn(a))]))
    requires forall v: nat :: a - a % FRAME <= v < a - a % FRAME + FRAME ==> Lookup(rs, v).Some? && Lookup(rs, v).value.dynamic && Lookup(rs, v).value.kind.Anon? == Lookup(rs, a).value.kind.Anon?
    ensures Stays(rs, m, m', root, frames)
  {
    var page := a - a % FRAME;
    forall v: nat | v < USER_TOP ensures StaysAt(rs, m, m', root, frames, v) {
      SamePage(a, v);
      if Vpn(v) != Vpn(a) {
        assert SameAtPage(m, m', root, v);
      } else if Lookup(rs, a).value.kind.Anon? {
        assert LiesAt(m', root, page, [frames(Vpn(a))], v);
      }
    }
  }

  lemma {:induction false} SamePage(a: nat, v: nat)
    requires a < USER_TOP && v < USER_TOP
    ensures Vpn(v) == Vpn(a) <==> a - a % FRAME <= v < a - a % FRAME + FRAME
  {
    LowerHalf(a);
    LowerHalf(v);
  }

  /** All of a page lies in one region. */
  lemma {:induction false} PageAlike(rs: seq<Region>, lo: nat, hi: nat, a: nat)
    requires VmModel.Wf(rs, lo, hi) && Lookup(rs, a).Some?
    ensures forall v: nat :: a - a % FRAME <= v < a - a % FRAME + FRAME ==>
      Lookup(rs, v).Some? && Lookup(rs, v).value.dynamic == Lookup(rs, a).value.dynamic && Lookup(rs, v).value.kind.Anon? == Lookup(rs, a).value.kind.Anon?
  {
    var i := LookupFound(rs, a);
    PageInside(rs, lo, hi, i, a);
    forall v: nat | a - a % FRAME <= v < a - a % FRAME + FRAME ensures Lookup(rs, v) == Some(AttrAt(rs[i], v)) { LookupIndex(rs, i, v); }
  }

  lemma {:induction false} TranslationStays(rs: seq<Region>, m: Memory, m': Memory, root: nat, frames: nat -> nat, v: nat)
    requires StaysAt(rs, m, m', root, frames, v) && Translate(m, root, v).Some?
    ensures Translate(m', root, v) == Translate(m, root, v)
  {
  }

  lemma {:induction false} BehindStays(rs: seq<Region>, m: Memory, m': Memory, root: nat, frames: nat -> nat, v: nat, ps: seq<nat>)
    requires Behind(m, root, v, ps) && Stays(rs, m, m', root, frames) && v + |ps| <= USER_TOP
    ensures Behind(m', root, v, ps)
  {
    forall k: nat | k < |ps| ensures BehindAt(m', root, v, ps, k) {
      assert BehindAt(m, root, v, ps, k);
      assert StaysAt(rs, m, m', root, frames, v + k);
      TranslationStays(rs, m, m', root, frames, v + k);
    }
  }

  /** The rest of a page. */
  lemma {:induction false} BehindPage(m: Memory, root: nat, v: nat, p: nat, n: nat)
    requires Translate(m, root, v) == Some(p) && v % FRAME + n <= FRAME && v + n <= USER_TOP
    ensures Behind(m, root, v, Stretch(p, n))
  {
    forall k: nat | k < n ensures BehindAt(m, root, v, Stretch(p, n), k) { PageGoesOn(m, root, v, k); }
  }

  lemma {:induction false} BehindThen(m: Memory, root: nat, v: nat, ps: seq<nat>, ps': seq<nat>, x: nat)
    requires Behind(m, root, v, ps) && Behind(m, root, x, ps') && x == v + |ps|
    ensures Behind(m, root, v, ps + ps')
  {
    forall k: nat | k < |ps + ps'| ensures BehindAt(m, root, v, ps + ps', k) {
      if k < |ps| {
        assert BehindAt(m, root, v, ps, k);
      } else {
        assert BehindAt(m, root, x, ps', k - |ps|);
        assert v + k == x + (k - |ps|);
      }
    }
  }

  /** Every byte of [v, v + n) is mapped. */
  ghost predicate AllMapped(rs: seq<Region>, v: nat, n: nat) {
    forall x: nat :: v <= x < v + n ==> Lookup(rs, x).Some?
  }

  /** Regions are whole pages. */
  lemma {:induction false} PageMapped(rs: seq<Region>, lo: nat, hi: nat, v: nat, n: nat)
    requires VmModel.Wf(rs, lo, hi) && Lookup(rs, v).Some? && v % FRAME + n <= FRAME
    ensures AllMapped(rs, v, n) && v - v % FRAME + FRAME <= hi
  {
    var i := LookupFound(rs, v);
    PageInside(rs, lo, hi, i, v);
    forall x: nat | v <= x < v + n ensures Lookup(rs, x).Some? { LookupIndex(rs, i, x); }
  }

  lemma {:induction false} MappedEnds(rs: seq<Region>, lo: nat, hi: nat, v: nat, n: nat)
    requires VmModel.Wf(rs, lo, hi) && AllMapped(rs, v, n) && v < hi
    ensures v + n <= hi
  {
    if n > 0 {
      var i := LookupFound(rs, v + n - 1);
      assert RegionOk(rs[i], lo, hi);
    }
  }

  // ---------- the copies ----------

  /** The frame that each page would be backed with. */
  ghost predicate Giving(frames: nat -> nat) { forall u: nat :: Frames(frames(u), FRAME) }

  /** A copy has come as far as ps, the physical addresses from v on. */
  ghost predicate Come(us: UserSpace, v: nat, ps: seq<nat>)
    reads us.space.space, us.space.space.tree, us.space.space.tree.repr, us.history, us.history.tables
  {
    us.Valid() && Behind(us.history.tables.mem, us.root, v, ps) && AllMapped(us.space.space.regions, v, |ps|)
  }

  /** The lookup in a copy, with the page mapped if need be: it ends only at unmapped memory, and the source's assertion holds. */
  method Resolve(us: UserSpace, vaddr: nat, frames: nat -> nat) returns (found: bool, phys: nat)
    requires us.Valid() && vaddr < USER_TOP && Giving(frames)
    modifies us.history, us.history.tables
    ensures us.Valid() && Stays(us.space.space.regions, old(us.history.tables.mem), us.history.tables.mem, us.root, frames)
    ensures found <==> Lookup(us.space.space.regions, vaddr).Some?
    ensures found ==> Translate(us.history.tables.mem, us.root, vaddr) == Some(phys)
  {
    ghost var m := us.history.tables.mem;
    found, phys := us.Physical(vaddr);
    StaysSame(us.space.space.regions, m, us.root, frames);
    if !found {
      var ok := us.FixPage(vaddr, frames(Vpn(vaddr)));
      if !ok { return false, 0; }
      PageAlike(us.space.space.regions, us.space.start, us.space.end, vaddr);
      FixStays(us.space.space.regions, m, us.history.tables.mem, us.root, vaddr, frames);
      found, phys := us.Physical(vaddr);
      assert found;
    }
  }

  /** The same in the middle of a copy. */
  method ResolveNext(us: UserSpace, v: nat, vaddr: nat, frames: nat -> nat, ghost ps: seq<nat>) returns (found: bool, phys: nat)
    requires Come(us, v, ps) && v < us.space.end && vaddr == v + |ps| && Giving(frames)
    modifies us.history, us.history.tables
    ensures Come(us, v, ps) && Stays(us.space.space.regions, old(us.history.tables.mem), us.history.tables.mem, us.root, frames)
    ensures found <==> Lookup(us.space.space.regions, vaddr).Some?
    ensures found ==> Translate(us.history.tables.mem, us.root, vaddr) == Some(phys)
  {
    ghost var m := us.history.tables.mem;
    MappedEnds(us.space.space.regions, us.space.start, us.space.end, v, |ps|);
    found, phys := Resolve(us, vaddr, frames);
    BehindStays(us.space.space.regions, m, us.history.tables.mem, us.root, frames, v, ps);
  }

  /** One turn of either loop: where the bytes up to the end of the page are. */
  method Turn(us: UserSpace, v: nat, count: nat, frames: nat -> nat, ghost ps: seq<nat>, i: nat) returns (found: bool, phys: nat, len: nat)
    requires Come(us, v, ps) && v < us.space.end && i == |ps| < count && Giving(frames)
    modifies us.history, us.history.tables
    ensures Stays(us.space.space.regions, old(us.history.tables.mem), us.history.tables.mem, us.root, frames)
    ensures !found ==> Come(us, v, ps) && Lookup(us.space.space.regions, v + i).None?
    ensures found ==> 0 < len <= count - i && phys + len <= TOP && Come(us, v, ps + Stretch(phys, len))
  {
    var x := v + i;
    found, phys := ResolveNext(us, v, x, frames, ps);
    len := ToPageEnd(x, count - i);
    if found { PageCome(us, v, ps, x, phys, len); }
  }

  function ToPageEnd(v: nat, rest: nat): (n: nat)
    ensures v % FRAME + n <= FRAME && n <= rest && (rest > 0 ==> n > 0)
  {
    if rest < FRAME - v % FRAME then rest else FRAME - v % FRAME
  }

  lemma {:induction false} PageCome(us: UserSpace, v: nat, ps: seq<nat>, x: nat, p: nat, n: nat)
    requires Come(us, v, ps) && x == v + |ps| && n > 0 && x % FRAME + n <= FRAME
    requires Lookup(us.space.space.regions, x).Some? && Translate(us.history.tables.mem, us.root, x) == Some(p)
    ensures p + n <= TOP && Come(us, v, ps + Stretch(p, n))
  {
    var rs := us.space.space.regions;
    PageMapped(rs, us.space.start, us.space.end, x, n);
    BehindPage(us.history.tables.mem, us.root, x, p, n);
    BehindThen(us.history.tables.mem, us.root, v, ps, Stretch(p, n), x);
    BehindReached(us.history, us.root, x, Stretch(p, n), n - 1);
  }

  lemma {:induction false} BehindReached(h: History, root: nat, v: nat, ps: seq<nat>, k: nat)
    requires h.Valid() && Root(h.tables.role, root) && Behind(h.tables.mem, root, v, ps) && k < |ps|
    ensures ps[k] < TOP
  {
    assert BehindAt(h.tables.mem, root, v, ps, k);
    h.Reach(root, v + k);
  }

  /** How far a copy of `count` bytes gets: nowhere if the memory does not exist, else to the end or to the first unmapped byte. */
  ghost predicate Gets(us: UserSpace, v: nat, count: nat, n: nat)
    reads us.space.space
  {
    var rs := us.space.space.regions;
    if !Vm.Existing(rs, us.space.start, us.space.end, v, (v + count) % Vm.WORD) then n == 0
    else n <= count && AllMapped(rs, v, n) && (n < count ==> Lookup(rs, v + n).None?)
  }

  /** The mem_copy of one turn to the space. */
  method WriteChunk(us: UserSpace, v: nat, ram: Ram, phys: nat, src: seq<bv8>, n: nat, len: nat, ghost before: map<nat, bv8>, ghost ps: seq<nat>)
    requires Come(us, v, ps + Stretch(phys, len)) && ram.Valid() && n + len <= |src| && |ps| == n && Stored(before, ram.bytes, ps, src)
    modifies ram
    ensures Come(us, v, ps + Stretch(phys, len)) && ram.Valid() && Stored(before, ram.bytes, ps + Stretch(phys, len), src)
  {
    ram.Write(phys, src[n..n + len]);
    StoreThen(before, ps, src[..n], Stretch(phys, len), src[n..n + len]);
    assert src[..n] + src[n..n + len] == src[..n + len];
  }

  /** One turn of vm_copy_to. */
  method CopyPage(us: UserSpace, ram: Ram, dest: nat, src: seq<bv8>, frames: nat -> nat, n: nat, ghost before: map<nat, bv8>, ghost m: Memory, ghost ps0: seq<nat>) returns (found: bool, len: nat, ghost ps: seq<nat>)
    requires Come(us, dest, ps0) && dest < us.space.end && n == |ps0| < |src| && Giving(frames)
    requires Stays(us.space.space.regions, m, us.history.tables.mem, us.root, frames)
    requires ram.Valid() && Stored(before, ram.bytes, ps0, src)
    modifies us.history, us.history.tables, ram
    ensures Come(us, dest, ps) && |ps| == n + len <= |src| && (if found then len > 0 else len == 0 && Lookup(us.space.space.regions, dest + n).None?)
    ensures ram.Valid() && Stored(before, ram.bytes, ps, src) && Stays(us.space.space.regions, m, us.history.tables.mem, us.root, frames)
  {
    ghost var m1 := us.history.tables.mem;
    var phys;
    found, phys, len := Turn(us, dest, |src|, frames, ps0, n);
    StaysThen(us.space.space.regions, m, m1, us.history.tables.mem, us.root, frames);
    if !found { return false, 0, ps0; }
    WriteChunk(us, dest, ram, phys, src, n, len, before, ps0);
    ps := ps0 + Stretch(phys, len);
  }

  /** vm_copy_to; ps are the physical addresses it stores to. */
  method CopyTo(us: UserSpace, ram: Ram, dest: nat, src: seq<bv8>, frames: nat -> nat) returns (n: nat, ghost ps: seq<nat>)
    requires us.Valid() && ram.Valid() && dest < Vm.WORD && |src| < Vm.WORD && Giving(frames)
    modifies us.history, us.history.tables, ram
    ensures Come(us, dest, ps) && Gets(us, dest, |src|, n) && |ps| == n <= |src|
    ensures ram.Valid() && Stored(old(ram.bytes), ram.bytes, ps, src)
    ensures Stays(us.space.space.regions, old(us.history.tables.mem), us.history.tables.mem, us.root, frames)
  {
    StaysSame(us.space.space.regions, us.history.tables.mem, us.root, frames);
    var mapped := us.space.MemoryExists(dest, |src|);
    if !mapped { return 0, []; }
    n, ps := CopyMapped(us, ram, dest, src, frames);
  }

  /** Its loop. */
  method CopyMapped(us: UserSpace, ram: Ram, dest: nat, src: seq<bv8>, frames: nat -> nat) returns (n: nat, ghost ps: seq<nat>)
    requires us.Valid() && ram.Valid() && dest < us.space.end && Giving(frames)
    modifies us.history, us.history.tables, ram
    ensures Come(us, dest, ps) && |ps| == n <= |src| && (n < |src| ==> Lookup(us.space.space.regions, dest + n).None?)
    ensures ram.Valid() && Stored(old(ram.bytes), ram.bytes, ps, src)
    ensures Stays(us.space.space.regions, old(us.history.tables.mem), us.history.tables.mem, us.root, frames)
  {
    n, ps := 0, [];
    ghost var m := us.history.tables.mem;
    StaysSame(us.space.space.regions, m, us.root, frames);
    while n < |src|
      invariant |ps| == n <= |src| && Come(us, dest, ps)
      invariant ram.Valid() && Stored(old(ram.bytes), ram.bytes, ps, src)
      invariant Stays(us.space.space.regions, m, us.history.tables.mem, us.root, frames)
    {
      var found, len;
      found, len, ps := CopyPage(us, ram, dest, src, frames, n, old(ram.bytes), m, ps);
      n := n + len;
      if !found { return; }
    }
  }

  /** The mem_copy of one turn. */
  method ReadChunk(ram: Ram, phys: nat, len: nat, before: seq<bv8>, ghost ps: seq<nat>) returns (dest: seq<bv8>)
    requires ram.Valid() && phys + len <= TOP && Loaded(ram.bytes, ps, before)
    ensures Loaded(ram.bytes, ps + Stretch(phys, len), dest)
  {
    var data := ram.Read(phys, len);
    dest := before + data;
  }

  ghost predicate Loaded(ram: map<nat, bv8>, ps: seq<nat>, data: seq<bv8>) {
    (forall p: nat :: p in ps ==> p in ram) && data == Load(ram, ps)
  }

  /** One turn of vm_copy_from; m is the memory of the tables when it was called. */
  method ReadPage(us: UserSpace, ram: Ram, src: nat, count: nat, frames: nat -> nat, before: seq<bv8>, ghost m: Memory, ghost ps0: seq<nat>) returns (found: bool, dest: seq<bv8>, ghost ps: seq<nat>)
    requires Come(us, src, ps0) && src < us.space.end && |before| == |ps0| < count && Giving(frames) && Stays(us.space.space.regions, m, us.history.tables.mem, us.root, frames)
    requires ram.Valid() && Loaded(ram.bytes, ps0, before)
    modifies us.history, us.history.tables
    ensures Come(us, src, ps) && |before| <= |ps| == |dest| <= count && Stays(us.space.space.regions, m, us.history.tables.mem, us.root, frames)
    ensures if found then |dest| > |before| else |dest| == |before| && Lookup(us.space.space.regions, src + |before|).None?
    ensures Loaded(ram.bytes, ps, dest)
  {
    ghost var m1 := us.history.tables.mem;
    var phys, len;
    found, phys, len := Turn(us, src, count, frames, ps0, |before|);
    StaysThen(us.space.space.regions, m, m1, us.history.tables.mem, us.root, frames);
    if !found { return false, before, ps0; }
    dest := ReadChunk(ram, phys, len, before, ps0);
    ps := ps0 + Stretch(phys, len);
  }

  /** vm_copy_from; ps are the physical addresses it loads from. */
  method CopyFrom(us: UserSpace, ram: Ram, src: nat, count: nat, frames: nat -> nat) returns (dest: seq<bv8>, ghost ps: seq<nat>)
    requires us.Valid() && ram.Valid() && src < Vm.WORD && count < Vm.WORD && Giving(frames)
    modifies us.history, us.history.tables
    ensures Come(us, src, ps) && Gets(us, src, count, |dest|) && |ps| == |dest|
    ensures Stays(us.space.space.regions, old(us.history.tables.mem), us.history.tables.mem, us.root, frames)
    ensures Loaded(ram.bytes, ps, dest)
  {
    dest, ps := [], [];
    ghost var m := us.history.tables.mem;
    StaysSame(us.space.space.regions, m, us.root, frames);
    var mapped := us.space.MemoryExists(src, count);
    if !mapped { return; }
    while |dest| < count
      invariant |ps| == |dest| <= count && Come(us, src, ps) && Loaded(ram.bytes, ps, dest)
      invariant ram.Valid() && Stays(us.space.space.regions, m, us.history.tables.mem, us.root, frames)
    {
      var found;
      found, dest, ps := ReadPage(us, ram, src, count, frames, dest, m, ps);
      if !found { return; }
    }
  }

  // ---------- what a copy does ----------

  /** Unless its length wraps around, a copy is of everything or, when some byte is not mapped, of nothing. */
  lemma {:induction false} AllOrNothing(us: UserSpace, v: nat, count: nat, n: nat)
    requires us.Valid() && v < Vm.WORD && count < Vm.WORD && Gets(us, v, count, n)
    requires !Vm.WrapsBack(us.space.start, us.space.end, v, count) && us.space.end % PAGE != 0
    ensures n == if Vm.SegmentMapped(us.space.space.regions, us.space.start, us.space.end, v, count) then count else 0
  {
    var rs := us.space.space.regions;
    Vm.ExistsExactly(rs, us.space.start, us.space.end, v, count);
    if count > 0 && v + count == us.space.end { Vm.EndNeverMapped(rs, us.space.start, us.space.end, v, count); }
  }

  /** What lies behind an address does not depend on when it is asked. */
  lemma {:induction false} SameBehind(m: Memory, root: nat, v: nat, ps: seq<nat>, ps': seq<nat>)
    requires Behind(m, root, v, ps) && Behind(m, root, v, ps') && |ps| == |ps'|
    ensures ps == ps'
  {
    forall k: nat | k < |ps| ensures ps[k] == ps'[k] { assert BehindAt(m, root, v, ps, k) && BehindAt(m, root, v, ps', k); }
  }

  /** Bytes copied to a mapped segment are copied back, unless two of its addresses share memory. */
  method ThereAndBack(us: UserSpace, ram: Ram, v: nat, data: seq<bv8>, frames: nat -> nat) returns (back: seq<bv8>, ghost ps: seq<nat>)
    requires us.Valid() && ram.Valid() && v < Vm.WORD && |data| < Vm.WORD && Giving(frames)
    requires !Vm.WrapsBack(us.space.start, us.space.end, v, |data|) && us.space.end % PAGE != 0
    requires Vm.SegmentMapped(us.space.space.regions, us.space.start, us.space.end, v, |data|)
    modifies us.history, us.history.tables, ram
    ensures Come(us, v, ps) && |ps| == |data| && Loaded(ram.bytes, ps, back)
    ensures Stays(us.space.space.regions, old(us.history.tables.mem), us.history.tables.mem, us.root, frames)
    ensures NoDup(ps) ==> back == data
  {
    ghost var m0 := us.history.tables.mem;
    var n;
    n, ps := CopyTo(us, ram, v, data, frames);
    AllOrNothing(us, v, |data|, n);
    ghost var m := us.history.tables.mem;
    ghost var ps';
    back, ps' := CopyFrom(us, ram, v, |data|, frames);
    AllOrNothing(us, v, |data|, |back|);
    BehindStays(us.space.space.regions, m, us.history.tables.mem, us.root, frames, v, ps);
    StaysThen(us.space.space.regions, m0, m, us.history.tables.mem, us.root, frames);
    SameBehind(us.history.tables.mem, us.root, v, ps, ps');
    assert data[..|ps|] == data;
    if NoDup(ps) { LoadStored(old(ram.bytes), ps, data, 0); }
  }

  /** Pages keep their frames during copies. */
  lemma {:induction false} BackedThrough(rs: seq<Region>, m: Memory, m': Memory, root: nat, frames: nat -> nat, a: nat, n: nat, backing: seq<nat>)
    requires Backed(m, root, a, n, backing) && Stays(rs, m, m', root, frames) && a + n <= USER_TOP
    ensures Backed(m', root, a, n, backing)
  {
    forall v: nat | a <= v < a + n ensures LiesAt(m', root, a, backing, v) {
      assert LiesAt(m, root, a, backing, v) && StaysAt(rs, m, m', root, frames, v);
      TranslationStays(rs, m, m', root, frames, v);
      LiesStays(m, m', root, a, backing, v);
    }
  }

  /** Memory in distinct frames has distinct addresses behind it. */
  lemma {:induction false} BackedNoDup(m: Memory, root: nat, a: nat, n: nat, backing: seq<nat>, v: nat, ps: seq<nat>)
    requires Backed(m, root, a, n, backing) && NoDup(backing) && a % FRAME == 0 && AllFrames(backing)
    requires Behind(m, root, v, ps) && a <= v && v + |ps| <= a + n
    ensures NoDup(ps)
  {
    forall i: nat, j: nat | i < j < |ps| ensures ps[i] != ps[j] {
      BehindApart(m, root, a, n, backing, v, ps, i, j, v + i, v + j);
    }
  }

  lemma {:induction false} BehindApart(m: Memory, root: nat, a: nat, n: nat, backing: seq<nat>, v: nat, ps: seq<nat>, i: nat, j: nat, x: nat, y: nat)
    requires Backed(m, root, a, n, backing) && NoDup(backing) && a % FRAME == 0 && AllFrames(backing)
    requires Behind(m, root, v, ps) && i < j < |ps| && x == v + i && y == v + j && a <= x && y < a + n
    ensures ps[i] != ps[j]
  {
    BackedApart(m, root, a, n, backing, x, y);
    PhysicalOf(m, root, v, ps, i, x);
    PhysicalOf(m, root, v, ps, j, y);
  }

  lemma {:induction false} PhysicalOf(m: Memory, root: nat, v: nat, ps: seq<nat>, k: nat, x: nat)
    requires Behind(m, root, v, ps) && k < |ps| && x == v + k
    ensures Translate(m, root, x) == Some(ps[k])
  {
    assert BehindAt(m, root, v, ps, k);
  }

  /** Anonymous memory in distinct frames keeps what is copied into it. */
  method FramesThereAndBack(us: UserSpace, ram: Ram, v: nat, data: seq<bv8>, frames: nat -> nat, ghost a: nat, ghost n: nat, ghost backing: seq<nat>) returns (back: seq<bv8>)
    requires us.Valid() && ram.Valid() && v < Vm.WORD && |data| < Vm.WORD && Giving(frames)
    requires !Vm.WrapsBack(us.space.start, us.space.end, v, |data|) && us.space.end % PAGE != 0
    requires Vm.SegmentMapped(us.space.space.regions, us.space.start, us.space.end, v, |data|)
    requires Backed(us.history.tables.mem, us.root, a, n, backing) && NoDup(backing) && a % FRAME == 0 && a + n <= USER_TOP
    requires AllFrames(backing)
    requires a <= v && v + |data| <= a + n
    modifies us.history, us.history.tables, ram
    ensures us.Valid() && back == data
  {
    ghost var m, ps := us.history.tables.mem, [];
    back, ps := ThereAndBack(us, ram, v, data, frames);
    BackedThrough(us.space.space.regions, m, us.history.tables.mem, us.root, frames, a, n, backing);
    BackedNoDup(us.history.tables.mem, us.root, a, n, backing, v, ps);
  }

  /** A part of a new region is a mapped segment. */
  lemma {:induction false} NewSegment(rs: seq<Region>, rs': seq<Region>, hint: nat, length: nat, fixed: bool, lo: nat, hi: nat, r: Option<nat>,
                                       prot: Prot, cache: Cache, kind: Kind, v: nat, n: nat)
    requires Vm.Placed(rs, hint, length, fixed, lo, hi, r) && r.Some? && hi < USER_TOP
    requires Vm.Joined(rs, rs', Region(r.value, length, kind, prot, cache, false)) && r.value <= v && v + n <= r.value + length && v < r.value + length
    ensures Vm.SegmentMapped(rs', lo, hi, v, n) && !Vm.WrapsBack(lo, hi, v, n) && r.value % FRAME == 0 && r.value + length <= hi
  {
    PlacedInside(rs, hint, length, fixed, lo, hi, r, prot, cache, false, kind);
    forall x: nat | v <= x < v + n ensures Lookup(rs', x).Some? { assert Region(r.value, length, kind, prot, cache, false).Has(x); }
  }

  /** So does a new region, wherever in it the bytes are copied to. */
  method MapAndKeep(us: UserSpace, ram: Ram, hint: nat, length: nat, prot: Prot, cache: Cache, fixed: bool, zeroed: bool, backing: seq<nat>,
                    offset: nat, data: seq<bv8>, frames: nat -> nat) returns (mapped: Option<nat>, back: seq<bv8>)
    requires us.Valid() && ram.Valid() && us.space.end % PAGE != 0 && hint < Vm.WORD && Giving(frames)
    requires Backing(Anon(zeroed), false, length, backing) && NoDup(backing) && offset + |data| <= length && offset < length
    modifies us.space.Footprint(), us.history, us.history.tables, ram
    ensures us.Valid() && (mapped.Some? ==> back == data)
  {
    back := [];
    ghost var rs := us.space.space.regions;
    mapped := us.Map(hint, length, prot, cache, fixed, false, Anon(zeroed), backing);
    if mapped.Some? {
      var a := mapped.value;
      NewSegment(rs, us.space.space.regions, hint, length, fixed, us.space.start, us.space.end, mapped, prot, cache, Anon(zeroed), a + offset, |data|);
      back := FramesThereAndBack(us, ram, a + offset, data, frames, a, length, backing);
    }
  }
}
