/**
 The page-table manager of arch/x86_64/ptm.c: mapping one page, mapping a range with the
 largest pages that fit, looking an address up, and the kernel half that all spaces share.
 */
module Ptm {
  import opened Basics
  import opened PtmModel
  import opened PtmSteps
  import Division

  function Need(prot: Prot, user: bool): Rights { Rights(prot.write, user, prot.exec) }

  /** The bytes that an entry of this level maps. */
  function Span(level: nat): (n: nat)
    ensures n > 0
  {
    if level == 1 then FRAME else if level == 2 then 0x20_0000 else 0x4000_0000
  }

  /** ENTRY_ADDRESS_MASK: bits 12 to 51, or 16 to 51 for a large page. */
  function Masked(paddr: nat, level: nat): nat {
    var low := Division.Rem(paddr, 0x10_0000_0000_0000);
    low - Division.Rem(low, if level == 1 then FRAME else 0x1_0000)
  }

  function Leaf(paddr: nat, level: nat, prot: Prot, cache: Cache, user: bool, global: bool): Entry {
    Entry(true, prot.write, user, !prot.exec, level != 1, global, cache, Masked(paddr, level))
  }

  /** A leaf has the attributes that a page was mapped with. */
  predicate Carries(e: Entry, prot: Prot, cache: Cache, user: bool, global: bool) {
    e.present && e.write == prot.write && e.nx == !prot.exec && e.user == user && e.global == global && e.cache == cache
  }

  // ---------- one more level ----------

  lemma {:induction false} DownNext(m: Memory, f: nat, level: nat, v: nat, j: nat, t: nat)
    requires j > 1 && Down(m, f, level, v, j) == Some(t)
    ensures IsTable(m, t)
    ensures Leads(m[t][Index(v, j)]) ==> Down(m, f, level, v, j - 1) == Some(m[t][Index(v, j)].addr) || !IsTable(m, m[t][Index(v, j)].addr)
    decreases level
  {
    if level > j { DownNext(m, m[f][Index(v, level)].addr, level - 1, v, j, t); }
  }

  lemma {:induction false} GrantsNext(m: Memory, f: nat, level: nat, v: nat, j: nat, t: nat, need: Rights)
    requires j > 1 && Down(m, f, level, v, j) == Some(t) && IsTable(m, t)
    requires Grants(m, f, level, v, need, j)
    requires Leads(m[t][Index(v, j)]) && Includes(m[t][Index(v, j)].Allows(), need)
    ensures Grants(m, f, level, v, need, j - 1)
    decreases level
  {
    if level > j { GrantsNext(m, m[f][Index(v, level)].addr, level - 1, v, j, t, need); }
  }

  lemma {:induction false} StoreKeepsTop(m: Memory, m': Memory, role: map<nat, Role>, kernel: nat, t: nat, i: nat)
    requires Wf(m, role, kernel) && Stored(m, m', role, t, i)
    requires role[t].level == LEVELS && i >= 256 ==> m'[t][i] == m[t][i]
    ensures SameTop(m, m', role)
  {
    forall r: nat, k: nat | Root(role, r) && 256 <= k < ENTRIES ensures SameAt(m, m', r, k) {
      assert IsTable(m, r);
      if r != t { assert IsTable(m', r); }
    }
  }

  /** The table that the walk of `root` reaches, as a table of its level. */
  lemma {:induction false} AtTable(m: Memory, role: map<nat, Role>, kernel: nat, root: nat, v: nat, j: nat, t: nat)
    requires Good(m, role, kernel) && Root(role, root) && v < PAGES && 0 < j <= LEVELS && Down(m, root, LEVELS, v, j) == Some(t)
    ensures t in role && role[t].level == j && IsTable(m, t)
    ensures j == LEVELS ==> t == root
    ensures Walk(m, root, LEVELS, v) == Walk(m, t, j, v)
  {
    TopIsEmpty(v);
    DownPrefix(m, role, kernel, root, v, j);
    WalkFromDown(m, root, LEVELS, v, j);
    assert IsTable(m, t);
  }

  /** An intermediate store done: the walk goes one level further with the rights granted. */
  lemma {:induction false} Entered(m: Memory, m': Memory, role: map<nat, Role>, role': map<nat, Role>, kernel: nat, root: nat, v: nat, j: nat, t: nat, need: Rights)
    requires Good(m, role, kernel) && Root(role, root) && v < PAGES && 1 < j <= LEVELS
    requires Down(m, root, LEVELS, v, j) == Some(t) && Grants(m, root, LEVELS, v, need, j)
    requires Stored(m, m', role, t, Index(v, j)) && role[t].level == j && Good(m', role', kernel)
    requires t in role' && role'[t] == role[t]
    requires Leads(m'[t][Index(v, j)]) && Includes(m'[t][Index(v, j)].Allows(), need)
    ensures Down(m', root, LEVELS, v, j - 1) == Some(m'[t][Index(v, j)].addr)
    ensures Grants(m', root, LEVELS, v, need, j - 1)
  {
    StoreKeepsAbove(m, m', role, kernel, t, Index(v, j), root, v, j, need);
    assert EntryOk(m', role', kernel, t, Index(v, j));
    assert IsTable(m', m'[t][Index(v, j)].addr);
    DownNext(m', root, LEVELS, v, j, t);
    GrantsNext(m', root, LEVELS, v, j, t, need);
  }

  // ---------- choosing the sizes of a range ----------

  /** x is a multiple of the page size of this level. */
  predicate On(x: nat, level: nat) { Division.Rem(x, Span(level)) == 0 }

  /** The start of the page of this level that holds x. */
  function Start(x: nat, level: nat): (s: nat)
    ensures On(s, level) && s <= x
  {
    Division.Floored(Span(level), x);
    x - Division.Rem(x, Span(level))
  }

  /** The bytes at the front of a range that pages of this level tile: the base is aligned, and whole pages fit. */
  function Front(vaddr: nat, paddr: nat, length: nat, level: nat): (n: nat) {
    if On(paddr, level) && On(vaddr, level) then Start(length, level) else 0
  }

  /** The level at which byte `o` of a range is mapped. */
  function LevelAt(vaddr: nat, paddr: nat, length: nat, gigabyte: bool, o: nat): (level: nat)
    ensures 1 <= level <= 3
  {
    if gigabyte && o < Front(vaddr, paddr, length, 3) then 3
    else if o < Front(vaddr, paddr, length, 2) then 2
    else 1
  }

  /** The loop stands at the start of a page of the level it will choose. */
  predicate OnBoundary(vaddr: nat, paddr: nat, length: nat, gigabyte: bool, i: nat) {
    i <= length && On(i, LevelAt(vaddr, paddr, length, gigabyte, i)) && On(i, 1)
  }

  /** The code's choice of size, which looks at the base and at what is left. */
  function Chosen(vaddr: nat, paddr: nat, length: nat, gigabyte: bool, i: nat): (level: nat)
    requires i <= length
    ensures 1 <= level <= 3
  {
    if gigabyte && On(paddr, 3) && On(vaddr, 3) && length - i >= Span(3) then 3
    else if On(paddr, 2) && On(vaddr, 2) && length - i >= Span(2) then 2
    else 1
  }

  /** The choice is the level of the byte; the page fits, is aligned on both sides, and ends on a boundary. */
  lemma {:induction false} ChosenFits(vaddr: nat, paddr: nat, length: nat, gigabyte: bool, i: nat)
    requires On(vaddr, 1) && On(paddr, 1) && On(length, 1)
    requires OnBoundary(vaddr, paddr, length, gigabyte, i) && i < length
    ensures var level := Chosen(vaddr, paddr, length, gigabyte, i);
      && level == LevelAt(vaddr, paddr, length, gigabyte, i)
      && On(vaddr + i, level) && On(paddr + i, level)
      && OnBoundary(vaddr, paddr, length, gigabyte, i + Span(level))
  {
    var level := Chosen(vaddr, paddr, length, gigabyte, i);
    FrontChosen(vaddr, paddr, length, i, 2);
    FrontChosen(vaddr, paddr, length, i, 3);
    FrontsNest(vaddr, paddr, length);
    assert level == LevelAt(vaddr, paddr, length, gigabyte, i);
    FrontWhole(vaddr, paddr, length, i, level);
    OnSmaller(i + Span(level));
  }

  /** Every byte of the page has its level and its start. */
  lemma {:induction false} ChosenPage(vaddr: nat, paddr: nat, length: nat, gigabyte: bool, i: nat, o: nat)
    requires On(vaddr, 1) && On(paddr, 1) && On(length, 1)
    requires OnBoundary(vaddr, paddr, length, gigabyte, i) && i < length
    requires i <= o < i + Span(Chosen(vaddr, paddr, length, gigabyte, i))
    ensures var level := Chosen(vaddr, paddr, length, gigabyte, i);
      LevelAt(vaddr, paddr, length, gigabyte, o) == level && Start(o, level) == i
  {
    var level := Chosen(vaddr, paddr, length, gigabyte, i);
    ChosenFits(vaddr, paddr, length, gigabyte, i);
    FrontsNest(vaddr, paddr, length);
    FrontWhole(vaddr, paddr, length, i, level);
    Division.FloorOf(Span(level), i, o);
  }

  /** A byte of a range is in a page of some size exactly when pages of that size are allowed, both bases are aligned to it and the page ends in the range. */
  lemma {:induction false} LargestFits(vaddr: nat, paddr: nat, length: nat, gigabyte: bool, o: nat, level: nat)
    requires o < length && 2 <= level <= 3
    ensures LevelAt(vaddr, paddr, length, gigabyte, o) >= level <==>
      exists l: nat :: level <= l <= 3 && (l == 3 ==> gigabyte) && On(vaddr, l) && On(paddr, l) && Start(o, l) + Span(l) <= length
  {
    Division.Room(Span(2), Start(o, 2), length);
    Division.Room(Span(3), Start(o, 3), length);
    FrontCovers(vaddr, paddr, length, o, 2);
    FrontCovers(vaddr, paddr, length, o, 3);
  }

  lemma {:induction false} FrontCovers(vaddr: nat, paddr: nat, length: nat, o: nat, level: nat)
    requires 2 <= level <= 3
    ensures o < Front(vaddr, paddr, length, level) <==> On(vaddr, level) && On(paddr, level) && Start(o, level) + Span(level) <= length
  {
    var n := Span(level);
    Division.Room(n, Start(o, level), length);
    if Start(o, level) < Start(length, level) { Division.MultiplesApart(n, Start(o, level), Start(length, level)); }
  }

  lemma {:induction false} FrontChosen(vaddr: nat, paddr: nat, length: nat, i: nat, level: nat)
    requires 2 <= level <= 3 && i < length
    ensures On(paddr, level) && On(vaddr, level) && length - i >= Span(level) ==> i < Front(vaddr, paddr, length, level)
    ensures i < Front(vaddr, paddr, length, level) && On(i, level) ==> length - i >= Span(level)
  {
    if On(i, level) { Division.Room(Span(level), i, length); }
  }

  /** What 1G pages tile, 2M pages could. */
  lemma {:induction false} FrontsNest(vaddr: nat, paddr: nat, length: nat)
    ensures Front(vaddr, paddr, length, 3) <= Front(vaddr, paddr, length, 2)
  {
    OnSmaller(vaddr);
    OnSmaller(paddr);
    OnSmaller(Start(length, 3));
    Division.Room(Span(2), Start(length, 2), Start(length, 3));
    Division.Room(Span(2), Start(length, 2), length);
  }

  lemma {:induction false} FrontWhole(vaddr: nat, paddr: nat, length: nat, i: nat, level: nat)
    requires 1 <= level <= 3 && i < Front(vaddr, paddr, length, level) && On(i, level)
    ensures i + Span(level) <= Front(vaddr, paddr, length, level) <= length
    ensures On(i + Span(level), level)
    ensures On(vaddr + i, level) && On(paddr + i, level)
  {
    Division.Room(Span(level), i, length);
    OnSum(vaddr, i, level);
    OnSum(paddr, i, level);
    OnSum(i, Span(level), level);
  }

  lemma {:induction false} OnSum(x: nat, y: nat, level: nat)
    requires On(x, level)
    ensures On(x + y, level) <==> On(y, level)
  {
    Division.Shifted(Span(level), x, y);
  }

  lemma {:induction false} OnSmaller(x: nat)
    ensures On(x, 3) ==> On(x, 2)
    ensures On(x, 2) ==> On(x, 1)
  {
    Division.Coarser(0x20_0000, 512, x);
    Division.Coarser(FRAME, 512, x);
  }

  // ---------- page numbers of a range ----------

  /** The range does not wrap around the 48 bits that paging looks at. */
  predicate DoesNotWrap(vaddr: nat, length: nat) { Low(vaddr) + length <= LOW }

  lemma {:induction false} PageOf(vaddr: nat, length: nat, i: nat)
    requires DoesNotWrap(vaddr, length) && On(vaddr, 1) && i < length
    ensures Vpn(vaddr + i) == Vpn(vaddr) + i / FRAME
  {
    var w := Low(vaddr);
    Division.RemIsMod(vaddr, LOW);
    Division.RemUnique(LOW, vaddr + i, vaddr / LOW, w + i);
    LowBits(vaddr, 1);
    Division.RemIsMod(w, FRAME);
    Division.Unique(FRAME, w + i, w / FRAME + i / FRAME, i % FRAME);
  }

  /** The address space that paging sees is a whole number of pages of each size. */
  lemma {:induction false} Whole(q: nat, level: nat)
    requires 1 <= level <= 3
    ensures On(LOW * q, level)
  {
    if level == 1 { Division.RemUnique(FRAME, LOW * q, 0x10_0000_0000 * q, 0); }
    else if level == 2 { Division.RemUnique(0x20_0000, LOW * q, 0x800_0000 * q, 0); }
    else { Division.RemUnique(0x4000_0000, LOW * q, 0x4_0000 * q, 0); }
  }

  /** The bits that paging looks at are aligned as the address is. */
  lemma {:induction false} LowBits(vaddr: nat, level: nat)
    requires 1 <= level <= 3
    ensures On(vaddr, level) <==> On(Low(vaddr), level)
  {
    Division.RemIsMod(vaddr, LOW);
    Whole(vaddr / LOW, level);
    OnSum(LOW * (vaddr / LOW), Low(vaddr), level);
  }

  /** The pages that agree with an aligned address above level - 1 are the ones its entry spans. */
  lemma {:induction false} PagesSpanned(vaddr: nat, level: nat, u: nat)
    requires 1 <= level <= 3 && On(vaddr, level)
    ensures Above(u, level - 1) == Above(Vpn(vaddr), level - 1) <==> Vpn(vaddr) <= u < Vpn(vaddr) + Span(level) / FRAME
  {
    var w := Low(vaddr);
    LowBits(vaddr, level);
    Division.RemIsMod(w, Span(level));
    if level == 2 {
      Division.Unique(FRAME, w, 512 * (w / 0x20_0000), 0);
      Quotients(512 * (w / 0x20_0000), u);
      SameQuotient(512, w / 0x20_0000, u);
    } else if level == 3 {
      Division.Unique(FRAME, w, 0x4_0000 * (w / 0x4000_0000), 0);
      Quotients(0x4_0000 * (w / 0x4000_0000), u);
      SameQuotient(0x4_0000, w / 0x4000_0000, u);
    }
  }

  lemma {:induction false} SameQuotient(n: nat, q: nat, u: nat)
    requires n > 0
    ensures u / n == n * q / n <==> n * q <= u < n * q + n
  {
    Division.Unique(n, n * q, q, 0);
    if n * q <= u < n * q + n { Division.Unique(n, u, q, u - n * q); }
  }

  lemma {:induction false} Quotients(p: nat, u: nat)
    ensures Above(u, 1) == u / 512 && Above(p, 1) == p / 512
    ensures Above(u, 2) == u / 0x4_0000 && Above(p, 2) == p / 0x4_0000
  {
    assert Above(u, 2) == Above(u, 1) / ENTRIES && Above(p, 2) == Above(p, 1) / ENTRIES;
    Twice(u);
    Twice(p);
  }

  lemma {:induction false} Twice(u: nat)
    ensures u / 512 / 512 == u / 0x4_0000
  {
    Division.Unique(0x4_0000, u, u / 512 / 512, 512 * (u / 512 % 512) + u % 512);
  }

  // ---------- a range as a request ----------

  datatype Request = Request(root: nat, vaddr: nat, paddr: nat, length: nat, prot: Prot, cache: Cache, user: bool, global: bool, gigabyte: bool)
  {
    predicate Ok() {
      On(vaddr, 1) && On(paddr, 1) && On(length, 1) && DoesNotWrap(vaddr, length) && paddr + length <= 0x10_0000_0000_0000
    }

    /** The walk of page u in space r is one that the first n bytes of the range decide. */
    predicate Hits(n: nat, r: nat, u: nat) {
      Vpn(vaddr) <= u < Vpn(vaddr) + n / FRAME && (r == root || InKernelHalf(u))
    }

    function Level(u: nat): nat
      requires u >= Vpn(vaddr)
    {
      LevelAt(vaddr, paddr, length, gigabyte, (u - Vpn(vaddr)) * FRAME)
    }

    /** The leaf that page u of the range gets. */
    function LeafOf(u: nat): Entry
      requires u >= Vpn(vaddr)
    {
      Leaf(paddr + Start((u - Vpn(vaddr)) * FRAME, Level(u)), Level(u), prot, cache, user, global)
    }
  }

  /** The walks after the first n bytes of a request, from those before it. */
  ghost predicate MappedTo(m: Memory, m': Memory, role: map<nat, Role>, q: Request, n: nat) {
    forall r: nat, u: nat {:trigger MappedToAt(m, m', q, n, r, u)} :: Root(role, r) && u < PAGES ==> MappedToAt(m, m', q, n, r, u)
  }

  ghost predicate MappedToAt(m: Memory, m': Memory, q: Request, n: nat, r: nat, u: nat) {
    Walk(m', r, LEVELS, u) == if q.Hits(n, r, u) then Some((q.LeafOf(u), q.Level(u))) else Walk(m, r, LEVELS, u)
  }

  /** The walks that the page at offset i decides. */
  predicate HitsAt(q: Request, i: nat, level: nat, r: nat, u: nat)
    requires level > 0
  {
    Above(u, level - 1) == Above(Vpn(q.vaddr + i), level - 1) && (r == q.root || InKernelHalf(u))
  }

  /** They are the next ones of the range. */
  lemma {:induction false} HitsNext(q: Request, i: nat, r: nat, u: nat)
    requires q.Ok() && i < q.length && OnBoundary(q.vaddr, q.paddr, q.length, q.gigabyte, i)
    ensures var level := Chosen(q.vaddr, q.paddr, q.length, q.gigabyte, i);
      && q.Hits(i + Span(level), r, u) == (q.Hits(i, r, u) || HitsAt(q, i, level, r, u))
      && (HitsAt(q, i, level, r, u) ==> !q.Hits(i, r, u) && i <= (u - Vpn(q.vaddr)) * FRAME < i + Span(level))
  {
    ChosenFits(q.vaddr, q.paddr, q.length, q.gigabyte, i);
    var level := Chosen(q.vaddr, q.paddr, q.length, q.gigabyte, i);
    PageOf(q.vaddr, q.length, i);
    PagesSpanned(q.vaddr + i, level, u);
    PageCounts(i, level);
  }

  lemma {:induction false} PageCounts(i: nat, level: nat)
    requires On(i, 1) && 1 <= level <= 3
    ensures i == i / FRAME * FRAME && (i + Span(level)) / FRAME == i / FRAME + Span(level) / FRAME
    ensures Span(level) == Span(level) / FRAME * FRAME
  {
    Division.RemIsMod(i, FRAME);
    Division.Unique(FRAME, i + Span(level), i / FRAME + Span(level) / FRAME, 0);
  }

  lemma {:induction false} LeafNext(q: Request, i: nat, r: nat, u: nat)
    requires q.Ok() && i < q.length && OnBoundary(q.vaddr, q.paddr, q.length, q.gigabyte, i)
    requires HitsAt(q, i, Chosen(q.vaddr, q.paddr, q.length, q.gigabyte, i), r, u)
    ensures var level := Chosen(q.vaddr, q.paddr, q.length, q.gigabyte, i);
      && u >= Vpn(q.vaddr) && q.Level(u) == level
      && q.LeafOf(u) == Leaf(q.paddr + i, level, q.prot, q.cache, q.user, q.global)
  {
    HitsNext(q, i, r, u);
    ChosenPage(q.vaddr, q.paddr, q.length, q.gigabyte, i, (u - Vpn(q.vaddr)) * FRAME);
  }

  lemma {:induction false} MapTurn(m: Memory, m1: Memory, m2: Memory, role: map<nat, Role>, role1: map<nat, Role>, q: Request, i: nat, level: nat, v: nat, leaf: Entry)
    requires v == Vpn(q.vaddr + i) && leaf == Leaf(q.paddr + i, level, q.prot, q.cache, q.user, q.global)
    requires q.Ok() && i < q.length && level == Chosen(q.vaddr, q.paddr, q.length, q.gigabyte, i) && OnBoundary(q.vaddr, q.paddr, q.length, q.gigabyte, i)
    requires MappedTo(m, m1, role, q, i) && SameRoots(role, role1)
    requires Mapped(m1, m2, role1, q.root, v, leaf, level)
    ensures MappedTo(m, m2, role, q, i + Span(level))
  {
    var n := i + Span(level);
    forall r: nat, u: nat | Root(role, r) && u < PAGES ensures MappedToAt(m, m2, q, n, r, u) {
      assert Root(role1, r);
      assert MappedToAt(m, m1, q, i, r, u) && MappedAt(m1, m2, q.root, v, leaf, level, r, u);
      HitsNext(q, i, r, u);
      if HitsAt(q, i, level, r, u) { LeafNext(q, i, r, u); }
    }
  }

  /** No page of the range lies in a larger page than it will get. */
  ghost predicate NothingLarger(m: Memory, q: Request) {
    forall u: nat {:trigger Walk(m, q.root, LEVELS, u)} :: q.Hits(q.length, q.root, u) && Walk(m, q.root, LEVELS, u).Some? ==>
      Walk(m, q.root, LEVELS, u).value.1 <= q.Level(u)
  }

  lemma {:induction false} MapStart(m: Memory, role: map<nat, Role>, kernel: nat, q: Request)
    requires Wf(m, role, kernel)
    ensures SameTop(m, m, role) && MappedTo(m, m, role, q, 0) && OnBoundary(q.vaddr, q.paddr, q.length, q.gigabyte, 0)
  {
    SameTopRefl(m, role, kernel);
  }

  /** Only kernel mappings go into the kernel half. */
  ghost predicate KernelOnly(q: Request) {
    !q.user || forall u: nat {:trigger InKernelHalf(u)} :: q.Hits(q.length, q.root, u) ==> !InKernelHalf(u)
  }

  /** The first page of the rest is still as it was before the request. */
  lemma {:induction false} StillSmaller(m: Memory, m1: Memory, role: map<nat, Role>, q: Request, i: nat)
    requires q.Ok() && i < q.length && OnBoundary(q.vaddr, q.paddr, q.length, q.gigabyte, i)
    requires Root(role, q.root) && MappedTo(m, m1, role, q, i) && NothingLarger(m, q)
    ensures var u := Vpn(q.vaddr + i);
      && q.Hits(q.length, q.root, u)
      && (KernelOnly(q) && InKernelHalf(u) ==> !q.user)
      && (Walk(m1, q.root, LEVELS, u).Some? ==> Walk(m1, q.root, LEVELS, u).value.1 <= Chosen(q.vaddr, q.paddr, q.length, q.gigabyte, i))
  {
    PageOf(q.vaddr, q.length, i);
    ChosenFits(q.vaddr, q.paddr, q.length, q.gigabyte, i);
    var u := Vpn(q.vaddr + i);
    Division.RemIsMod(i, FRAME);
    assert (u - Vpn(q.vaddr)) * FRAME == i;
    assert MappedToAt(m, m1, q, i, q.root, u);
  }

  class PageTables {
    var mem: Memory
    ghost var role: map<nat, Role>
    /** The top-level table of the global space. */
    const kernel: nat

    ghost predicate Valid() reads this { Good(mem, role, kernel) }

    /** The global space (lines 354-366): an empty user half, and an empty table below each kernel entry. */
    constructor (top: nat)
      ensures Valid() && kernel == top
      ensures forall r: nat :: Root(role, r) <==> r == top
      ensures forall u: nat {:trigger Walk(mem, top, LEVELS, u)} :: Walk(mem, top, LEVELS, u) == None
    {
      kernel := top;
      mem := map[top := seq(ENTRIES, _ => EMPTY)];
      role := map[top := Role(top, LEVELS, 0)];
      new;
      assert forall i: nat :: i < ENTRIES ==> EntryOk(mem, role, top, top, i);
      var i := 256;
      while i < ENTRIES
        invariant 256 <= i <= ENTRIES && Rising(mem, role, top, i)
        decreases ENTRIES - i
      {
        ghost var m, before := mem, role;
        assert IsTable(mem, kernel);
        var child := AllocPage();
        mem := mem[kernel := mem[kernel][i := KernelEntry(child)]];
        role := role[child := Role(kernel, 3, i)];
        RisingNext(m, mem, before, role, top, i, child);
        i := i + 1;
      }
      Risen(mem, role, top);
    }

    /** A new address space: an empty user half and the kernel's half (arch_ptm_address_space_create). */
    method CreateSpace() returns (root: nat)
      requires Valid()
      modifies this
      ensures Valid() && root !in old(mem) && !Root(old(role), root)
      ensures forall r: nat {:trigger Root(role, r)} :: Root(role, r) <==> Root(old(role), r) || r == root
      ensures SameWalks(old(mem), mem, old(role)) && SameTop(old(mem), mem, old(role))
      ensures forall u: nat {:trigger Walk(mem, root, LEVELS, u)} :: u < PAGES ==>
        Walk(mem, root, LEVELS, u) == if InKernelHalf(u) then Walk(mem, kernel, LEVELS, u) else None
    {
      ghost var m, before := mem, role;
      assert IsTable(mem, kernel);
      root := AllocPage();
      mem := mem[root := mem[root][..256] + mem[kernel][256..]];
      role := role[root := Role(root, LEVELS, 0)];
      assert mem[root] == seq(256, _ => EMPTY) + m[kernel][256..];
      Created(m, mem, before, role, kernel, root);
    }

    /** A zeroed page that is not in use; which one is the allocator's choice. */
    method AllocPage() returns (f: nat)
      modifies this`mem
      ensures f !in old(mem) && mem == old(mem)[f := seq(ENTRIES, _ => EMPTY)]
    {
      ghost var unused := Division.AboveAll(mem.Keys);
      assert unused !in mem;
      f :| f !in mem;
      mem := mem[f := seq(ENTRIES, _ => EMPTY)];
    }

    /** One turn of the loop at 146-162: make sure that the entry leads on, with at least these rights. */
    method Enter(ghost root: nat, vpn: nat, table: nat, j: nat, need: Rights) returns (next: nat)
      requires Valid() && Root(role, root) && vpn < PAGES && 1 < j <= LEVELS
      requires Down(mem, root, LEVELS, vpn, j) == Some(table) && Grants(mem, root, LEVELS, vpn, need, j)
      requires Walk(mem, root, LEVELS, vpn).Some? ==> Walk(mem, root, LEVELS, vpn).value.1 < j
      requires InKernelHalf(vpn) ==> !need.user
      modifies this
      ensures Valid() && SameRoots(old(role), role)
      ensures SameWalks(old(mem), mem, old(role)) && SameTop(old(mem), mem, old(role))
      ensures Down(mem, root, LEVELS, vpn, j - 1) == Some(next) && Grants(mem, root, LEVELS, vpn, need, j - 1)
      ensures var i := Index(vpn, j);
        IsTable(old(mem), table) && IsTable(mem, table) && Widened(old(mem)[table][i], mem[table][i], need) && mem[table][i].addr == next
    {
      ghost var m := mem;
      AtTable(mem, role, kernel, root, vpn, j, table);
      var i := Index(vpn, j);
      var entry := mem[table][i];
      if !entry.present {
        next := AllocPage();
        entry := Fresh(next, need);
        mem := mem[table := mem[table][i := entry]];
        StoredFresh(m, mem, role, kernel, table, i, next, entry);
        ghost var before := role;
        role := role[next := ChildRole(role[table], i, kernel)];
        LinkKeepsGood(m, mem, before, role, kernel, table, i);
        Entered(m, mem, before, role, kernel, root, vpn, j, table, need);
      } else {
        entry := Opened(entry, need);
        mem := mem[table := mem[table][i := entry]];
        next := entry.addr;
        StoredOver(m, mem, role, kernel, table, i, entry);
        OpenKeepsGood(m, mem, role, kernel, table, i);
        Entered(m, mem, role, role, kernel, root, vpn, j, table, need);
      }
    }

    /** Map one page of the given level. Only the walks of that page change, in this space or, in the kernel half, in all. */
    method MapPage(root: nat, vaddr: nat, paddr: nat, level: nat, prot: Prot, cache: Cache, user: bool, global: bool)
      requires Valid() && Root(role, root) && 1 <= level <= 3
      requires InKernelHalf(Vpn(vaddr)) ==> !user
      requires Walk(mem, root, LEVELS, Vpn(vaddr)).Some? ==> Walk(mem, root, LEVELS, Vpn(vaddr)).value.1 <= level
      modifies this
      ensures Valid() && SameRoots(old(role), role) && SameTop(old(mem), mem, old(role))
      ensures Mapped(old(mem), mem, old(role), root, Vpn(vaddr), Leaf(paddr, level, prot, cache, user, global), level)
      ensures var w := Walk(mem, root, LEVELS, Vpn(vaddr)); w.Some? && w.value.1 == level && Carries(w.value.0, prot, cache, user, global)
    {
      var vpn, need := Vpn(vaddr), Need(prot, user);
      var table, j := root, LEVELS;
      assert IsTable(mem, root);
      ghost var m, before := mem, role;
      assert SameTop(m, mem, before) by { SameTopRefl(m, role, kernel); }
      while j > level
        invariant level <= j <= LEVELS
        invariant Valid() && SameRoots(before, role) && SameWalks(m, mem, before) && SameTop(m, mem, before)
        invariant Down(mem, root, LEVELS, vpn, j) == Some(table) && Grants(mem, root, LEVELS, vpn, need, j)
        decreases j
      {
        ghost var m1, role1 := mem, role;
        assert Walk(mem, root, LEVELS, vpn) == Walk(m, root, LEVELS, vpn);
        table := Enter(root, vpn, table, j, need);
        SameTopTrans(m, m1, mem, before, role1);
        j := j - 1;
      }
      ghost var m1 := mem;
      AtTable(mem, role, kernel, root, vpn, level, table);
      var i, leaf := Index(vpn, level), Leaf(paddr, level, prot, cache, user, global);
      mem := mem[table := mem[table][i := leaf]];
      StoredLeaf(m1, mem, role, kernel, table, i, leaf);
      LeafKeepsGood(m1, mem, role, kernel, root, vpn, table, level, leaf);
      SameTopTrans(m, m1, mem, before, role);
      MappedLater(m, m1, mem, before, role, root, vpn, leaf, level);
      assert MappedAt(m, mem, root, vpn, leaf, level, root, vpn);
    }

    /** One turn of the loop at 200-209; m and before are the state when the request came. */
    method MapChunk(ghost m: Memory, ghost before: map<nat, Role>, q: Request, i: nat) returns (level: nat)
      requires Valid() && Root(role, q.root) && q.Ok() && NothingLarger(m, q) && KernelOnly(q)
      requires SameRoots(before, role) && SameTop(m, mem, before)
      requires i < q.length && OnBoundary(q.vaddr, q.paddr, q.length, q.gigabyte, i) && MappedTo(m, mem, before, q, i)
      modifies this
      ensures Valid() && SameRoots(before, role) && SameTop(m, mem, before)
      ensures level == Chosen(q.vaddr, q.paddr, q.length, q.gigabyte, i)
      ensures MappedTo(m, mem, before, q, i + Span(level))
    {
      level := Chosen(q.vaddr, q.paddr, q.length, q.gigabyte, i);
      ghost var m1, role1 := mem, role;
      assert Root(before, q.root);
      StillSmaller(m, mem, before, q, i);
      ghost var v, leaf := Vpn(q.vaddr + i), Leaf(q.paddr + i, level, q.prot, q.cache, q.user, q.global);
      MapPage(q.root, q.vaddr + i, q.paddr + i, level, q.prot, q.cache, q.user, q.global);
      SameTopTrans(m, m1, mem, before, role1);
      MapTurn(m, m1, mem, before, role1, q, i, level, v, leaf);
    }

    /** Map a range with the largest pages that fit (arch_ptm_map). */
    method Map(q: Request)
      requires Valid() && Root(role, q.root) && q.Ok() && NothingLarger(mem, q) && KernelOnly(q)
      modifies this
      ensures Valid() && SameRoots(old(role), role) && SameTop(old(mem), mem, old(role))
      ensures MappedTo(old(mem), mem, old(role), q, q.length)
    {
      ghost var m, before := mem, role;
      MapStart(m, role, kernel, q);
      var i := 0;
      while i < q.length
        invariant Valid() && SameRoots(before, role) && SameTop(m, mem, before)
        invariant OnBoundary(q.vaddr, q.paddr, q.length, q.gigabyte, i) && MappedTo(m, mem, before, q, i)
        decreases q.length - i
      {
        assert Root(before, q.root);
        ChosenFits(q.vaddr, q.paddr, q.length, q.gigabyte, i);
        var level := MapChunk(m, before, q, i);
        i := i + Span(level);
      }
    }

    /** Look an address up by walking (arch_ptm_physical). */
    method Physical(root: nat, vaddr: nat) returns (found: bool, paddr: nat)
      requires Valid() && Root(role, root)
      ensures found <==> Walk(mem, root, LEVELS, Vpn(vaddr)).Some?
      ensures found ==> var (leaf, level) := Walk(mem, root, LEVELS, Vpn(vaddr)).value; 1 <= level <= 3 && paddr == Answer(leaf, level, vaddr)
    {
      var vpn := Vpn(vaddr);
      var table, j := root, LEVELS;
      assert IsTable(mem, root);
      var big := false;
      while j > 1 && !big
        invariant 1 <= j <= LEVELS && table in role && role[table].level == j
        invariant Walk(mem, root, LEVELS, vpn) == Walk(mem, table, j, vpn)
        invariant IsTable(mem, table) && (big ==> mem[table][Index(vpn, j)].large)
        decreases j, !big
      {
        var entry := mem[table][Index(vpn, j)];
        assert EntryOk(mem, role, kernel, table, Index(vpn, j));
        if !entry.present { return false, 0; }
        if entry.large {
          big := true;
        } else {
          table, j := entry.addr, j - 1;
          assert IsTable(mem, table);
        }
      }
      var entry := mem[table][Index(vpn, j)];
      assert EntryOk(mem, role, kernel, table, Index(vpn, j));
      if !entry.present { return false, 0; }
      return true, Answer(entry, j, vaddr);
    }
  }

  const TOP: nat := 0x10_0000_0000_0000
  const WORD: nat := 0x1_0000_0000_0000_0000

  /** The offset of an address in its page. */
  function Offset(v: nat, level: nat): nat { v - Start(v, level) }

  /** What lines 336-341 answer: their masks keep bits 52 to 63 of the address along with its offset. */
  function Answer(leaf: Entry, level: nat, v: nat): nat {
    Division.Rem(leaf.addr + Offset(v, level) + (v - Division.Rem(v, TOP)), WORD)
  }

  /** What the processor makes of an address. */
  function Translate(m: Memory, root: nat, v: nat): Option<nat> {
    match Walk(m, root, LEVELS, Vpn(v))
    case None => None
    case Some((leaf, level)) => Some(leaf.addr + Offset(v, level))
  }

  // ---------- the global space, entry by entry ----------

  /** Kernel entries 256 to n - 1 are set, each above an empty table; nothing else is present. */
  ghost predicate Rising(m: Memory, role: map<nat, Role>, top: nat, n: nat) {
    && Wf(m, role, top) && Root(role, top) && IsTable(m, top)
    && (forall i: nat {:trigger m[top][i]} :: i < ENTRIES ==> if 256 <= i < n then m[top][i] == KernelEntry(m[top][i].addr) else !m[top][i].present)
    && (forall f: nat {:trigger role[f]} :: f in role && f != top ==> role[f].level == 3 && Blank(m, f))
  }

  lemma {:induction false} RisingNext(m: Memory, m': Memory, role: map<nat, Role>, role': map<nat, Role>, top: nat, n: nat, child: nat)
    requires Rising(m, role, top, n) && 256 <= n < ENTRIES && child !in m
    requires m' == m[child := seq(ENTRIES, _ => EMPTY)][top := m[top][n := KernelEntry(child)]]
    requires role' == role[child := Role(top, 3, n)]
    ensures Rising(m', role', top, n + 1)
  {
    forall f: nat | f in role ensures IsTable(m, f) {}
    var mid := m[child := m'[child]];
    BlankKeepsWf(m, mid, role, top, child, Role(top, 3, n));
    assert Stored(mid, m', role', top, n);
    StoreKeepsWf(mid, m', role', top, top, n);
    forall f: nat | f in role' && f != top ensures role'[f].level == 3 && Blank(m', f) {
      if f != child { assert role[f].level == 3 && Blank(m, f); }
    }
  }

  lemma {:induction false} Risen(m: Memory, role: map<nat, Role>, top: nat)
    requires Rising(m, role, top, ENTRIES)
    ensures Good(m, role, top)
    ensures forall r: nat :: Root(role, r) <==> r == top
    ensures forall u: nat {:trigger Walk(m, top, LEVELS, u)} :: Walk(m, top, LEVELS, u) == None
  {
    forall u: nat ensures Walk(m, top, LEVELS, u) == None {
      var e := m[top][Index(u, LEVELS)];
      assert EntryOk(m, role, top, top, Index(u, LEVELS));
      if e.present {
        assert role[e.addr].level == 3;
        assert Blank(m, e.addr);
      }
    }
    forall r: nat, i: nat | Root(role, r) && 256 <= i < ENTRIES ensures SharedAt(m, top, r, i) {
      assert m[top][i] == KernelEntry(m[top][i].addr);
    }
  }

  // ---------- a new space ----------

  lemma {:induction false} Created(m: Memory, m': Memory, role: map<nat, Role>, role': map<nat, Role>, kernel: nat, root: nat)
    requires Good(m, role, kernel) && root !in m && IsTable(m, kernel)
    requires m' == m[root := seq(256, _ => EMPTY) + m[kernel][256..]]
    requires role' == role[root := Role(root, LEVELS, 0)]
    ensures Good(m', role', kernel) && root !in role
    ensures forall r: nat {:trigger Root(role', r)} :: Root(role', r) <==> Root(role, r) || r == root
    ensures SameWalks(m, m', role) && SameTop(m, m', role)
    ensures forall u: nat {:trigger Walk(m', root, LEVELS, u)} :: u < PAGES ==>
      Walk(m', root, LEVELS, u) == if InKernelHalf(u) then Walk(m', kernel, LEVELS, u) else None
  {
    forall f: nat | f in role ensures IsTable(m, f) && f != root {}
    forall r: nat | r in role' && role'[r].level == LEVELS ensures Root(role', r) { assert r == root || Root(role, r); }
    CreatedWf(m, m', role, role', kernel, root);
    assert SharedAt(m, kernel, kernel, 256);
    assert Silent(m, m', role, kernel, 256);
    forall r: nat, u: nat | Root(role, r) ensures Walk(m', r, LEVELS, u) == Walk(m, r, LEVELS, u) {
      SilentKeepsWalks(m, m', role, kernel, kernel, 256, r, u);
    }
    StoreKeepsTop(m, m', role, kernel, kernel, 256);
    TopKeepsShared(m, m', role, role, kernel);
    assert Shared(m', role', kernel) by { CreatedShared(m', role, role', kernel, root); }
    SilentKeepsCover(m, m', role, role, kernel, kernel, 256);
    forall u: nat | u < PAGES && InKernelHalf(u)
      ensures Walk(m', root, LEVELS, u) == Walk(m', kernel, LEVELS, u)
      ensures forall j: nat, need: Rights :: Grants(m', root, LEVELS, u, need, j) == Grants(m', kernel, LEVELS, u, need, j)
    {
      KernelWalksAlike(m', role', kernel, root, kernel, u);
    }
    CreatedCovered(m', role, role', kernel, root);
  }

  lemma {:induction false} CreatedShared(m': Memory, role: map<nat, Role>, role': map<nat, Role>, kernel: nat, root: nat)
    requires Shared(m', role, kernel) && Root(role, kernel) && role' == role[root := Role(root, LEVELS, 0)]
    requires IsTable(m', root) && IsTable(m', kernel) && m'[root][256..] == m'[kernel][256..]
    ensures Shared(m', role', kernel)
  {
    forall r: nat, i: nat | Root(role', r) && 256 <= i < ENTRIES ensures SharedAt(m', kernel, r, i) {
      assert SharedAt(m', kernel, kernel, i);
      if r == root {
        assert m'[root][i] == m'[root][256..][i - 256] == m'[kernel][256..][i - 256];
      } else {
        assert Root(role, r);
        assert SharedAt(m', kernel, r, i);
      }
    }
  }

  lemma {:induction false} CreatedCovered(m': Memory, role: map<nat, Role>, role': map<nat, Role>, kernel: nat, root: nat)
    requires Covered(m', role) && Root(role, kernel) && role' == role[root := Role(root, LEVELS, 0)]
    requires IsTable(m', root) && forall i: nat :: i < 256 ==> !m'[root][i].present
    requires forall u: nat :: u < PAGES && InKernelHalf(u) ==> Walk(m', root, LEVELS, u) == Walk(m', kernel, LEVELS, u)
    requires forall u: nat, j: nat, need: Rights :: u < PAGES && InKernelHalf(u) ==> Grants(m', root, LEVELS, u, need, j) == Grants(m', kernel, LEVELS, u, need, j)
    ensures Covered(m', role')
  {
    forall r: nat, u: nat | Root(role', r) && u < PAGES ensures CoveredAt(m', r, u) {
      assert CoveredAt(m', if r == root then kernel else r, u);
    }
  }

  lemma {:induction false} CreatedWf(m: Memory, m': Memory, role: map<nat, Role>, role': map<nat, Role>, kernel: nat, root: nat)
    requires Good(m, role, kernel) && root !in m && IsTable(m, kernel)
    requires m' == m[root := seq(256, _ => EMPTY) + m[kernel][256..]]
    requires role' == role[root := Role(root, LEVELS, 0)]
    ensures Wf(m', role', kernel)
  {
    forall f: nat | f in role' ensures IsTable(m', f) && 1 <= role'[f].level <= LEVELS { if f != root { assert IsTable(m, f); } }
    forall f: nat, i: nat | f in role' && i < ENTRIES ensures EntryOk(m', role', kernel, f, i) {
      if f == root {
        assert EntryOk(m, role, kernel, kernel, i);
        if i >= 256 {
          assert SharedAt(m, kernel, kernel, i);
          CreatedEntry(m, role, kernel, root, i);
        }
      } else {
        assert IsTable(m, f);
        assert EntryOk(m, role, kernel, f, i);
        CreatedEntry(m, role, kernel, root, i);
        if Leads(m[f][i]) && role[f].level > 1 { assert IsTable(m, m[f][i].addr); }
      }
    }
  }

  lemma {:induction false} CreatedEntry(m: Memory, role: map<nat, Role>, kernel: nat, root: nat, i: nat)
    requires Good(m, role, kernel) && root !in m && i < ENTRIES
    ensures root !in role
    ensures i >= 256 ==> SharedAt(m, kernel, kernel, i) && m[kernel][i].addr in role && m[kernel][i].addr != root
  {
    assert !IsTable(m, root);
    if i >= 256 {
      assert SharedAt(m, kernel, kernel, i);
      assert EntryOk(m, role, kernel, kernel, i);
    }
  }

  // ---------- the stores of the methods, as values ----------

  lemma {:induction false} StoredFresh(m: Memory, m': Memory, role: map<nat, Role>, kernel: nat, t: nat, i: nat, blank: nat, e: Entry)
    requires Good(m, role, kernel) && t in role && i < ENTRIES && IsTable(m, t) && blank !in m && e.addr == blank
    requires m' == m[blank := seq(ENTRIES, _ => EMPTY)][t := m[t][i := e]] && !m[t][i].present
    ensures Stored(m, m', role, t, i) && m'[t][i] == e && Blank(m', blank) && blank !in role && SameTop(m, m', role)
  {
    forall f: nat | f in role ensures f in m && f != blank { assert IsTable(m, f); }
    forall f: nat | f in role && f != t ensures IsTable(m', f) && f in m && m'[f] == m[f] { assert IsTable(m, f); }
    KernelEntryPresent(m, role, kernel, t, i);
    StoreKeepsTop(m, m', role, kernel, t, i);
  }

  lemma {:induction false} KernelEntryPresent(m: Memory, role: map<nat, Role>, kernel: nat, t: nat, i: nat)
    requires Good(m, role, kernel) && t in role && i < ENTRIES
    ensures role[t].level == LEVELS && i >= 256 ==> IsTable(m, t) && m[t][i].present
  {
    if role[t].level == LEVELS && i >= 256 {
      assert Root(role, t);
      assert SharedAt(m, kernel, t, i);
    }
  }

  lemma {:induction false} StoredOver(m: Memory, m': Memory, role: map<nat, Role>, kernel: nat, t: nat, i: nat, e: Entry)
    requires Good(m, role, kernel) && t in role && i < ENTRIES && IsTable(m, t)
    requires m' == m[t := m[t][i := e]]
    requires role[t].level == LEVELS && i >= 256 ==> e == Opened(m[t][i], Rights(e.write, false, !e.nx))
    ensures Stored(m, m', role, t, i) && m'[t][i] == e && SameTop(m, m', role)
  {
    forall f: nat | f in role && f != t ensures IsTable(m', f) && f in m && m'[f] == m[f] { assert IsTable(m, f); }
    if role[t].level == LEVELS && i >= 256 {
      assert Root(role, t);
      assert SharedAt(m, kernel, t, i);
    }
    StoreKeepsTop(m, m', role, kernel, t, i);
  }

  lemma {:induction false} StoredLeaf(m: Memory, m': Memory, role: map<nat, Role>, kernel: nat, t: nat, i: nat, e: Entry)
    requires Good(m, role, kernel) && t in role && i < ENTRIES && IsTable(m, t) && role[t].level < LEVELS
    requires m' == m[t := m[t][i := e]]
    ensures Stored(m, m', role, t, i) && m'[t][i] == e && SameTop(m, m', role)
  {
    forall f: nat | f in role && f != t ensures IsTable(m', f) && f in m && m'[f] == m[f] { assert IsTable(m, f); }
    StoreKeepsTop(m, m', role, kernel, t, i);
  }

  lemma {:induction false} SameTopRefl(m: Memory, role: map<nat, Role>, kernel: nat)
    requires Wf(m, role, kernel)
    ensures SameTop(m, m, role)
  {
    forall r: nat, k: nat | Root(role, r) && 256 <= k < ENTRIES ensures SameAt(m, m, r, k) { assert IsTable(m, r); }
  }

  /** Silent steps before a leaf do not show. */
  lemma {:induction false} MappedLater(m: Memory, m1: Memory, m2: Memory, role: map<nat, Role>, role1: map<nat, Role>, root: nat, v: nat, leaf: Entry, j: nat)
    requires SameWalks(m, m1, role) && SameRoots(role, role1) && Mapped(m1, m2, role1, root, v, leaf, j)
    ensures Mapped(m, m2, role, root, v, leaf, j)
  {
    forall r: nat, u: nat | Root(role, r) && u < PAGES ensures MappedAt(m, m2, root, v, leaf, j, r, u) {
      assert Root(role1, r);
      assert MappedAt(m1, m2, root, v, leaf, j, r, u);
    }
  }

  lemma {:induction false} SameTopTrans(m: Memory, m1: Memory, m2: Memory, role: map<nat, Role>, role1: map<nat, Role>)
    requires SameTop(m, m1, role) && SameTop(m1, m2, role1) && SameRoots(role, role1)
    ensures SameTop(m, m2, role)
  {
    forall r: nat, k: nat | Root(role, r) && 256 <= k < ENTRIES ensures SameAt(m, m2, r, k) {
      assert Root(role1, r);
      assert SameAt(m, m1, r, k) && SameAt(m1, m2, r, k);
    }
  }
}
