/**
 The page database and free lists of memory/pmm.c as values, the invariant that ties them
 together, and what the elementary moves of the buddy allocator do to it. Page numbers
 stand for blocks (`g_page_db` is indexed by them), so an address is a page number times
 the page granularity.
 */
module PmmModel {
  import opened Basics
  import opened Blocks

  const MAX_ORDER: nat := 7
  const LOW_PAGES: nat := 4096
  const ZONES: nat := 2

  datatype Page = Page(order: nat, maxOrder: nat, free: bool)

  /** `owner` maps every managed page to the first page of the block it belongs to. */
  datatype State = State(db: seq<Page>, lists: seq<seq<seq<nat>>>, freePages: seq<nat>, owner: map<nat, nat>)

  function ZoneOf(p: nat): (z: nat)
    ensures z < ZONES
  {
    if p >= LOW_PAGES then 1 else 0
  }

  ghost predicate Shaped(st: State) {
    && |st.lists| == |st.freePages| == ZONES
    && (forall z :: 0 <= z < ZONES ==> |st.lists[z]| == MAX_ORDER + 1)
    && (forall p: nat :: p in st.owner ==> p < |st.db| && st.owner[p] < |st.db|)
  }

  ghost predicate IsHead(st: State, h: nat) {
    h in st.owner && st.owner[h] == h && h < |st.db|
  }

  ghost predicate InBlock(st: State, h: nat, p: nat) {
    h < |st.db| && h <= p < h + Pow2(st.db[h].order)
  }

  /** Page `q` is managed, in the same zone and with the same `max_order` as `p`. */
  ghost predicate SameTop(st: State, p: nat, q: nat) {
    q in st.owner && q < |st.db| && p < |st.db| && st.db[q].maxOrder == st.db[p].maxOrder && ZoneOf(q) == ZoneOf(p)
  }

  function MaxOrders(st: State): seq<nat> {
    seq(|st.db|, i requires 0 <= i < |st.db| => st.db[i].maxOrder)
  }

  ghost predicate HeadOk(st: State, h: nat) {
    h < |st.db| && Aligned(h, st.db[h].order) && st.db[h].order <= st.db[h].maxOrder <= MAX_ORDER
  }

  /** Maximal blocks are managed as a whole and keep one `max_order`. */
  ghost predicate TopsWholeIn(maxOrders: seq<nat>, managed: set<nat>) {
    forall p: nat, q: nat {:trigger InTop(maxOrders[p], p, q)} :: p in managed && p < |maxOrders| && InTop(maxOrders[p], p, q) ==>
      q in managed && q < |maxOrders| && maxOrders[q] == maxOrders[p] && ZoneOf(q) == ZoneOf(p)
  }

  /** `q` lies in the aligned block of order m around `p`. */
  ghost predicate InTop(m: nat, p: nat, q: nat) {
    Floor(p, m) <= q < Floor(p, m) + Pow2(m)
  }

  ghost predicate TopsWhole(st: State) {
    TopsWholeIn(MaxOrders(st), st.owner.Keys)
  }

  /** Page `p` lies in the block of its owner. */
  ghost predicate Covered(st: State, p: nat) {
    p in st.owner && IsHead(st, st.owner[p]) && InBlock(st, st.owner[p], p)
  }

  /** Blocks are aligned, within their maximal block, and cover each managed page once. */
  ghost predicate Tiled(st: State) {
    && (forall p: nat {:trigger Covered(st, p)} :: p in st.owner ==> Covered(st, p))
    && (forall h: nat, p: nat {:trigger InBlock(st, h, p)} :: IsHead(st, h) && InBlock(st, h, p) ==> p in st.owner && st.owner[p] == h)
    && (forall h: nat {:trigger HeadOk(st, h)} :: IsHead(st, h) ==> HeadOk(st, h))
  }

  ghost predicate FreeHead(st: State, h: nat) {
    IsHead(st, h) && st.db[h].free
  }

  /** Two free blocks that should have been merged. */
  ghost predicate Mergeable(st: State, h: nat, b: nat) {
    && FreeHead(st, h) && FreeHead(st, b)
    && st.db[h].order < st.db[h].maxOrder && st.db[b].order == st.db[h].order && b == FlipBit(h, st.db[h].order)
  }

  /** Where the lists must hold page `h`, when the block at `cur` (if any) is in nobody's list. */
  ghost predicate Listed(st: State, cur: int, h: nat, z: nat, k: nat) {
    FreeHead(st, h) && h != cur && ZoneOf(h) == z && st.db[h].order == k
  }

  ghost predicate ListsExact(st: State, cur: int) {
    && |st.lists| == ZONES
    && (forall z :: 0 <= z < ZONES ==> |st.lists[z]| == MAX_ORDER + 1)
    && (forall z, k, h: nat {:trigger Listed(st, cur, h, z, k)} ::
          0 <= z < ZONES && 0 <= k <= MAX_ORDER ==> (h in st.lists[z][k] <==> Listed(st, cur, h, z, k)))
    && (forall z, k {:trigger NoDup(st.lists[z][k])} :: 0 <= z < ZONES && 0 <= k <= MAX_ORDER ==> NoDup(st.lists[z][k]))
  }

  ghost predicate Canonical(st: State, cur: int) {
    forall h: nat, b: nat {:trigger Mergeable(st, h, b)} :: Mergeable(st, h, b) ==> h == cur || b == cur
  }

  /** Pages on the lists of one zone. */
  function ListPages(ls: seq<seq<nat>>): nat {
    if ls == [] then 0 else ListPages(ls[..|ls| - 1]) + Shift(|ls[|ls| - 1]|, |ls| - 1)
  }

  ghost predicate Counted(st: State, cur: int) {
    && |st.lists| == |st.freePages| == ZONES
    && forall z :: 0 <= z < ZONES ==>
         st.freePages[z] == ListPages(st.lists[z]) + (if 0 <= cur < |st.db| && ZoneOf(cur) == z then Pow2(st.db[cur].order) else 0)
  }

  ghost predicate Good(st: State, cur: int) {
    Shaped(st) && TopsWhole(st) && Tiled(st) && ListsExact(st, cur) && Canonical(st, cur) && Counted(st, cur)
  }

  /** The invariant between calls. */
  ghost predicate Valid(st: State) { Good(st, -1) }

  /** The invariant inside a call, while the free block at `cur` is on no list. */
  ghost predicate Floating(st: State, cur: nat) {
    FreeHead(st, cur) && Good(st, cur)
  }

  ghost predicate IsFree(st: State, p: nat) {
    p in st.owner && st.owner[p] < |st.db| && st.db[st.owner[p]].free
  }

  // ---------- arithmetic of the page counters ----------

  lemma {:induction false} ListPagesUpdate(ls: seq<seq<nat>>, k: nat, s: seq<nat>)
    requires k < |ls|
    ensures ListPages(ls[k := s]) + Shift(|ls[k]|, k) == ListPages(ls) + Shift(|s|, k)
  {
    var n := |ls| - 1;
    var ls' := ls[k := s];
    if k == n {
      assert ls'[..n] == ls[..n];
    } else {
      assert ls'[..n] == ls[..n][k := s];
      ListPagesUpdate(ls[..n], k, s);
    }
  }

  // ---------- geometry ----------

  /** The block of a head lies in its maximal block. */
  lemma {:induction false} BlockInTop(st: State, h: nat, p: nat)
    requires Tiled(st) && TopsWhole(st) && IsHead(st, h) && InBlock(st, h, p)
    ensures SameTop(st, h, p)
  {
    assert HeadOk(st, h);
    RangeInTop(st, h, h, st.db[h].order, p);
  }

  /** Every page of an aligned range of order at most the maximum, around `q`, is in the maximal block of `q`. */
  lemma {:induction false} RangeInTop(st: State, q: nat, b: nat, k: nat, p: nat)
    requires TopsWhole(st) && q in st.owner && q < |st.db| && k <= st.db[q].maxOrder
    requires Aligned(b, k) && b <= q < b + Pow2(k) && b <= p < b + Pow2(k)
    ensures SameTop(st, q, p)
  {
    var m := st.db[q].maxOrder;
    var top := Floor(q, m);
    FloorAligned(q, m);
    if b < top {
      AlignedWeaken(top, k, m);
      AlignedApart(b, top, k);
      assert false;
    }
    Nested(b, k, top, m);
    assert InTop(m, q, p);
    assert MaxOrders(st)[q] == m;
  }

  /** The buddy of a block below the maximal order is a managed head of no larger order. */
  lemma {:induction false} BuddyIsHead(st: State, h: nat)
    requires Tiled(st) && TopsWhole(st) && IsHead(st, h) && st.db[h].order < st.db[h].maxOrder
    ensures var b := FlipBit(h, st.db[h].order);
      IsHead(st, b) && st.db[b].order <= st.db[h].order && SameTop(st, h, b) && b != h
  {
    var k := st.db[h].order;
    var b, a := FlipBit(h, k), Parent(h, k);
    assert HeadOk(st, h);
    BuddyFacts(h, k);
    ParentAligned(h, k);
    RangeInTop(st, h, a, k + 1, b);
    var g := st.owner[b];
    assert Covered(st, b);
    var j := st.db[g].order;
    assert HeadOk(st, g);
    if j > k {
      // a block of larger order around b would hold h as well
      EnclosesParent(g, j, b, k);
      assert InBlock(st, g, h);
      assert false;
    }
    if g < b {
      AlignedWeaken(b, j, k);
      AlignedApart(g, b, j);
      assert false;
    }
  }

  /** An aligned block of larger order around `b` holds the parent of `b`. */
  lemma {:induction false} EnclosesParent(g: nat, j: nat, b: nat, k: nat)
    requires j > k && Aligned(g, j) && Aligned(b, k) && g <= b < g + Pow2(j)
    ensures g <= Parent(b, k) && Parent(b, k) + Pow2(k + 1) <= g + Pow2(j)
  {
    var a := Parent(b, k);
    ParentAligned(b, k);
    if a < g {
      AlignedWeaken(g, k + 1, j);
      AlignedApart(a, g, k + 1);
      assert false;
    }
    Nested(a, k + 1, g, j);
  }

  // ---------- the moves ----------

  ghost predicate LiveBlock(st: State, h: nat, k: nat) {
    IsHead(st, h) && !st.db[h].free && st.db[h].order == k
  }

  /** Same managed pages and maximal blocks, same free pages, same live blocks. */
  ghost predicate SameMeaning(st: State, st': State) {
    && st'.owner.Keys == st.owner.Keys && |st'.db| == |st.db|
    && (forall p: nat :: 0 <= p < |st.db| ==> st'.db[p].maxOrder == st.db[p].maxOrder)
    && (forall p: nat :: IsFree(st', p) <==> IsFree(st, p))
    && (forall h: nat, k: nat :: LiveBlock(st', h, k) <==> LiveBlock(st, h, k))
  }

  function SetList(lists: seq<seq<seq<nat>>>, z: nat, k: nat, s: seq<nat>): seq<seq<seq<nat>>>
    requires z < |lists| && k < |lists[z]|
  {
    lists[z := lists[z][k := s]]
  }

  /** Changing only lists and counters changes neither blocks nor their meaning. */
  lemma {:induction false} OnlyLists(st: State, st': State)
    requires Tiled(st) && TopsWhole(st) && st'.db == st.db && st'.owner == st.owner
    ensures Tiled(st') && TopsWhole(st') && SameMeaning(st, st')
    ensures forall h: nat :: FreeHead(st', h) <==> FreeHead(st, h)
    ensures forall h: nat, b: nat :: Mergeable(st', h, b) <==> Mergeable(st, h, b)
  {
    SameGeometry(st, st');
  }

  lemma {:induction false} TakeLists(st: State, z: nat, k: nat)
    requires Shaped(st) && ListsExact(st, -1) && z < ZONES && k <= MAX_ORDER && st.lists[z][k] != []
    ensures var s := st.lists[z][k];
      ListsExact(st.(lists := SetList(st.lists, z, k, s[1..])), s[0])
  {
    var s := st.lists[z][k];
    var st' := st.(lists := SetList(st.lists, z, k, s[1..]));
    var cur := s[0];
    assert Listed(st, -1, cur, z, k);
    assert NoDup(s);
    forall z', k', h: nat | 0 <= z' < ZONES && 0 <= k' <= MAX_ORDER
      ensures h in st'.lists[z'][k'] <==> Listed(st', cur, h, z', k')
    {
      assert h in st.lists[z'][k'] <==> Listed(st, -1, h, z', k');
      if z' == z && k' == k { TailHas(s, h); }
    }
    assert NoDup(s[1..]);
  }

  lemma {:induction false} PlaceLists(st: State, cur: nat, z: nat, k: nat)
    requires Shaped(st) && ListsExact(st, cur) && FreeHead(st, cur) && z == ZoneOf(cur) && k == st.db[cur].order <= MAX_ORDER
    ensures ListsExact(st.(lists := SetList(st.lists, z, k, [cur] + st.lists[z][k])), -1)
  {
    var s := st.lists[z][k];
    var st' := st.(lists := SetList(st.lists, z, k, [cur] + s));
    assert cur !in s by { assert !Listed(st, cur, cur, z, k); }
    assert NoDup(s);
    forall z', k', h: nat | 0 <= z' < ZONES && 0 <= k' <= MAX_ORDER
      ensures h in st'.lists[z'][k'] <==> Listed(st', -1, h, z', k')
    {
      assert h in st.lists[z'][k'] <==> Listed(st, cur, h, z', k');
    }
    assert NoDup([cur] + s);
  }

  lemma {:induction false} PushPages(ls: seq<seq<nat>>, k: nat, h: nat)
    requires k < |ls|
    ensures ListPages(ls[k := [h] + ls[k]]) == ListPages(ls) + Pow2(k)
  {
    ListPagesUpdate(ls, k, [h] + ls[k]);
    ShiftAdd(|ls[k]|, 1, k);
  }

  lemma {:induction false} PopPages(ls: seq<seq<nat>>, k: nat, s: seq<nat>)
    requires k < |ls| && |ls[k]| == |s| + 1
    ensures ListPages(ls[k := s]) + Pow2(k) == ListPages(ls)
  {
    ListPagesUpdate(ls, k, s);
    ShiftAdd(|s|, 1, k);
  }

  /** list_pop of the list of order k. */
  lemma {:induction false} TakeKeeps(st: State, z: nat, k: nat)
    requires Valid(st) && z < ZONES && k <= MAX_ORDER && st.lists[z][k] != []
    ensures var s := st.lists[z][k];
      var st' := st.(lists := SetList(st.lists, z, k, s[1..]));
      && Floating(st', s[0]) && st.db[s[0]].order == k && ZoneOf(s[0]) == z
      && SameMeaning(st, st')
  {
    var s := st.lists[z][k];
    var st' := st.(lists := SetList(st.lists, z, k, s[1..]));
    assert Listed(st, -1, s[0], z, k);
    TakeLists(st, z, k);
    OnlyLists(st, st');
    PopPages(st.lists[z], k, s[1..]);
  }

  /** list_push of the floating block. */
  lemma {:induction false} PlaceKeeps(st: State, cur: nat)
    requires Floating(st, cur)
    requires st.db[cur].order < st.db[cur].maxOrder ==> !Mergeable(st, cur, FlipBit(cur, st.db[cur].order))
    ensures st.db[cur].order <= MAX_ORDER
    ensures var z, k := ZoneOf(cur), st.db[cur].order;
      var st' := st.(lists := SetList(st.lists, z, k, [cur] + st.lists[z][k]));
      Valid(st') && SameMeaning(st, st')
  {
    var z, k := ZoneOf(cur), st.db[cur].order;
    assert HeadOk(st, cur);
    var st' := st.(lists := SetList(st.lists, z, k, [cur] + st.lists[z][k]));
    PlaceLists(st, cur, z, k);
    OnlyLists(st, st');
    PushPages(st.lists[z], k, cur);
    forall h: nat, b: nat | Mergeable(st', h, b) ensures false {
      assert Mergeable(st, h, b);
      if b == cur { MergeableBack(st, h, b); }
    }
  }

  lemma {:induction false} MergeableBack(st: State, h: nat, b: nat)
    requires Tiled(st) && TopsWhole(st) && Mergeable(st, h, b)
    ensures Mergeable(st, b, h)
  {
    assert HeadOk(st, h);
    BuddyFacts(h, st.db[h].order);
    BuddyIsHead(st, h);
  }

  /** `st'` differs from `st` in the free flag of the head `cur` and in the counter of its zone. */
  ghost predicate Flagged(st: State, st': State, cur: nat, free: bool) {
    && Shaped(st) && Tiled(st) && TopsWhole(st) && IsHead(st, cur)
    && st'.owner == st.owner && st'.lists == st.lists && |st'.db| == |st.db| && |st'.freePages| == ZONES
    && st'.db[cur] == st.db[cur].(free := free)
    && (forall p: nat :: p < |st.db| && p != cur ==> st'.db[p] == st.db[p])
    && (forall z: nat :: z < ZONES && z != ZoneOf(cur) ==> st'.freePages[z] == st.freePages[z])
  }

  lemma {:induction false} FlaggedMeaning(st: State, st': State, cur: nat, free: bool, p: nat)
    requires Flagged(st, st', cur, free)
    ensures InBlock(st, cur, p) ==> (IsFree(st', p) <==> free) && p in st.owner
    ensures !InBlock(st, cur, p) ==> (IsFree(st', p) <==> IsFree(st, p))
  {
    if p in st.owner { assert Covered(st, p); }
  }

  lemma {:induction false} FlaggedGeometry(st: State, st': State, cur: nat, free: bool)
    requires Flagged(st, st', cur, free)
    ensures Shaped(st') && Tiled(st') && TopsWhole(st')
    ensures forall h: nat :: h != cur ==> (FreeHead(st', h) <==> FreeHead(st, h))
    ensures FreeHead(st', cur) <==> free
    ensures forall h: nat, b: nat :: h != cur && b != cur ==> (Mergeable(st', h, b) <==> Mergeable(st, h, b))
  {
    SameGeometry(st, st');
  }

  /** A block given out. */
  lemma {:induction false} GiveKeeps(st: State, st': State, cur: nat)
    requires Floating(st, cur) && Flagged(st, st', cur, false)
    requires st.freePages[ZoneOf(cur)] == st'.freePages[ZoneOf(cur)] + Pow2(st.db[cur].order)
    ensures Valid(st')
    ensures forall h: nat, k: nat :: LiveBlock(st', h, k) <==> LiveBlock(st, h, k) || (h == cur && k == st.db[cur].order)
  {
    FlaggedGeometry(st, st', cur, false);
    forall z', k', h: nat | 0 <= z' < ZONES && 0 <= k' <= MAX_ORDER
      ensures h in st'.lists[z'][k'] <==> Listed(st', -1, h, z', k')
    {
      assert h in st.lists[z'][k'] <==> Listed(st, cur, h, z', k');
    }
  }

  /** A live block handed back. */
  lemma {:induction false} ReturnKeeps(st: State, st': State, cur: nat)
    requires Valid(st) && Flagged(st, st', cur, true) && !st.db[cur].free
    requires st'.freePages[ZoneOf(cur)] == st.freePages[ZoneOf(cur)] + Pow2(st.db[cur].order)
    ensures Floating(st', cur)
    ensures forall h: nat, k: nat :: LiveBlock(st', h, k) <==> LiveBlock(st, h, k) && h != cur
  {
    FlaggedGeometry(st, st', cur, true);
    forall z', k', h: nat | 0 <= z' < ZONES && 0 <= k' <= MAX_ORDER
      ensures h in st'.lists[z'][k'] <==> Listed(st', cur, h, z', k')
    {
      assert h in st.lists[z'][k'] <==> Listed(st, -1, h, z', k');
    }
  }

  /** Tiling does not depend on the free flags. */
  lemma {:induction false} SameGeometry(st: State, st': State)
    requires Tiled(st) && TopsWhole(st)
    requires st'.owner == st.owner && |st'.db| == |st.db|
    requires forall p: nat :: 0 <= p < |st.db| ==> st'.db[p].order == st.db[p].order && st'.db[p].maxOrder == st.db[p].maxOrder
    ensures Tiled(st') && TopsWhole(st')
    ensures forall h: nat :: IsHead(st', h) <==> IsHead(st, h)
    ensures forall h: nat, p: nat :: InBlock(st', h, p) <==> InBlock(st, h, p)
  {
    assert forall h: nat :: IsHead(st', h) <==> IsHead(st, h);
    assert forall h: nat, p: nat :: InBlock(st', h, p) <==> InBlock(st, h, p);
    forall p: nat | p in st'.owner ensures Covered(st', p) { assert Covered(st, p); }
    forall h: nat | IsHead(st', h) ensures HeadOk(st', h) { assert HeadOk(st, h); }
    assert MaxOrders(st') == MaxOrders(st) && st'.owner.Keys == st.owner.Keys;
  }

  // ---------- splitting ----------

  lemma {:induction false} HalvesAligned(b: nat, j: nat)
    requires Aligned(b, j + 1)
    ensures var u := b + Pow2(j);
      Aligned(b, j) && Aligned(u, j) && FlipBit(b, j) == u && FlipBit(u, j) == b && Pow2(j + 1) == Pow2(j) + Pow2(j)
  {
    AlignedWeaken(b, j, j + 1);
    FlipIsBuddy(b, j);
    BuddyFacts(b, j);
  }

  /** Both halves of a block of order j + 1 are aligned blocks of order j inside it. */
  lemma {:induction false} SplitRoom(st: State, cur: nat)
    requires Tiled(st) && TopsWhole(st) && IsHead(st, cur) && st.db[cur].order > 0
    ensures var j := st.db[cur].order - 1; var u := cur + Pow2(j);
      && Aligned(cur, j) && Aligned(u, j) && FlipBit(cur, j) == u && FlipBit(u, j) == cur
      && InBlock(st, cur, u) && u in st.owner && u < |st.db| && st.owner[u] == cur && SameTop(st, cur, u)
      && Pow2(j + 1) == Pow2(j) + Pow2(j) && st.db[cur].order <= MAX_ORDER
  {
    var j := st.db[cur].order - 1;
    assert HeadOk(st, cur);
    HalvesAligned(cur, j);
    assert InBlock(st, cur, cur + Pow2(j));
    BlockInTop(st, cur, cur + Pow2(j));
  }

  /** `st'` has the block at `cur` cut in two; lists and counters aside. */
  ghost predicate CutAt(st: State, st': State, cur: nat, u: nat, j: nat) {
    && Tiled(st) && TopsWhole(st) && IsHead(st, cur) && st.db[cur].order == j + 1 && st.db[cur].order <= st.db[cur].maxOrder <= MAX_ORDER
    && u == cur + Pow2(j) && Aligned(cur, j) && Aligned(u, j)
    && u in st.owner && u < |st.db| && st.owner[u] == cur && SameTop(st, cur, u)
    && |st'.db| == |st.db| && st'.owner.Keys == st.owner.Keys
    && st'.db[cur] == st.db[cur].(order := j) && st'.db[u] == st.db[u].(order := j, free := true)
    && (forall p: nat :: p < |st.db| && p != cur && p != u ==> st'.db[p] == st.db[p])
    && (forall p: nat :: p in st.owner ==> st'.owner[p] == if u <= p < u + Pow2(j) then u else st.owner[p])
  }

  lemma {:induction false} CutBlock(st: State, st': State, cur: nat, u: nat, j: nat, p: nat)
    requires CutAt(st, st', cur, u, j)
    ensures cur <= p < u + Pow2(j) <==> InBlock(st, cur, p)
    ensures cur <= p < u <==> InBlock(st', cur, p)
    ensures u <= p < u + Pow2(j) <==> InBlock(st', u, p)
    ensures cur <= p < u + Pow2(j) ==> p in st.owner && st.owner[p] == cur
  {
    assert Pow2(j + 1) == 2 * Pow2(j);
  }

  lemma {:induction false} CutHeads(st: State, st': State, cur: nat, u: nat, j: nat)
    requires CutAt(st, st', cur, u, j)
    ensures forall h: nat :: IsHead(st', h) <==> IsHead(st, h) || h == u
    ensures !IsHead(st, u) && IsHead(st', cur)
  {
    forall h: nat ensures IsHead(st', h) <==> IsHead(st, h) || h == u {
      CutBlock(st, st', cur, u, j, h);
    }
  }

  lemma {:induction false} CutTiled(st: State, st': State, cur: nat, u: nat, j: nat)
    requires CutAt(st, st', cur, u, j)
    ensures Tiled(st') && TopsWhole(st')
  {
    CutHeads(st, st', cur, u, j);
    forall p: nat | p in st'.owner ensures Covered(st', p) {
      CutBlock(st, st', cur, u, j, p);
      assert Covered(st, p);
    }
    forall h: nat, p: nat | IsHead(st', h) && InBlock(st', h, p) ensures p in st'.owner && st'.owner[p] == h {
      CutBlock(st, st', cur, u, j, p);
      if h != u && h != cur { assert InBlock(st, h, p); }
    }
    forall h: nat | IsHead(st', h) ensures HeadOk(st', h) {
      if h != u && h != cur { assert HeadOk(st, h); }
    }
    assert MaxOrders(st') == MaxOrders(st);
  }

  lemma {:induction false} CutMeaning(st: State, st': State, cur: nat, u: nat, j: nat)
    requires CutAt(st, st', cur, u, j) && FreeHead(st, cur)
    ensures SameMeaning(st, st')
    ensures forall h: nat :: FreeHead(st', h) <==> FreeHead(st, h) || h == u
  {
    CutHeads(st, st', cur, u, j);
    forall p: nat ensures IsFree(st', p) <==> IsFree(st, p) {
      CutBlock(st, st', cur, u, j, p);
      if p in st.owner { assert Covered(st, p); }
    }
  }

  lemma {:induction false} CutCanonical(st: State, st': State, cur: nat, u: nat, j: nat)
    requires CutAt(st, st', cur, u, j) && FreeHead(st, cur) && Canonical(st, cur) && FlipBit(u, j) == cur && FlipBit(cur, j) == u
    ensures Canonical(st', cur)
  {
    CutMeaning(st, st', cur, u, j);
    forall h: nat, b: nat | Mergeable(st', h, b) && h != cur && b != cur ensures false {
      if h != u && b != u {
        assert Mergeable(st, h, b);
      } else if b == u {
        assert IsHead(st, h) && HeadOk(st, h);
        BuddyFacts(h, j);
      }
    }
  }

  lemma {:induction false} CutLists(st: State, st': State, cur: nat, u: nat, j: nat, z: nat)
    requires CutAt(st, st', cur, u, j) && FreeHead(st, cur) && ListsExact(st, cur) && z == ZoneOf(cur)
    requires st'.lists == SetList(st.lists, z, j, [u] + st.lists[z][j])
    ensures ListsExact(st', cur)
  {
    CutHeads(st, st', cur, u, j);
    CutMeaning(st, st', cur, u, j);
    assert u !in st.lists[z][j] by { assert !Listed(st, cur, u, z, j); }
    assert NoDup(st.lists[z][j]);
    forall z', k', h: nat | 0 <= z' < ZONES && 0 <= k' <= MAX_ORDER
      ensures h in st'.lists[z'][k'] <==> Listed(st', cur, h, z', k')
    {
      assert h in st.lists[z'][k'] <==> Listed(st, cur, h, z', k');
    }
    assert NoDup([u] + st.lists[z][j]);
  }

  lemma {:induction false} CutGood(st: State, st': State, cur: nat, u: nat, j: nat, z: nat)
    requires CutAt(st, st', cur, u, j) && Floating(st, cur) && z == ZoneOf(cur) && FlipBit(u, j) == cur && FlipBit(cur, j) == u
    requires st'.lists == SetList(st.lists, z, j, [u] + st.lists[z][j]) && st'.freePages == st.freePages
    ensures Floating(st', cur) && SameMeaning(st, st')
  {
    CutTiled(st, st', cur, u, j);
    CutMeaning(st, st', cur, u, j);
    CutLists(st, st', cur, u, j, z);
    CutCanonical(st, st', cur, u, j);
    assert Counted(st', cur) by {
      PushPages(st.lists[z], j, u);
      assert Pow2(j + 1) == 2 * Pow2(j);
    }
    assert Shaped(st') by {
      forall p: nat | p in st'.owner ensures p < |st'.db| && st'.owner[p] < |st'.db| { assert Covered(st', p); }
    }
  }

  // ---------- merging ----------

  /** `st'` has the free buddies at `lo` and `hi` joined into one block at `lo`; lists and counters aside. */
  ghost predicate JoinAt(st: State, st': State, lo: nat, hi: nat, k: nat) {
    && Tiled(st) && TopsWhole(st) && FreeHead(st, lo) && FreeHead(st, hi)
    && st.db[lo].order == k && st.db[hi].order == k && k < st.db[lo].maxOrder <= MAX_ORDER
    && hi == lo + Pow2(k) && Aligned(lo, k + 1) && SameTop(st, lo, hi)
    && |st'.db| == |st.db| && st'.owner.Keys == st.owner.Keys
    && st'.db[lo] == st.db[lo].(order := k + 1) && st'.db[hi] == st.db[hi].(order := k + 1)
    && (forall p: nat :: p < |st.db| && p != lo && p != hi ==> st'.db[p] == st.db[p])
    && (forall p: nat :: p in st.owner ==> st'.owner[p] == if hi <= p < hi + Pow2(k) then lo else st.owner[p])
  }

  /** A block and its free buddy are the halves of one aligned block. */
  lemma {:induction false} JoinFacts(st: State, cur: nat, b: nat)
    requires Floating(st, cur) && Mergeable(st, cur, b)
    ensures var k := st.db[cur].order; var lo, hi := if b < cur then b else cur, if b < cur then cur else b;
      && k < st.db[lo].maxOrder <= MAX_ORDER && hi == lo + Pow2(k) && Aligned(lo, k + 1) && SameTop(st, lo, hi) && cur != b
      && st.db[lo].maxOrder == st.db[cur].maxOrder && ZoneOf(lo) == ZoneOf(cur)
  {
    var k := st.db[cur].order;
    assert HeadOk(st, cur);
    BuddyIsHead(st, cur);
    BuddyFacts(cur, k);
    ParentAligned(cur, k);
  }

  lemma {:induction false} JoinBlock(st: State, st': State, lo: nat, hi: nat, k: nat, p: nat)
    requires JoinAt(st, st', lo, hi, k)
    ensures lo <= p < hi <==> InBlock(st, lo, p)
    ensures hi <= p < hi + Pow2(k) <==> InBlock(st, hi, p)
    ensures lo <= p < hi + Pow2(k) <==> InBlock(st', lo, p)
    ensures lo <= p < hi ==> p in st.owner && st.owner[p] == lo
    ensures hi <= p < hi + Pow2(k) ==> p in st.owner && st.owner[p] == hi
  {
    assert Pow2(k + 1) == 2 * Pow2(k);
  }

  lemma {:induction false} JoinHeads(st: State, st': State, lo: nat, hi: nat, k: nat)
    requires JoinAt(st, st', lo, hi, k)
    ensures forall h: nat :: IsHead(st', h) <==> IsHead(st, h) && h != hi
    ensures forall h: nat :: FreeHead(st', h) <==> FreeHead(st, h) && h != hi
    ensures lo != hi
  {
    forall h: nat ensures IsHead(st', h) <==> IsHead(st, h) && h != hi {
      JoinBlock(st, st', lo, hi, k, h);
    }
  }

  lemma {:induction false} JoinTiled(st: State, st': State, lo: nat, hi: nat, k: nat)
    requires JoinAt(st, st', lo, hi, k)
    ensures Tiled(st') && TopsWhole(st')
  {
    JoinHeads(st, st', lo, hi, k);
    forall p: nat | p in st'.owner ensures Covered(st', p) {
      JoinBlock(st, st', lo, hi, k, p);
      assert Covered(st, p);
    }
    forall h: nat, p: nat | IsHead(st', h) && InBlock(st', h, p) ensures p in st'.owner && st'.owner[p] == h {
      JoinBlock(st, st', lo, hi, k, p);
      if h != lo { assert InBlock(st, h, p); }
    }
    forall h: nat | IsHead(st', h) ensures HeadOk(st', h) {
      if h != lo { assert HeadOk(st, h); }
    }
    assert MaxOrders(st') == MaxOrders(st);
  }

  lemma {:induction false} JoinMeaning(st: State, st': State, lo: nat, hi: nat, k: nat)
    requires JoinAt(st, st', lo, hi, k)
    ensures SameMeaning(st, st')
  {
    JoinHeads(st, st', lo, hi, k);
    forall p: nat ensures IsFree(st', p) <==> IsFree(st, p) {
      JoinBlock(st, st', lo, hi, k, p);
      if p in st.owner { assert Covered(st, p); }
    }
  }

  lemma {:induction false} JoinLists(st: State, st': State, lo: nat, hi: nat, k: nat, cur: nat, b: nat, z: nat)
    requires JoinAt(st, st', lo, hi, k) && ListsExact(st, cur) && {cur, b} == {lo, hi} && cur != b && z == ZoneOf(cur)
    requires st'.lists == SetList(st.lists, z, k, Delete(st.lists[z][k], b))
    ensures b in st.lists[z][k] && ListsExact(st', lo)
  {
    JoinHeads(st, st', lo, hi, k);
    assert cur == lo || cur == hi;
    assert b == lo || b == hi;
    assert lo in {cur, b} && hi in {cur, b};
    assert NoDup(st.lists[z][k]);
    assert b in st.lists[z][k] by { assert Listed(st, cur, b, z, k); }
    DeleteHas(st.lists[z][k], b);
    forall z', k', h: nat | 0 <= z' < ZONES && 0 <= k' <= MAX_ORDER
      ensures h in st'.lists[z'][k'] <==> Listed(st', lo, h, z', k')
    {
      assert h in st.lists[z'][k'] <==> Listed(st, cur, h, z', k');
    }
  }

  lemma {:induction false} JoinCanonical(st: State, st': State, lo: nat, hi: nat, k: nat, cur: nat)
    requires JoinAt(st, st', lo, hi, k) && Canonical(st, cur) && (cur == lo || cur == hi)
    ensures Canonical(st', lo)
  {
    JoinHeads(st, st', lo, hi, k);
    forall h: nat, b: nat | Mergeable(st', h, b) && h != lo && b != lo ensures false {
      assert Mergeable(st, h, b);
    }
  }

  lemma {:induction false} JoinGood(st: State, st': State, lo: nat, hi: nat, k: nat, cur: nat, b: nat, z: nat)
    requires JoinAt(st, st', lo, hi, k) && Floating(st, cur) && {cur, b} == {lo, hi} && cur != b && z == ZoneOf(cur)
    requires st'.lists == SetList(st.lists, z, k, Delete(st.lists[z][k], b)) && st'.freePages == st.freePages
    ensures Floating(st', lo) && SameMeaning(st, st')
  {
    assert lo in {cur, b} && hi in {cur, b} && cur in {lo, hi};
    JoinHeads(st, st', lo, hi, k);
    JoinTiled(st, st', lo, hi, k);
    JoinMeaning(st, st', lo, hi, k);
    JoinLists(st, st', lo, hi, k, cur, b, z);
    JoinCanonical(st, st', lo, hi, k, cur);
    assert NoDup(st.lists[z][k]);
    JoinCounted(st, st', lo, hi, k, cur, b, z);
    assert Shaped(st') by {
      forall p: nat | p in st'.owner ensures p < |st'.db| && st'.owner[p] < |st'.db| { assert Covered(st', p); }
    }
  }

  lemma {:induction false} JoinCounted(st: State, st': State, lo: nat, hi: nat, k: nat, cur: nat, b: nat, z: nat)
    requires JoinAt(st, st', lo, hi, k) && Counted(st, cur) && (cur == lo || cur == hi) && z == ZoneOf(cur)
    requires |st.lists[z]| == MAX_ORDER + 1 && b in st.lists[z][k] && NoDup(st.lists[z][k])
    requires st'.lists == SetList(st.lists, z, k, Delete(st.lists[z][k], b)) && st'.freePages == st.freePages
    ensures Counted(st', lo)
  {
    DeleteHas(st.lists[z][k], b);
    PopPages(st.lists[z], k, Delete(st.lists[z][k], b));
    assert Pow2(k + 1) == 2 * Pow2(k);
  }

  // ---------- whole calls ----------

  /** Block `b` of order `k`, all of whose pages were free, is live; nothing else changed. */
  ghost predicate Granted(st: State, st': State, b: nat, k: nat) {
    && st'.owner.Keys == st.owner.Keys && MaxOrders(st') == MaxOrders(st)
    && (forall p: nat :: b <= p < b + Pow2(k) ==> IsFree(st, p))
    && (forall p: nat :: IsFree(st', p) <==> IsFree(st, p) && !(b <= p < b + Pow2(k)))
    && (forall h: nat, j: nat :: LiveBlock(st', h, j) <==> LiveBlock(st, h, j) || (h == b && j == k))
  }

  /** Giving back is the reverse of granting. */
  lemma {:induction false} ReturnedAfter(st: State, v: State, st': State, b: nat, k: nat)
    requires Flagged(st, v, b, true) && !st.db[b].free && st.db[b].order == k && SameMeaning(v, st')
    requires forall h: nat, j: nat :: LiveBlock(v, h, j) <==> LiveBlock(st, h, j) && h != b
    ensures Granted(st', st, b, k)
  {
    assert MaxOrders(st') == MaxOrders(st);
    forall p: nat ensures IsFree(st, p) <==> IsFree(st', p) && !(b <= p < b + Pow2(k)) {
      FlaggedMeaning(st, v, b, true, p);
      if p in st.owner { assert Covered(st, p); }
    }
    forall p: nat | b <= p < b + Pow2(k) ensures IsFree(st', p) {
      FlaggedMeaning(st, v, b, true, p);
    }
    forall h: nat, j: nat ensures LiveBlock(st, h, j) <==> LiveBlock(st', h, j) || (h == b && j == k) {
      assert LiveBlock(v, h, j) <==> LiveBlock(st', h, j);
    }
  }

  /** No free block of order `order` or more. */
  ghost predicate Exhausted(lists: seq<seq<seq<nat>>>, zone: nat, order: nat) {
    forall k: nat :: zone < |lists| && order <= k < |lists[zone]| ==> lists[zone][k] == []
  }

  lemma {:induction false} SameMeaningTrans(a: State, b: State, c: State)
    requires SameMeaning(a, b) && SameMeaning(b, c)
    ensures SameMeaning(a, c)
  {
  }

  lemma {:induction false} GrantedAfter(st: State, v: State, st': State, b: nat, k: nat)
    requires SameMeaning(st, v) && Flagged(v, st', b, false) && FreeHead(v, b) && v.db[b].order == k
    requires forall h: nat, j: nat :: LiveBlock(st', h, j) <==> LiveBlock(v, h, j) || (h == b && j == k)
    ensures Granted(st, st', b, k)
  {
    assert MaxOrders(st') == MaxOrders(st);
    forall p: nat ensures IsFree(st', p) <==> IsFree(st, p) && !(b <= p < b + Pow2(k)) {
      FlaggedMeaning(v, st', b, false, p);
    }
    forall p: nat | b <= p < b + Pow2(k) ensures IsFree(st, p) {
      assert InBlock(v, b, p);
      assert IsFree(v, p);
    }
  }

  // ---------- adding memory ----------

  /** Number of bits needed to write n. */
  function BitLength(n: nat): nat {
    if n == 0 then 0 else 1 + BitLength(n / 2)
  }

  lemma {:induction false} BitLengthBounds(n: nat)
    ensures n < Pow2(BitLength(n)) && (n > 0 ==> Pow2(BitLength(n) - 1) <= n)
  {
    if n > 0 { BitLengthBounds(n / 2); }
  }

  /** pagecount_to_order: the smallest order that holds `pages` pages; the wrap of 0 - 1 gives 64. */
  function PageCountToOrder(pages: nat): (r: nat)
    ensures pages > 0 ==> pages <= Pow2(r) && forall o: nat :: pages <= Pow2(o) ==> r <= o
  {
    if pages == 0 then 64
    else if pages == 1 then 0
    else
      BitLengthBounds(pages - 1);
      OrderIsSmallest(pages, BitLength(pages - 1));
      BitLength(pages - 1)
  }

  lemma {:induction false} OrderIsSmallest(pages: nat, r: nat)
    requires r > 0 && Pow2(r - 1) < pages
    ensures forall o: nat :: pages <= Pow2(o) ==> r <= o
  {
    forall o: nat | pages <= Pow2(o) ensures r <= o {
      if o < r { Pow2Monotone(o, r - 1); }
    }
  }

  /** `st'` manages one more aligned range of `Pow2(m)` pages, each a live block of order 0. */
  ghost predicate Added(st: State, st': State, b: nat, m: nat) {
    && Aligned(b, m) && m <= MAX_ORDER && b + Pow2(m) <= |st.db| && |st'.db| == |st.db|
    && (forall p: nat :: b <= p < b + Pow2(m) ==> p !in st.owner && ZoneOf(p) == ZoneOf(b))
    && st'.lists == st.lists && st'.freePages == st.freePages
    && (forall p: nat :: p in st'.owner <==> p in st.owner || b <= p < b + Pow2(m))
    && (forall p: nat :: p in st.owner ==> st'.owner[p] == st.owner[p])
    && (forall p: nat :: b <= p < b + Pow2(m) ==> st'.owner[p] == p && st'.db[p] == Page(0, m, false))
    && (forall p: nat :: p < |st.db| && !(b <= p < b + Pow2(m)) ==> st'.db[p] == st.db[p])
  }

  lemma {:induction false} AddedHeads(st: State, st': State, b: nat, m: nat, h: nat)
    requires Shaped(st) && Tiled(st) && Added(st, st', b, m)
    ensures IsHead(st', h) <==> IsHead(st, h) || b <= h < b + Pow2(m)
    ensures FreeHead(st', h) <==> FreeHead(st, h)
    ensures IsHead(st, h) ==> st'.db[h] == st.db[h]
  {
  }

  lemma {:induction false} AddedTiled(st: State, st': State, b: nat, m: nat)
    requires Shaped(st) && Tiled(st) && Added(st, st', b, m)
    ensures Tiled(st') && Shaped(st')
  {
    forall p: nat | p in st'.owner ensures Covered(st', p) && p < |st'.db| && st'.owner[p] < |st'.db| {
      if p in st.owner {
        assert Covered(st, p);
        AddedHeads(st, st', b, m, st.owner[p]);
      }
    }
    forall h: nat, p: nat | IsHead(st', h) && InBlock(st', h, p) ensures p in st'.owner && st'.owner[p] == h {
      AddedHeads(st, st', b, m, h);
      if IsHead(st, h) { assert InBlock(st, h, p); }
    }
    forall h: nat | IsHead(st', h) ensures HeadOk(st', h) {
      AddedHeads(st, st', b, m, h);
      if IsHead(st, h) { assert HeadOk(st, h); }
    }
  }

  lemma {:induction false} AddedTop(st: State, st': State, b: nat, m: nat, p: nat, q: nat)
    requires Added(st, st', b, m) && b <= p < b + Pow2(m) && InTop(st'.db[p].maxOrder, p, q)
    ensures q in st'.owner && q < |st'.db| && st'.db[q].maxOrder == st'.db[p].maxOrder && ZoneOf(q) == ZoneOf(p)
  {
    FloorUnique(b, m, p);
  }

  lemma {:induction false} AddedTops(st: State, st': State, b: nat, m: nat)
    requires Shaped(st) && TopsWhole(st) && Added(st, st', b, m)
    ensures TopsWhole(st')
  {
    var o, o' := MaxOrders(st), MaxOrders(st');
    forall p: nat, q: nat | p in st'.owner.Keys && p < |o'| && InTop(o'[p], p, q)
      ensures q in st'.owner.Keys && q < |o'| && o'[q] == o'[p] && ZoneOf(q) == ZoneOf(p)
    {
      if p in st.owner {
        assert o'[p] == o[p];
        assert InTop(o[p], p, q);
      } else {
        AddedTop(st, st', b, m, p, q);
      }
    }
  }

  /** Adding memory that nobody holds yet keeps the invariant and the free pages; the new pages are live. */
  lemma {:induction false} AddedKeeps(st: State, st': State, b: nat, m: nat)
    requires Valid(st) && Added(st, st', b, m)
    ensures Valid(st')
    ensures forall p: nat :: IsFree(st', p) <==> IsFree(st, p)
    ensures forall h: nat, k: nat :: LiveBlock(st', h, k) <==> LiveBlock(st, h, k) || (b <= h < b + Pow2(m) && k == 0)
  {
    AddedTiled(st, st', b, m);
    AddedTops(st, st', b, m);
    forall z', k', h: nat | 0 <= z' < ZONES && 0 <= k' <= MAX_ORDER
      ensures h in st'.lists[z'][k'] <==> Listed(st', -1, h, z', k')
    {
      AddedHeads(st, st', b, m, h);
      assert h in st.lists[z'][k'] <==> Listed(st, -1, h, z', k');
    }
    forall h: nat, c: nat | Mergeable(st', h, c) ensures h == -1 || c == -1 {
      AddedHeads(st, st', b, m, h);
      AddedHeads(st, st', b, m, c);
      assert Mergeable(st, h, c);
    }
    forall p: nat ensures IsFree(st', p) <==> IsFree(st, p) {
      if p in st.owner {
        assert Covered(st, p);
        AddedHeads(st, st', b, m, st.owner[p]);
      }
    }
    forall h: nat, k: nat
      ensures LiveBlock(st', h, k) <==> LiveBlock(st, h, k) || (b <= h < b + Pow2(m) && k == 0)
    {
      AddedHeads(st, st', b, m, h);
    }
  }

  /** Pages [start, start + count) are new: each is a live block of its own, in a maximal block that stays inside the range. */
  ghost predicate Grown(st: State, st': State, start: nat, count: nat, end: nat) {
    && st'.lists == st.lists && st'.freePages == st.freePages && |st'.db| == |st.db|
    && (forall p: nat :: p in st'.owner <==> p in st.owner || start <= p < start + count)
    && (forall p: nat :: start <= p < start + count ==> NewPage(st', start, count, end, p))
    && (forall p: nat :: p in st.owner && p < |st.db| ==> st'.owner[p] == st.owner[p] && st'.db[p] == st.db[p])
  }

  /** An aligned block of order o at b ends by `end`. */
  ghost predicate Room(b: nat, o: nat, end: nat) { o <= MAX_ORDER && Aligned(b, o) && b + Pow2(o) <= end }

  /** Page p is a live single page of a maximal block in [start, start + count), and the block is the largest at its place that ends by `end`. */
  ghost predicate NewPage(st: State, start: nat, count: nat, end: nat, p: nat) {
    && p in st.owner && st.owner[p] == p && p < |st.db|
    && var m := st.db[p].maxOrder;
      && st.db[p] == Page(0, m, false) && m <= MAX_ORDER && start <= Floor(p, m) && Floor(p, m) + Pow2(m) <= start + count
      && forall o: nat {:trigger Room(Floor(p, m), o, end)} :: Room(Floor(p, m), o, end) ==> o <= m
  }

  lemma {:induction false} GrownFurther(st: State, v: State, st': State, start: nat, j: nat, m: nat, end: nat)
    requires Grown(st, v, start, j, end) && Added(v, st', start + j, m)
    requires forall o: nat {:trigger Room(start + j, o, end)} :: Room(start + j, o, end) ==> o <= m
    ensures Grown(st, st', start, j + Pow2(m), end)
  {
    var c := j + Pow2(m);
    forall p: nat | start <= p < start + c ensures NewPage(st', start, c, end, p) {
      if p < start + j {
        assert NewPage(v, start, j, end, p);
      } else {
        FloorUnique(start + j, m, p);
        assert Floor(p, st'.db[p].maxOrder) == start + j;
      }
    }
  }

  /** Pages of an aligned block of up to 128 pages that was added as a whole can merge up to that block. */
  lemma {:induction false} WholeBlocksMerge(st: State, start: nat, count: nat, end: nat, p: nat, o: nat)
    requires Tiled(st) && TopsWhole(st) && end == start + count && o <= MAX_ORDER && start <= Floor(p, o) && Floor(p, o) + Pow2(o) <= end
    requires forall q: nat :: start <= q < end ==> NewPage(st, start, count, end, q)
    ensures p < |st.db| && o <= st.db[p].maxOrder
  {
    var a := Floor(p, o);
    FloorAligned(p, o);
    assert NewPage(st, start, count, end, a) && NewPage(st, start, count, end, p);
    var m := st.db[a].maxOrder;
    if m < o {
      AlignedWeaken(a, m, o);
      FloorUnique(a, m, a);
      assert Room(a, o, end);
    } else {
      FloorAligned(a, m);
      Nested(a, o, Floor(a, m), m);
      assert MaxOrders(st)[a] == m && InTop(MaxOrders(st)[a], a, p);
    }
  }

  lemma {:induction false} NoPages(st: State)
    requires st.owner == map[] && st.freePages == [0, 0]
    requires st.lists == [[[], [], [], [], [], [], [], []], [[], [], [], [], [], [], [], []]]
    ensures Valid(st)
  {
    forall z, k | 0 <= z < ZONES && 0 <= k <= MAX_ORDER ensures st.lists[z][k] == [] {}
    EmptyPages(st.lists[0]);
    EmptyPages(st.lists[1]);
  }

  lemma {:induction false} EmptyPages(ls: seq<seq<nat>>)
    requires forall k :: 0 <= k < |ls| ==> ls[k] == []
    ensures ListPages(ls) == 0
  {
    if ls != [] {
      EmptyPages(ls[..|ls| - 1]);
      ShiftAdd(0, 0, |ls| - 1);
    }
  }
}
