/**
 What the allocator's invariant means: the lists are exactly the maximal aligned blocks of
 free pages, so they depend on the set of free pages alone.
 */
module PmmTheorems {
  import opened Basics
  import opened Blocks
  import opened PmmModel

  ghost predicate AllFree(st: State, b: nat, k: nat) {
    forall p: nat :: b <= p < b + Pow2(k) ==> IsFree(st, p)
  }

  /** The part of the invariant that speaks of blocks only. */
  ghost predicate Settled(st: State) { Tiled(st) && TopsWhole(st) && Canonical(st, -1) }

  /** An aligned block of free pages that no larger one inside the same maximal block contains. */
  ghost predicate MaximalFree(st: State, h: nat, k: nat) {
    && h in st.owner && h < |st.db| && k <= st.db[h].maxOrder && Aligned(h, k) && AllFree(st, h, k)
    && (k == st.db[h].maxOrder || !AllFree(st, Parent(h, k), k + 1))
  }

  /** The block `g` of order `j` spans [b, b + 2^k). */
  ghost predicate Spans(st: State, g: nat, b: nat, k: nat) {
    FreeHead(st, g) && g <= b && b + Pow2(k) <= g + Pow2(st.db[g].order)
  }

  /** A spanning block of the same order is that range; a larger one spans the parent as well. */
  lemma {:induction false} SpanOrder(st: State, g: nat, b: nat, k: nat)
    requires Tiled(st) && Spans(st, g, b, k) && Aligned(b, k)
    ensures k <= st.db[g].order
    ensures k == st.db[g].order ==> g == b
    ensures k < st.db[g].order ==> Spans(st, g, Parent(b, k), k + 1)
  {
    assert HeadOk(st, g);
    var j := st.db[g].order;
    if j < k { Pow2Monotone(j, k); assert false; }
    if k < j { EnclosesParent(g, j, b, k); }
  }

  lemma {:induction false} SpanOwner(st: State, g: nat, b: nat, k: nat, p: nat)
    requires Tiled(st) && Spans(st, g, b, k) && b <= p < b + Pow2(k)
    ensures p in st.owner && st.owner[p] == g
  {
    assert InBlock(st, g, p);
  }

  lemma {:induction false} SpanAllFree(st: State, g: nat, b: nat, k: nat)
    requires Tiled(st) && Spans(st, g, b, k)
    ensures AllFree(st, b, k)
  {
    forall p: nat | b <= p < b + Pow2(k) ensures IsFree(st, p) { SpanOwner(st, g, b, k, p); }
  }

  /** In a canonical state an aligned range of free pages lies in one free block. */
  lemma {:induction false} FreeRangeInOneBlock(st: State, b: nat, k: nat)
    requires Settled(st) && b in st.owner && b < |st.db| && k <= st.db[b].maxOrder && Aligned(b, k) && AllFree(st, b, k)
    ensures Spans(st, st.owner[b], b, k)
    decreases k
  {
    if k == 0 {
      assert IsFree(st, b) && Covered(st, b);
    } else {
      var j := k - 1;
      var u := b + Pow2(j);
      UpperHalf(st, b, k);
      FreeRangeInOneBlock(st, b, j);
      FreeRangeInOneBlock(st, u, j);
      HalvesInOneBlock(st, b, u, j);
    }
  }

  lemma {:induction false} UpperHalf(st: State, b: nat, k: nat)
    requires TopsWhole(st) && b in st.owner && b < |st.db| && 0 < k <= st.db[b].maxOrder && Aligned(b, k) && AllFree(st, b, k)
    ensures var j := k - 1; var u := b + Pow2(j);
      && Aligned(b, j) && Aligned(u, j) && SameTop(st, b, u) && AllFree(st, b, j) && AllFree(st, u, j)
  {
    var j := k - 1;
    assert Pow2(k) == 2 * Pow2(j);
    AlignedWeaken(b, j, k);
    UpperAligned(b, j);
    RangeInTop(st, b, b, k, b + Pow2(j));
  }

  lemma {:induction false} HalvesInOneBlock(st: State, b: nat, u: nat, j: nat)
    requires Settled(st) && b in st.owner && u in st.owner && u == b + Pow2(j) && Aligned(b, j + 1) && Aligned(b, j) && Aligned(u, j)
    requires b < |st.db| && j < st.db[b].maxOrder && SameTop(st, b, u)
    requires Spans(st, st.owner[b], b, j) && Spans(st, st.owner[u], u, j)
    ensures Spans(st, st.owner[b], b, j + 1)
  {
    var g, g' := st.owner[b], st.owner[u];
    SiblingHalves(b, u, j);
    SpanOrder(st, g, b, j);
    SpanOrder(st, g', u, j);
    if st.db[g].order == j && st.db[g'].order == j {
      assert Mergeable(st, b, u);
      assert false;
    }
    assert st.db[g'].order > j ==> InBlock(st, g', b);
  }

  lemma {:induction false} SiblingHalves(b: nat, u: nat, j: nat)
    requires u == b + Pow2(j) && Aligned(b, j + 1) && Aligned(b, j)
    ensures FlipBit(b, j) == u && Parent(b, j) == b && Parent(u, j) == b && Pow2(j + 1) == 2 * Pow2(j)
  {
    ParentHalves(b, j);
    BuddyFacts(b, j);
    FlipIsBuddy(b, j);
  }

  /** The free lists hold exactly the maximal aligned blocks of free pages, each in its zone's list of its order. */
  lemma {:induction false} ListsHoldMaximalBlocks(st: State, z: nat, k: nat, h: nat)
    requires Valid(st) && z < ZONES && k <= MAX_ORDER
    ensures h in st.lists[z][k] <==> ZoneOf(h) == z && MaximalFree(st, h, k)
  {
    assert h in st.lists[z][k] <==> Listed(st, -1, h, z, k);
    if h in st.lists[z][k] { ListedIsMaximal(st, h, k); }
    if ZoneOf(h) == z && MaximalFree(st, h, k) { MaximalIsListed(st, h, k); }
  }

  lemma {:induction false} ListedIsMaximal(st: State, h: nat, k: nat)
    requires Settled(st) && FreeHead(st, h) && st.db[h].order == k
    ensures MaximalFree(st, h, k)
  {
    assert HeadOk(st, h);
    forall p: nat | h <= p < h + Pow2(k) ensures IsFree(st, p) { assert InBlock(st, h, p); }
    if k < st.db[h].maxOrder { ParentNotAllFree(st, h, k); }
  }

  lemma {:induction false} ParentNotAllFree(st: State, h: nat, k: nat)
    requires Settled(st) && FreeHead(st, h) && st.db[h].order == k < st.db[h].maxOrder
    ensures !AllFree(st, Parent(h, k), k + 1)
  {
    var a := Parent(h, k);
    ParentAligned(h, k);
    RangeInTop(st, h, a, k + 1, a);
    NotSpanned(st, st.owner[a], h, k, a);
    if AllFree(st, a, k + 1) { FreeRangeInOneBlock(st, a, k + 1); }
  }

  /** A range wider than a block inside it is spanned by no block. */
  lemma {:induction false} NotSpanned(st: State, g: nat, h: nat, k: nat, a: nat)
    requires Tiled(st) && IsHead(st, h) && st.db[h].order == k && a <= h < a + Pow2(k + 1)
    ensures !Spans(st, g, a, k + 1)
  {
    assert Pow2(k + 1) == 2 * Pow2(k);
    if Spans(st, g, a, k + 1) { assert InBlock(st, g, h); }
  }

  lemma {:induction false} MaximalIsListed(st: State, h: nat, k: nat)
    requires Settled(st) && MaximalFree(st, h, k)
    ensures FreeHead(st, h) && st.db[h].order == k
  {
    FreeRangeInOneBlock(st, h, k);
    var g := st.owner[h];
    SpanOrder(st, g, h, k);
    assert HeadOk(st, g) && InBlock(st, g, h);
    BlockInTop(st, g, h);
    if k < st.db[g].order { SpanAllFree(st, g, Parent(h, k), k + 1); }
  }

  /** Same managed pages and maximal blocks, and the same pages free. */
  ghost predicate SameFree(st: State, st': State) {
    && st'.owner.Keys == st.owner.Keys && |st'.db| == |st.db|
    && (forall p: nat :: p < |st.db| ==> st'.db[p].maxOrder == st.db[p].maxOrder)
    && (forall p: nat :: IsFree(st', p) <==> IsFree(st, p))
  }

  /** The lists and the counters are a function of the free pages: how they came to be free does not matter. */
  lemma {:induction false} FreeSetDetermines(st: State, st': State)
    requires Valid(st) && Valid(st') && SameFree(st, st')
    ensures forall z, k, h: nat :: 0 <= z < ZONES && 0 <= k <= MAX_ORDER ==> (h in st'.lists[z][k] <==> h in st.lists[z][k])
    ensures st'.freePages == st.freePages
  {
    forall z, k, h: nat | 0 <= z < ZONES && 0 <= k <= MAX_ORDER
      ensures h in st'.lists[z][k] <==> h in st.lists[z][k]
    {
      ListsHoldMaximalBlocks(st, z, k, h);
      ListsHoldMaximalBlocks(st', z, k, h);
      MaximalAgrees(st, st', h, k);
    }
    forall z | 0 <= z < ZONES ensures st'.freePages[z] == st.freePages[z] {
      forall k | 0 <= k <= MAX_ORDER ensures |st'.lists[z][k]| == |st.lists[z][k]| {
        assert NoDup(st.lists[z][k]) && NoDup(st'.lists[z][k]);
        SameElementsSameLength(st.lists[z][k], st'.lists[z][k]);
      }
      SameLengthsSamePages(st.lists[z], st'.lists[z]);
    }
  }

  lemma {:induction false} MaximalAgrees(st: State, st': State, h: nat, k: nat)
    requires SameFree(st, st')
    ensures MaximalFree(st', h, k) <==> MaximalFree(st, h, k)
  {
    assert AllFree(st', h, k) <==> AllFree(st, h, k);
    assert AllFree(st', Parent(h, k), k + 1) <==> AllFree(st, Parent(h, k), k + 1);
  }

  lemma {:induction false} SameElementsSameLength(s: seq<nat>, t: seq<nat>)
    requires NoDup(s) && NoDup(t) && forall h: nat :: h in s <==> h in t
    ensures |s| == |t|
  {
    var a, b := Elements(s), Elements(t);
    assert a == b;
    DistinctCount(s);
    DistinctCount(t);
  }

  function Elements(s: seq<nat>): set<nat> { set h | h in s }

  lemma {:induction false} DistinctCount(s: seq<nat>)
    requires NoDup(s)
    ensures |Elements(s)| == |s|
  {
    if s != [] {
      assert NoDup(s[1..]);
      DistinctCount(s[1..]);
      TailHas(s, s[0]);
      assert s == [s[0]] + s[1..];
      assert Elements(s) == {s[0]} + Elements(s[1..]);
    }
  }

  lemma {:induction false} SameLengthsSamePages(ls: seq<seq<nat>>, ls': seq<seq<nat>>)
    requires |ls| == |ls'| && forall k :: 0 <= k < |ls| ==> |ls'[k]| == |ls[k]|
    ensures ListPages(ls') == ListPages(ls)
  {
    if ls != [] { SameLengthsSamePages(ls[..|ls| - 1], ls'[..|ls| - 1]); }
  }

  /** Live blocks never share a page, with each other or with a free one. */
  lemma {:induction false} LiveBlocksDisjoint(st: State, h: nat, k: nat, p: nat)
    requires Valid(st) && LiveBlock(st, h, k) && h <= p < h + Pow2(k)
    ensures !IsFree(st, p)
    ensures forall h': nat, k': nat :: LiveBlock(st, h', k') && h' <= p < h' + Pow2(k') ==> h' == h
  {
    assert InBlock(st, h, p);
    forall h': nat, k': nat | LiveBlock(st, h', k') && h' <= p < h' + Pow2(k') ensures h' == h {
      assert InBlock(st, h', p);
    }
  }

  /** The pages that are not free are those of the live blocks. */
  lemma {:induction false} FreeIsNotLive(st: State, p: nat)
    requires Valid(st) && p in st.owner
    ensures !IsFree(st, p) <==> exists h: nat, k: nat :: LiveBlock(st, h, k) && h <= p < h + Pow2(k)
  {
    var g := st.owner[p];
    assert Covered(st, p);
    if !IsFree(st, p) { assert LiveBlock(st, g, st.db[g].order); }
    forall h: nat, k: nat | LiveBlock(st, h, k) && h <= p < h + Pow2(k) ensures !IsFree(st, p) {
      assert InBlock(st, h, p);
    }
  }

  /** Two states with the same live blocks have the same free lists, whatever the order of calls that led there. */
  lemma {:induction false} LiveBlocksDetermine(st: State, st': State)
    requires Valid(st) && Valid(st') && st'.owner.Keys == st.owner.Keys && |st'.db| == |st.db|
    requires forall p: nat :: p < |st.db| ==> st'.db[p].maxOrder == st.db[p].maxOrder
    requires forall h: nat, k: nat :: LiveBlock(st', h, k) <==> LiveBlock(st, h, k)
    ensures forall z, k, h: nat :: 0 <= z < ZONES && 0 <= k <= MAX_ORDER ==> (h in st'.lists[z][k] <==> h in st.lists[z][k])
    ensures st'.freePages == st.freePages
  {
    forall p: nat ensures IsFree(st', p) <==> IsFree(st, p) {
      if p in st.owner {
        FreeIsNotLive(st, p);
        FreeIsNotLive(st', p);
      }
    }
    FreeSetDetermines(st, st');
  }

  /** Allocating a block and freeing it again restores the free pages, the lists and the counters. */
  lemma {:induction false} AllocThenFree(st: State, mid: State, st': State, b: nat, k: nat)
    requires Valid(st) && Valid(st') && Granted(st, mid, b, k) && Granted(st', mid, b, k) && |st.db| == |st'.db|
    ensures SameFree(st, st') && st'.freePages == st.freePages
    ensures forall z, k, h: nat :: 0 <= z < ZONES && 0 <= k <= MAX_ORDER ==> (h in st'.lists[z][k] <==> h in st.lists[z][k])
  {
    forall p: nat | p < |st.db| ensures st'.db[p].maxOrder == st.db[p].maxOrder {
      assert MaxOrders(st)[p] == MaxOrders(st')[p];
    }
    FreeSetDetermines(st, st');
  }

  /** Two blocks freed in either order leave the same lists and counters. */
  lemma {:induction false} FreesCommute(st: State, x: State, xy: State, y: State, yx: State, a: nat, i: nat, b: nat, j: nat)
    requires Valid(xy) && Valid(yx) && |xy.db| == |yx.db|
    requires Granted(x, st, a, i) && Granted(xy, x, b, j)
    requires Granted(y, st, b, j) && Granted(yx, y, a, i)
    ensures SameFree(xy, yx) && xy.freePages == yx.freePages
    ensures forall z, k, h: nat :: 0 <= z < ZONES && 0 <= k <= MAX_ORDER ==> (h in yx.lists[z][k] <==> h in xy.lists[z][k])
  {
    forall p: nat | p < |xy.db| ensures yx.db[p].maxOrder == xy.db[p].maxOrder {
      assert MaxOrders(xy)[p] == MaxOrders(yx)[p];
    }
    FreeSetDetermines(xy, yx);
  }
}
