/**
 memory/pmm.c: the buddy allocator over a page database updated in place. Each call is
 one step: locks are not modelled.
 */
module Pmm {
  import opened Basics
  import opened Blocks
  import opened PmmModel

  /** The page whose address is that of page p with the bit of a block of this order flipped. */
  function BuddyPage(p: nat, order: nat): (b: nat)
    ensures b == FlipBit(p, order)
  {
    FlipShifted(p, order, PAGE_BITS);
    PageAddress(p);
    PageAddress(FlipBit(p, order));
    FlipBit(p * PAGE_SIZE, order + PAGE_BITS) / PAGE_SIZE
  }

  lemma {:induction false} PageAddress(p: nat)
    ensures Shift(p, PAGE_BITS) == p * PAGE_SIZE
  {
    assert Shift(p, 12) == 2 * Shift(p, 11) && Shift(p, 11) == 2 * Shift(p, 10) && Shift(p, 10) == 2 * Shift(p, 9);
    assert Shift(p, 9) == 2 * Shift(p, 8) && Shift(p, 8) == 2 * Shift(p, 7) && Shift(p, 7) == 2 * Shift(p, 6);
    assert Shift(p, 6) == 2 * Shift(p, 5) && Shift(p, 5) == 2 * Shift(p, 4) && Shift(p, 4) == 2 * Shift(p, 3);
    assert Shift(p, 3) == 2 * Shift(p, 2) && Shift(p, 2) == 2 * Shift(p, 1) && Shift(p, 1) == 2 * Shift(p, 0);
  }

  /** Order k is the smallest from `order` up with a free block: no block is split that need not be. */
  ghost predicate BestFit(lists: seq<seq<seq<nat>>>, zone: nat, order: nat, k: nat) {
    zone < |lists| && order <= k < |lists[zone]| && lists[zone][k] != [] && forall i: nat :: order <= i < k ==> lists[zone][i] == []
  }

  predicate Fitting(remaining: nat, order: nat) { order <= MAX_ORDER && Pow2(order) <= remaining }

  class Pmm {
    const db: array<Page>
    var lists: seq<seq<seq<nat>>>
    var freePages: seq<nat>
    ghost var owner: map<nat, nat>

    /** A page database of `pages` entries, none of them managed yet. */
    constructor (pages: nat)
      ensures Valid() && fresh(db) && owner == map[] && db.Length == pages
    {
      db := new Page[pages](_ => Page(0, 0, false));
      lists := [[[], [], [], [], [], [], [], []], [[], [], [], [], [], [], [], []]];
      freePages := [0, 0];
      owner := map[];
      new;
      NoPages(St());
    }

    ghost function St(): State
      reads this, db
    {
      State(db[..], lists, freePages, owner)
    }

    ghost predicate Valid()
      reads this, db
    {
      PmmModel.Valid(St())
    }

    /** The state in which the block taken from the lists has order `k`, which is written back only at the end. */
    ghost function WithOrder(block: nat, k: nat): State
      reads this, db
      requires block < db.Length
    {
      St().(db := db[..][block := db[block].(order := k)])
    }

    /** The writes of one round of the split loop. */
    method WriteUpper(block: nat, j: nat, buddy: nat, zone: nat, ghost v: State) returns (ghost v': State)
      requires block < db.Length && buddy < db.Length && block != buddy && v == WithOrder(block, j + 1)
      requires zone < |lists| && j < |lists[zone]|
      modifies this, db
      ensures v' == WithOrder(block, j) && |v'.db| == |v.db| && v'.owner.Keys == v.owner.Keys
      ensures v'.db[block] == v.db[block].(order := j) && v'.db[buddy] == v.db[buddy].(order := j, free := true)
      ensures forall p: nat :: p < |v.db| && p != block && p != buddy ==> v'.db[p] == v.db[p]
      ensures forall p: nat :: p in v.owner ==> v'.owner[p] == if buddy <= p < buddy + Pow2(j) then buddy else v.owner[p]
      ensures v'.lists == SetList(v.lists, zone, j, [buddy] + v.lists[zone][j]) && v'.freePages == v.freePages
    {
      db[buddy] := db[buddy].(order := j, free := true);
      lists := SetList(lists, zone, j, [buddy] + lists[zone][j]);
      owner := map p | p in owner :: if buddy <= p < buddy + Pow2(j) then buddy else owner[p];
      v' := WithOrder(block, j);
    }

    /** One round of the split loop: the upper half goes to the list below. */
    method SplitOff(block: nat, k: nat, ghost v: State) returns (ghost v': State)
      requires block < db.Length && k > 0 && v == WithOrder(block, k) && Floating(v, block)
      modifies this, db
      ensures v' == WithOrder(block, k - 1) && Floating(v', block) && SameMeaning(v, v')
    {
      SplitRoom(v, block);
      var j := k - 1;
      var buddy := block + Pow2(j);
      var zone := ZoneOf(block);
      assert HeadOk(v, block);
      v' := WriteUpper(block, j, buddy, zone, v);
      assert CutAt(v, v', block, buddy, j);
      CutGood(v, v', block, buddy, j, zone);
    }

    /** The split loop. */
    method SplitTo(block: nat, start: nat, order: nat, ghost v0: State) returns (ghost v: State)
      requires block < db.Length && order <= start && v0 == WithOrder(block, start) && Floating(v0, block)
      modifies this, db
      ensures v == WithOrder(block, order) && Floating(v, block) && SameMeaning(v0, v)
    {
      var k := start;
      v := v0;
      while k > order
        invariant order <= k && v == WithOrder(block, k)
        invariant Floating(v, block)
        invariant SameMeaning(v0, v)
      {
        ghost var w := SplitOff(block, k, v);
        SameMeaningTrans(v0, v, w);
        v, k := w, k - 1;
      }
    }

    /** The smallest order from `order` up with a free block, or MAX_ORDER + 1. */
    method FindOrder(order: nat, zone: nat) returns (k: nat)
      requires Valid() && order <= MAX_ORDER && zone < ZONES
      ensures order <= k <= MAX_ORDER + 1 && (k <= MAX_ORDER ==> lists[zone][k] != [])
      ensures forall i: nat :: order <= i < k ==> lists[zone][i] == []
    {
      k := order;
      while k <= MAX_ORDER && lists[zone][k] == []
        invariant order <= k <= MAX_ORDER + 1
        invariant forall i: nat :: order <= i < k ==> lists[zone][i] == []
      {
        k := k + 1;
      }
    }

    /** list_pop on the list of order k. */
    method Take(zone: nat, k: nat) returns (block: nat, ghost v: State)
      requires Valid() && zone < ZONES && k <= MAX_ORDER && lists[zone][k] != []
      modifies this`lists
      ensures block == old(lists)[zone][k][0] && block < db.Length && ZoneOf(block) == zone
      ensures v == WithOrder(block, k) && Floating(v, block) && SameMeaning(old(St()), v)
    {
      TakeKeeps(St(), zone, k);
      block := lists[zone][k][0];
      lists := SetList(lists, zone, k, lists[zone][k][1..]);
      v := WithOrder(block, k);
      assert v == St();
    }

    /** The end of pmm_alloc: the block leaves the free pages. */
    method Give(block: nat, order: nat, zone: nat, ghost st: State, ghost v: State)
      requires block < db.Length && ZoneOf(block) == zone && v == WithOrder(block, order)
      requires Floating(v, block) && SameMeaning(st, v)
      modifies this, db
      ensures Valid() && Granted(st, St(), block, order)
    {
      db[block] := db[block].(order := order, free := false);
      freePages := freePages[zone := freePages[zone] - Pow2(order)];
      assert Flagged(v, St(), block, false);
      GiveKeeps(v, St(), block);
      GrantedAfter(st, v, St(), block, order);
    }

    /** pmm_alloc; None stands for the panic when no list from `order` up holds a block. */
    method Alloc(order: nat, zone: nat) returns (r: Option<nat>)
      requires Valid() && order <= MAX_ORDER && zone < ZONES
      modifies this, db
      ensures Valid()
      ensures r.None? <==> Exhausted(old(lists), zone, order)
      ensures r.None? ==> St() == old(St())
      ensures r.Some? ==> ZoneOf(r.value) == zone && Granted(old(St()), St(), r.value, order)
      ensures r.Some? ==> exists k: nat :: BestFit(old(lists), zone, order, k) && r.value == old(lists)[zone][k][0]
    {
      ghost var st := St();
      var available := FindOrder(order, zone);
      if available > MAX_ORDER { return None; }
      assert !Exhausted(lists, zone, order);
      var block;
      ghost var v, w;
      block, v := Take(zone, available);
      w := SplitTo(block, available, order, v);
      SameMeaningTrans(st, v, w);
      Give(block, order, zone, st, w);
      assert BestFit(old(lists), zone, order, available);
      r := Some(block);
    }

    /** One round of the merge loop: `cur` and its free buddy become one block. */
    method Join(cur: nat, buddy: nat, zone: nat, ghost v: State) returns (lo: nat, ghost v': State)
      requires v == St() && Floating(v, cur) && zone == ZoneOf(cur)
      requires db[cur].order < db[cur].maxOrder && Mergeable(v, cur, buddy)
      modifies this, db
      ensures v' == St() && Floating(v', lo) && SameMeaning(v, v')
      ensures ZoneOf(lo) == zone && db[lo].maxOrder == old(db[cur].maxOrder) && db[lo].order == old(db[cur].order) + 1
    {
      var k := db[cur].order;
      JoinFacts(v, cur, buddy);
      lists := SetList(lists, zone, k, Delete(lists[zone][k], buddy));
      db[buddy] := db[buddy].(order := k + 1);
      db[cur] := db[cur].(order := k + 1);
      lo := if buddy < cur then buddy else cur;
      ghost var hi := if buddy < cur then cur else buddy;
      owner := map p | p in owner :: if hi <= p < hi + Pow2(k) then lo else owner[p];
      v' := St();
      assert JoinAt(v, v', lo, hi, k);
      JoinGood(v, v', lo, hi, k, cur, buddy, zone);
    }

    /** The merge loop. */
    method JoinUp(block: nat, zone: nat, ghost v0: State) returns (cur: nat, ghost v: State)
      requires v0 == St() && Floating(v0, block) && zone == ZoneOf(block)
      modifies this, db
      ensures v == St() && Floating(v, cur) && SameMeaning(v0, v) && zone == ZoneOf(cur)
      ensures db[cur].order < db[cur].maxOrder ==> !Mergeable(v, cur, FlipBit(cur, db[cur].order))
    {
      cur, v := block, v0;
      while db[cur].order < db[cur].maxOrder
        invariant v == St() && zone == ZoneOf(cur)
        invariant Floating(v, cur)
        invariant SameMeaning(v0, v)
        decreases db[cur].maxOrder - db[cur].order
      {
        BuddyIsHead(v, cur);
        var buddy := BuddyPage(cur, db[cur].order);
        if !db[buddy].free || db[buddy].order == db[buddy].maxOrder || db[buddy].order != db[cur].order { return; }
        ghost var w;
        cur, w := Join(cur, buddy, zone, v);
        SameMeaningTrans(v0, v, w);
        v := w;
      }
    }

    /** pmm_free of a live block. */
    method Free(block: nat)
      requires Valid() && block < db.Length && LiveBlock(St(), block, db[block].order)
      modifies this, db
      ensures Valid() && Granted(St(), old(St()), block, old(db[block].order))
    {
      ghost var st := St();
      var zone := ZoneOf(block);
      freePages := freePages[zone := freePages[zone] + Pow2(db[block].order)];
      db[block] := db[block].(free := true);
      ghost var v0 := St();
      assert Flagged(st, v0, block, true);
      ReturnKeeps(st, v0, block);
      var cur;
      ghost var v;
      cur, v := JoinUp(block, zone, v0);
      PlaceKeeps(v, cur);
      lists := SetList(lists, zone, db[cur].order, [cur] + lists[zone][db[cur].order]);
      SameMeaningTrans(v0, v, St());
      ReturnedAfter(st, v0, St(), block, st.db[block].order);
    }

    /** The largest order whose block is no longer than what remains. */
    method LargestOrder(remaining: nat) returns (order: nat)
      requires remaining > 0
      ensures Fitting(remaining, order)
      ensures forall o: nat {:trigger Fitting(remaining, o)} :: Fitting(remaining, o) ==> o <= order
    {
      order := PageCountToOrder(remaining);
      if order > MAX_ORDER { order := MAX_ORDER; }
      forall o: nat | Fitting(remaining, o) ensures o <= order {
        if o > order { Pow2Monotone(order, o); }
      }
      while Pow2(order) > remaining
        invariant order <= MAX_ORDER
        invariant forall o: nat {:trigger Fitting(remaining, o)} :: Fitting(remaining, o) ==> o <= order
        decreases order
      {
        assert order != 0;
        order := order - 1;
      }
    }

    /** The order pmm_region_add gives the next block: the largest that fits and is aligned. */
    method ChooseOrder(page: nat, remaining: nat) returns (order: nat)
      requires remaining > 0
      ensures Fitting(remaining, order) && Aligned(page, order)
      ensures forall o: nat {:trigger Fitting(remaining, o)} :: Fitting(remaining, o) && Aligned(page, o) ==> o <= order
    {
      order := LargestOrder(remaining);
      while !Aligned(page, order)
        invariant Fitting(remaining, order)
        invariant forall o: nat {:trigger Fitting(remaining, o)} :: Fitting(remaining, o) && Aligned(page, o) ==> o <= order
        decreases order
      {
        assert order != 0;
        order := order - 1;
      }
    }

    /** Initialises the pages of one block. */
    method AddBlock(b: nat, m: nat, ghost z: nat)
      requires Valid() && Aligned(b, m) && m <= MAX_ORDER && b + Pow2(m) <= db.Length
      requires forall p: nat :: b <= p < b + Pow2(m) ==> p !in owner && ZoneOf(p) == z
      modifies db, this`owner
      ensures Valid() && Added(old(St()), St(), b, m)
    {
      ghost var st := St();
      FillBlock(b, m);
      owner := map p: nat | p < db.Length && (p in owner || b <= p < b + Pow2(m)) :: if p in owner then owner[p] else p;
      AddedKeeps(st, St(), b, m);
    }

    /** The inner loop of pmm_region_add. */
    method FillBlock(b: nat, m: nat)
      requires b + Pow2(m) <= db.Length
      modifies db
      ensures forall p: nat :: b <= p < b + Pow2(m) ==> db[p] == Page(0, m, false)
      ensures forall p: nat :: p < db.Length && !(b <= p < b + Pow2(m)) ==> db[p] == old(db[p])
    {
      for y := 0 to Pow2(m)
        invariant forall p: nat :: b <= p < b + y ==> db[p] == Page(0, m, false)
        invariant forall p: nat :: p < db.Length && !(b <= p < b + y) ==> db[p] == old(db[p])
      {
        db[b + y] := Page(0, m, false);
      }
    }

    /** One block of the loop below. */
    method AddNext(ghost st: State, start: nat, count: nat, j: nat) returns (next: nat)
      requires Valid() && start + count <= db.Length && j < count && Grown(st, St(), start, j, start + count)
      requires forall p: nat :: start + j <= p < start + count ==> p !in owner && ZoneOf(p) == ZoneOf(start)
      modifies db, this`owner
      ensures Valid() && j < next <= count && Grown(st, St(), start, next, start + count)
    {
      var order := ChooseOrder(start + j, count - j);
      next := j + Pow2(order);
      ghost var page, end := start + j, start + count;
      forall o: nat | Room(page, o, end) ensures o <= order { assert Fitting(count - j, o); }
      AddGrown(st, start, j, order, end);
    }

    /** The next block of the range. */
    method AddGrown(ghost st: State, start: nat, j: nat, order: nat, ghost end: nat)
      requires Valid() && Fitting(db.Length, order) && start + j + Pow2(order) <= db.Length && Aligned(start + j, order)
      requires Grown(st, St(), start, j, end) && forall o: nat {:trigger Room(start + j, o, end)} :: Room(start + j, o, end) ==> o <= order
      requires forall p: nat :: start + j <= p < start + j + Pow2(order) ==> p !in owner && ZoneOf(p) == ZoneOf(start)
      modifies db, this`owner
      ensures Valid() && Grown(st, St(), start, j + Pow2(order), end)
    {
      ghost var v := St();
      AddBlock(start + j, order, ZoneOf(start));
      ghost var w := St();
      GrownFurther(st, v, w, start, j, order, end);
    }

    /** The block loop of pmm_region_add for the part of a region inside one zone. */
    method AddPages(start: nat, count: nat)
      requires Valid() && start + count <= db.Length
      requires forall p: nat :: start <= p < start + count ==> p !in owner && ZoneOf(p) == ZoneOf(start)
      modifies db, this`owner
      ensures Valid() && Grown(old(St()), St(), start, count, start + count)
    {
      ghost var st := St();
      var j := 0;
      while j < count
        invariant j <= count && Valid() && Grown(st, St(), start, j, start + count)
      {
        j := AddNext(st, start, count, j);
      }
    }

    /** The part of a region in zone z; st is the state when the call began. */
    method AddZone(base: nat, size: nat, z: nat, ghost st: State)
      requires Valid() && base + size < ADDRESS_SPACE && base + size <= db.Length * PAGE_SIZE
      requires z < ZONES && !Crooked(base, size, z) && ZonesAdded(st, St(), base, size, z)
      requires forall p: nat :: p > 0 && Whole(base, size, p) ==> p !in st.owner
      modifies db, this`owner
      ensures Valid() && ZonesAdded(st, St(), base, size, z + 1)
    {
      ghost var v := St();
      ClipFacts(base, size, z);
      ZonePages(st, v, base, size, z, db.Length);
      if ClipCount(base, size, z) > 0 { AddPages(ClipStart(base, z), ClipCount(base, size, z)); }
      ZoneAdded(st, v, St(), base, size, z);
    }

    /**
     pmm_region_add with is_free == false: the part of the region inside each zone joins as live single pages.
     False stands for the failed assertion of the alignment loop, on a region that is not page aligned.
     */
    method RegionAdd(base: nat, size: nat) returns (ok: bool)
      requires Valid() && base + size < ADDRESS_SPACE && base + size <= db.Length * PAGE_SIZE
      requires forall p: nat :: p > 0 && Whole(base, size, p) ==> p !in owner
      modifies db, this`owner
      ensures Valid() && lists == old(lists) && freePages == old(freePages)
      ensures ok <==> !Crooked(base, size, 0) && !Crooked(base, size, 1)
      ensures ok ==> forall p: nat :: p in owner <==> p in old(owner) || (p > 0 && Whole(base, size, p))
      ensures ok ==> forall p: nat :: p > 0 && Whole(base, size, p) ==> NewIn(St(), base, size, ZoneOf(p), p)
    {
      ghost var st := St();
      for z := 0 to ZONES
        invariant Valid() && ZonesAdded(st, St(), base, size, z)
        invariant forall y: nat {:trigger Crooked(base, size, y)} :: y < z ==> !Crooked(base, size, y)
      {
        if Crooked(base, size, z) { return false; }
        AddZone(base, size, z, st);
      }
      BothZones(st, St(), base, size);
      return true;
    }
  }

  /** The parts of a region in the first `n` zones have joined. */
  ghost predicate ZonesAdded(st: State, st': State, base: nat, size: nat, n: nat) {
    && st'.lists == st.lists && st'.freePages == st.freePages && |st'.db| == |st.db|
    && (forall p: nat :: p in st'.owner <==> p in st.owner || (n > 0 && InClip(base, size, 0, p)) || (n > 1 && InClip(base, size, 1, p)))
    && (n > 0 ==> ZoneNew(st', base, size, 0)) && (n > 1 ==> ZoneNew(st', base, size, 1))
  }

  ghost predicate ZoneNew(st: State, base: nat, size: nat, z: nat) {
    forall p: nat {:trigger NewIn(st, base, size, z, p)} {:trigger InClip(base, size, z, p)} :: InClip(base, size, z, p) ==> NewIn(st, base, size, z, p) && ZoneOf(p) == z
  }

  /** A new page of the part of a region in zone z. */
  ghost predicate NewIn(st: State, base: nat, size: nat, z: nat, p: nat) {
    NewPage(st, ClipStart(base, z), ClipCount(base, size, z), ClipStart(base, z) + ClipCount(base, size, z), p)
  }

  /** All of page p lies in the region. */
  predicate Whole(base: nat, size: nat, p: nat) { base <= p * PAGE_SIZE && (p + 1) * PAGE_SIZE <= base + size }

  /** The pages that joined are the whole pages of the region but for page 0. */
  lemma {:induction false} BothZones(st: State, st': State, base: nat, size: nat)
    requires ZonesAdded(st, st', base, size, ZONES) && !Crooked(base, size, 0) && !Crooked(base, size, 1) && base + size < ADDRESS_SPACE
    ensures forall p: nat :: p in st'.owner <==> p in st.owner || (p > 0 && Whole(base, size, p))
    ensures forall p: nat :: p > 0 && Whole(base, size, p) ==> NewIn(st', base, size, ZoneOf(p), p)
  {
    ClipFacts(base, size, 0);
    ClipFacts(base, size, 1);
    forall p: nat | p > 0 && Whole(base, size, p) ensures InClip(base, size, ZoneOf(p), p) {}
  }

  /** The pages of the next zone are in the page database and not managed yet. */
  lemma {:induction false} ZonePages(st: State, v: State, base: nat, size: nat, z: nat, pages: nat)
    requires z < ZONES && ZonesAdded(st, v, base, size, z) && !Crooked(base, size, z) && base + size < ADDRESS_SPACE && base + size <= pages * PAGE_SIZE
    requires forall p: nat :: p > 0 && Whole(base, size, p) ==> p !in st.owner
    ensures var start, count := ClipStart(base, z), ClipCount(base, size, z);
      && (count > 0 ==> start + count <= pages)
      && forall p: nat :: start <= p < start + count ==> p !in v.owner && ZoneOf(p) == ZoneOf(start)
  {
    var start, count := ClipStart(base, z), ClipCount(base, size, z);
    ClipFacts(base, size, z);
    if z > 0 && !Crooked(base, size, 0) { ClipFacts(base, size, 0); }
    if count > 0 { assert InClip(base, size, z, start) && InClip(base, size, z, start + count - 1); }
    forall p: nat | start <= p < start + count ensures p !in v.owner && ZoneOf(p) == ZoneOf(start) {
      assert InClip(base, size, z, p);
    }
  }

  lemma {:induction false} NewStays(v: State, st': State, base: nat, size: nat, z: nat, p: nat)
    requires NewIn(v, base, size, z, p) && p in st'.owner && st'.owner[p] == p && p < |st'.db| && st'.db[p] == v.db[p]
    ensures NewIn(st', base, size, z, p)
  {
  }

  lemma {:induction false} ZoneAdded(st: State, v: State, st': State, base: nat, size: nat, z: nat)
    requires z < ZONES && ZonesAdded(st, v, base, size, z) && !Crooked(base, size, z) && base + size < ADDRESS_SPACE
    requires Grown(v, st', ClipStart(base, z), ClipCount(base, size, z), ClipStart(base, z) + ClipCount(base, size, z))
    ensures ZonesAdded(st, st', base, size, z + 1)
  {
    ZoneIsNew(v, st', base, size, z);
    if z == 1 {
      forall p: nat | InClip(base, size, 0, p) ensures NewIn(st', base, size, 0, p) && ZoneOf(p) == 0 {
        assert NewIn(v, base, size, 0, p);
        NewStays(v, st', base, size, 0, p);
      }
    }
  }

  lemma {:induction false} ZoneIsNew(v: State, st': State, base: nat, size: nat, z: nat)
    requires z < ZONES && !Crooked(base, size, z) && base + size < ADDRESS_SPACE
    requires Grown(v, st', ClipStart(base, z), ClipCount(base, size, z), ClipStart(base, z) + ClipCount(base, size, z))
    ensures ZoneNew(st', base, size, z)
  {
    var start, count := ClipStart(base, z), ClipCount(base, size, z);
    forall p: nat | InClip(base, size, z, p) ensures NewIn(st', base, size, z, p) && ZoneOf(p) == z {
      assert NewPage(st', start, count, start + count, p);
      InZone(base, size, z, p);
    }
  }

  lemma {:induction false} InZone(base: nat, size: nat, z: nat, p: nat)
    requires z < ZONES && !Crooked(base, size, z) && base + size < ADDRESS_SPACE && InClip(base, size, z, p)
    ensures ZoneOf(p) == z
  {
    ClipFacts(base, size, z);
  }

  const PAGE_SIZE: nat := 4096
  const PAGE_BITS: nat := 12
  const ADDRESS_SPACE: nat := 0x1_0000_0000_0000_0000

  function ZoneStart(z: nat): nat { if z == 0 then 1 else LOW_PAGES }
  function ZoneEnd(z: nat): nat { if z == 0 then LOW_PAGES else (ADDRESS_SPACE - 1) / PAGE_SIZE }

  /** First page of the region inside zone z. */
  function ClipStart(base: nat, z: nat): nat {
    if base < ZoneStart(z) * PAGE_SIZE then ZoneStart(z) else base / PAGE_SIZE
  }

  /** Number of whole pages of the region inside zone z. */
  function ClipCount(base: nat, size: nat, z: nat): nat {
    if base + size <= ZoneStart(z) * PAGE_SIZE || base >= ZoneEnd(z) * PAGE_SIZE then 0
    else
      var localBase := if base < ZoneStart(z) * PAGE_SIZE then ZoneStart(z) * PAGE_SIZE else base;
      var localEnd := if base + size > ZoneEnd(z) * PAGE_SIZE then ZoneEnd(z) * PAGE_SIZE else base + size;
      if localEnd < localBase then 0 else (localEnd - localBase) / PAGE_SIZE
  }

  /** The region has pages in zone z, but starts in the middle of one. */
  predicate Crooked(base: nat, size: nat, z: nat) {
    base >= ZoneStart(z) * PAGE_SIZE && base % PAGE_SIZE != 0 && ClipCount(base, size, z) > 0
  }

  ghost predicate InClip(base: nat, size: nat, z: nat, p: nat) {
    ClipStart(base, z) <= p < ClipStart(base, z) + ClipCount(base, size, z)
  }

  /** The clipped range holds exactly the region's whole pages in the zone, page 0 apart. */
  lemma {:induction false} ClipFacts(base: nat, size: nat, z: nat)
    requires z < ZONES && !Crooked(base, size, z) && base + size < ADDRESS_SPACE
    ensures forall p: nat {:trigger InClip(base, size, z, p)} :: InClip(base, size, z, p) <==> p > 0 && ZoneOf(p) == z && Whole(base, size, p)
  {
  }

  /** Pages whose aligned block of up to 128 pages lies in one region and one zone can merge up to that block. */
  lemma {:induction false} RegionBlocksMerge(st: State, base: nat, size: nat, p: nat, o: nat)
    requires PmmModel.Valid(st) && base + size < ADDRESS_SPACE && !Crooked(base, size, 0) && !Crooked(base, size, 1)
    requires forall q: nat :: q > 0 && Whole(base, size, q) ==> NewIn(st, base, size, ZoneOf(q), q)
    requires o <= MAX_ORDER && forall q: nat :: Floor(p, o) <= q < Floor(p, o) + Pow2(o) ==> q > 0 && Whole(base, size, q) && ZoneOf(q) == ZoneOf(p)
    ensures p < |st.db| && o <= st.db[p].maxOrder
  {
    var z := ZoneOf(p);
    var start, count := ClipStart(base, z), ClipCount(base, size, z);
    ClipFacts(base, size, z);
    FloorAligned(p, o);
    forall q: nat | Floor(p, o) <= q < Floor(p, o) + Pow2(o) ensures InClip(base, size, z, q) { assert Whole(base, size, q); }
    assert InClip(base, size, z, Floor(p, o)) && InClip(base, size, z, Floor(p, o) + Pow2(o) - 1);
    var end := start + count;
    forall q: nat | start <= q < end ensures NewPage(st, start, count, end, q) {
      assert InClip(base, size, z, q);
      assert NewIn(st, base, size, z, q);
    }
    WholeBlocksMerge(st, start, count, end, p, o);
  }
}
