/**
 The clean-up loop of an unmap over several regions, and exactly when it does what it should.
 */
module VmTheorems {
  import opened Basics
  import opened VmModel

  // ---------- unmapping several regions ----------

  datatype Outcome = Done(regions: seq<Region>) | Undefined

  /**
   The loop of rewrite_common for a deletion, on the regions that start at or after `cur`.
   `end - base` is unsigned: for a region past the end it wraps and is clipped to the whole
   region. A tail that would have to be cloned is cloned at an uninitialised address.
   */
  function UnmapTail(b: seq<Region>, cur: nat, end: nat): Outcome {
    if cur >= end || b == [] then Done(b)
    else if b[0].base <= end < b[0].End() then Undefined
    else UnmapTail(b[1..], b[0].End(), end)
  }

  ghost predicate From(b: seq<Region>, cur: nat, lo: nat, hi: nat) {
    Wf(b, lo, hi) && forall i :: 0 <= i < |b| ==> cur <= b[i].base
  }

  /** What a caller can check: no region crosses the end, and one ends there or none starts there or later. */
  ghost predicate EndsCleanly(b: seq<Region>, end: nat) {
    && (forall i :: 0 <= i < |b| && b[i].base < end ==> b[i].End() <= end)
    && ((exists i :: 0 <= i < |b| && b[i].End() == end) || (forall i :: 0 <= i < |b| ==> b[i].base < end))
  }

  /** Exactly the addresses in [cur, end) are gone. */
  ghost predicate RemovedRange(b: seq<Region>, b': seq<Region>, cur: nat, end: nat) {
    forall x: nat :: Lookup(b', x) == if cur <= x < end then None else Lookup(b, x)
  }

  lemma {:induction false} FromTail(b: seq<Region>, cur: nat, lo: nat, hi: nat)
    requires From(b, cur, lo, hi) && b != []
    ensures From(b[1..], b[0].End(), lo, hi) && RegionOk(b[0], lo, hi)
  {
    SliceKeeps(b, 1, lo, hi);
    forall i | 0 <= i < |b| - 1 ensures b[0].End() <= b[1..][i].base { assert b[0].End() <= b[i + 1].base; }
  }

  /** The loop removes exactly the range if and only if the ends are clean (or nothing is left to do). */
  lemma {:induction false} UnmapTailExact(b: seq<Region>, cur: nat, end: nat, lo: nat, hi: nat)
    requires From(b, cur, lo, hi)
    ensures (UnmapTail(b, cur, end).Done? && RemovedRange(b, UnmapTail(b, cur, end).regions, cur, end))
            <==> cur >= end || EndsCleanly(b, end)
  {
    if cur >= end || EndsCleanly(b, end) { CleanIsExact(b, cur, end, lo, hi); }
    else { UncleanIsWrong(b, cur, end, lo, hi); }
  }

  lemma {:induction false} CleanIsExact(b: seq<Region>, cur: nat, end: nat, lo: nat, hi: nat)
    requires From(b, cur, lo, hi) && (cur >= end || EndsCleanly(b, end))
    ensures UnmapTail(b, cur, end).Done? && RemovedRange(b, UnmapTail(b, cur, end).regions, cur, end)
    ensures From(UnmapTail(b, cur, end).regions, cur, lo, hi)
    ensures Coalesced(b) ==> Coalesced(UnmapTail(b, cur, end).regions)
    decreases |b|
  {
    if cur < end && b != [] {
      FromTail(b, cur, lo, hi);
      var r, t := b[0], b[1..];
      CleanTail(b, cur, end, lo, hi);
      CleanIsExact(t, r.End(), end, lo, hi);
      SliceKeeps(b, 1, lo, hi);
      var t' := UnmapTail(t, r.End(), end).regions;
      forall x: nat ensures Lookup(t', x) == if cur <= x < end then None else Lookup(b, x) {
        assert Lookup(t', x) == if r.End() <= x < end then None else Lookup(t, x);
        if x < r.End() { LookupBelow(t, r.End(), x, lo, hi); }
      }
    }
  }

  /** What remains is untouched, or starts strictly later. */
  lemma {:induction false} TailLater(b: seq<Region>, cur: nat, end: nat, lo: nat, hi: nat)
    requires From(b, cur, lo, hi) && UnmapTail(b, cur, end).Done?
    ensures var b' := UnmapTail(b, cur, end).regions;
      b' == b || forall i :: 0 <= i < |b'| ==> cur < b'[i].base
    decreases |b|
  {
    if cur < end && b != [] {
      FromTail(b, cur, lo, hi);
      TailLater(b[1..], b[0].End(), end, lo, hi);
    }
  }

  lemma {:induction false} LookupBelow(b: seq<Region>, cur: nat, x: nat, lo: nat, hi: nat)
    requires From(b, cur, lo, hi) && x < cur
    ensures Lookup(b, x) == None
  {
    LookupNone(b, x);
  }

  lemma {:induction false} CleanTail(b: seq<Region>, cur: nat, end: nat, lo: nat, hi: nat)
    requires From(b, cur, lo, hi) && b != [] && cur < end && EndsCleanly(b, end)
    ensures b[0].End() <= end && (b[0].End() >= end || EndsCleanly(b[1..], end))
  {
    assert RegionOk(b[0], lo, hi);
    if i :| 0 <= i < |b| && b[i].End() == end {
      assert RegionOk(b[i], lo, hi);
      if i > 0 {
        assert b[0].End() <= b[i].base;
        assert b[1..][i - 1].End() == end;
      }
    }
    forall i | 0 <= i < |b| - 1 && b[1..][i].base < end ensures b[1..][i].End() <= end { assert b[i + 1].End() <= end; }
  }

  /** Otherwise the loop clones at an undefined address or deletes a region past the end. */
  lemma {:induction false} UncleanIsWrong(b: seq<Region>, cur: nat, end: nat, lo: nat, hi: nat)
    requires From(b, cur, lo, hi) && cur < end && !EndsCleanly(b, end)
    ensures UnmapTail(b, cur, end).Done? ==> !RemovedRange(b, UnmapTail(b, cur, end).regions, cur, end)
    decreases |b|
  {
    if b != [] && !(b[0].base <= end < b[0].End()) {
      FromTail(b, cur, lo, hi);
      var r, t := b[0], b[1..];
      if r.base > end {
        DeletesBeyond(b, cur, end, lo, hi);
      } else {
        UncleanTail(b, cur, end, lo, hi);
        UncleanIsWrong(t, r.End(), end, lo, hi);
        if UnmapTail(t, r.End(), end).Done? { WrongStays(b, cur, end, lo, hi); }
      }
    }
  }

  lemma {:induction false} DeletesBeyond(b: seq<Region>, cur: nat, end: nat, lo: nat, hi: nat)
    requires From(b, cur, lo, hi) && cur < end && b != [] && b[0].base > end
    ensures UnmapTail(b, cur, end) == Done(b[1..]) && !RemovedRange(b, b[1..], cur, end)
  {
    FromTail(b, cur, lo, hi);
    var x := b[0].base;
    LookupBelow(b[1..], b[0].End(), x, lo, hi);
    LookupIndex(b, 0, x);
    assert Lookup(b[1..], x) != Lookup(b, x);
  }

  lemma {:induction false} UncleanTail(b: seq<Region>, cur: nat, end: nat, lo: nat, hi: nat)
    requires From(b, cur, lo, hi) && b != [] && b[0].base <= end && b[0].End() <= end && !EndsCleanly(b, end)
    ensures b[0].End() < end && !EndsCleanly(b[1..], end)
  {
    assert RegionOk(b[0], lo, hi);
    if b[0].End() == end { CleanAtEnd(b, end); }
    if EndsCleanly(b[1..], end) { CleanLift(b, end); }
  }

  lemma {:induction false} CleanAtEnd(b: seq<Region>, end: nat)
    requires b != [] && Sep(b) && b[0].End() == end
    ensures EndsCleanly(b, end)
  {
    assert b[0].End() == end;
  }

  lemma {:induction false} CleanLift(b: seq<Region>, end: nat)
    requires b != [] && b[0].base < end && b[0].End() <= end && EndsCleanly(b[1..], end)
    ensures EndsCleanly(b, end)
  {
    forall i | 0 <= i < |b| && b[i].base < end ensures b[i].End() <= end { if i > 0 { assert b[1..][i - 1] == b[i]; } }
    if j :| 0 <= j < |b[1..]| && b[1..][j].End() == end {
      assert b[j + 1].End() == end;
    } else {
      forall i | 0 <= i < |b| ensures b[i].base < end { if i > 0 { assert b[1..][i - 1] == b[i]; } }
    }
  }

  lemma {:induction false} WrongStays(b: seq<Region>, cur: nat, end: nat, lo: nat, hi: nat)
    requires From(b, cur, lo, hi) && b != [] && cur < end && b[0].End() < end && UnmapTail(b[1..], b[0].End(), end).Done?
    requires !RemovedRange(b[1..], UnmapTail(b[1..], b[0].End(), end).regions, b[0].End(), end)
    ensures !RemovedRange(b, UnmapTail(b[1..], b[0].End(), end).regions, cur, end)
  {
    FromTail(b, cur, lo, hi);
    var r, t := b[0], b[1..];
    var t' := UnmapTail(t, r.End(), end).regions;
    var x: nat :| Lookup(t', x) != if r.End() <= x < end then None else Lookup(t, x);
    if x < r.End() { LookupBelow(t, r.End(), x, lo, hi); TailBelow(t, r.End(), end, lo, hi, x); }
    assert Lookup(t', x) != if cur <= x < end then None else Lookup(b, x);
  }

  lemma {:induction false} TailBelow(b: seq<Region>, cur: nat, end: nat, lo: nat, hi: nat, x: nat)
    requires From(b, cur, lo, hi) && UnmapTail(b, cur, end).Done? && x < cur
    ensures Lookup(UnmapTail(b, cur, end).regions, x) == None
    decreases |b|
  {
    if cur < end && b != [] {
      FromTail(b, cur, lo, hi);
      TailBelow(b[1..], b[0].End(), end, lo, hi, x);
    } else {
      LookupBelow(b, cur, x, lo, hi);
    }
  }
}
