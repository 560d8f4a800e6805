/**
 vm_unmap over any number of regions and holes, as a function of the regions: what it
 leaves, when that is what it should leave, and inputs on which it is not.
 */
module VmUnmap {
  import opened Basics
  import opened VmModel
  import opened VmTheorems

  /** The index of the region that holds address a, or -1. */
  function Holder(rs: seq<Region>, a: nat): (i: int)
    ensures -1 <= i < |rs| && (i >= 0 ==> rs[i].Has(a))
  {
    var n := Rank(rs, a + 1);
    if n > 0 && rs[n - 1].End() > a then n - 1 else -1
  }

  lemma {:induction false} HolderUnique(rs: seq<Region>, a: nat, lo: nat, hi: nat, i: nat)
    requires Wf(rs, lo, hi) && i < |rs|
    ensures rs[i].Has(a) <==> i == Holder(rs, a)
  {
    var n := Rank(rs, a + 1);
    assert RegionOk(rs[i], lo, hi);
    if n > 0 && i < n - 1 { assert rs[i].End() <= rs[n - 1].base; }
    if n < i { assert rs[n].End() <= rs[i].base && RegionOk(rs[n], lo, hi); }
  }

  /** The regions after the first part of an unmap, which cuts the region that holds its first address, and how far that got. */
  function FirstCut(rs: seq<Region>, a: nat, e: nat): (seq<Region>, nat)
    requires a < e
  {
    var i := Holder(rs, a);
    if i == -1 then (rs, a)
    else
      var cur := if rs[i].End() > e then e else rs[i].End();
      (Carved(rs, i, a, cur), cur)
  }

  /** The regions that an unmap of [a, e) leaves. */
  function UnmapRange(rs: seq<Region>, a: nat, e: nat): Outcome
    requires a < e
  {
    var cut := FirstCut(rs, a, e);
    var n := Rank(cut.0, cut.1);
    Rejoin(cut.0[..n], UnmapTail(cut.0[n..], cut.1, e))
  }

  function Rejoin(x: seq<Region>, rest: Outcome): Outcome {
    match rest
    case Done(b) => Done(x + b)
    case Undefined => Undefined
  }

  lemma {:induction false} FirstCutFacts(rs: seq<Region>, a: nat, e: nat, lo: nat, hi: nat, mid: seq<Region>, cur: nat)
    requires Wf(rs, lo, hi) && Coalesced(rs) && a < e && a % PAGE == 0 && e % PAGE == 0 && (mid, cur) == FirstCut(rs, a, e)
    ensures a <= cur <= e && Wf(mid, lo, hi) && Coalesced(mid)
    ensures RemovedRange(rs, mid, a, cur)
    ensures forall i :: 0 <= i < |mid| ==> mid[i].End() <= a || cur <= mid[i].base
    ensures Cleanly(rs, a, e) <==> cur >= e || EndsCleanly(mid, e)
  {
    var i := Holder(rs, a);
    if i == -1 {
      forall j: nat | j < |rs| ensures !rs[j].Has(a) { HolderUnique(rs, a, lo, hi, j); }
    } else {
      EndAligned(rs[i], lo, hi);
      CarvedAll(rs, i, a, cur, lo, hi);
      CarvedCleanly(rs, i, a, cur, e, lo, hi);
    }
  }

  /** The two parts that the loop of an unmap sees. */
  lemma {:induction false} CutParts(rs: seq<Region>, a: nat, e: nat, lo: nat, hi: nat, mid: seq<Region>, cur: nat) returns (x: seq<Region>, b: seq<Region>)
    requires Wf(rs, lo, hi) && Coalesced(rs) && a < e && a % PAGE == 0 && e % PAGE == 0 && (mid, cur) == FirstCut(rs, a, e)
    ensures mid == x + b && From(b, cur, lo, hi) && a <= cur <= e
    ensures forall i :: 0 <= i < |x| ==> x[i].base < cur && x[i].End() <= a
    ensures UnmapRange(rs, a, e) == Rejoin(x, UnmapTail(b, cur, e))
  {
    FirstCutFacts(rs, a, e, lo, hi, mid, cur);
    var n := Rank(mid, cur);
    x, b := mid[..n], mid[n..];
    RestFrom(mid, cur, a, lo, hi, x, b);
  }

  /** An unmap is defined and removes exactly its range if and only if it ends cleanly; then the regions stay well formed and coalesced. */
  lemma {:induction false} UnmapRangeExact(rs: seq<Region>, a: nat, e: nat, lo: nat, hi: nat)
    requires Wf(rs, lo, hi) && Coalesced(rs) && a < e && a % PAGE == 0 && e % PAGE == 0
    ensures var out := UnmapRange(rs, a, e);
      && (out.Done? && RemovedRange(rs, out.regions, a, e)) == Cleanly(rs, a, e)
      && (Cleanly(rs, a, e) ==> Wf(out.regions, lo, hi) && Coalesced(out.regions))
  {
    var cut := FirstCut(rs, a, e);
    FirstCutFacts(rs, a, e, lo, hi, cut.0, cut.1);
    var x, b := CutParts(rs, a, e, lo, hi, cut.0, cut.1);
    UnmapWhole(rs, x, b, cut.1, a, e, lo, hi);
    if Cleanly(rs, a, e) { UnmapWholeWf(x, b, cut.1, a, e, lo, hi); }
  }

  /** The regions that an unmap of [a, e) leaves: it is defined and exactly the range is gone if and only if the range ends cleanly. */
  ghost predicate UnmapLeaves(rs: seq<Region>, rs': seq<Region>, a: nat, e: nat, defined: bool, lo: nat, hi: nat) {
    && a < e && defined == UnmapRange(rs, a, e).Done? && (defined ==> rs' == UnmapRange(rs, a, e).regions)
    && (defined && RemovedRange(rs, rs', a, e)) == Cleanly(rs, a, e)
    && (Cleanly(rs, a, e) ==> Wf(rs', lo, hi) && Coalesced(rs'))
  }

  /** The same of what the code left. */
  lemma {:induction false} UnmapOutcome(rs: seq<Region>, rs': seq<Region>, a: nat, e: nat, defined: bool, lo: nat, hi: nat)
    requires Wf(rs, lo, hi) && Coalesced(rs) && a < e && a % PAGE == 0 && e % PAGE == 0
    requires defined == UnmapRange(rs, a, e).Done? && (defined ==> rs' == UnmapRange(rs, a, e).regions)
    ensures UnmapLeaves(rs, rs', a, e, defined, lo, hi)
  {
    UnmapRangeExact(rs, a, e, lo, hi);
  }

  // ---------- inputs on which it fails ----------

  const SOME: Prot := Prot(true, true, false)

  function Page(base: nat, pages: nat): Region { Region(base, pages * PAGE, Anon(false), SOME, Standard, false) }

  /** A page, a hole, and another page past the end of the range: the second page is unmapped as well. */
  lemma {:induction false} UnmapDeletesNeighbour(rs: seq<Region>, a: nat, e: nat)
    requires rs == [Page(0x1000, 1), Page(0x5000, 1)] && a == 0x1000 && e == 0x4000
    ensures Wf(rs, 0x1000, 0x10000) && Coalesced(rs) && Lookup(rs, 0x5000).Some? && Lookup(rs, e) == None
    ensures UnmapRange(rs, a, e) == Done([]) && !Cleanly(rs, a, e)
  {
    TwoPages(rs);
    CutFirstPage(rs, a, e);
    NothingStays(rs[1], e);
    assert [rs[1]][..0] == [] && [rs[1]][0..] == [rs[1]];
    assert UnmapRange(rs, a, e) == Rejoin([], Done([]));
  }

  lemma {:induction false} TwoPages(rs: seq<Region>)
    requires rs == [Page(0x1000, 1), Page(0x5000, 1)]
    ensures Wf(rs, 0x1000, 0x10000) && Coalesced(rs) && Lookup(rs, 0x5000).Some? && Lookup(rs, 0x4000) == None
    ensures !Cleanly(rs, 0x1000, 0x4000)
  {
    assert rs[0].End() == 0x2000 && rs[1].base == 0x5000 && rs[1].End() == 0x6000;
    assert rs[1..] == [rs[1]] && [rs[1]][1..] == [];
    LookupNone(rs, 0x4000);
  }

  lemma {:induction false} CutFirstPage(rs: seq<Region>, a: nat, e: nat)
    requires rs == [Page(0x1000, 1), Page(0x5000, 1)] && a == 0x1000 && e == 0x4000
    ensures FirstCut(rs, a, e) == ([rs[1]], 0x2000)
  {
    assert rs[1..] == [rs[1]] && rs[..0] == [];
    assert rs[0].base == a && rs[0].End() == 0x2000 && rs[1].base == 0x5000;
    RankUnique(rs, a + 1, 1);
    assert Head(rs[0], a) == [] && Tail(rs[0], 0x2000) == [];
    assert Carved(rs, 0, a, 0x2000) == [] + ([] + []) + [rs[1]] == [rs[1]];
    assert Holder(rs, a) == 0;
    var i, cur := Holder(rs, a), 0x2000;
    assert cur == if rs[i].End() > e then e else rs[i].End();
    assert FirstCut(rs, a, e) == (Carved(rs, i, a, cur), cur);
  }

  lemma {:induction false} NothingStays(r: Region, e: nat)
    requires r == Page(0x5000, 1) && e == 0x4000
    ensures Rank([r], 0x2000) == 0 && UnmapTail([r], 0x2000, e) == Done([])
  {
    assert [r][1..] == [] && r.End() == 0x6000;
    RankUnique([r], 0x2000, 0);
    assert UnmapTail([], 0x6000, e) == Done([]);
    assert UnmapTail([r], 0x2000, e) == UnmapTail([r][1..], r.End(), e);
  }

  /** Two pages from a hole on, of which the range takes one: the tail would be cloned at an uninitialised address. */
  lemma {:induction false} UnmapUndefined(rs: seq<Region>, a: nat, e: nat)
    requires rs == [Page(0x2000, 2)] && a == 0x1000 && e == 0x3000
    ensures Wf(rs, 0x1000, 0x10000) && Coalesced(rs) && Lookup(rs, a) == None
    ensures UnmapRange(rs, a, e) == Undefined && !Cleanly(rs, a, e)
  {
    assert rs[0].base == 0x2000 && rs[0].End() == 0x4000;
    assert Rank(rs, a + 1) == 0 && Rank(rs, a) == 0 && rs[0..] == rs;
    assert FirstCut(rs, a, e) == (rs, a);
    assert UnmapTail(rs, a, e) == Undefined;
    assert rs[1..] == [];
  }

  /** The range lies in one region, or no region crosses its end and one ends there or none starts there or later. */
  ghost predicate Cleanly(rs: seq<Region>, a: nat, e: nat) {
    (exists i :: 0 <= i < |rs| && rs[i].base <= a && e <= rs[i].End()) || EndsCleanly(rs, e)
  }

  lemma {:induction false} RestFrom(mid: seq<Region>, cur: nat, a: nat, lo: nat, hi: nat, x: seq<Region>, b: seq<Region>)
    requires Wf(mid, lo, hi) && a <= cur && x == mid[..Rank(mid, cur)] && b == mid[Rank(mid, cur)..]
    requires forall i :: 0 <= i < |mid| ==> mid[i].End() <= a || cur <= mid[i].base
    ensures mid == x + b && From(b, cur, lo, hi)
    ensures forall i :: 0 <= i < |x| ==> x[i].base < cur && x[i].End() <= a
  {
    var n := Rank(mid, cur);
    SliceKeeps(mid, n, lo, hi);
    forall i | 0 <= i < |mid| - n ensures cur <= mid[n..][i].base {
      assert RegionOk(mid[n + i], lo, hi);
      if i > 0 { assert mid[n].End() <= mid[n + i].base; }
    }
    forall i | 0 <= i < |x| ensures x[i].base < cur && x[i].End() <= a { assert x[i] == mid[i]; }
  }

  /** Cutting the first region does not change whether the rest ends cleanly. */
  lemma {:induction false} CarvedCleanly(rs: seq<Region>, i: nat, a: nat, cur: nat, e: nat, lo: nat, hi: nat)
    requires Wf(rs, lo, hi) && i < |rs| && rs[i].Has(a) && cur == (if rs[i].End() > e then e else rs[i].End()) && a < cur && a < e
    ensures Cleanly(rs, a, e) <==> cur >= e || EndsCleanly(Carved(rs, i, a, cur), e)
  {
    if cur < e { CleanlyCut(rs, i, a, cur, e, lo, hi); }
  }

  lemma {:induction false} CleanlyCut(rs: seq<Region>, i: nat, a: nat, cur: nat, e: nat, lo: nat, hi: nat)
    requires Wf(rs, lo, hi) && i < |rs| && rs[i].Has(a) && cur == rs[i].End() < e
    ensures Cleanly(rs, a, e) <==> EndsCleanly(Carved(rs, i, a, cur), e)
  {
    var r, x, z := rs[i], rs[..i], rs[i + 1..];
    var h := Head(r, a);
    SplitAt(rs, i);
    assert Tail(r, cur) == [] && h + Tail(r, cur) == h;
    forall j | 0 <= j < |rs| && rs[j].base <= a ensures rs[j].End() < e {
    }
    EndsConcat3(x, [r], z, e);
    EndsConcat3(x, h, z, e);
  }

  /** A middle part that ends before e plays no role in how things end at e. */
  lemma {:induction false} EndsConcat3(x: seq<Region>, m: seq<Region>, z: seq<Region>, e: nat)
    requires forall i :: 0 <= i < |m| ==> m[i].base < e && m[i].End() < e
    ensures EndsCleanly(x + m + z, e) <==> EndsCleanly(x + z, e)
  {
    var s, t := x + m + z, x + z;
    forall i | 0 <= i < |s| && !(s[i].base < e && s[i].End() < e) ensures s[i] in t {
      if i < |x| { assert t[i] == s[i]; } else { assert t[i - |m|] == s[i]; }
    }
    forall i | 0 <= i < |t| ensures t[i] in s {
      if i < |x| { assert s[i] == t[i]; } else { assert s[i + |m|] == t[i]; }
    }
    if EndsCleanly(s, e) { SameEnds(s, t, e); }
    if EndsCleanly(t, e) { SameEnds(t, s, e); }
  }

  lemma {:induction false} SameEnds(rs: seq<Region>, rs': seq<Region>, e: nat)
    requires EndsCleanly(rs, e)
    requires forall j :: 0 <= j < |rs'| && !(rs'[j].base < e && rs'[j].End() < e) ==> rs'[j] in rs
    requires forall j :: 0 <= j < |rs| && !(rs[j].base < e && rs[j].End() < e) ==> rs[j] in rs'
    ensures EndsCleanly(rs', e)
  {
    if i :| 0 <= i < |rs| && rs[i].End() == e {
      var k :| 0 <= k < |rs'| && rs'[k] == rs[i];
      assert rs'[k].End() == e;
    }
  }

  /** Putting the untouched front and the rest back together: the range is gone exactly when it ended cleanly. */
  lemma {:induction false} UnmapWhole(rs: seq<Region>, x: seq<Region>, b: seq<Region>, cur: nat, a: nat, last: nat, lo: nat, hi: nat)
    requires From(b, cur, lo, hi) && a <= cur <= last && a < last
    requires forall i :: 0 <= i < |x| ==> x[i].End() <= a
    requires forall y: nat :: Lookup(x + b, y) == if a <= y < cur then None else Lookup(rs, y)
    requires Cleanly(rs, a, last) == (cur >= last || EndsCleanly(x + b, last))
    ensures var out := UnmapTail(b, cur, last);
      (out.Done? && RemovedRange(rs, x + out.regions, a, last)) == Cleanly(rs, a, last)
  {
    UnmapTailExact(b, cur, last, lo, hi);
    FrontIrrelevant(x, b, a, last);
    if UnmapTail(b, cur, last).Done? { LiftRemoved(rs, x, b, UnmapTail(b, cur, last).regions, cur, a, last, lo, hi); }
  }

  lemma {:induction false} UnmapWholeWf(x: seq<Region>, b: seq<Region>, cur: nat, a: nat, last: nat, lo: nat, hi: nat)
    requires Wf(x + b, lo, hi) && Coalesced(x + b) && From(b, cur, lo, hi) && a <= cur <= last && a < last
    requires forall i :: 0 <= i < |x| ==> x[i].End() <= a
    requires cur >= last || EndsCleanly(x + b, last)
    ensures UnmapTail(b, cur, last).Done?
    ensures Wf(x + UnmapTail(b, cur, last).regions, lo, hi) && Coalesced(x + UnmapTail(b, cur, last).regions)
  {
    FrontIrrelevant(x, b, a, last);
    CoalescedConcat(x, b);
    CleanIsExact(b, cur, last, lo, hi);
    TailLater(b, cur, last, lo, hi);
    WholeWf(x, b, UnmapTail(b, cur, last).regions, cur, lo, hi);
  }

  lemma {:induction false} FrontIrrelevant(x: seq<Region>, b: seq<Region>, a: nat, last: nat)
    requires a < last && forall i :: 0 <= i < |x| ==> x[i].End() <= a
    ensures EndsCleanly(x + b, last) <==> EndsCleanly(b, last)
  {
    assert [] + x + b == x + b && [] + b == b;
    EndsConcat3([], x, b, last);
  }

  lemma {:induction false} LiftRemoved(rs: seq<Region>, x: seq<Region>, b: seq<Region>, b': seq<Region>, cur: nat, a: nat, last: nat, lo: nat, hi: nat)
    requires From(b, cur, lo, hi) && UnmapTail(b, cur, last) == Done(b') && a <= cur <= last
    requires forall i :: 0 <= i < |x| ==> x[i].End() <= a
    requires forall y: nat :: Lookup(x + b, y) == if a <= y < cur then None else Lookup(rs, y)
    ensures RemovedRange(rs, x + b', a, last) <==> RemovedRange(b, b', cur, last)
  {
    forall y: nat
      ensures (Lookup(x + b', y) == if a <= y < last then None else Lookup(rs, y))
              <==> (Lookup(b', y) == if cur <= y < last then None else Lookup(b, y))
    {
      LookupConcat(x, b, y);
      LookupConcat(x, b', y);
      if y >= a { LookupNone(x, y); }
      if y < cur { LookupBelow(b, cur, y, lo, hi); TailBelow(b, cur, last, lo, hi, y); }
      assert Lookup(x + b, y) == if a <= y < cur then None else Lookup(rs, y);
    }
    if RemovedRange(rs, x + b', a, last) {
      forall y: nat ensures Lookup(b', y) == if cur <= y < last then None else Lookup(b, y) {
        assert Lookup(x + b', y) == if a <= y < last then None else Lookup(rs, y);
      }
    }
  }

  lemma {:induction false} WholeWf(x: seq<Region>, b: seq<Region>, b': seq<Region>, cur: nat, lo: nat, hi: nat)
    requires Wf(x + b, lo, hi) && Coalesced(x + b) && From(b, cur, lo, hi) && From(b', cur, lo, hi) && Coalesced(b')
    requires forall i :: 0 <= i < |x| ==> x[i].End() <= cur
    requires b' == b || forall i :: 0 <= i < |b'| ==> cur < b'[i].base
    ensures Wf(x + b', lo, hi) && Coalesced(x + b')
  {
    SliceKeeps(x + b, |x|, lo, hi);
    assert (x + b)[..|x|] == x;
    ConcatWf(x, b', lo, hi);
    CoalescedConcat(x, b);
    CoalescedConcat(x, b');
  }
}
