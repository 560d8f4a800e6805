/**
 For which address maps the coalesced form of the regions is unique: regions_mergeable stops
 merging direct regions at the physical limit.
 */
module VmUnique {
  import opened Basics
  import opened VmModel

  ghost predicate SameMap(rs: seq<Region>, rs': seq<Region>) {
    forall a: nat :: Lookup(rs, a) == Lookup(rs', a)
  }

  /** Address x goes on from the byte before it: direct memory with the same attributes. */
  ghost predicate Continues(rs: seq<Region>, x: nat) {
    && x > 0 && Lookup(rs, x - 1).Some? && Lookup(rs, x).Some? && Lookup(rs, x - 1).value.kind.Direct?
    && Lookup(rs, x).value == Lookup(rs, x - 1).value.(kind := Direct(Lookup(rs, x - 1).value.kind.phys + 1))
  }

  /** Direct memory goes on at a page boundary only up to the physical limit. */
  ghost predicate Settled(rs: seq<Region>) {
    forall x: nat {:trigger Continues(rs, x)} :: x % PAGE == 0 && Continues(rs, x) ==> Lookup(rs, x).value.kind.phys <= PHYS_MAX
  }

  lemma {:induction false} TailSettled(rs: seq<Region>, lo: nat, hi: nat)
    requires Wf(rs, lo, hi) && rs != [] && Settled(rs)
    ensures Settled(rs[1..])
  {
    forall x: nat | x % PAGE == 0 && Continues(rs[1..], x) ensures Lookup(rs[1..], x).value.kind.phys <= PHYS_MAX {
      TailLookup(rs, lo, hi, x - 1);
      TailLookup(rs, lo, hi, x);
      assert Continues(rs, x);
    }
  }

  lemma {:induction false} TailLookup(rs: seq<Region>, lo: nat, hi: nat, x: nat)
    requires Wf(rs, lo, hi) && rs != [] && Lookup(rs[1..], x).Some?
    ensures Lookup(rs, x) == Lookup(rs[1..], x)
  {
    var i := LookupFound(rs[1..], x);
    assert rs[0].End() <= rs[i + 1].base;
  }

  /** Two coalesced region sequences with the same attribute map are equal. */
  lemma {:induction false} CoalescedUnique(rs: seq<Region>, rs': seq<Region>, lo: nat, hi: nat)
    requires Wf(rs, lo, hi) && Wf(rs', lo, hi) && Coalesced(rs) && Coalesced(rs')
    requires SameMap(rs, rs') && Settled(rs)
    ensures rs == rs'
  {
    if rs == [] {
      if rs' != [] { SeesFirst(rs', lo, hi); }
    } else if rs' == [] {
      SeesFirst(rs, lo, hi);
    } else {
      SameFirst(rs, rs', lo, hi);
      SameTails(rs, rs', lo, hi);
      SliceKeeps(rs, 1, lo, hi);
      SliceKeeps(rs', 1, lo, hi);
      TailSettled(rs, lo, hi);
      CoalescedUnique(rs[1..], rs'[1..], lo, hi);
      assert rs == [rs[0]] + rs[1..] && rs' == [rs'[0]] + rs'[1..];
    }
  }

  /** Beyond that limit regions never merge, so one map has more than one coalesced form. */
  lemma {:induction false} TwoFormsBeyondLimit()
    ensures var prot, phys := Prot(true, true, false), PHYS_MAX + 1;
      var rs := [Region(0x1000, 0x2000, Direct(phys), prot, Standard, false)];
      var rs' := [Region(0x1000, 0x1000, Direct(phys), prot, Standard, false), Region(0x2000, 0x1000, Direct(phys + 0x1000), prot, Standard, false)];
      Wf(rs, 0x1000, 0x10000) && Wf(rs', 0x1000, 0x10000) && Coalesced(rs) && Coalesced(rs') && SameMap(rs, rs') && rs != rs'
  {
    var prot, phys := Prot(true, true, false), PHYS_MAX + 1;
    var rs := [Region(0x1000, 0x2000, Direct(phys), prot, Standard, false)];
    var rs' := [Region(0x1000, 0x1000, Direct(phys), prot, Standard, false), Region(0x2000, 0x1000, Direct(phys + 0x1000), prot, Standard, false)];
    assert rs[1..] == [] && rs'[1..] == [rs'[1]] && rs'[1..][1..] == [];
  }

  lemma {:induction false} SeesFirst(rs: seq<Region>, lo: nat, hi: nat)
    requires Wf(rs, lo, hi) && rs != []
    ensures Lookup(rs, rs[0].base) == Some(AttrAt(rs[0], rs[0].base))
    ensures Lookup(rs, rs[0].End() - 1) == Some(AttrAt(rs[0], rs[0].End() - 1))
    ensures forall a: nat :: a < rs[0].base ==> Lookup(rs, a) == None
  {
    assert RegionOk(rs[0], lo, hi);
    forall a: nat | a < rs[0].base ensures Lookup(rs, a) == None {
      forall i | 0 <= i < |rs| ensures !rs[i].Has(a) { if i > 0 { assert rs[0].End() <= rs[i].base; } }
      LookupNone(rs, a);
    }
  }

  lemma {:induction false} SameFirst(rs: seq<Region>, rs': seq<Region>, lo: nat, hi: nat)
    requires Wf(rs, lo, hi) && Wf(rs', lo, hi) && Coalesced(rs) && Coalesced(rs') && Settled(rs)
    requires SameMap(rs, rs') && rs != [] && rs' != []
    ensures rs[0] == rs'[0]
  {
    SeesFirst(rs, lo, hi);
    SeesFirst(rs', lo, hi);
    assert RegionOk(rs[0], lo, hi) && RegionOk(rs'[0], lo, hi);
    var b, b' := rs[0].base, rs'[0].base;
    assert Lookup(rs', b).Some? && Lookup(rs, b').Some?;
    assert b == b';
    NotShorter(rs, rs', lo, hi);
    forall x: nat | x % PAGE == 0 && Continues(rs', x) ensures Lookup(rs', x).value.kind.phys <= PHYS_MAX { assert Continues(rs, x); }
    NotShorter(rs', rs, lo, hi);
  }

  /** A first region that ended early would have a mergeable neighbour. */
  lemma {:induction false} NotShorter(rs: seq<Region>, rs': seq<Region>, lo: nat, hi: nat)
    requires Wf(rs, lo, hi) && Wf(rs', lo, hi) && Coalesced(rs) && Settled(rs)
    requires SameMap(rs, rs') && rs != [] && rs' != [] && rs[0].base == rs'[0].base
    requires AttrAt'(rs[0]) == AttrAt'(rs'[0])
    ensures rs[0].End() >= rs'[0].End()
  {
    var e := rs[0].End();
    assert RegionOk(rs[0], lo, hi);
    if e < rs'[0].End() {
      LookupIndex(rs', 0, e);
      assert Lookup(rs, e) == Some(AttrAt(rs'[0], e));
      TouchingNext(rs, lo, hi);
      LookupIndex(rs, 0, e - 1);
      if rs[0].kind.Direct? { assert Continues(rs, e); }
      assert Mergeable(rs[0], rs[0 + 1]);
      assert false;
    }
  }

  /** An address right behind the first region that is mapped belongs to the second. */
  lemma {:induction false} TouchingNext(rs: seq<Region>, lo: nat, hi: nat)
    requires Wf(rs, lo, hi) && rs != [] && Lookup(rs, rs[0].End()).Some?
    ensures |rs| > 1 && rs[1].base == rs[0].End() && Lookup(rs, rs[0].End()) == Some(AttrAt'(rs[1]))
  {
    var i := LookupFound(rs, rs[0].End());
    assert i > 0 && rs[0].End() <= rs[i].base;
    assert |rs| > 1 && rs[0].End() <= rs[1].base && RegionOk(rs[1], lo, hi);
  }

  /** The attributes a region gives its first address. */
  function AttrAt'(r: Region): Attr { Attr(r.kind, r.prot, r.cache, r.dynamic) }

  lemma {:induction false} SameTails(rs: seq<Region>, rs': seq<Region>, lo: nat, hi: nat)
    requires Wf(rs, lo, hi) && Wf(rs', lo, hi) && SameMap(rs, rs') && rs != [] && rs' != [] && rs[0] == rs'[0]
    ensures SameMap(rs[1..], rs'[1..])
  {
    forall a: nat ensures Lookup(rs[1..], a) == Lookup(rs'[1..], a) {
      assert Lookup(rs, a) == Lookup(rs', a);
      if rs[0].Has(a) {
        LookupNone(rs[1..], a);
        LookupNone(rs'[1..], a);
      }
    }
  }

  // ---------- the other direction ----------

  /** Region r goes on where l ends, whether or not the two may merge. */
  predicate Meets(l: Region, r: Region) {
    && l.kind.Direct? && l.length > 0 && l.End() == r.base
    && r.prot == l.prot && r.cache == l.cache && r.dynamic == l.dynamic && r.kind == Direct(l.kind.phys + l.length)
  }

  /** Beyond the limit two regions and their union are two coalesced forms of one map. */
  lemma {:induction false} SwapForms(x: seq<Region>, l: Region, r: Region, z: seq<Region>)
    requires Meets(l, r) && r.length > 0 && l.kind.phys + l.length > PHYS_MAX
    ensures Coalesced(x + [Merged(l, r)] + z) <==> Coalesced(x + [l, r] + z)
    ensures SameMap(x + [Merged(l, r)] + z, x + [l, r] + z)
  {
    var w := Merged(l, r);
    CoalescedConcat(x + [w], z);
    CoalescedConcat(x, [w]);
    CoalescedConcat(x + [l, r], z);
    CoalescedConcat(x, [l, r]);
    forall a: nat ensures Lookup(x + [w] + z, a) == Lookup(x + [l, r] + z, a) {
      HalvesLookup(l, r, a);
      LookupConcat3(x, [w], z, a);
      LookupConcat3(x, [l, r], z, a);
    }
  }

  lemma {:induction false} HalvesLookup(l: Region, r: Region, a: nat)
    requires Meets(l, r)
    ensures Lookup([Merged(l, r)], a) == Lookup([l, r], a)
  {
    assert [l, r][1..] == [r] && [r][1..] == [] && [Merged(l, r)][1..] == [];
  }

  /** The two parts of a region cut at a page boundary. */
  lemma {:induction false} CutInTwo(w: Region, lo: nat, hi: nat, x: nat, l: Region, r: Region)
    requires RegionOk(w, lo, hi) && w.base < x < w.End() && x % PAGE == 0 && w.kind.Direct?
    requires l == w.(length := x - w.base) && r == CloneTo(x, w.End() - x, w)
    ensures Meets(l, r) && r.length > 0 && Merged(l, r) == w && Wf([l, r], w.base, w.End())
  {
    assert RegionOk(l, w.base, w.End()) && RegionOk(r, w.base, w.End());
  }

  /** A region that reaches over the limit may be cut at any page boundary beyond it. */
  lemma {:induction false} CutForm(rs: seq<Region>, lo: nat, hi: nat, i: nat, x: nat) returns (rs': seq<Region>)
    requires Wf(rs, lo, hi) && Coalesced(rs) && i < |rs| && rs[i].base < x < rs[i].End() && x % PAGE == 0
    requires rs[i].kind.Direct? && rs[i].kind.phys + (x - rs[i].base) > PHYS_MAX
    ensures Wf(rs', lo, hi) && Coalesced(rs') && SameMap(rs, rs') && rs' != rs
  {
    var w, a, b := rs[i], rs[..i], rs[i + 1..];
    var l, r := w.(length := x - w.base), CloneTo(x, w.End() - x, w);
    assert RegionOk(w, lo, hi);
    CutInTwo(w, lo, hi, x, l, r);
    assert rs == a + [w] + b;
    SwapForms(a, l, r, b);
    rs' := a + [l, r] + b;
    SpliceWf(a, [w], b, [l, r], lo, hi, w.base, w.End());
    assert |rs'| == |rs| + 1;
  }

  /** Two regions that meet beyond the limit may as well be one. */
  lemma {:induction false} JoinForm(rs: seq<Region>, lo: nat, hi: nat, i: nat) returns (rs': seq<Region>)
    requires Wf(rs, lo, hi) && Coalesced(rs) && i + 1 < |rs| && Meets(rs[i], rs[i + 1])
    requires rs[i].kind.phys + rs[i].length > PHYS_MAX
    ensures Wf(rs', lo, hi) && Coalesced(rs') && SameMap(rs, rs') && rs' != rs
  {
    var l, r, a, b := rs[i], rs[i + 1], rs[..i], rs[i + 2..];
    assert RegionOk(l, lo, hi) && RegionOk(r, lo, hi);
    assert rs == a + [l, r] + b;
    SwapForms(a, l, r, b);
    rs' := a + [Merged(l, r)] + b;
    SpliceWf(a, [l, r], b, [Merged(l, r)], lo, hi, l.base, r.End());
    assert |rs'| == |rs| - 1;
  }

  lemma {:induction false} OtherForm(rs: seq<Region>, lo: nat, hi: nat, x: nat) returns (rs': seq<Region>)
    requires Wf(rs, lo, hi) && Coalesced(rs) && x % PAGE == 0 && Continues(rs, x) && Lookup(rs, x).value.kind.phys > PHYS_MAX
    ensures Wf(rs', lo, hi) && Coalesced(rs') && SameMap(rs, rs') && rs' != rs
  {
    var i := LookupFound(rs, x);
    if rs[i].base < x {
      rs' := CutForm(rs, lo, hi, i, x);
    } else {
      var j := LookupFound(rs, x - 1);
      Adjacent(rs, lo, hi, j, i, x);
      rs' := JoinForm(rs, lo, hi, j);
    }
  }

  lemma {:induction false} InTurn(rs: seq<Region>, lo: nat, hi: nat, i: nat, j: nat)
    requires Wf(rs, lo, hi) && i < |rs| && j < |rs|
    ensures i < j ==> rs[i].End() <= rs[j].base
    ensures i + 1 < j ==> rs[i].End() < rs[j].base
  {
    if i + 1 < j { assert RegionOk(rs[i + 1], lo, hi) && rs[i + 1].End() <= rs[j].base; }
  }

  /** The regions of two neighbouring bytes are neighbours. */
  lemma {:induction false} Adjacent(rs: seq<Region>, lo: nat, hi: nat, j: nat, i: nat, x: nat)
    requires Wf(rs, lo, hi) && i < |rs| && j < |rs| && x > 0 && rs[i].base == x && rs[j].Has(x - 1)
    ensures i == j + 1 && rs[j].End() == x
  {
    assert RegionOk(rs[i], lo, hi);
    InTurn(rs, lo, hi, i, j);
    InTurn(rs, lo, hi, j, i);
  }

  /** A coalesced region sequence is the only one with its address map if and only if direct memory goes on at no page boundary past the limit. */
  lemma {:induction false} UniqueExactly(rs: seq<Region>, lo: nat, hi: nat)
    requires Wf(rs, lo, hi) && Coalesced(rs)
    ensures (forall rs' {:trigger SameMap(rs, rs')} :: Wf(rs', lo, hi) && Coalesced(rs') && SameMap(rs, rs') ==> rs' == rs) <==> Settled(rs)
  {
    if Settled(rs) {
      forall rs' | Wf(rs', lo, hi) && Coalesced(rs') && SameMap(rs, rs') ensures rs' == rs { CoalescedUnique(rs, rs', lo, hi); }
    } else {
      var x: nat :| x % PAGE == 0 && Continues(rs, x) && Lookup(rs, x).value.kind.phys > PHYS_MAX;
      var rs' := OtherForm(rs, lo, hi, x);
      assert SameMap(rs, rs');
    }
  }
}
