/**
 Regions of an address space as a sequence in tree order (the in-order contents of the
 red-black tree keyed by `base`), the attribute map they denote, and the two editing moves
 of memory/vm.c: inserting a region with coalescing, and cutting a range out of a region.
 */
module VmModel {
  import opened Basics

  const PAGE: nat := 4096
  const PHYS_MAX: nat := 0xF_FFFF_FFFF_FFFF

  /** The type of a region with its type-specific data. */
  datatype Kind = Anon(zeroed: bool) | Direct(phys: nat)

  datatype Region = Region(base: nat, length: nat, kind: Kind, prot: Prot, cache: Cache, dynamic: bool) {
    function End(): nat { base + length }

    predicate Has(a: nat) { base <= a < base + length }
  }

  /** What one address sees: for a direct region, the physical address behind it. */
  datatype Attr = Attr(kind: Kind, prot: Prot, cache: Cache, dynamic: bool)

  function KindAt(k: Kind, offset: nat): Kind {
    if k.Direct? then Direct(k.phys + offset) else k
  }

  function AttrAt(r: Region, a: nat): Attr
    requires r.Has(a)
  {
    Attr(KindAt(r.kind, a - r.base), r.prot, r.cache, r.dynamic)
  }

  function Lookup(rs: seq<Region>, a: nat): Option<Attr> {
    if rs == [] then None
    else if rs[0].Has(a) then Some(AttrAt(rs[0], a))
    else Lookup(rs[1..], a)
  }

  /** Regions ascend and do not overlap. */
  ghost predicate Sep(rs: seq<Region>) {
    forall i, j :: 0 <= i < j < |rs| ==> rs[i].End() <= rs[j].base
  }

  ghost predicate RegionOk(r: Region, lo: nat, hi: nat) {
    r.length > 0 && r.base % PAGE == 0 && r.length % PAGE == 0 && lo <= r.base && r.End() <= hi
  }

  ghost predicate AllOk(rs: seq<Region>, lo: nat, hi: nat) {
    forall i :: 0 <= i < |rs| ==> RegionOk(rs[i], lo, hi)
  }

  ghost predicate Wf(rs: seq<Region>, lo: nat, hi: nat) {
    Sep(rs) && AllOk(rs, lo, hi)
  }

  /** regions_mergeable */
  predicate Mergeable(l: Region, r: Region) {
    && l.End() == r.base && l.prot == r.prot && l.cache == r.cache && l.dynamic == r.dynamic
    && match (l.kind, r.kind)
      case (Anon(x), Anon(y)) => x == y
      case (Direct(p), Direct(q)) => p < PHYS_MAX && PHYS_MAX - p >= l.length && p + l.length == q
      case _ => false
  }

  function Merged(l: Region, r: Region): Region { l.(length := l.length + r.length) }

  /** No two neighbours could still be merged. */
  ghost predicate Coalesced(rs: seq<Region>) {
    forall i :: 0 <= i < |rs| - 1 ==> !Mergeable(rs[i], rs[i + 1])
  }

  // ---------- the attribute map of concatenations ----------

  function Or(x: Option<Attr>, y: Option<Attr>): Option<Attr> { if x.Some? then x else y }

  lemma {:induction false} LookupConcat(xs: seq<Region>, ys: seq<Region>, a: nat)
    ensures Lookup(xs + ys, a) == Or(Lookup(xs, a), Lookup(ys, a))
  {
    if xs == [] {
      assert xs + ys == ys;
    } else {
      assert (xs + ys)[1..] == xs[1..] + ys;
      LookupConcat(xs[1..], ys, a);
    }
  }

  lemma {:induction false} LookupConcat3(xs: seq<Region>, ys: seq<Region>, zs: seq<Region>, a: nat)
    ensures Lookup(xs + ys + zs, a) == Or(Or(Lookup(xs, a), Lookup(ys, a)), Lookup(zs, a))
  {
    LookupConcat(xs + ys, zs, a);
    LookupConcat(xs, ys, a);
  }

  lemma {:induction false} LookupIndex(rs: seq<Region>, i: nat, a: nat)
    requires Sep(rs) && i < |rs| && rs[i].Has(a)
    ensures Lookup(rs, a) == Some(AttrAt(rs[i], a))
  {
    if i > 0 {
      assert rs[0].End() <= rs[i].base;
      assert Sep(rs[1..]);
      LookupIndex(rs[1..], i - 1, a);
    }
  }

  lemma {:induction false} LookupFound(rs: seq<Region>, a: nat) returns (i: nat)
    requires Lookup(rs, a).Some?
    ensures i < |rs| && rs[i].Has(a) && Lookup(rs, a) == Some(AttrAt(rs[i], a))
  {
    if rs[0].Has(a) { i := 0; } else {
      i := LookupFound(rs[1..], a);
      i := i + 1;
    }
  }

  lemma {:induction false} LookupNone(rs: seq<Region>, a: nat)
    requires forall i :: 0 <= i < |rs| ==> !rs[i].Has(a)
    ensures Lookup(rs, a) == None
  {
    if rs != [] { LookupNone(rs[1..], a); }
  }

  /** Merging mergeable neighbours does not change what any address sees. */
  lemma {:induction false} MergeLookup(l: Region, r: Region, a: nat)
    requires Mergeable(l, r)
    ensures Lookup([Merged(l, r)], a) == Lookup([l, r], a)
  {
    assert [l, r][1..] == [r] && [r][1..] == [] && [Merged(l, r)][1..] == [];
    assert Lookup([l, r], a) == Or(Lookup([l], a), Lookup([r], a)) by { assert [l] + [r] == [l, r]; LookupConcat([l], [r], a); }
  }

  // ---------- splicing ----------

  /** A middle part may be replaced by any well-formed part between its neighbours. */
  lemma {:induction false} SpliceWf(a: seq<Region>, m: seq<Region>, b: seq<Region>, m': seq<Region>, lo: nat, hi: nat, l: nat, h: nat)
    requires Wf(a + m + b, lo, hi) && Wf(m', l, h) && lo <= l && h <= hi
    requires (forall i :: 0 <= i < |a| ==> a[i].End() <= l) && (forall i :: 0 <= i < |b| ==> h <= b[i].base)
    requires m' == [] || l <= h
    ensures Wf(a + m' + b, lo, hi)
  {
    var rs, rs' := a + m + b, a + m' + b;
    forall i, j | 0 <= i < j < |rs'| ensures rs'[i].End() <= rs'[j].base {
      if j < |a| {
        assert rs[i] == rs'[i] && rs[j] == rs'[j];
      } else if i >= |a| + |m'| {
        assert rs[i - |m'| + |m|] == rs'[i] && rs[j - |m'| + |m|] == rs'[j];
      } else if i < |a| && j >= |a| + |m'| {
        assert rs[i] == rs'[i] && rs[j - |m'| + |m|] == rs'[j];
      }
    }
    forall i | 0 <= i < |rs'| ensures RegionOk(rs'[i], lo, hi) {
      if i < |a| { assert rs[i] == rs'[i]; }
      else if i >= |a| + |m'| { assert rs[i - |m'| + |m|] == rs'[i]; }
      else { assert RegionOk(m'[i - |a|], l, h); }
    }
  }

  /** Coalescing of a concatenation: inside the parts and at the seam. */
  lemma {:induction false} CoalescedConcat(xs: seq<Region>, ys: seq<Region>)
    ensures Coalesced(xs + ys) <==>
      Coalesced(xs) && Coalesced(ys) && (xs != [] && ys != [] ==> !Mergeable(xs[|xs| - 1], ys[0]))
  {
    var rs := xs + ys;
    if Coalesced(rs) {
      forall i | 0 <= i < |xs| - 1 ensures !Mergeable(xs[i], xs[i + 1]) { assert rs[i] == xs[i] && rs[i + 1] == xs[i + 1]; }
      forall i | 0 <= i < |ys| - 1 ensures !Mergeable(ys[i], ys[i + 1]) {
        assert rs[|xs| + i] == ys[i] && rs[|xs| + i + 1] == ys[i + 1];
        assert !Mergeable(rs[|xs| + i], rs[|xs| + i + 1]);
      }
      if xs != [] && ys != [] { assert !Mergeable(rs[|xs| - 1], rs[|xs| - 1 + 1]); }
    }
    if Coalesced(xs) && Coalesced(ys) && (xs != [] && ys != [] ==> !Mergeable(xs[|xs| - 1], ys[0])) {
      forall i | 0 <= i < |rs| - 1 ensures !Mergeable(rs[i], rs[i + 1]) {
        if i < |xs| - 1 { assert !Mergeable(xs[i], xs[i + 1]); }
        else if i >= |xs| { assert !Mergeable(ys[i - |xs|], ys[i - |xs| + 1]); }
      }
    }
  }

  // ---------- searching by base ----------

  /** How many leading regions start below `v`; in tree order these are all that do. */
  function Rank(rs: seq<Region>, v: nat): (n: nat)
    ensures n <= |rs| && (forall i :: 0 <= i < n ==> rs[i].base < v) && (n < |rs| ==> rs[n].base >= v)
  {
    if rs == [] || rs[0].base >= v then 0 else 1 + Rank(rs[1..], v)
  }

  ghost predicate DisjointFrom(rs: seq<Region>, base: nat, length: nat) {
    forall i :: 0 <= i < |rs| ==> rs[i].End() <= base || base + length <= rs[i].base
  }

  /** The regions before and after a free range. */
  lemma {:induction false} RankAround(rs: seq<Region>, base: nat, length: nat, lo: nat, hi: nat)
    requires Wf(rs, lo, hi) && DisjointFrom(rs, base, length) && length > 0
    ensures var n := Rank(rs, base);
      && n == Rank(rs, base + 1)
      && (forall i :: 0 <= i < n ==> rs[i].End() <= base)
      && (forall i :: n <= i < |rs| ==> base + length <= rs[i].base)
  {
    var n := Rank(rs, base);
    forall i | n <= i < |rs| ensures base + length <= rs[i].base {
      assert RegionOk(rs[i], lo, hi);
      if i > n { assert rs[n].End() <= rs[i].base; }
    }
    RankUnique(rs, base + 1, n);
  }

  lemma {:induction false} RankUnique(rs: seq<Region>, v: nat, n: nat)
    requires n <= |rs| && (forall i :: 0 <= i < n ==> rs[i].base < v) && (n < |rs| ==> rs[n].base >= v)
    ensures Rank(rs, v) == n
  {
  }

  // ---------- region_insert ----------

  function AbsorbRight(r: Region, b: seq<Region>): (Region, seq<Region>) {
    if b != [] && Mergeable(r, b[0]) then (Merged(r, b[0]), b[1..]) else (r, b)
  }

  function JoinLeft(a: seq<Region>, r: Region): seq<Region> {
    if a != [] && Mergeable(a[|a| - 1], r) then a[..|a| - 1] + [Merged(a[|a| - 1], r)] else a + [r]
  }

  /** What region_insert leaves in the tree. */
  function Inserted(rs: seq<Region>, r: Region): seq<Region> {
    var n := Rank(rs, r.base);
    var (r', b) := AbsorbRight(r, rs[n..]);
    JoinLeft(rs[..n], r') + b
  }

  lemma {:induction false} AbsorbRightLookup(r: Region, b: seq<Region>, x: nat)
    ensures var (r', b') := AbsorbRight(r, b);
      Lookup([r'] + b', x) == Or(Lookup([r], x), Lookup(b, x))
  {
    var (r', b') := AbsorbRight(r, b);
    LookupConcat([r'], b', x);
    if b != [] && Mergeable(r, b[0]) {
      assert b == [b[0]] + b' && [r] + [b[0]] == [r, b[0]];
      LookupConcat([b[0]], b', x);
      MergeLookup(r, b[0], x);
      LookupConcat([r], [b[0]], x);
    }
  }

  lemma {:induction false} AbsorbRightWf(r: Region, b: seq<Region>, lo: nat, hi: nat)
    requires RegionOk(r, lo, hi) && Wf(b, lo, hi) && (forall i :: 0 <= i < |b| ==> r.End() <= b[i].base) && Coalesced(b)
    ensures var (r', b') := AbsorbRight(r, b);
      && Wf([r'] + b', lo, hi) && Coalesced([r'] + b')
      && r'.base == r.base && r'.(length := r.length) == r
  {
    var (r', b') := AbsorbRight(r, b);
    if b != [] && Mergeable(r, b[0]) {
      assert RegionOk(b[0], lo, hi);
      assert b == [b[0]] + b';
      CoalescedConcat([b[0]], b');
      if b' != [] { AbsorbedNotMergeable(r, b); }
    }
    CoalescedConcat([r'], b');
    Prepend(r', b', lo, hi);
  }

  lemma {:induction false} Prepend(r: Region, b: seq<Region>, lo: nat, hi: nat)
    requires RegionOk(r, lo, hi) && Wf(b, lo, hi) && (forall i :: 0 <= i < |b| ==> r.End() <= b[i].base)
    ensures Wf([r] + b, lo, hi)
  {
  }

  /** A right neighbour that could not absorb its own neighbour cannot do so after being absorbed. */
  lemma {:induction false} AbsorbedNotMergeable(r: Region, b: seq<Region>)
    requires |b| > 1 && Mergeable(r, b[0]) && b[0].length > 0 && Coalesced(b)
    ensures !Mergeable(Merged(r, b[0]), b[1])
  {
    assert !Mergeable(b[0], b[0 + 1]);
  }

  lemma {:induction false} JoinLeftLookup(a: seq<Region>, r: Region, x: nat)
    ensures Lookup(JoinLeft(a, r), x) == Or(Lookup(a, x), Lookup([r], x))
  {
    if a != [] && Mergeable(a[|a| - 1], r) {
      var l, a' := a[|a| - 1], a[..|a| - 1];
      assert a == a' + [l] && [l] + [r] == [l, r];
      LookupConcat(a', [l], x);
      LookupConcat(a', [Merged(l, r)], x);
      MergeLookup(l, r, x);
      LookupConcat([l], [r], x);
    } else {
      LookupConcat(a, [r], x);
    }
  }

  /** Joining to the left keeps the whole sequence in order. */
  lemma {:induction false} JoinLeftWf(a: seq<Region>, r: Region, b: seq<Region>, lo: nat, hi: nat)
    requires Wf(a, lo, hi) && Wf([r] + b, lo, hi)
    requires forall i :: 0 <= i < |a| ==> a[i].End() <= r.base
    ensures Wf(JoinLeft(a, r) + b, lo, hi)
  {
    if a != [] && Mergeable(a[|a| - 1], r) {
      assert a == a[..|a| - 1] + [a[|a| - 1]];
      JoinedWf(a[..|a| - 1], a[|a| - 1], r, b, lo, hi);
    } else {
      ConcatWf(a, [r] + b, lo, hi);
      assert a + [r] + b == a + ([r] + b);
    }
  }

  /** Joining to the left leaves nothing mergeable. */
  lemma {:induction false} JoinLeftCoalesced(a: seq<Region>, r: Region, b: seq<Region>)
    requires Coalesced(a) && Coalesced([r] + b) && r.length > 0
    ensures Coalesced(JoinLeft(a, r) + b)
  {
    CoalescedConcat([r], b);
    if a != [] && Mergeable(a[|a| - 1], r) {
      var l, a' := a[|a| - 1], a[..|a| - 1];
      var m := Merged(l, r);
      assert a == a' + [l];
      CoalescedConcat(a', [l]);
      CoalescedConcat(a' + [m], b);
      CoalescedConcat(a', [m]);
      if b != [] { MergedKeepsRight(l, r, b[0]); }
    } else {
      CoalescedConcat(a + [r], b);
      CoalescedConcat(a, [r]);
    }
  }

  lemma {:induction false} MergedKeepsRight(l: Region, r: Region, n: Region)
    requires Mergeable(l, r) && !Mergeable(r, n) && r.length > 0
    ensures !Mergeable(Merged(l, r), n)
  {
  }

  lemma {:induction false} ConcatWf(xs: seq<Region>, ys: seq<Region>, lo: nat, hi: nat)
    requires Wf(xs, lo, hi) && Wf(ys, lo, hi)
    requires ys != [] ==> forall i :: 0 <= i < |xs| ==> xs[i].End() <= ys[0].base
    ensures Wf(xs + ys, lo, hi)
  {
    var rs := xs + ys;
    forall i, j | 0 <= i < j < |rs| ensures rs[i].End() <= rs[j].base {
      if i < |xs| <= j {
        assert xs[i].End() <= ys[0].base;
        if j > |xs| { assert ys[0].End() <= ys[j - |xs|].base; }
      }
    }
  }

  lemma {:induction false} JoinedWf(a: seq<Region>, l: Region, r: Region, b: seq<Region>, lo: nat, hi: nat)
    requires Wf(a + [l], lo, hi) && Wf([r] + b, lo, hi) && l.End() == r.base
    ensures Wf(a + [Merged(l, r)] + b, lo, hi)
  {
    var m := Merged(l, r);
    var xs, ys := a + [l], [r] + b;
    assert RegionOk(xs[|a|], lo, hi) && RegionOk(ys[0], lo, hi);
    forall i | 0 <= i < |b| ensures m.End() <= b[i].base { assert ys[0].End() <= ys[i + 1].base; }
    assert Wf(b, lo, hi) by {
      forall i, j | 0 <= i < j < |b| ensures b[i].End() <= b[j].base { assert ys[i + 1].End() <= ys[j + 1].base; }
      forall i | 0 <= i < |b| ensures RegionOk(b[i], lo, hi) { assert RegionOk(ys[i + 1], lo, hi); }
    }
    Prepend(m, b, lo, hi);
    assert Wf(a, lo, hi) by {
      forall i, j | 0 <= i < j < |a| ensures a[i].End() <= a[j].base { assert xs[i].End() <= xs[j].base; }
      forall i | 0 <= i < |a| ensures RegionOk(a[i], lo, hi) { assert RegionOk(xs[i], lo, hi); }
    }
    forall i | 0 <= i < |a| ensures a[i].End() <= m.base { assert xs[i].End() <= xs[|a|].base; }
    ConcatWf(a, [m] + b, lo, hi);
    assert a + [m] + b == a + ([m] + b);
  }

  lemma {:induction false} SliceKeeps(rs: seq<Region>, n: nat, lo: nat, hi: nat)
    requires Wf(rs, lo, hi) && n <= |rs|
    ensures Wf(rs[..n], lo, hi) && Wf(rs[n..], lo, hi)
    ensures Coalesced(rs) ==> Coalesced(rs[..n]) && Coalesced(rs[n..])
  {
    assert rs == rs[..n] + rs[n..];
    CoalescedConcat(rs[..n], rs[n..]);
    forall i | 0 <= i < |rs| - n ensures RegionOk(rs[n..][i], lo, hi) { assert RegionOk(rs[n + i], lo, hi); }
    forall i, j | 0 <= i < j < |rs| - n ensures rs[n..][i].End() <= rs[n..][j].base { assert rs[n + i].End() <= rs[n + j].base; }
  }

  /** region_insert of a region in free space: the map gains exactly that region, and nothing stays mergeable. */
  lemma {:induction false} InsertedKeeps(rs: seq<Region>, r: Region, lo: nat, hi: nat)
    requires Wf(rs, lo, hi) && Coalesced(rs) && RegionOk(r, lo, hi) && DisjointFrom(rs, r.base, r.length)
    ensures Wf(Inserted(rs, r), lo, hi) && Coalesced(Inserted(rs, r))
  {
    var n := Rank(rs, r.base);
    RankAround(rs, r.base, r.length, lo, hi);
    SliceKeeps(rs, n, lo, hi);
    var (r', b) := AbsorbRight(r, rs[n..]);
    AbsorbRightWf(r, rs[n..], lo, hi);
    assert RegionOk(([r'] + b)[0], lo, hi);
    JoinLeftWf(rs[..n], r', b, lo, hi);
    JoinLeftCoalesced(rs[..n], r', b);
  }

  lemma {:induction false} InsertedLookup(rs: seq<Region>, r: Region, x: nat, lo: nat, hi: nat)
    requires Wf(rs, lo, hi) && r.length > 0 && DisjointFrom(rs, r.base, r.length)
    ensures Lookup(Inserted(rs, r), x) == if r.Has(x) then Some(AttrAt(r, x)) else Lookup(rs, x)
  {
    var n := Rank(rs, r.base);
    var (r', b) := AbsorbRight(r, rs[n..]);
    var p, q := Lookup(rs[..n], x), Lookup(rs[n..], x);
    assert Lookup(Inserted(rs, r), x) == Or(Or(p, Lookup([r], x)), q) by {
      AbsorbRightLookup(r, rs[n..], x);
      LookupConcat([r'], b, x);
      JoinLeftLookup(rs[..n], r', x);
      LookupConcat(JoinLeft(rs[..n], r'), b, x);
    }
    assert Lookup(rs, x) == Or(p, q) by {
      assert rs == rs[..n] + rs[n..];
      LookupConcat(rs[..n], rs[n..], x);
    }
    SingleLookup(r, x);
    if r.Has(x) { LookupNone(rs[..n], x); }
  }

  /** Everything region_insert promises. */
  lemma {:induction false} InsertedAll(rs: seq<Region>, r: Region, lo: nat, hi: nat)
    requires Wf(rs, lo, hi) && Coalesced(rs) && RegionOk(r, lo, hi) && DisjointFrom(rs, r.base, r.length)
    ensures Wf(Inserted(rs, r), lo, hi) && Coalesced(Inserted(rs, r))
    ensures forall x: nat :: Lookup(Inserted(rs, r), x) == if r.Has(x) then Some(AttrAt(r, x)) else Lookup(rs, x)
  {
    InsertedKeeps(rs, r, lo, hi);
    forall x: nat ensures Lookup(Inserted(rs, r), x) == if r.Has(x) then Some(AttrAt(r, x)) else Lookup(rs, x) {
      InsertedLookup(rs, r, x, lo, hi);
    }
  }

  /** Where the steps of region_insert find their neighbours. */
  lemma {:induction false} InsertPlaces(rs: seq<Region>, r: Region, lo: nat, hi: nat)
    requires Wf(rs, lo, hi) && RegionOk(r, lo, hi) && DisjointFrom(rs, r.base, r.length)
    ensures var n := Rank(rs, r.base);
      && n == Rank(rs, r.base + 1) && rs == rs[..n] + rs[n..]
      && (forall i :: 0 <= i < n ==> rs[..n][i].base < r.base)
      && Inserted(rs, r) == JoinLeft(rs[..n], AbsorbRight(r, rs[n..]).0) + AbsorbRight(r, rs[n..]).1
  {
    RankAround(rs, r.base, r.length, lo, hi);
  }

  /** The regions from its place on start above it. */
  lemma {:induction false} InsertAbove(rs: seq<Region>, r: Region, lo: nat, hi: nat, b: seq<Region>)
    requires Wf(rs, lo, hi) && RegionOk(r, lo, hi) && DisjointFrom(rs, r.base, r.length) && b == rs[Rank(rs, r.base)..]
    ensures forall i :: 0 <= i < |b| ==> r.base < b[i].base
  {
    RankAround(rs, r.base, r.length, lo, hi);
    var n := Rank(rs, r.base);
    forall i | 0 <= i < |b| ensures r.base < b[i].base { assert b[i] == rs[n + i] && r.base + r.length <= rs[n + i].base; }
  }

  lemma {:induction false} AlignedDifference(x: nat, y: nat)
    requires x % PAGE == 0 && y % PAGE == 0 && y <= x
    ensures (x - y) % PAGE == 0
  {
  }

  lemma {:induction false} EndAligned(r: Region, lo: nat, hi: nat)
    requires RegionOk(r, lo, hi)
    ensures r.End() % PAGE == 0 && r.base < r.End()
  {
  }

  lemma {:induction false} SingleLookup(r: Region, x: nat)
    ensures Lookup([r], x) == if r.Has(x) then Some(AttrAt(r, x)) else None
  {
    assert [r][1..] == [];
  }

  // ---------- cutting a range out of a region ----------

  /** clone_to, for a base inside the source region. */
  function CloneTo(base: nat, length: nat, from: Region): Region
    requires from.base <= base
  {
    from.(base := base, length := length, kind := KindAt(from.kind, base - from.base))
  }

  /** What is left of region r below a. */
  function Head(r: Region, a: nat): seq<Region>
    requires r.base <= a
  {
    if a > r.base then [r.(length := a - r.base)] else []
  }

  /** What is left of region r from e on. */
  function Tail(r: Region, e: nat): seq<Region>
    requires r.base <= e
  {
    if r.End() > e then [CloneTo(e, r.End() - e, r)] else []
  }

  function Carved(rs: seq<Region>, i: nat, a: nat, e: nat): seq<Region>
    requires i < |rs| && rs[i].base <= a <= e
  {
    rs[..i] + (Head(rs[i], a) + Tail(rs[i], e)) + rs[i + 1..]
  }

  lemma {:induction false} PiecesLookup(r: Region, a: nat, e: nat, x: nat)
    requires r.base <= a < e <= r.End()
    ensures Lookup(Head(r, a) + Tail(r, e), x) == if a <= x < e then None else Lookup([r], x)
  {
    LookupConcat(Head(r, a), Tail(r, e), x);
    assert [r][1..] == [];
    if a > r.base { assert Head(r, a)[1..] == []; }
    if r.End() > e { assert Tail(r, e)[1..] == []; }
  }

  lemma {:induction false} CarvedLookup(rs: seq<Region>, i: nat, a: nat, e: nat, x: nat)
    requires Sep(rs) && i < |rs| && rs[i].base <= a < e <= rs[i].End()
    ensures Lookup(Carved(rs, i, a, e), x) == if a <= x < e then None else Lookup(rs, x)
  {
    var r := rs[i];
    LookupConcat3(rs[..i], Head(r, a) + Tail(r, e), rs[i + 1..], x);
    assert rs == rs[..i] + [r] + rs[i + 1..];
    LookupConcat3(rs[..i], [r], rs[i + 1..], x);
    PiecesLookup(r, a, e, x);
    if a <= x < e {
      LookupNone(rs[..i], x);
      LookupNone(rs[i + 1..], x);
    }
  }

  lemma {:induction false} PiecesWf(r: Region, a: nat, e: nat, lo: nat, hi: nat)
    requires RegionOk(r, lo, hi) && r.base <= a < e <= r.End() && a % PAGE == 0 && e % PAGE == 0
    ensures Wf(Head(r, a) + Tail(r, e), r.base, r.End()) && DisjointFrom(Head(r, a) + Tail(r, e), a, e - a)
    ensures Coalesced(Head(r, a) + Tail(r, e))
  {
    var h, t := Head(r, a), Tail(r, e);
    EndAligned(r, lo, hi);
    AlignedDifference(a, r.base);
    AlignedDifference(r.End(), e);
    assert Wf(h, r.base, r.End()) && Wf(t, r.base, r.End());
    ConcatWf(h, t, r.base, r.End());
    CoalescedConcat(h, t);
  }

  lemma {:induction false} CarvedWf(rs: seq<Region>, i: nat, a: nat, e: nat, lo: nat, hi: nat)
    requires Wf(rs, lo, hi) && i < |rs| && rs[i].base <= a < e <= rs[i].End() && a % PAGE == 0 && e % PAGE == 0
    ensures Wf(Carved(rs, i, a, e), lo, hi) && DisjointFrom(Carved(rs, i, a, e), a, e - a)
  {
    var r := rs[i];
    assert RegionOk(r, lo, hi);
    PiecesWf(r, a, e, lo, hi);
    assert rs == rs[..i] + [r] + rs[i + 1..];
    SpliceWf(rs[..i], [r], rs[i + 1..], Head(r, a) + Tail(r, e), lo, hi, r.base, r.End());
  }

  /** The remains of a region merge with a neighbour only if the region itself would have. */
  lemma {:induction false} PiecesNotMergeable(p: Region, r: Region, n: Region, a: nat, e: nat)
    requires r.base <= a < e <= r.End()
    ensures !Mergeable(p, r) && Head(r, a) != [] ==> !Mergeable(p, Head(r, a)[0])
    ensures !Mergeable(r, n) && Tail(r, e) != [] ==> !Mergeable(Tail(r, e)[0], n)
    ensures a < n.base && Head(r, a) != [] ==> !Mergeable(Head(r, a)[0], n)
    ensures p.End() < e && Tail(r, e) != [] ==> !Mergeable(p, Tail(r, e)[0])
  {
  }

  lemma {:induction false} CarvedCoalesced(rs: seq<Region>, i: nat, a: nat, e: nat, lo: nat, hi: nat)
    requires Wf(rs, lo, hi) && Coalesced(rs) && i < |rs| && rs[i].base <= a < e <= rs[i].End() && a % PAGE == 0 && e % PAGE == 0
    ensures Coalesced(Carved(rs, i, a, e))
  {
    var r, x, z := rs[i], rs[..i], rs[i + 1..];
    var m := Head(r, a) + Tail(r, e);
    assert RegionOk(r, lo, hi);
    PiecesWf(r, a, e, lo, hi);
    assert rs == x + [r] + z;
    CoalescedConcat(x + [r], z);
    CoalescedConcat(x, [r]);
    if x != [] {
      assert x[|x| - 1].End() <= r.base;
      assert m != [] ==> !Mergeable(x[|x| - 1], m[0]) by { PiecesNotMergeable(x[|x| - 1], r, r, a, e); }
    }
    if z != [] {
      assert r.End() <= z[0].base;
      assert m != [] ==> !Mergeable(m[|m| - 1], z[0]) by { PiecesNotMergeable(r, r, z[0], a, e); }
    }
    Seams(x, m, z);
  }

  /** Everything cutting a range out promises. */
  lemma {:induction false} CarvedAll(rs: seq<Region>, i: nat, a: nat, e: nat, lo: nat, hi: nat)
    requires Wf(rs, lo, hi) && Coalesced(rs) && i < |rs| && rs[i].base <= a < e <= rs[i].End() && a % PAGE == 0 && e % PAGE == 0
    ensures Wf(Carved(rs, i, a, e), lo, hi) && Coalesced(Carved(rs, i, a, e)) && DisjointFrom(Carved(rs, i, a, e), a, e - a)
    ensures forall x: nat :: Lookup(Carved(rs, i, a, e), x) == if a <= x < e then None else Lookup(rs, x)
  {
    CarvedWf(rs, i, a, e, lo, hi);
    CarvedCoalesced(rs, i, a, e, lo, hi);
    forall x: nat ensures Lookup(Carved(rs, i, a, e), x) == if a <= x < e then None else Lookup(rs, x) {
      CarvedLookup(rs, i, a, e, x);
    }
  }

  lemma {:induction false} Seams(x: seq<Region>, m: seq<Region>, z: seq<Region>)
    requires Coalesced(x) && Coalesced(m) && Coalesced(z)
    requires x != [] && m != [] ==> !Mergeable(x[|x| - 1], m[0])
    requires m != [] && z != [] ==> !Mergeable(m[|m| - 1], z[0])
    requires m == [] && x != [] && z != [] ==> !Mergeable(x[|x| - 1], z[0])
    ensures Coalesced(x + m + z)
  {
    CoalescedConcat(x + m, z);
    CoalescedConcat(x, m);
  }

  // ---------- editing sequences in place ----------

  lemma {:induction false} EditAt<T>(x: seq<T>, r: T, z: seq<T>, v: T)
    ensures (x + [r] + z)[|x| := v] == x + [v] + z
    ensures (x + [r] + z)[..|x|] + (x + [r] + z)[|x| + 1..] == x + z
    ensures (x + z)[..|x|] + [v] + (x + z)[|x|..] == x + [v] + z
  {
  }

  lemma {:induction false} SplitAt<T>(s: seq<T>, i: nat)
    requires i < |s|
    ensures s == s[..i] + [s[i]] + s[i + 1..] && s[i..] == [s[i]] + s[i + 1..]
  {
  }

  lemma {:induction false} Regroup<T>(x: seq<T>, h: seq<T>, t: seq<T>, z: seq<T>)
    ensures x + h + (t + z) == x + (h + t) + z
    ensures h == [] ==> x + (t + z) == x + (h + t) + z
  {
  }
}
