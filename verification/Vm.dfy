/**
 memory/vm.c on one address space that is not the global one: region search, holes,
 mapping, protection and cache rewrites inside one region, and unmapping, on the region
 tree. Locks, the descriptor pool and the page tables are not part of this module.
 */
module Vm {
  import opened Basics
  import RbShape
  import RbTree
  import opened VmModel
  import opened VmTheorems
  import opened VmUnique
  import opened VmUnmap
  import opened VmTree

  const WORD: nat := 0x1_0000_0000_0000_0000

  /** The kinds of rewrite_common. */
  datatype Rewrite = SetProt(prot: Prot) | SetCache(cache: Cache)

  function Applied(op: Rewrite, r: Region): Region {
    match op
    case SetProt(p) => r.(prot := p)
    case SetCache(c) => r.(cache := c)
  }

  function AppliedAttr(op: Rewrite, a: Attr): Attr {
    match op
    case SetProt(p) => a.(prot := p)
    case SetCache(c) => a.(cache := c)
  }

  predicate AlreadySo(op: Rewrite, r: Region) {
    match op
    case SetProt(p) => r.prot == p
    case SetCache(c) => r.cache == c
  }

  /** clone_to's assertions on a direct region: the new physical address neither wraps nor is zero. */
  predicate CloneAllowed(base: nat, from: Region)
    requires from.base <= base
  {
    from.kind.Direct? ==>
      if base > from.base then WORD - 1 - from.kind.phys > base - from.base else from.kind.phys > 0
  }

  /** They hold for a clone at `a` when the physical address behind `a` is neither zero nor past the last page. */
  ghost predicate ClonesAt(rs: seq<Region>, a: nat) {
    Lookup(rs, a).Some? && Lookup(rs, a).value.kind.Direct? ==> 0 < Lookup(rs, a).value.kind.phys < WORD - 1
  }

  /** Addresses a and e see one stretch of physical memory. */
  ghost predicate OneStretch(rs: seq<Region>, a: nat, e: nat)
    requires a <= e
  {
    && Lookup(rs, a).Some? && Lookup(rs, e).Some? && Lookup(rs, a).value.kind.Direct?
    && Lookup(rs, e).value.kind == Direct(Lookup(rs, a).value.kind.phys + (e - a))
  }

  lemma {:induction false} CloneFromMap(rs: seq<Region>, lo: nat, hi: nat, i: nat, a: nat, e: nat)
    requires Wf(rs, lo, hi) && i < |rs| && rs[i].Has(a) && a <= e < rs[i].End()
    ensures ClonesAt(rs, e) ==> CloneAllowed(e, rs[i])
    ensures rs[i].kind.Direct? ==> OneStretch(rs, a, e)
  {
    LookupIndex(rs, i, a);
    LookupIndex(rs, i, e);
  }

  ghost predicate InBounds(address: nat, length: nat, start: nat, end: nat) {
    start <= address < end && end - address >= length
  }

  /** A free segment of the address space. */
  ghost predicate Hole(rs: seq<Region>, address: nat, length: nat, start: nat, end: nat) {
    InBounds(address, length, start, end) && DisjointFrom(rs, address, length)
  }

  /** find_hole's choice: the hint if it is free, else the lowest free segment, if any. */
  ghost predicate Chosen(rs: seq<Region>, hint: nat, length: nat, start: nat, end: nat, hole: Option<nat>) {
    if Hole(rs, hint, length, start, end) then hole == Some(hint)
    else if hole.None? then forall h: nat :: !Hole(rs, h, length, start, end)
    else Hole(rs, hole.value, length, start, end) && forall h: nat :: Hole(rs, h, length, start, end) ==> hole.value <= h
  }

  /** The address map gains exactly region r. */
  ghost predicate Joined(rs: seq<Region>, rs': seq<Region>, r: Region) {
    forall x: nat :: Lookup(rs', x) == if r.Has(x) then Some(AttrAt(r, x)) else Lookup(rs, x)
  }

  /** map_common's rounding of a hint, in 64 bits. */
  function Rounded(hint: nat): nat {
    if hint % PAGE == 0 then hint else (hint + (PAGE - hint % PAGE)) % WORD
  }

  lemma {:induction false} RoundedAligned(hint: nat)
    requires hint < WORD
    ensures Rounded(hint) % PAGE == 0
    ensures if hint <= WORD - PAGE then hint <= Rounded(hint) < hint + PAGE else Rounded(hint) == 0
  {
    if hint % PAGE != 0 {
      var up := hint + (PAGE - hint % PAGE);
      assert up == PAGE * (hint / PAGE + 1);
      assert up <= WORD;
    }
  }

  /** Where map_common puts a region, if anywhere. */
  ghost predicate Placed(rs: seq<Region>, hint: nat, length: nat, fixed: bool, start: nat, end: nat, r: Option<nat>) {
    if length == 0 || length % PAGE != 0 then r.None?
    else if fixed then r == if hint % PAGE == 0 && Hole(rs, hint, length, start, end) then Some(hint) else None
    else Chosen(rs, Rounded(hint), length, start, end, r) && (r.Some? ==> r.value % PAGE == 0)
  }

  /** Both addresses are in bounds and every byte between them is mapped. */
  ghost predicate Existing(rs: seq<Region>, start: nat, end: nat, address: nat, last: nat) {
    start <= address < end && start <= last < end && forall x: nat :: address <= x < last ==> Lookup(rs, x).Some?
  }

  /** What memory_exists is asked: the segment lies in bounds and every byte of it is mapped. */
  ghost predicate SegmentMapped(rs: seq<Region>, start: nat, end: nat, address: nat, length: nat) {
    InBounds(address, length, start, end) && forall x: nat :: address <= x < address + length ==> Lookup(rs, x).Some?
  }

  /** The end of the segment, computed in 64 bits, is back in bounds. */
  predicate WrapsBack(start: nat, end: nat, address: nat, length: nat) {
    address + length >= WORD && start <= address < end && start <= (address + length) % WORD < end
  }

  /**
   The answer is right except in two cases: a segment that wraps around back into bounds is
   said to exist, and a mapped one that reaches to the very end of the address space is not.
   */
  lemma {:induction false} ExistsExactly(rs: seq<Region>, start: nat, end: nat, address: nat, length: nat)
    requires end < WORD && address < WORD && length < WORD
    ensures var last := (address + length) % WORD;
      (Existing(rs, start, end, address, last) <==> SegmentMapped(rs, start, end, address, length))
      <==> !WrapsBack(start, end, address, length)
           && !(length > 0 && address + length == end && SegmentMapped(rs, start, end, address, length))
  {
    if address + length >= WORD { assert (address + length) % WORD == address + length - WORD < address; }
  }

  /** Where the end of the address space is not page aligned, as in the kernel's own, no mapped segment reaches it. */
  lemma {:induction false} EndNeverMapped(rs: seq<Region>, start: nat, end: nat, address: nat, length: nat)
    requires Wf(rs, start, end) && end % PAGE != 0 && length > 0 && address + length == end
    ensures !SegmentMapped(rs, start, end, address, length)
  {
    if SegmentMapped(rs, start, end, address, length) {
      var i := LookupFound(rs, end - 1);
      EndAligned(rs[i], start, end);
      assert false;
    }
  }

  /** The byte below `top` is unmapped when the nearest region below ends earlier. */
  lemma {:induction false} Unmapped(rs: seq<Region>, lo: nat, hi: nat, n: nat, top: nat)
    requires Wf(rs, lo, hi) && n == Rank(rs, top) && top > 0 && (n > 0 ==> rs[n - 1].End() < top)
    ensures Lookup(rs, top - 1) == None
  {
    forall j | 0 <= j < |rs| ensures !rs[j].Has(top - 1) {
      if j < n - 1 { assert rs[j].End() <= rs[n - 1].base && RegionOk(rs[n - 1], lo, hi); }
      if j > n { assert rs[n].End() <= rs[j].base; }
    }
    LookupNone(rs, top - 1);
  }

  /** A segment is free when the last region that starts below its end ends before it. */
  lemma {:induction false} FreeBelow(rs: seq<Region>, lo: nat, hi: nat, address: nat, length: nat)
    requires Wf(rs, lo, hi) && length > 0
    ensures var n := Rank(rs, address + length);
      && (DisjointFrom(rs, address, length) <==> n == 0 || rs[n - 1].End() <= address)
      && forall j :: n <= j < |rs| ==> address + length <= rs[j].base
  {
    var n := Rank(rs, address + length);
    forall j | n <= j < |rs| ensures address + length <= rs[j].base {
      if j > n { assert rs[n].End() <= rs[j].base && RegionOk(rs[n], lo, hi); }
    }
    forall j | 0 <= j < n - 1 ensures rs[j].End() <= rs[n - 1].End() { assert rs[j].End() <= rs[n - 1].base; }
  }

  const NOWHERE: Region := Region(0, 0, Anon(false), Prot(false, false, false), Standard, false)

  class AddressSpace {
    const start: nat
    const end: nat
    const space: RegionTree

    constructor (start: nat, end: nat)
      requires start % PAGE == 0 && start < end < WORD
      ensures this.start == start && this.end == end && space.regions == [] && Valid() && fresh(Footprint())
    {
      this.start, this.end := start, end;
      space := new RegionTree();
    }

    ghost function Footprint(): set<object>
      reads space, space.tree
    {
      space.Footprint()
    }

    ghost predicate Valid()
      reads space, space.tree, space.tree.repr
    {
      start % PAGE == 0 && start < end < WORD && space.Valid() && Wf(space.regions, start, end) && Coalesced(space.regions)
    }

    /** The region of the last node that starts below an address. */
    method LastBelow(top: nat) returns (node: RbShape.Node?, r: Region, ghost n: nat)
      requires Valid()
      ensures n == Rank(space.regions, top) && (node == null <==> n == 0)
      ensures node != null ==> space.Is(node, n - 1) && r == space.regions[n - 1]
    {
      node, n := space.Search(top, RbTree.Lt);
      r := if node == null then NOWHERE else space.of[node];
    }

    /** find_region: the last region that meets the segment, or null. */
    method FindRegion(address: nat, length: nat) returns (node: RbShape.Node?, ghost i: nat)
      requires Valid() && length > 0
      ensures node == null <==> DisjointFrom(space.regions, address, length)
      ensures node != null ==> space.Is(node, i) && space.regions[i].base < address + length && address < space.regions[i].End()
      ensures node != null ==> forall j :: i < j < |space.regions| ==> address + length <= space.regions[j].base
    {
      var r;
      ghost var n;
      node, r, n := LastBelow(address + length);
      FreeBelow(space.regions, start, end, address, length);
      i := if n > 0 then n - 1 else 0;
      if node != null && r.End() <= address { node := null; }
    }

    /** find_hole. */
    method FindHole(hint: nat, length: nat) returns (hole: Option<nat>)
      requires Valid() && length > 0
      ensures Chosen(space.regions, hint, length, start, end, hole)
      ensures hole.Some? && hint % PAGE == 0 ==> hole.value % PAGE == 0
    {
      if start <= hint < end && end - hint >= length {
        var node, _ := FindRegion(hint, length);
        if node == null { return Some(hint); }
      }
      var address := start;
      while true
        invariant address >= start && address % PAGE == 0
        invariant forall h: nat :: Hole(space.regions, h, length, start, end) ==> address <= h
        decreases end - address
      {
        if !(start <= address < end && end - address >= length) {
          return None;
        }
        var node, i := FindRegion(address, length);
        if node == null { return Some(address); }
        EndAligned(space.regions[i], start, end);
        forall h: nat | Hole(space.regions, h, length, start, end) ensures space.regions[i].End() <= h {
          assert address <= h;
        }
        address := space.of[node].End();
      }
    }

    /** memory_exists; the end is computed in 64 bits. */
    method MemoryExists(address: nat, length: nat) returns (ok: bool)
      requires Valid() && address < WORD && length < WORD
      ensures ok <==> Existing(space.regions, start, end, address, (address + length) % WORD)
    {
      var last := (address + length) % WORD;
      if !(start <= address < end) || !(start <= last < end) { return false; }
      var top := last;
      while top > address
        invariant top <= last
        invariant forall x: nat :: top <= x < last && address <= x ==> Lookup(space.regions, x).Some?
      {
        var node, r, n := LastBelow(top);
        if node == null {
          Unmapped(space.regions, start, end, n, top);
          return false;
        }
        assert RegionOk(r, start, end);
        if r.End() < top {
          Unmapped(space.regions, start, end, n, top);
          return false;
        }
        forall x: nat | r.base <= x < top ensures Lookup(space.regions, x).Some? { LookupIndex(space.regions, n - 1, x); }
        top := r.base;
      }
      return true;
    }

    /** rb_remove of the first region of the second part. */
    method DropNext(node: RbShape.Node, ghost a: seq<Region>, ghost b: seq<Region>)
      requires space.Valid() && space.regions == a + b && b != [] && space.Is(node, |a|)
      modifies Footprint()
      ensures space.Valid() && fresh(Footprint() - old(Footprint()))
      ensures space.regions == a + b[1..]
    {
      FirstOfRest(a, b);
      space.Drop(node, |a|);
    }

    /** The search at 204: the first region of the second part. */
    method NextRegion(base: nat, ghost a: seq<Region>, ghost b: seq<Region>) returns (node: RbShape.Node?)
      requires space.Valid() && space.regions == a + b && Rank(space.regions, base + 1) == |a|
      ensures node == null <==> b == []
      ensures node != null ==> space.Is(node, |a|) && space.of[node] == b[0]
    {
      ghost var n;
      node, n := space.Search(base, RbTree.Gt);
    }

    /** First part of region_insert: take in the region to the right if it fits on. */
    method TakeRight(region: Region, ghost a: seq<Region>, ghost b: seq<Region>) returns (r: Region)
      requires space.Valid() && space.regions == a + b && Rank(space.regions, region.base + 1) == |a|
      modifies Footprint()
      ensures space.Valid() && fresh(Footprint() - old(Footprint()))
      ensures if b != [] && Mergeable(region, b[0]) then r == Merged(region, b[0]) && space.regions == a + b[1..] else r == region && space.regions == a + b
    {
      r := region;
      var right := NextRegion(region.base, a, b);
      if right != null && Mergeable(r, space.of[right]) {
        r := Merged(r, space.of[right]);
        DropNext(right, a, b);
      }
    }

    /** rb_insert at the place of its base. */
    method PutRegion(r: Region, ghost a: seq<Region>, ghost b: seq<Region>) returns (node: RbShape.Node)
      requires space.Valid() && space.regions == a + b
      requires (forall i :: 0 <= i < |a| ==> a[i].base < r.base) && (forall i :: 0 <= i < |b| ==> r.base < b[i].base)
      modifies Footprint()
      ensures space.Valid() && fresh(Footprint() - old(Footprint()))
      ensures space.regions == a + [r] + b && space.Is(node, |a|)
      ensures fresh(node) && space.of == old(space.of)[node := r]
      ensures space.tree.Contents() == old(space.tree.Contents())[..|a|] + [node] + old(space.tree.Contents())[|a|..]
    {
      RankUnique(space.regions, r.base + 1, |a|);
      EditAt(a, r, b, r);
      node := space.Put(r);
    }

    /** Second half: merge with the region to the left. */
    method JoinToLeft(r: Region, node: RbShape.Node, ghost a: seq<Region>, ghost b: seq<Region>)
      requires space.Valid() && space.regions == a + [r] + b && space.Is(node, |a|) && forall i :: 0 <= i < |a| ==> a[i].base < r.base
      modifies Footprint()
      ensures space.Valid() && fresh(Footprint() - old(Footprint()))
      ensures space.regions == JoinLeft(a, r) + b
    {
      RankUnique(space.regions, r.base, |a|);
      var left, k := space.Search(r.base, RbTree.Lt);
      if left != null && Mergeable(space.of[left], r) {
        ghost var rs := space.regions;
        var merged := Merged(space.of[left], r);
        MergedEdit(a, r, b);
        assert left != node by { Apart(space.tree.Contents(), space.of, rs, k - 1, k); }
        space.Alter(left, k - 1, merged);
        assert space.Is(node, k);
        space.Drop(node, k);
      }
    }

    /** region_insert: the new region joins the map and nothing stays mergeable. */
    method RegionInsert(region: Region)
      requires Valid() && RegionOk(region, start, end) && DisjointFrom(space.regions, region.base, region.length)
      modifies Footprint()
      ensures Valid() && fresh(Footprint() - old(Footprint()))
      ensures space.regions == Inserted(old(space.regions), region)
      ensures Joined(old(space.regions), space.regions, region)
    {
      ghost var rs := space.regions;
      ghost var n := Rank(rs, region.base);
      ghost var a := rs[..n];
      InsertedAll(rs, region, start, end);
      InsertPlaces(rs, region, start, end);
      InsertAbove(rs, region, start, end, rs[n..]);
      InsertSteps(region, a, rs[n..]);
    }

    /** The steps of region_insert, on the regions below and above the new one. */
    method InsertSteps(region: Region, ghost a: seq<Region>, ghost b0: seq<Region>)
      requires space.Valid() && space.regions == a + b0 && Rank(space.regions, region.base + 1) == |a|
      requires (forall i :: 0 <= i < |a| ==> a[i].base < region.base) && (forall i :: 0 <= i < |b0| ==> region.base < b0[i].base)
      modifies Footprint()
      ensures space.Valid() && fresh(Footprint() - old(Footprint()))
      ensures space.regions == JoinLeft(a, AbsorbRight(region, b0).0) + AbsorbRight(region, b0).1
    {
      ghost var b := AbsorbRight(region, b0).1;
      var r := TakeRight(region, a, b0);
      PutAndJoin(r, a, b);
    }

    method PutAndJoin(r: Region, ghost a: seq<Region>, ghost b: seq<Region>)
      requires space.Valid() && space.regions == a + b
      requires (forall i :: 0 <= i < |a| ==> a[i].base < r.base) && (forall i :: 0 <= i < |b| ==> r.base < b[i].base)
      modifies Footprint()
      ensures space.Valid() && fresh(Footprint() - old(Footprint()))
      ensures space.regions == JoinLeft(a, r) + b
    {
      var node := PutRegion(r, a, b);
      JoinToLeft(r, node, a, b);
    }

    /** The part of map_common that chooses the address. */
    method FindPlace(hint: nat, length: nat, fixed: bool) returns (r: Option<nat>)
      requires Valid() && hint < WORD
      ensures Placed(space.regions, hint, length, fixed, start, end, r)
    {
      var address := hint;
      if length == 0 || length % PAGE != 0 { return None; }
      if address % PAGE != 0 {
        if fixed { return None; }
        address := (address + (PAGE - address % PAGE)) % WORD;
      }
      RoundedAligned(hint);
      r := FindHole(address, length);
      if r.Some? && hint != r.value && fixed { r := None; }
    }

    /** map_common: a new region in find_hole's choice for the rounded hint, or nullptr and no change; with FIXED only at the hint. */
    method Map(hint: nat, length: nat, prot: Prot, cache: Cache, fixed: bool, dynamic: bool, kind: Kind) returns (r: Option<nat>)
      requires Valid() && hint < WORD && (kind.Direct? ==> kind.phys % PAGE == 0)
      modifies Footprint()
      ensures Valid() && fresh(Footprint() - old(Footprint()))
      ensures Placed(old(space.regions), hint, length, fixed, start, end, r)
      ensures r.None? ==> space.regions == old(space.regions)
      ensures r.Some? ==> Joined(old(space.regions), space.regions, Region(r.value, length, kind, prot, cache, dynamic))
    {
      r := FindPlace(hint, length, fixed);
      if r.Some? { RegionInsert(Region(r.value, length, kind, prot, cache, dynamic)); }
    }

    /** Takes [a, e) out of region i, leaving its head in place and cloning its tail. */
    method Carve(node: RbShape.Node, ghost i: nat, a: nat, e: nat)
      requires Valid() && space.Is(node, i) && space.regions[i].base <= a < e <= space.regions[i].End() && a % PAGE == 0 && e % PAGE == 0
      requires e < space.regions[i].End() ==> CloneAllowed(e, space.regions[i])
      modifies Footprint()
      ensures Valid() && fresh(Footprint() - old(Footprint()))
      ensures space.regions == Carved(old(space.regions), i, a, e) && DisjointFrom(space.regions, a, e - a)
      ensures RemovedRange(old(space.regions), space.regions, a, e)
    {
      CarvedAll(space.regions, i, a, e, start, end);
      CarveSteps(node, i, a, e);
    }

    method CarveSteps(node: RbShape.Node, ghost i: nat, a: nat, e: nat)
      requires space.Valid() && Sep(space.regions) && space.Is(node, i) && space.regions[i].base <= a < e <= space.regions[i].End()
      modifies Footprint()
      ensures space.Valid() && fresh(Footprint() - old(Footprint()))
      ensures space.regions == Carved(old(space.regions), i, a, e)
    {
      ghost var x, z := space.regions[..i], space.regions[i + 1..];
      var r := space.of[node];
      SplitAt(space.regions, i);
      if r.End() > e { PutTail(node, i, e); }
      ghost var t := Tail(r, e);
      Regroup(x, Head(r, a), t, z);
      Trim(node, a, x, r, t + z);
    }

    /** The head of a region stays, if there is one. */
    method Trim(node: RbShape.Node, a: nat, ghost x: seq<Region>, r: Region, ghost z: seq<Region>)
      requires space.Valid() && space.regions == x + [r] + z && space.Is(node, |x|) && r.base <= a
      modifies Footprint()
      ensures space.Valid() && fresh(Footprint() - old(Footprint()))
      ensures space.regions == if a > r.base then x + Head(r, a) + z else x + z
    {
      EditAt(x, r, z, r.(length := a - r.base));
      if a > r.base {
        space.Alter(node, |x|, r.(length := a - r.base));
      } else {
        space.Drop(node, |x|);
      }
    }

    /** rb_insert of the tail: its base lies between region i and the next. */
    method PutTail(node: RbShape.Node, ghost i: nat, e: nat)
      requires space.Valid() && Sep(space.regions) && space.Is(node, i) && space.regions[i].base < e < space.regions[i].End()
      modifies Footprint()
      ensures space.Valid() && fresh(Footprint() - old(Footprint())) && space.Is(node, i)
      ensures space.regions == old(space.regions)[..i] + [old(space.regions)[i]] + (Tail(old(space.regions)[i], e) + old(space.regions)[i + 1..])
    {
      ghost var rs := space.regions;
      ghost var x, z := rs[..i + 1], rs[i + 1..];
      assert rs == x + z;
      TailBetween(rs, x, z, i, e);
      var r := space.of[node];
      TailPlaced(rs, x, z, i, e);
      var _ := PutRegion(CloneTo(e, r.End() - e, r), x, z);
    }

    /** The region that holds an address, as the searches of rewrite_common find it. */
    method RegionAt(address: nat) returns (node: RbShape.Node?, ghost i: int)
      requires Valid()
      ensures i == Holder(space.regions, address) && (node == null <==> i == -1) && (node != null ==> space.Is(node, i))
    {
      ghost var n;
      node, n := space.Search(address, RbTree.Lte);
      i := Holder(space.regions, address);
      if node != null && space.of[node].End() <= address { node := null; }
    }

    /** vm_rewrite_prot and vm_rewrite_cache on a range inside one region. */
    method RewriteInside(address: nat, length: nat, op: Rewrite, ghost k: nat)
      requires Valid() && length > 0 && address % PAGE == 0 && length % PAGE == 0
      requires k < |space.regions| && space.regions[k].base <= address && address + length <= space.regions[k].End()
      requires ClonesAt(space.regions, address) && (OneStretch(space.regions, address, address + length) ==> ClonesAt(space.regions, address + length))
      modifies Footprint()
      ensures Valid() && fresh(Footprint() - old(Footprint()))
      ensures Rewritten(old(space.regions), space.regions, address, address + length, op)
    {
      ghost var rs := space.regions;
      HolderUnique(rs, address, start, end, k);
      var node, i := RegionAt(address);
      var r := space.of[node];
      if AlreadySo(op, r) {
        RewriteIdle(rs, k, address, length, op);
      } else {
        RewriteSteps(node, k, address, length, op);
      }
    }

    method RewriteSteps(node: RbShape.Node, ghost k: nat, address: nat, length: nat, op: Rewrite)
      requires Valid() && length > 0 && address % PAGE == 0 && length % PAGE == 0
      requires space.Is(node, k) && space.regions[k].base <= address && address + length <= space.regions[k].End()
      requires ClonesAt(space.regions, address) && (OneStretch(space.regions, address, address + length) ==> ClonesAt(space.regions, address + length))
      modifies Footprint()
      ensures Valid() && fresh(Footprint() - old(Footprint()))
      ensures Rewritten(old(space.regions), space.regions, address, address + length, op)
    {
      ghost var rs := space.regions;
      var r := space.of[node];
      var region := Applied(op, CloneTo(address, length, r));
      RewriteOk(rs, k, address, length, op, start, end);
      CarveRange(node, k, address, length);
      ghost var mid := space.regions;
      RegionInsert(region);
      RewriteMap(rs, mid, space.regions, k, address, length, op);
    }

    /** Carve with clone_to's assertions read off the address map. */
    method CarveRange(node: RbShape.Node, ghost k: nat, address: nat, length: nat)
      requires Valid() && length > 0 && address % PAGE == 0 && length % PAGE == 0
      requires space.Is(node, k) && space.regions[k].base <= address && address + length <= space.regions[k].End()
      requires OneStretch(space.regions, address, address + length) ==> ClonesAt(space.regions, address + length)
      modifies Footprint()
      ensures Valid() && fresh(Footprint() - old(Footprint()))
      ensures DisjointFrom(space.regions, address, length) && RemovedRange(old(space.regions), space.regions, address, address + length)
    {
      if address + length < space.of[node].End() { CloneFromMap(space.regions, start, end, k, address, address + length); }
      Carve(node, k, address, address + length);
    }

    /** The first part of an unmap: cut the range out of the region that holds its first address. */
    method UnmapFirst(address: nat, last: nat) returns (cur: nat)
      requires Valid() && address < last && address % PAGE == 0 && last % PAGE == 0
      requires OneStretch(space.regions, address, last) ==> ClonesAt(space.regions, last)
      modifies Footprint()
      ensures Valid() && fresh(Footprint() - old(Footprint()))
      ensures (space.regions, cur) == FirstCut(old(space.regions), address, last)
    {
      ghost var rs := space.regions;
      var node, i := RegionAt(address);
      if node == null {
        cur := address;
      } else {
        var r := space.of[node];
        EndAligned(r, start, end);
        cur := if r.End() - address > last - address then last else r.End();
        if last < r.End() { CloneFromMap(rs, start, end, i, address, last); }
        Carve(node, i, address, cur);
      }
    }

    /** The same, with the two parts of the regions that the loop sees. */
    method UnmapStart(address: nat, last: nat) returns (cur: nat, ghost x: seq<Region>, ghost b: seq<Region>)
      requires Valid() && address < last && address % PAGE == 0 && last % PAGE == 0
      requires OneStretch(space.regions, address, last) ==> ClonesAt(space.regions, last)
      modifies Footprint()
      ensures space.Valid() && fresh(Footprint() - old(Footprint()))
      ensures space.regions == x + b && From(b, cur, start, end) && forall i :: 0 <= i < |x| ==> x[i].base < cur
      ensures UnmapRange(old(space.regions), address, last) == Rejoin(x, UnmapTail(b, cur, last))
    {
      ghost var rs := space.regions;
      cur := UnmapFirst(address, last);
      x, b := CutParts(rs, address, last, start, end, space.regions, cur);
    }

    /** One turn of the loop at 389-434; `more` says that it goes on. */
    method UnmapTurn(cur: nat, last: nat, ghost x: seq<Region>, ghost b: seq<Region>) returns (more: bool, defined: bool, next: nat)
      requires space.Valid() && space.regions == x + b && From(b, cur, start, end) && cur < last
      requires forall i :: 0 <= i < |x| ==> x[i].base < cur
      modifies Footprint()
      ensures space.Valid() && fresh(Footprint() - old(Footprint()))
      ensures more ==> defined && b != [] && next == b[0].End() && space.regions == x + b[1..] && !(b[0].base <= last < b[0].End())
      ensures !more && defined ==> b == [] && space.regions == x + b
      ensures !defined ==> b != [] && b[0].base <= last < b[0].End()
    {
      RankUnique(space.regions, cur, |x|);
      var node, n := space.Search(cur, RbTree.Gte);
      if node == null { return false, true, cur; }
      var r := space.of[node];
      assert r == b[0];
      // end - base, unsigned, clipped to the region
      var split := if last >= r.base && last - r.base < r.length then last - r.base else r.length;
      if split < r.length { return false, false, r.End(); }
      DropNext(node, x, b);
      return true, true, r.End();
    }

    /** The loop of an unmap over the regions from `cur0` on. */
    method UnmapRest(cur0: nat, last: nat, ghost x: seq<Region>, ghost b0: seq<Region>) returns (defined: bool)
      requires space.Valid() && space.regions == x + b0 && From(b0, cur0, start, end)
      requires forall i :: 0 <= i < |x| ==> x[i].base < cur0
      modifies Footprint()
      ensures space.Valid() && fresh(Footprint() - old(Footprint()))
      ensures defined <==> UnmapTail(b0, cur0, last).Done?
      ensures defined ==> space.regions == x + UnmapTail(b0, cur0, last).regions
    {
      var cur: nat := cur0;
      ghost var b := b0;
      while cur < last
        invariant space.Valid() && fresh(Footprint() - old(Footprint()))
        invariant space.regions == x + b && From(b, cur, start, end) && cur0 <= cur
        invariant UnmapTail(b, cur, last) == UnmapTail(b0, cur0, last)
        decreases |b|
      {
        var more, ok, next := UnmapTurn(cur, last, x, b);
        if !more { return ok; }
        FromTail(b, cur, start, end);
        cur, b := next, b[1..];
      }
      return true;
    }

    /** vm_unmap over any number of regions and holes; false when the code uses an uninitialised address. */
    method Unmap(address: nat, length: nat) returns (defined: bool)
      requires Valid() && address % PAGE == 0 && length % PAGE == 0 && (length > 0 ==> InBounds(address, length, start, end))
      requires OneStretch(space.regions, address, address + length) ==> ClonesAt(space.regions, address + length)
      modifies Footprint()
      ensures space.Valid() && fresh(Footprint() - old(Footprint()))
      ensures length == 0 ==> defined && space.regions == old(space.regions)
      ensures length > 0 ==> UnmapLeaves(old(space.regions), space.regions, address, address + length, defined, start, end)
      ensures length == 0 || Cleanly(old(space.regions), address, address + length) ==> Valid()
    {
      if length == 0 { return true; }
      defined := UnmapPages(address, length);
    }

    /** The same on a range that is not empty. */
    method UnmapPages(address: nat, length: nat) returns (defined: bool)
      requires Valid() && length > 0 && address % PAGE == 0 && length % PAGE == 0
      requires OneStretch(space.regions, address, address + length) ==> ClonesAt(space.regions, address + length)
      modifies Footprint()
      ensures space.Valid() && fresh(Footprint() - old(Footprint()))
      ensures UnmapLeaves(old(space.regions), space.regions, address, address + length, defined, start, end)
      ensures Cleanly(old(space.regions), address, address + length) ==> Valid()
    {
      ghost var rs := space.regions;
      defined := UnmapSome(address, address + length);
      UnmapOutcome(rs, space.regions, address, address + length, defined, start, end);
    }

    method UnmapSome(address: nat, last: nat) returns (defined: bool)
      requires Valid() && address < last && address % PAGE == 0 && last % PAGE == 0
      requires OneStretch(space.regions, address, last) ==> ClonesAt(space.regions, last)
      modifies Footprint()
      ensures space.Valid() && fresh(Footprint() - old(Footprint()))
      ensures defined == UnmapRange(old(space.regions), address, last).Done?
      ensures defined ==> space.regions == UnmapRange(old(space.regions), address, last).regions
    {
      var cur;
      ghost var x, b;
      cur, x, b := UnmapStart(address, last);
      defined := UnmapRest(cur, last, x, b);
    }
  }

  /** The cloned and rewritten part gives an address its old attributes with the rewrite applied. */
  lemma {:induction false} RewrittenAttr(rs: seq<Region>, k: nat, a: nat, length: nat, op: Rewrite, x: nat)
    requires Sep(rs) && k < |rs| && rs[k].base <= a <= x < a + length <= rs[k].End()
    ensures var r := Applied(op, CloneTo(a, length, rs[k]));
      && r.Has(x) && Lookup(rs, x).Some? && AttrAt(r, x) == AppliedAttr(op, Lookup(rs, x).value)
      && (AlreadySo(op, rs[k]) ==> AppliedAttr(op, Lookup(rs, x).value) == Lookup(rs, x).value)
  {
    LookupIndex(rs, k, x);
  }

  /** Exactly the addresses in [a, e) have the rewritten attributes; all of them were mapped. */
  ghost predicate Rewritten(rs: seq<Region>, rs': seq<Region>, a: nat, e: nat, op: Rewrite) {
    forall x: nat :: if a <= x < e
      then Lookup(rs, x).Some? && Lookup(rs', x) == Some(AppliedAttr(op, Lookup(rs, x).value))
      else Lookup(rs', x) == Lookup(rs, x)
  }

  /** A rewrite sets the protection or the caching of the range, and changes nothing else of it. */
  lemma {:induction false} RewrittenMeans(rs: seq<Region>, rs': seq<Region>, a: nat, e: nat, op: Rewrite, x: nat)
    requires Rewritten(rs, rs', a, e, op)
    ensures a <= x < e ==> Lookup(rs, x).Some? && Lookup(rs', x).Some?
    ensures a <= x < e && op.SetProt? ==> Lookup(rs', x).value == Lookup(rs, x).value.(prot := op.prot)
    ensures a <= x < e && op.SetCache? ==> Lookup(rs', x).value == Lookup(rs, x).value.(cache := op.cache)
    ensures !(a <= x < e) ==> Lookup(rs', x) == Lookup(rs, x)
  {
  }

  lemma {:induction false} RewriteMap(rs: seq<Region>, mid: seq<Region>, rs': seq<Region>, k: nat, a: nat, length: nat, op: Rewrite)
    requires Sep(rs) && k < |rs| && rs[k].base <= a && a + length <= rs[k].End()
    requires RemovedRange(rs, mid, a, a + length) && Joined(mid, rs', Applied(op, CloneTo(a, length, rs[k])))
    ensures Rewritten(rs, rs', a, a + length, op)
  {
    forall x: nat | a <= x < a + length
      ensures Lookup(rs, x).Some? && Lookup(rs', x) == Some(AppliedAttr(op, Lookup(rs, x).value))
    {
      RewrittenAttr(rs, k, a, length, op, x);
    }
  }

  lemma {:induction false} RewriteOk(rs: seq<Region>, k: nat, a: nat, length: nat, op: Rewrite, lo: nat, hi: nat)
    requires Wf(rs, lo, hi) && k < |rs| && rs[k].base <= a && a + length <= rs[k].End() && length > 0 && a % PAGE == 0 && length % PAGE == 0
    ensures var r := Applied(op, CloneTo(a, length, rs[k])); RegionOk(r, lo, hi) && r.base == a && r.length == length
    ensures ClonesAt(rs, a) ==> CloneAllowed(a, rs[k])
    ensures a + length < rs[k].End() && (OneStretch(rs, a, a + length) ==> ClonesAt(rs, a + length)) ==> CloneAllowed(a + length, rs[k])
  {
    assert RegionOk(rs[k], lo, hi);
    CloneFromMap(rs, lo, hi, k, a, a);
    if a + length < rs[k].End() { CloneFromMap(rs, lo, hi, k, a, a + length); }
  }

  lemma {:induction false} RewriteIdle(rs: seq<Region>, k: nat, a: nat, length: nat, op: Rewrite)
    requires Sep(rs) && k < |rs| && rs[k].base <= a && a + length <= rs[k].End() && AlreadySo(op, rs[k])
    ensures Rewritten(rs, rs, a, a + length, op)
  {
    forall x: nat | a <= x < a + length ensures Lookup(rs, x).Some? && AppliedAttr(op, Lookup(rs, x).value) == Lookup(rs, x).value {
      RewrittenAttr(rs, k, a, length, op, x);
    }
  }

  /** The first region of the second part. */
  lemma {:induction false} FirstOfRest(x: seq<Region>, b: seq<Region>)
    requires b != []
    ensures var rs := x + b; rs[|x|] == b[0] && rs[..|x|] + rs[|x| + 1..] == x + b[1..]
  {
  }

  /** Lengthening the left region and removing the right one. */
  lemma {:induction false} MergedEdit(a: seq<Region>, r: Region, b: seq<Region>)
    requires a != [] && Mergeable(a[|a| - 1], r)
    ensures var k := |a|; var rs := (a + [r] + b)[k - 1 := Merged(a[k - 1], r)]; rs[..k] + rs[k + 1..] == JoinLeft(a, r) + b
  {
    var k := |a|;
    var rs := (a + [r] + b)[k - 1 := Merged(a[k - 1], r)];
    assert rs[..k] == a[..k - 1] + [Merged(a[k - 1], r)] && rs[k + 1..] == b;
  }

  /** A tail's base lies between its region's and the next one's. */
  lemma {:induction false} TailBetween(rs: seq<Region>, x: seq<Region>, z: seq<Region>, i: nat, e: nat)
    requires Sep(rs) && Ascending(rs) && i < |rs| && rs[i].base < e < rs[i].End() && x == rs[..i + 1] && z == rs[i + 1..]
    ensures forall j :: 0 <= j < |x| ==> x[j].base < e
    ensures forall j :: 0 <= j < |z| ==> e < z[j].base
  {
    forall j | 0 <= j < |x| ensures x[j].base < e { if j < i { assert Less(rs, j, i); } }
    forall j | 0 <= j < |z| ensures e < z[j].base { assert z[j] == rs[i + 1 + j] && rs[i].End() <= rs[i + 1 + j].base; }
  }

  lemma {:induction false} TailPlaced(rs: seq<Region>, x: seq<Region>, z: seq<Region>, i: nat, e: nat)
    requires i < |rs| && rs[i].base < e < rs[i].End() && x == rs[..i + 1] && z == rs[i + 1..]
    ensures x + [CloneTo(e, rs[i].End() - e, rs[i])] + z == rs[..i] + [rs[i]] + (Tail(rs[i], e) + z)
  {
  }

  // ---------- from an empty address space ----------

  /** The regions after mapping a segment are those of the same map in coalesced form. */
  lemma {:induction false} MappedTo(rs: seq<Region>, rs': seq<Region>, expected: seq<Region>, lo: nat, hi: nat, r: Region)
    requires Wf(rs', lo, hi) && Coalesced(rs') && Wf(expected, lo, hi) && Coalesced(expected)
    requires Joined(rs, rs', r) && Joined(rs, expected, r) && Plain(rs') && Plain(expected)
    ensures rs' == expected
  {
    assert SameMap(rs', expected);
    PlainSettled(rs');
    CoalescedUnique(rs', expected, lo, hi);
  }

  lemma {:induction false} PlainSettled(rs: seq<Region>)
    requires Plain(rs)
    ensures Settled(rs)
  {
    forall x: nat | Lookup(rs, x).Some? ensures !Lookup(rs, x).value.kind.Direct? {
      var i := LookupFound(rs, x);
    }
  }

  /** No direct regions. */
  ghost predicate Plain(rs: seq<Region>) { forall i :: 0 <= i < |rs| ==> rs[i].kind.Anon? }

  lemma {:induction false} JoinedPlain(rs: seq<Region>, rs': seq<Region>, r: Region, lo: nat, hi: nat)
    requires Joined(rs, rs', r) && Plain(rs) && r.kind.Anon? && Wf(rs', lo, hi)
    ensures Plain(rs')
  {
    forall i | 0 <= i < |rs'| ensures rs'[i].kind.Anon? {
      assert RegionOk(rs'[i], lo, hi);
      LookupIndex(rs', i, rs'[i].base);
      if !r.Has(rs'[i].base) {
        var j := LookupFound(rs, rs'[i].base);
      }
    }
  }

  /** Two pages with a hole between them. */
  lemma {:induction false} TwoPagesJoin()
    ensures var r1, r2 := Page(0x1000, 1), Page(0x5000, 1);
      && Joined([], [r1], r1) && Wf([r1], 0x1000, 0x10000) && Coalesced([r1])
      && Joined([r1], [r1, r2], r2) && Hole([], 0x1000, 0x1000, 0x1000, 0x10000) && Hole([r1], 0x5000, 0x1000, 0x1000, 0x10000)
  {
    var r1, r2 := Page(0x1000, 1), Page(0x5000, 1);
    assert [r1][1..] == [] && [r1, r2][1..] == [r2] && [r2][1..] == [];
  }

  lemma {:induction false} PlacedThere(rs: seq<Region>, base: nat, length: nat, lo: nat, hi: nat, r: Option<nat>)
    requires Placed(rs, base, length, true, lo, hi, r) && Hole(rs, base, length, lo, hi)
    requires base % PAGE == 0 && length > 0 && length % PAGE == 0
    ensures r == Some(base)
  {
  }

  /** Maps pages at an address, and says which regions that makes. */
  method MapPages(s: AddressSpace, base: nat, pages: nat, ghost expected: seq<Region>)
    requires s.Valid() && base % PAGE == 0 && base < WORD && pages > 0 && Hole(s.space.regions, base, pages * PAGE, s.start, s.end)
    requires Plain(s.space.regions) && Plain(expected) && Wf(expected, s.start, s.end) && Coalesced(expected)
    requires Joined(s.space.regions, expected, Page(base, pages))
    modifies s.Footprint()
    ensures s.Valid() && fresh(s.Footprint() - old(s.Footprint())) && s.space.regions == expected
  {
    ghost var rs, page := s.space.regions, Page(base, pages);
    var r := s.Map(base, pages * PAGE, SOME, Standard, true, false, Anon(false));
    PlacedThere(rs, base, pages * PAGE, s.start, s.end, r);
    JoinedPlain(rs, s.space.regions, page, s.start, s.end);
    MappedTo(rs, s.space.regions, expected, s.start, s.end, page);
  }

  method OnePageMapped() returns (s: AddressSpace)
    ensures fresh(s) && fresh(s.Footprint()) && s.Valid() && s.start == 0x1000 && s.end == 0x10000
    ensures s.space.regions == [Page(0x1000, 1)]
  {
    s := new AddressSpace(0x1000, 0x10000);
    TwoPagesJoin();
    MapPages(s, 0x1000, 1, [Page(0x1000, 1)]);
  }

  method TwoPagesMapped() returns (s: AddressSpace)
    ensures fresh(s) && fresh(s.Footprint()) && s.Valid() && s.start == 0x1000 && s.end == 0x10000
    ensures s.space.regions == [Page(0x1000, 1), Page(0x5000, 1)]
  {
    s := OnePageMapped();
    TwoPagesJoin();
    TwoPages([Page(0x1000, 1), Page(0x5000, 1)]);
    MapPages(s, 0x5000, 1, [Page(0x1000, 1), Page(0x5000, 1)]);
  }

  /** Unmapping 0x1000 to 0x4000 also unmaps the page at 0x5000, and leaves nothing. */
  method UnmapLosesNeighbour(s: AddressSpace, a: nat, length: nat) returns (defined: bool)
    requires s.Valid() && s.start == 0x1000 && s.end == 0x10000 && s.space.regions == [Page(0x1000, 1), Page(0x5000, 1)]
    requires a == 0x1000 && length == 0x3000
    modifies s.Footprint()
    ensures Lookup(old(s.space.regions), 0x5000).Some?
    ensures defined && s.space.regions == []
  {
    UnmapDeletesNeighbour(s.space.regions, a, a + length);
    defined := s.Unmap(a, length);
  }

  method TwoPagesRunMapped() returns (s: AddressSpace)
    ensures fresh(s) && fresh(s.Footprint()) && s.Valid() && s.start == 0x1000 && s.end == 0x10000
    ensures s.space.regions == [Page(0x2000, 2)]
  {
    s := new AddressSpace(0x1000, 0x10000);
    ghost var r := Page(0x2000, 2);
    UnmapUndefined([r], 0x1000, 0x3000);
    assert [r][1..] == [] && Joined([], [r], r) && Hole([], 0x2000, 0x2000, 0x1000, 0x10000);
    MapPages(s, 0x2000, 2, [r]);
  }

  /** Unmapping 0x1000 to 0x3000 reaches the uninitialised address when a region covers 0x2000 to 0x4000. */
  method UnmapReachesUndefined(s: AddressSpace, a: nat, length: nat) returns (defined: bool)
    requires s.Valid() && s.start == 0x1000 && s.end == 0x10000 && s.space.regions == [Page(0x2000, 2)] && a == 0x1000 && length == 0x2000
    modifies s.Footprint()
    ensures !defined
  {
    UnmapUndefined(s.space.regions, a, a + length);
    defined := s.Unmap(a, length);
  }

  /** In an empty address space a segment that wraps around is said to exist. */
  method ExistsByWrapping() returns (ok: bool)
    ensures ok
  {
    var s := new AddressSpace(0x1000, 0x10000);
    ok := s.MemoryExists(0x5000, WORD - 0x2000);
  }

  lemma {:induction false} LastPage(rs: seq<Region>, a: nat, length: nat)
    requires rs == [Page(0xF000, 1)] && a == 0xF000 && length == 0x1000
    ensures Joined([], rs, rs[0]) && Wf(rs, 0x1000, 0x10000) && Coalesced(rs) && Plain(rs)
    ensures SegmentMapped(rs, 0x1000, 0x10000, a, length) && Hole([], a, length, 0x1000, 0x10000)
  {
    assert rs[1..] == [];
  }

  method LastPageMapped() returns (s: AddressSpace)
    ensures fresh(s) && fresh(s.Footprint()) && s.Valid() && s.start == 0x1000 && s.end == 0x10000
    ensures s.space.regions == [Page(0xF000, 1)]
  {
    s := new AddressSpace(0x1000, 0x10000);
    LastPage([Page(0xF000, 1)], 0xF000, 0x1000);
    MapPages(s, 0xF000, 1, [Page(0xF000, 1)]);
  }

  /** A mapped page at the end of the address space is said not to exist. */
  method EndDoesNotExist(s: AddressSpace, a: nat, length: nat) returns (ok: bool)
    requires s.Valid() && s.start == 0x1000 && s.end == 0x10000 && s.space.regions == [Page(0xF000, 1)] && a == 0xF000 && length == 0x1000
    ensures !ok && SegmentMapped(s.space.regions, s.start, s.end, a, length)
  {
    LastPage(s.space.regions, a, length);
    ok := s.MemoryExists(a, length);
  }
}
