/**
 The region tree of an address space: a red-black tree of nodes keyed by base addresses,
 each node with its region. What rb_search, rb_insert and rb_remove do to it is stated on
 the sequence of regions in tree order.
 */
module VmTree {
  import opened RbShape
  import opened RbBalance
  import RbTree
  import opened VmModel

  ghost predicate Less(rs: seq<Region>, i: nat, j: nat) { i < |rs| && j < |rs| && rs[i].base < rs[j].base }

  /** Bases ascend strictly; regions may overlap, as they do for a moment inside an edit. */
  ghost predicate Ascending(rs: seq<Region>) {
    forall i: nat, j: nat {:trigger Less(rs, i, j)} :: i < j < |rs| ==> Less(rs, i, j)
  }

  /** The nodes in order are those of the regions in order. */
  ghost predicate Keyed(nodes: seq<Node>, rs: seq<Region>) {
    |nodes| == |rs| && forall i: nat {:trigger nodes[i]} {:trigger rs[i]} :: i < |rs| ==> nodes[i].value == rs[i].base
  }

  /** What RbTree.Search promises, on the nodes in order. */
  ghost predicate Found(nodes: seq<Node>, kind: RbTree.SearchType, v: nat, r: Node?) {
    if r == null then forall m :: m in nodes ==> !kind.Wants(m.value, v)
    else r in nodes && kind.Wants(r.value, v) && forall m :: m in nodes && kind.Wants(m.value, v) ==> kind.AsGood(r.value, m.value)
  }

  /** Rank splits ascending bases at v. */
  lemma {:induction false} Split(rs: seq<Region>, v: nat, i: nat)
    requires Ascending(rs) && i < |rs|
    ensures i < Rank(rs, v) <==> rs[i].base < v
  {
    var n := Rank(rs, v);
    if n < i { assert Less(rs, n, i); }
  }

  /** The nearest region below v, or up to v, is the last one that Rank counts; there is none when it counts none. */
  lemma {:induction false} BelowIsRank(nodes: seq<Node>, rs: seq<Region>, v: nat, kind: RbTree.SearchType, r: Node?)
    requires Keyed(nodes, rs) && Ascending(rs) && Found(nodes, kind, v, r) && (kind.Lt? || kind.Lte?)
    ensures var n := Rank(rs, if kind.Lt? then v else v + 1);
      if n == 0 then r == null else r == nodes[n - 1]
  {
    var bound := if kind.Lt? then v else v + 1;
    var n := Rank(rs, bound);
    assert n > 0 ==> nodes[n - 1] in nodes;
    if r != null {
      var i: nat :| i < |nodes| && nodes[i] == r;
      Split(rs, bound, i);
      assert i < n - 1 ==> Less(rs, i, n - 1);
    }
  }

  /** The nearest region above v, or from v on, is the first one that Rank does not count. */
  lemma {:induction false} AboveIsRank(nodes: seq<Node>, rs: seq<Region>, v: nat, kind: RbTree.SearchType, r: Node?)
    requires Keyed(nodes, rs) && Ascending(rs) && Found(nodes, kind, v, r) && (kind.Gt? || kind.Gte?)
    ensures var n := Rank(rs, if kind.Gte? then v else v + 1);
      if n == |rs| then r == null else r == nodes[n]
  {
    var bound := if kind.Gte? then v else v + 1;
    var n := Rank(rs, bound);
    assert n < |rs| ==> nodes[n] in nodes;
    if r != null {
      var i: nat :| i < |nodes| && nodes[i] == r;
      Split(rs, bound, i);
      assert n < i ==> Less(rs, n, i);
    }
  }

  /** Inserting a node for a region puts it where the region goes. */
  lemma {:induction false} InsertIsSplice(nodes: seq<Node>, rs: seq<Region>, node: Node, r: Region)
    requires Keyed(nodes, rs) && Ascending(rs) && node.value == r.base
    ensures var n := Rank(rs, r.base + 1);
      && InsertSorted(nodes, node) == nodes[..n] + [node] + nodes[n..]
      && Keyed(nodes[..n] + [node] + nodes[n..], rs[..n] + [r] + rs[n..])
  {
    var n := Rank(rs, r.base + 1);
    RankSplits(nodes, rs, node.value + 1, n);
    InsertSortedAt(nodes[..n], nodes[n..], node);
    assert nodes == nodes[..n] + nodes[n..];
    Spliced(nodes, rs, n, node, r);
  }

  /** The nodes before and from a rank on. */
  lemma {:induction false} RankSplits(nodes: seq<Node>, rs: seq<Region>, v: nat, n: nat)
    requires Keyed(nodes, rs) && Ascending(rs) && n == Rank(rs, v)
    ensures forall m :: m in nodes[..n] ==> m.value < v
    ensures forall m :: m in nodes[n..] ==> v <= m.value
  {
    forall i: nat | n <= i < |rs| ensures v <= nodes[i].value { Split(rs, v, i); }
  }

  lemma {:induction false} Spliced(nodes: seq<Node>, rs: seq<Region>, n: nat, node: Node, r: Region)
    requires Keyed(nodes, rs) && n <= |rs| && node.value == r.base
    ensures Keyed(nodes[..n] + [node] + nodes[n..], rs[..n] + [r] + rs[n..])
  {
  }

  /** Removing a region's node takes exactly the region out. */
  lemma {:induction false} RemoveIsDrop(nodes: seq<Node>, rs: seq<Region>, i: nat)
    requires Keyed(nodes, rs) && Ascending(rs) && i < |rs|
    ensures Without(nodes, nodes[i]) == nodes[..i] + nodes[i + 1..]
    ensures Keyed(nodes[..i] + nodes[i + 1..], rs[..i] + rs[i + 1..])
  {
    var a, b := nodes[..i], nodes[i + 1..];
    assert nodes == a + [nodes[i]] + b;
    forall j: nat | j < |nodes| && j != i ensures nodes[j] != nodes[i] { assert if j < i then Less(rs, j, i) else Less(rs, i, j); }
    WithoutAt(a, b, nodes[i]);
  }

  /** A base that no region has may join at its rank. */
  lemma {:induction false} AscendingSplice(rs: seq<Region>, r: Region)
    requires Ascending(rs) && forall i: nat :: i < |rs| ==> rs[i].base != r.base
    ensures var n := Rank(rs, r.base + 1); Ascending(rs[..n] + [r] + rs[n..])
  {
    var n := Rank(rs, r.base + 1);
    var rs' := rs[..n] + [r] + rs[n..];
    forall i: nat | i < |rs| ensures i < n <==> rs[i].base < r.base { Split(rs, r.base + 1, i); }
    forall i: nat, j: nat | i < j < |rs'| ensures Less(rs', i, j) {
      if i != n && j != n { assert Less(rs, if i < n then i else i - 1, if j < n then j else j - 1); }
    }
  }

  /** The nodes in order carry the regions in order. */
  ghost predicate Holds(nodes: seq<Node>, of: map<Node, Region>, rs: seq<Region>) {
    && |nodes| == |rs| && Ascending(rs)
    && forall i: nat {:trigger Carries(nodes, of, rs, i)} :: i < |rs| ==> Carries(nodes, of, rs, i)
  }

  /** Node i carries region i, and its base is the node's key. */
  ghost predicate Carries(nodes: seq<Node>, of: map<Node, Region>, rs: seq<Region>, i: nat) {
    i < |rs| && i < |nodes| && nodes[i] in of && of[nodes[i]] == rs[i] && nodes[i].value == rs[i].base
  }

  lemma {:induction false} HoldsKeyed(nodes: seq<Node>, of: map<Node, Region>, rs: seq<Region>)
    requires Holds(nodes, of, rs)
    ensures Keyed(nodes, rs)
  {
    forall i: nat | i < |rs| ensures nodes[i].value == rs[i].base { assert Carries(nodes, of, rs, i); }
  }

  /** Nodes of different regions are different. */
  lemma {:induction false} Apart(nodes: seq<Node>, of: map<Node, Region>, rs: seq<Region>, i: nat, j: nat)
    requires Holds(nodes, of, rs) && i < |rs| && j < |rs| && i != j
    ensures nodes[i] != nodes[j]
  {
    assert Carries(nodes, of, rs, i) && Carries(nodes, of, rs, j);
    assert if i < j then Less(rs, i, j) else Less(rs, j, i);
  }

  lemma {:induction false} PutHolds(nodes: seq<Node>, of: map<Node, Region>, rs: seq<Region>, node: Node, r: Region)
    requires Holds(nodes, of, rs) && node !in nodes && node.value == r.base
    requires forall i: nat {:trigger rs[i]} :: i < |rs| ==> rs[i].base != r.base
    ensures var n := Rank(rs, r.base + 1); Holds(InsertSorted(nodes, node), of[node := r], rs[..n] + [r] + rs[n..])
    ensures var n := Rank(rs, r.base + 1); InsertSorted(nodes, node) == nodes[..n] + [node] + nodes[n..]
  {
    var n := Rank(rs, r.base + 1);
    HoldsKeyed(nodes, of, rs);
    InsertIsSplice(nodes, rs, node, r);
    AscendingSplice(rs, r);
    var nodes', rs' := nodes[..n] + [node] + nodes[n..], rs[..n] + [r] + rs[n..];
    var of' := of[node := r];
    forall i: nat | i < |rs'| ensures Carries(nodes', of', rs', i) {
      if i != n { assert Carries(nodes, of, rs, if i < n then i else i - 1); }
    }
  }

  lemma {:induction false} DropHolds(nodes: seq<Node>, of: map<Node, Region>, rs: seq<Region>, i: nat)
    requires Holds(nodes, of, rs) && i < |rs|
    ensures Holds(Without(nodes, nodes[i]), of, rs[..i] + rs[i + 1..])
  {
    HoldsKeyed(nodes, of, rs);
    RemoveIsDrop(nodes, rs, i);
    var nodes', rs' := nodes[..i] + nodes[i + 1..], rs[..i] + rs[i + 1..];
    forall j: nat | j < |rs'| ensures Carries(nodes', of, rs', j) { assert Carries(nodes, of, rs, if j < i then j else j + 1); }
    forall j: nat, k: nat | j < k < |rs'| ensures Less(rs', j, k) {
      assert Less(rs, if j < i then j else j + 1, if k < i then k else k + 1);
    }
  }

  lemma {:induction false} AlterHolds(nodes: seq<Node>, of: map<Node, Region>, rs: seq<Region>, i: nat, r: Region)
    requires Holds(nodes, of, rs) && i < |rs| && r.base == rs[i].base
    ensures Holds(nodes, of[nodes[i] := r], rs[i := r])
  {
    var of', rs' := of[nodes[i] := r], rs[i := r];
    forall j: nat | j < |rs| ensures Carries(nodes, of', rs', j) {
      assert Carries(nodes, of, rs, j) && Carries(nodes, of, rs, i);
      if j != i { Apart(nodes, of, rs, i, j); }
    }
    forall j: nat, k: nat | j < k < |rs| ensures Less(rs', j, k) { assert Less(rs, j, k); }
  }

  class RegionTree {
    const tree: RbTree.RbTree
    /** The region that each node is embedded in. */
    var of: map<Node, Region>
    /** The regions in tree order. */
    ghost var regions: seq<Region>

    ghost function Footprint(): set<object>
      reads this, tree
    {
      {this, tree} + tree.repr
    }

    ghost predicate Valid()
      reads this, tree, tree.repr
    {
      tree.Valid() && Holds(tree.Contents(), of, regions)
    }

    /** Node `node` is that of region i. */
    ghost predicate Is(node: Node, i: nat)
      reads this, tree
    {
      Carries(tree.Contents(), of, regions, i) && tree.Contents()[i] == node
    }

    constructor ()
      ensures Valid() && regions == [] && fresh(Footprint())
    {
      tree := new RbTree.RbTree();
      of, regions := map[], [];
    }

    /** rb_search. */
    method Search(v: nat, kind: RbTree.SearchType) returns (node: Node?, ghost n: nat)
      requires Valid() && !kind.Exact?
      ensures n == Rank(regions, if kind.Lt? || kind.Gte? then v else v + 1)
      ensures kind.Lt? || kind.Lte? ==> if n == 0 then node == null else node != null && Is(node, n - 1)
      ensures kind.Gt? || kind.Gte? ==> if n == |regions| then node == null else node != null && Is(node, n)
    {
      node := tree.Search(v, kind);
      n := Rank(regions, if kind.Lt? || kind.Gte? then v else v + 1);
      ghost var nodes := tree.Contents();
      assert Found(nodes, kind, v, node) by { tree.Members(); }
      HoldsKeyed(nodes, of, regions);
      if kind.Lt? || kind.Lte? {
        BelowIsRank(nodes, regions, v, kind, node);
        assert n > 0 ==> Carries(nodes, of, regions, n - 1);
      } else {
        AboveIsRank(nodes, regions, v, kind, node);
        assert n < |regions| ==> Carries(nodes, of, regions, n);
      }
    }

    /** rb_insert of a region's node. */
    method Put(r: Region) returns (node: Node)
      requires Valid() && forall i: nat {:trigger regions[i]} :: i < |regions| ==> regions[i].base != r.base
      modifies Footprint()
      ensures Valid() && fresh(Footprint() - old(Footprint()))
      ensures var n := Rank(old(regions), r.base + 1);
        && regions == old(regions)[..n] + [r] + old(regions)[n..] && Is(node, n)
        && tree.Contents() == old(tree.Contents())[..n] + [node] + old(tree.Contents())[n..]
      ensures fresh(node) && of == old(of)[node := r]
    {
      ghost var n := Rank(regions, r.base + 1);
      node := new Node(r.base);
      assert node !in tree.Contents() by { tree.Members(); }
      PutHolds(tree.Contents(), of, regions, node, r);
      tree.Insert(node);
      of := of[node := r];
      regions := regions[..n] + [r] + regions[n..];
      assert Carries(tree.Contents(), of, regions, n);
    }

    /** rb_remove of a region's node. */
    method Drop(node: Node, ghost i: nat)
      requires Valid() && Is(node, i)
      modifies Footprint()
      ensures Valid() && fresh(Footprint() - old(Footprint()))
      ensures regions == old(regions)[..i] + old(regions)[i + 1..]
    {
      assert node in tree.repr by { tree.Members(); }
      DropHolds(tree.Contents(), of, regions, i);
      tree.Remove(node);
      regions := regions[..i] + regions[i + 1..];
    }

    /** A region's fields change; its base, which is its key, does not. */
    method Alter(node: Node, ghost i: nat, r: Region)
      requires Valid() && Is(node, i) && r.base == regions[i].base
      modifies this
      ensures Valid() && Footprint() == old(Footprint()) && regions == old(regions)[i := r] && Is(node, i)
      ensures tree.Contents() == old(tree.Contents()) && of == old(of)[node := r]
    {
      AlterHolds(tree.Contents(), of, regions, i, r);
      of := of[node := r];
      regions := regions[i := r];
      assert Carries(tree.Contents(), of, regions, i);
    }
  }
}
