/**
 Where a descent by key ends, and which node RB_SEARCH_TYPE_NEAREST returns: of the last
 node below the value and the first one from it on, the deeper.
 */
module RbNearest {
  import opened RbShape
  import opened RbBalance

  /** The empty place at which the descent for v from t ends: right of smaller keys, left of the others. */
  function Descent(c: Ctx, t: Tree, v: nat): Ctx
    decreases t
  {
    if t.Nil? then c
    else if v > t.node.value then Descent(Step(c, Right, t.node, t.red, t.left), t.right, v)
    else Descent(Step(c, Left, t.node, t.red, t.right), t.left, v)
  }

  /** The last node above a place from which the way went in direction d. */
  function Turn(c: Ctx, d: Dir): Node? {
    if c.Top? then null else if c.dir == d then c.node else Turn(c.up, d)
  }

  /** How deep a node of a tree lies. */
  function Level(t: Tree, n: Node): nat {
    if t.Nil? || t.node == n then 0 else 1 + if n in Nodes(t.left) then Level(t.left, n) else Level(t.right, n)
  }

  /** Exactly the smaller keys are before the place. */
  ghost predicate Divides(c: Ctx, v: nat) {
    (forall m :: m in Before(c) ==> m.value < v) && (forall m :: m in After(c) ==> v <= m.value)
  }

  lemma {:induction false} DescentDivides(c: Ctx, t: Tree, v: nat)
    requires Sorted(InOrder(Plug(c, t))) && Divides(c, v)
    ensures Plug(Descent(c, t, v), Nil) == Plug(c, t) && Divides(Descent(c, t, v), v)
    decreases t
  {
    if t.Bin? {
      var d := if v > t.node.value then Right else Left;
      var c' := Step(c, d, t.node, t.red, Sub(t, d.Flip()));
      forall m | m in Before(c') ensures m.value < v { if m !in Before(c) { OnPath(c, t, v, m); } }
      forall m | m in After(c') ensures v <= m.value { if m !in After(c) { OnPath(c, t, v, m); } }
      DescentDivides(c', Sub(t, d), v);
    }
  }

  /** What the descent leaves behind at one node. */
  lemma {:induction false} OnPath(c: Ctx, t: Tree, v: nat, m: Node)
    requires Sorted(InOrder(Plug(c, t))) && t.Bin?
    ensures v > t.node.value && m in InOrder(t.left) + [t.node] ==> m.value < v
    ensures v <= t.node.value && m in [t.node] + InOrder(t.right) ==> v <= m.value
  {
    SortedAt(c, t, m);
    InOrderHas(t.left, m);
    InOrderHas(t.right, m);
  }

  /** The turns are the neighbours in order. */
  lemma {:induction false} TurnsAreNeighbours(c: Ctx)
    ensures if Before(c) == [] then Turn(c, Right) == null else Turn(c, Right) == Before(c)[|Before(c)| - 1]
    ensures if After(c) == [] then Turn(c, Left) == null else Turn(c, Left) == After(c)[0]
  {
    if c.Step? {
      TurnsAreNeighbours(c.up);
      assert c.dir.Left? ==> After(c) == [c.node] + (InOrder(c.sibling) + After(c.up));
    }
  }

  /** Node p is the last one with a key below v, if there is any. */
  ghost predicate Predecessor(t: Tree, v: nat, p: Node?) {
    if p == null then forall m :: m in Nodes(t) ==> v <= m.value
    else p in Nodes(t) && p.value < v && forall m :: m in Nodes(t) && m.value < v ==> m.value <= p.value
  }

  /** Node s is the first one with a key from v on, if there is any. */
  ghost predicate Successor(t: Tree, v: nat, s: Node?) {
    if s == null then forall m :: m in Nodes(t) ==> m.value < v
    else s in Nodes(t) && v <= s.value && forall m :: m in Nodes(t) && v <= m.value ==> s.value <= m.value
  }

  lemma {:induction false} DescentNeighbours(t: Tree, v: nat)
    requires Sorted(InOrder(t))
    ensures var c := Descent(Top, t, v); Predecessor(t, v, Turn(c, Right)) && Successor(t, v, Turn(c, Left))
  {
    var c := Descent(Top, t, v);
    DescentDivides(Top, t, v);
    PlaceNeighbours(c, t, v);
  }

  /** The turns above an empty place that divides the keys at v. */
  lemma {:induction false} PlaceNeighbours(c: Ctx, t: Tree, v: nat)
    requires Plug(c, Nil) == t && Divides(c, v) && Sorted(InOrder(t))
    ensures Predecessor(t, v, Turn(c, Right)) && Successor(t, v, Turn(c, Left))
  {
    PlugOrder(c, Nil);
    NoMiddle(Before(c), After(c));
    TurnsAreNeighbours(c);
    LastBelow(t, Before(c), After(c), v);
    FirstFrom(t, Before(c), After(c), v);
  }

  lemma {:induction false} NoMiddle(a: seq<Node>, b: seq<Node>)
    ensures a + [] + b == a + b
  {
  }

  lemma {:induction false} LastBelow(t: Tree, a: seq<Node>, b: seq<Node>, v: nat)
    requires InOrder(t) == a + b && Sorted(InOrder(t))
    requires (forall m :: m in a ==> m.value < v) && (forall m :: m in b ==> v <= m.value)
    ensures Predecessor(t, v, if a == [] then null else a[|a| - 1])
  {
    forall m | m in Nodes(t) ensures m in a || m in b { InOrderHas(t, m); }
    if a != [] {
      var p := a[|a| - 1];
      InOrderHas(t, p);
      forall m | m in Nodes(t) && m.value < v ensures m.value <= p.value {
        var i :| 0 <= i < |a| && a[i] == m;
        assert InOrder(t)[i] == m && InOrder(t)[|a| - 1] == p;
      }
    }
  }

  lemma {:induction false} FirstFrom(t: Tree, a: seq<Node>, b: seq<Node>, v: nat)
    requires InOrder(t) == a + b && Sorted(InOrder(t))
    requires (forall m :: m in a ==> m.value < v) && (forall m :: m in b ==> v <= m.value)
    ensures Successor(t, v, if b == [] then null else b[0])
  {
    forall m | m in Nodes(t) ensures m in a || m in b { InOrderHas(t, m); }
    if b != [] {
      var s := b[0];
      InOrderHas(t, s);
      forall m | m in Nodes(t) && v <= m.value ensures s.value <= m.value {
        var i :| 0 <= i < |b| && b[i] == m;
        assert InOrder(t)[|a| + i] == m && InOrder(t)[|a|] == s;
      }
    }
  }

  /** A node on the way to a place lies as deep as the steps to it. */
  lemma {:induction false} StepLevel(c: Ctx, t: Tree)
    requires c.Step? && Distinct(Plug(c, t))
    ensures Level(Plug(c, t), c.node) == Depth(c.up)
    ensures c.node in Nodes(Plug(c, t))
    decreases c
  {
    PlugDistinct(c, t);
    PlugLevel(c.up, Mk(c.dir, t, c.node, c.red, c.sibling), c.node);
  }

  lemma {:induction false} PlugLevel(c: Ctx, t: Tree, n: Node)
    requires Distinct(Plug(c, t)) && n in Nodes(t)
    ensures Level(Plug(c, t), n) == Depth(c) + Level(t, n)
    decreases c
  {
    if c.Step? {
      var up := Mk(c.dir, t, c.node, c.red, c.sibling);
      PlugDistinct(c.up, up);
      PlugLevel(c.up, up, n);
    }
  }

  /** A turn in the other direction lies higher. */
  lemma {:induction false} TurnLevel(c: Ctx, t: Tree, d: Dir)
    requires Distinct(Plug(c, t)) && Turn(c, d) != null
    ensures Turn(c, d) in Nodes(Plug(c, t)) && Level(Plug(c, t), Turn(c, d)) < Depth(c)
    decreases c
  {
    StepLevel(c, t);
    if c.dir != d { TurnLevel(c.up, Mk(c.dir, t, c.node, c.red, c.sibling), d); }
  }

  /** The node above the place where the descent for v ends is the deeper of the two neighbours of v. */
  lemma {:induction false} NearestIsDeeper(t: Tree, v: nat)
    requires Distinct(t) && Sorted(InOrder(t)) && t.Bin?
    ensures var c := Descent(Top, t, v);
      var p, s, r := Turn(c, Right), Turn(c, Left), Above(c);
      && Predecessor(t, v, p) && Successor(t, v, s)
      && (r == p || r == s) && r != null
      && (p == null ==> r == s) && (s == null ==> r == p)
      && (p != null && s != null ==> Level(t, p) != Level(t, s) && r == if Level(t, p) > Level(t, s) then p else s)
  {
    var c := Descent(Top, t, v);
    DescentNeighbours(t, v);
    DescentDivides(Top, t, v);
    assert c.Step?;
    StepLevel(c, Nil);
    if Turn(c, c.dir.Flip()) != null { TurnLevel(c.up, Mk(c.dir, Nil, c.node, c.red, c.sibling), c.dir.Flip()); }
  }

  function Distance(a: nat, b: nat): nat { if a < b then b - a else a - b }

  /** No node is nearer to v than r. */
  ghost predicate Nearest(t: Tree, v: nat, r: Node) {
    r in Nodes(t) && forall m :: m in Nodes(t) ==> Distance(r.value, v) <= Distance(m.value, v)
  }

  /** NEAREST returns a nearest node exactly when v has one neighbour only, or the deeper one is no farther than the other. */
  lemma {:induction false} NearestExactly(t: Tree, v: nat, p: Node?, s: Node?, r: Node)
    requires Distinct(t) && Sorted(InOrder(t)) && t.Bin? && r == Above(Descent(Top, t, v))
    requires p == Turn(Descent(Top, t, v), Right) && s == Turn(Descent(Top, t, v), Left)
    ensures Predecessor(t, v, p) && Successor(t, v, s)
    ensures Nearest(t, v, r) <==>
      (p != null && s != null ==> if Level(t, p) > Level(t, s) then v - p.value <= s.value - v else s.value - v <= v - p.value)
  {
    NearestIsDeeper(t, v);
    forall m | m in Nodes(t) ensures (p != null && Distance(p.value, v) <= Distance(m.value, v)) || (s != null && Distance(s.value, v) <= Distance(m.value, v)) {
      if m.value < v { assert p != null && m.value <= p.value; } else { assert s != null && s.value <= m.value; }
    }
  }

  /** Keys 10 at the root and 20 to its right: the search for 11 ends at 20, though 10 is nearer. */
  lemma {:induction false} NearestMisses(a: Node, b: Node)
    requires a.value == 10 && b.value == 20
    ensures var t := Bin(Nil, a, false, Bin(Nil, b, true, Nil));
      RedBlack(t) && Distinct(t) && Sorted(InOrder(t)) && Above(Descent(Top, t, 11)) == b
  {
    var u := Bin(Nil, b, true, Nil);
    var t := Bin(Nil, a, false, u);
    assert InOrder(u) == [] + [b] + [] == [b];
    assert InOrder(t) == [] + [a] + [b] == [a, b];
    var c := Step(Top, Right, a, false, Nil);
    assert Descent(Top, t, 11) == Descent(c, u, 11);
    assert Descent(c, u, 11) == Descent(Step(c, Left, b, true, Nil), Nil, 11);
  }

  /** Keys 20 at the root and 10 to its left: the search for 20 itself ends at 10. */
  lemma {:induction false} NearestMissesExact(a: Node, b: Node)
    requires a.value == 20 && b.value == 10
    ensures var t := Bin(Bin(Nil, b, true, Nil), a, false, Nil);
      RedBlack(t) && Distinct(t) && Sorted(InOrder(t)) && Above(Descent(Top, t, 20)) == b && !Nearest(t, 20, b)
  {
    var u := Bin(Nil, b, true, Nil);
    var t := Bin(u, a, false, Nil);
    assert InOrder(u) == [] + [b] + [] == [b];
    assert InOrder(t) == [b] + [a] + [] == [b, a];
    var c := Step(Top, Left, a, false, Nil);
    assert Descent(Top, t, 20) == Descent(c, u, 20);
    assert Descent(c, u, 20) == Descent(Step(c, Right, b, true, Nil), Nil, 20);
    assert a in Nodes(t);
  }
}
