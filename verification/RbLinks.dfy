/**
 What each pointer operation of the tree does to links, order and black height, stated on
 shapes: rotation, splicing a node out, hanging a leaf, and replacing a node by its successor.
 */
module RbLinks {
  import opened RbShape
  import opened RbBalance

  lemma {:induction false} RotatedOrder(d: Dir, a: Tree, n: Node, nRed: bool, b: Tree, m: Node, mRed: bool, e: Tree)
    ensures InOrder(Mk(d, Mk(d, a, n, nRed, b), m, mRed, e)) == InOrder(Mk(d, a, n, nRed, Mk(d, b, m, mRed, e)))
  {
    if d == Left { Associate(InOrder(a), n, InOrder(b), m, InOrder(e)); } else { Associate(InOrder(e), m, InOrder(b), n, InOrder(a)); }
  }

  lemma {:induction false} Associate(x: seq<Node>, n: Node, y: seq<Node>, m: Node, z: seq<Node>)
    ensures (x + [n] + y) + [m] + z == x + [n] + (y + [m] + z)
  {
  }

  /** A node with its two subtrees, read in direction d. */
  lemma {:induction false} MkNodes(d: Dir, x: Tree, n: Node, red: bool, y: Tree)
    ensures Nodes(Mk(d, x, n, red, y)) == Nodes(x) + {n} + Nodes(y)
    ensures Distinct(Mk(d, x, n, red, y)) <==> n !in Nodes(x) && n !in Nodes(y) && Nodes(x) !! Nodes(y) && Distinct(x) && Distinct(y)
  {
  }

  /** Its links, when they are distinct. */
  lemma {:induction false} MkLinks(d: Dir, x: Tree, n: Node, red: bool, y: Tree, p: Node?, z: Node)
    requires Distinct(Mk(d, x, n, red, y)) && z in Nodes(Mk(d, x, n, red, y))
    ensures LinkAt(Mk(d, x, n, red, y), p, z) ==
      if z == n then NodeLink(d, p, Root(x), red, Root(y)) else if z in Nodes(x) then LinkAt(x, n, z) else LinkAt(y, n, z)
  {
  }

  lemma {:induction false} RotatedDistinct(d: Dir, a: Tree, n: Node, nRed: bool, b: Tree, m: Node, mRed: bool, e: Tree)
    requires Distinct(Mk(d, a, n, nRed, Mk(d, b, m, mRed, e)))
    ensures Nodes(Mk(d, Mk(d, a, n, nRed, b), m, mRed, e)) == Nodes(Mk(d, a, n, nRed, Mk(d, b, m, mRed, e)))
    ensures Distinct(Mk(d, Mk(d, a, n, nRed, b), m, mRed, e))
  {
    MkNodes(d, b, m, mRed, e);
    MkNodes(d, a, n, nRed, Mk(d, b, m, mRed, e));
    MkNodes(d, a, n, nRed, b);
    MkNodes(d, Mk(d, a, n, nRed, b), m, mRed, e);
  }

  lemma {:induction false} TopRoot(c: Ctx, hole: Node?)
    ensures c.Step? ==> CtxRoot(c, hole) != null && CtxRoot(c, hole) in CtxNodes(c)
  {
    if c.Step? { TopRoot(c.up, c.node); }
  }

  /** New fields of `x` when the d.Flip()-child `m` of `n` is rotated above `n`. */
  function RotationLink(d: Dir, n: Node, m: Node, moved: Node?, above: Node?, side: Dir, x: Node, was: Link): Link {
    if x == n then was.Set(d.Flip(), moved).(parent := m)
    else if x == m then was.Set(d, n).(parent := above)
    else if x == moved then was.(parent := n)
    else if x == above then was.Set(side, m)
    else was
  }

  lemma {:induction false} RotatedLinkFixed(d: Dir, a: Tree, n: Node, nRed: bool, b: Tree, m: Node, mRed: bool, e: Tree,
                                       p: Node?, x: Node)
    requires Distinct(Mk(d, a, n, nRed, Mk(d, b, m, mRed, e))) && x in Nodes(a)
    ensures x in Nodes(Mk(d, a, n, nRed, Mk(d, b, m, mRed, e))) && x in Nodes(Mk(d, Mk(d, a, n, nRed, b), m, mRed, e))
    ensures x != n && x != m && x != Root(b)
    ensures LinkAt(Mk(d, a, n, nRed, Mk(d, b, m, mRed, e)), p, x) == LinkAt(a, n, x)
    ensures LinkAt(Mk(d, Mk(d, a, n, nRed, b), m, mRed, e), p, x) == LinkAt(a, n, x)
  {
    RotatedDistinct(d, a, n, nRed, b, m, mRed, e);
    assert Distinct(Mk(d, a, n, nRed, b));
    assert LinkAt(Mk(d, a, n, nRed, b), m, x) == LinkAt(a, n, x);
  }

  lemma {:induction false} RotatedLinkFar(d: Dir, a: Tree, n: Node, nRed: bool, b: Tree, m: Node, mRed: bool, e: Tree,
                                       p: Node?, x: Node)
    requires Distinct(Mk(d, a, n, nRed, Mk(d, b, m, mRed, e))) && x in Nodes(e)
    ensures x in Nodes(Mk(d, a, n, nRed, Mk(d, b, m, mRed, e))) && x in Nodes(Mk(d, Mk(d, a, n, nRed, b), m, mRed, e))
    ensures x != n && x != m && x != Root(b)
    ensures LinkAt(Mk(d, a, n, nRed, Mk(d, b, m, mRed, e)), p, x) == LinkAt(e, m, x)
    ensures LinkAt(Mk(d, Mk(d, a, n, nRed, b), m, mRed, e), p, x) == LinkAt(e, m, x)
  {
    RotatedDistinct(d, a, n, nRed, b, m, mRed, e);
    assert Distinct(Mk(d, b, m, mRed, e));
    assert LinkAt(Mk(d, b, m, mRed, e), n, x) == LinkAt(e, m, x);
  }

  lemma {:induction false} RotatedLinkEnds(d: Dir, a: Tree, n: Node, nRed: bool, b: Tree, m: Node, mRed: bool, e: Tree, p: Node?)
    requires Distinct(Mk(d, a, n, nRed, Mk(d, b, m, mRed, e)))
    ensures var t, t' := Mk(d, a, n, nRed, Mk(d, b, m, mRed, e)), Mk(d, Mk(d, a, n, nRed, b), m, mRed, e);
      && n != m && n in Nodes(t) && m in Nodes(t) && n in Nodes(t') && m in Nodes(t')
      && LinkAt(t, p, n) == NodeLink(d, p, Root(a), nRed, m) && LinkAt(t, p, m) == NodeLink(d, n, Root(b), mRed, Root(e))
      && LinkAt(t', p, n) == NodeLink(d, m, Root(a), nRed, Root(b)) && LinkAt(t', p, m) == NodeLink(d, p, n, mRed, Root(e))
  {
    RotatedDistinct(d, a, n, nRed, b, m, mRed, e);
    MkNodes(d, b, m, mRed, e);
    MkNodes(d, a, n, nRed, Mk(d, b, m, mRed, e));
    MkNodes(d, a, n, nRed, b);
    MkNodes(d, Mk(d, a, n, nRed, b), m, mRed, e);
    MkLinks(d, a, n, nRed, Mk(d, b, m, mRed, e), p, n);
    MkLinks(d, a, n, nRed, Mk(d, b, m, mRed, e), p, m);
    MkLinks(d, b, m, mRed, e, n, m);
    MkLinks(d, Mk(d, a, n, nRed, b), m, mRed, e, p, n);
    MkLinks(d, Mk(d, a, n, nRed, b), m, mRed, e, p, m);
    MkLinks(d, a, n, nRed, b, m, n);
  }

  lemma {:induction false} RotatedLinkMoved(d: Dir, a: Tree, n: Node, nRed: bool, b: Tree, m: Node, mRed: bool, e: Tree,
                                       p: Node?, side: Dir, x: Node)
    requires Distinct(Mk(d, a, n, nRed, Mk(d, b, m, mRed, e))) && x in Nodes(Mk(d, a, n, nRed, Mk(d, b, m, mRed, e)))
    requires x != p && x in Nodes(b)
    ensures x in Nodes(Mk(d, Mk(d, a, n, nRed, b), m, mRed, e))
    ensures LinkAt(Mk(d, Mk(d, a, n, nRed, b), m, mRed, e), p, x)
      == RotationLink(d, n, m, Root(b), p, side, x, LinkAt(Mk(d, a, n, nRed, Mk(d, b, m, mRed, e)), p, x))
  {
    RotatedDistinct(d, a, n, nRed, b, m, mRed, e);
    assert Distinct(Mk(d, b, m, mRed, e));
    assert Distinct(Mk(d, a, n, nRed, b));
    assert LinkAt(Mk(d, a, n, nRed, Mk(d, b, m, mRed, e)), p, x) == LinkAt(Mk(d, b, m, mRed, e), n, x) == LinkAt(b, m, x);
    assert LinkAt(Mk(d, Mk(d, a, n, nRed, b), m, mRed, e), p, x) == LinkAt(Mk(d, a, n, nRed, b), m, x) == LinkAt(b, n, x);
  }

  lemma {:induction false} RotatedLinkOuter(d: Dir, a: Tree, n: Node, nRed: bool, b: Tree, m: Node, mRed: bool, e: Tree,
                                       p: Node?, side: Dir, x: Node)
    requires Distinct(Mk(d, a, n, nRed, Mk(d, b, m, mRed, e)))
    requires x != p && (x in Nodes(a) || x in Nodes(e))
    ensures x in Nodes(Mk(d, a, n, nRed, Mk(d, b, m, mRed, e))) && x in Nodes(Mk(d, Mk(d, a, n, nRed, b), m, mRed, e))
    ensures LinkAt(Mk(d, Mk(d, a, n, nRed, b), m, mRed, e), p, x)
      == RotationLink(d, n, m, Root(b), p, side, x, LinkAt(Mk(d, a, n, nRed, Mk(d, b, m, mRed, e)), p, x))
  {
    if x in Nodes(a) {
      RotatedLinkFixed(d, a, n, nRed, b, m, mRed, e, p, x);
    } else {
      RotatedLinkFar(d, a, n, nRed, b, m, mRed, e, p, x);
    }
  }

  /** The links of a rotated tree. */
  lemma {:induction false} RotatedLink(d: Dir, a: Tree, n: Node, nRed: bool, b: Tree, m: Node, mRed: bool, e: Tree,
                                       p: Node?, side: Dir, x: Node)
    requires Distinct(Mk(d, a, n, nRed, Mk(d, b, m, mRed, e))) && x in Nodes(Mk(d, a, n, nRed, Mk(d, b, m, mRed, e)))
    requires x != p
    ensures x in Nodes(Mk(d, Mk(d, a, n, nRed, b), m, mRed, e))
    ensures LinkAt(Mk(d, Mk(d, a, n, nRed, b), m, mRed, e), p, x)
      == RotationLink(d, n, m, Root(b), p, side, x, LinkAt(Mk(d, a, n, nRed, Mk(d, b, m, mRed, e)), p, x))
  {
    if x in Nodes(a) || x in Nodes(e) {
      RotatedLinkOuter(d, a, n, nRed, b, m, mRed, e, p, side, x);
    } else if x in Nodes(b) {
      RotatedLinkMoved(d, a, n, nRed, b, m, mRed, e, p, side, x);
    } else {
      RotatedLinkEnds(d, a, n, nRed, b, m, mRed, e, p);
      assert x in Nodes(Mk(d, b, m, mRed, e)) || x == n;
      assert x == n || x == m;
    }
  }

  /** Refilling a hole changes the links of the context only right above the hole. */
  lemma {:induction false} RefillLink(c: Ctx, t: Tree, t': Tree, x: Node)
    requires Distinct(Plug(c, t)) && Distinct(t') && Nodes(t') !! CtxNodes(c)
    ensures Distinct(Plug(c, t')) && Nodes(Plug(c, t')) == CtxNodes(c) + Nodes(t') && Nodes(Plug(c, t)) == CtxNodes(c) + Nodes(t)
    ensures x in Nodes(t) ==> LinkAt(Plug(c, t), null, x) == LinkAt(t, Above(c), x)
    ensures x in Nodes(t') ==> LinkAt(Plug(c, t'), null, x) == LinkAt(t', Above(c), x)
    ensures x in CtxNodes(c) && x == Above(c) ==> LinkAt(Plug(c, t'), null, x) == LinkAt(Plug(c, t), null, x).Set(c.dir, Root(t'))
    ensures x in CtxNodes(c) && x != Above(c) ==> LinkAt(Plug(c, t'), null, x) == LinkAt(Plug(c, t), null, x)
  {
    PlugDistinct(c, t);
    PlugDistinct(c, t');
    if x in Nodes(Plug(c, t)) { PlugLink(c, t, x); }
    if x in Nodes(Plug(c, t')) { PlugLink(c, t', x); }
  }

  /** Rotation inside a context: the links of four nodes change. */
  lemma {:induction false} RotatedPlugLink(c: Ctx, d: Dir, a: Tree, n: Node, nRed: bool, b: Tree, m: Node, mRed: bool, e: Tree,
                                           x: Node)
    requires Distinct(Plug(c, Mk(d, a, n, nRed, Mk(d, b, m, mRed, e))))
    requires x in Nodes(Plug(c, Mk(d, a, n, nRed, Mk(d, b, m, mRed, e))))
    ensures x in Nodes(Plug(c, Mk(d, Mk(d, a, n, nRed, b), m, mRed, e)))
    ensures LinkAt(Plug(c, Mk(d, Mk(d, a, n, nRed, b), m, mRed, e)), null, x)
      == RotationLink(d, n, m, Root(b), Above(c), if c.Top? then Left else c.dir, x,
                      LinkAt(Plug(c, Mk(d, a, n, nRed, Mk(d, b, m, mRed, e))), null, x))
  {
    var t, t' := Mk(d, a, n, nRed, Mk(d, b, m, mRed, e)), Mk(d, Mk(d, a, n, nRed, b), m, mRed, e);
    PlugDistinct(c, t);
    RotatedDistinct(d, a, n, nRed, b, m, mRed, e);
    RefillLink(c, t, t', x);
    if x in Nodes(t) {
      RotatedLink(d, a, n, nRed, b, m, mRed, e, Above(c), if c.Top? then Left else c.dir, x);
    } else {
      assert b.Bin? ==> b.node in Nodes(t);
      assert x != n && x != m && x != Root(b);
    }
  }

  lemma {:induction false} RotatedPlug(c: Ctx, d: Dir, a: Tree, n: Node, nRed: bool, b: Tree, m: Node, mRed: bool, e: Tree)
    requires Distinct(Plug(c, Mk(d, a, n, nRed, Mk(d, b, m, mRed, e))))
    ensures var s := Plug(c, Mk(d, a, n, nRed, Mk(d, b, m, mRed, e)));
      var s' := Plug(c, Mk(d, Mk(d, a, n, nRed, b), m, mRed, e));
      && InOrder(s') == InOrder(s) && Nodes(s') == Nodes(s) && Distinct(s')
      && Root(s') == (if c.Top? then m else Root(s))
  {
    var t, t' := Mk(d, a, n, nRed, Mk(d, b, m, mRed, e)), Mk(d, Mk(d, a, n, nRed, b), m, mRed, e);
    PlugDistinct(c, t);
    PlugDistinct(c, t');
    RotatedDistinct(d, a, n, nRed, b, m, mRed, e);
    RotatedOrder(d, a, n, nRed, b, m, mRed, e);
    PlugOrder(c, t);
    PlugOrder(c, t');
    PlugRoot(c, t);
    PlugRoot(c, t');
  }

  /** New fields of `x` when `child` is hung under `p` and the hole of `c` is refilled with `below`. */
  function Rehung(x: Node, child: Node?, p: Node?, c: Ctx, below: Node?, was: Link): Link {
    if x == child then was.(parent := p)
    else if c.Step? && x == c.node then was.Set(c.dir, below)
    else was
  }

  /** Removing a node that has at most one child: the child takes its place. */
  lemma {:induction false} SpliceLink(c: Ctx, d: Dir, s: Tree, n: Node, red: bool, x: Node)
    requires Distinct(Plug(c, Mk(d, s, n, red, Nil)))
    ensures Distinct(Plug(c, s)) && Nodes(Plug(c, s)) == Nodes(Plug(c, Mk(d, s, n, red, Nil))) - {n}
    ensures x in Nodes(Plug(c, s)) ==>
      LinkAt(Plug(c, s), null, x)
      == Rehung(x, Root(s), Above(c), c, Root(s), LinkAt(Plug(c, Mk(d, s, n, red, Nil)), null, x))
  {
    var t := Mk(d, s, n, red, Nil);
    PlugDistinct(c, t);
    PlugDistinct(c, s);
    RefillLink(c, t, s, x);
  }

  /** Putting `s` where `n` was. */
  lemma {:induction false} SubstituteLink(c: Ctx, l: Tree, n: Node, red: bool, r: Tree, s: Node, x: Node)
    requires Distinct(Plug(c, Bin(l, n, red, r))) && s !in Nodes(Plug(c, Bin(l, n, red, r)))
    ensures Distinct(Plug(c, Bin(l, s, red, r)))
    ensures Nodes(Plug(c, Bin(l, s, red, r))) == Nodes(Plug(c, Bin(l, n, red, r))) - {n} + {s}
    ensures x in Nodes(Plug(c, Bin(l, s, red, r))) && x != s ==>
      LinkAt(Plug(c, Bin(l, s, red, r)), null, x)
      == var was := LinkAt(Plug(c, Bin(l, n, red, r)), null, x);
         if x == Root(r) then was.(parent := s) else Rehung(x, Root(l), s, c, s, was)
  {
    var t, t' := Bin(l, n, red, r), Bin(l, s, red, r);
    PlugDistinct(c, t);
    PlugDistinct(c, t');
    RefillLink(c, t, t', x);
  }

  /** A right child without a left child moves up over its parent. */
  lemma {:induction false} PromoteLink(c: Ctx, l: Tree, n: Node, red: bool, s: Node, sRed: bool, r: Tree, x: Node)
    requires Distinct(Plug(c, Bin(l, n, red, Bin(Nil, s, sRed, r))))
    ensures Distinct(Plug(c, Bin(l, s, red, r)))
    ensures Nodes(Plug(c, Bin(l, s, red, r))) == Nodes(Plug(c, Bin(l, n, red, Bin(Nil, s, sRed, r)))) - {n}
    ensures x in Nodes(Plug(c, Bin(l, s, red, r))) && x != s ==>
      LinkAt(Plug(c, Bin(l, s, red, r)), null, x)
      == Rehung(x, Root(l), s, c, s, LinkAt(Plug(c, Bin(l, n, red, Bin(Nil, s, sRed, r))), null, x))
  {
    var t, t' := Bin(l, n, red, Bin(Nil, s, sRed, r)), Bin(l, s, red, r);
    PromoteNodes(c, l, n, red, s, sRed, r);
    RefillLink(c, t, t', x);
    if x in Nodes(r) { assert LinkAt(t, Above(c), x) == LinkAt(t.right, n, x) == LinkAt(r, s, x); }
  }

  lemma {:induction false} PromoteNodes(c: Ctx, l: Tree, n: Node, red: bool, s: Node, sRed: bool, r: Tree)
    requires Distinct(Plug(c, Bin(l, n, red, Bin(Nil, s, sRed, r))))
    ensures Distinct(Bin(l, n, red, Bin(Nil, s, sRed, r))) && Distinct(Bin(Nil, s, sRed, r))
    ensures Distinct(Bin(l, s, red, r)) && Nodes(Bin(l, s, red, r)) !! CtxNodes(c) && n !in Nodes(Bin(l, s, red, r)) && n !in CtxNodes(c)
    ensures Distinct(Plug(c, Bin(l, s, red, r)))
    ensures Nodes(Plug(c, Bin(l, s, red, r))) == Nodes(Plug(c, Bin(l, n, red, Bin(Nil, s, sRed, r)))) - {n}
  {
    PlugDistinct(c, Bin(l, n, red, Bin(Nil, s, sRed, r)));
    PlugDistinct(c, Bin(l, s, red, r));
    assert Distinct(Bin(Nil, s, sRed, r));
  }

  /** A leaf in an empty hole. */
  lemma {:induction false} LeafPlug(c: Ctx, n: Node, red: bool)
    requires Distinct(Plug(c, Nil)) && n !in Nodes(Plug(c, Nil))
    ensures var s := Plug(c, Bin(Nil, n, red, Nil));
      && Distinct(s) && Nodes(s) == Nodes(Plug(c, Nil)) + {n}
      && InOrder(s) == Before(c) + [n] + After(c)
      && Root(s) == (if c.Top? then n else Root(Plug(c, Nil)))
  {
    var t := Bin(Nil, n, red, Nil);
    PlugDistinct(c, Nil);
    PlugDistinct(c, t);
    PlugOrder(c, t);
    PlugRoot(c, Nil);
    PlugRoot(c, t);
  }

  lemma {:induction false} LeafLink(c: Ctx, n: Node, red: bool, x: Node)
    requires Distinct(Plug(c, Nil)) && n !in Nodes(Plug(c, Nil)) && x in Nodes(Plug(c, Bin(Nil, n, red, Nil)))
    ensures x == n ==> LinkAt(Plug(c, Bin(Nil, n, red, Nil)), null, x) == Link(Above(c), null, null, red)
    ensures x != n ==> x in Nodes(Plug(c, Nil))
    ensures x != n ==> LinkAt(Plug(c, Bin(Nil, n, red, Nil)), null, x) == Rehung(x, null, null, c, n, LinkAt(Plug(c, Nil), null, x))
  {
    PlugDistinct(c, Nil);
    RefillLink(c, Nil, Bin(Nil, n, red, Nil), x);
  }

  lemma {:induction false} RecolourAccepts(c: Ctx, t: Tree)
    requires c.Step? && c.red && IsRed(t) && Balanced(t) && NoRedRed(t) && Accepts(c, BlackHeight(t))
    requires IsRed(c.up.sibling)
    ensures var y := Mk(c.up.dir, Mk(c.dir, t, c.node, false, c.sibling), c.up.node, true, Paint(c.up.sibling, false));
      y.red && Balanced(y) && NoRedRed(y) && Accepts(c.up.up, BlackHeight(y))
  {
  }

  /** Keys up to v lie before the focus and larger ones behind it. */
  ghost predicate KeysAround(c: Ctx, v: nat) {
    (forall m :: m in Before(c) ==> m.value <= v) && (forall m :: m in After(c) ==> v < m.value)
  }

  /** One step of the descent keeps the keys around the focus on their sides of `v`. */
  lemma {:induction false} DescendKeys(c: Ctx, t: Tree, v: nat, d: Dir)
    requires t.Bin? && Sorted(InOrder(Plug(c, t))) && d == if v < t.node.value then Left else Right
    requires KeysAround(c, v)
    ensures KeysAround(Step(c, d, t.node, t.red, Sub(t, d.Flip())), v)
  {
    var c' := Step(c, d, t.node, t.red, Sub(t, d.Flip()));
    forall m | m in Before(c') ensures m.value <= v {
      SortedAt(c, t, m);
      InOrderHas(t.left, m);
    }
    forall m | m in After(c') ensures v < m.value {
      SortedAt(c, t, m);
      InOrderHas(t.right, m);
    }
  }

  /** The focus of the deletion fix-up: one black node short, and possibly red below a red node. */
  ghost predicate Short(c: Ctx, t: Tree) {
    Balanced(t) && NoRedRed(Paint(t, false)) && Accepts(c, BlackHeight(t) + 1)
  }

  /** How far the deletion fix-up still has to climb. */
  function Climb(c: Ctx, t: Tree): nat {
    if c.Top? || IsRed(t) then 0 else Depth(c)
  }

  /** Above a short tree there is a sibling, which is black or has black children. */
  lemma {:induction false} ShortSibling(c: Ctx, t: Tree)
    requires Short(c, t) && c.Step?
    ensures c.sibling.Bin? && Balanced(c.sibling) && NoRedRed(c.sibling) && BlackHeight(c.sibling) == BlackHeight(t) + 1
    ensures c.sibling.red ==> !c.red && c.sibling.left.Bin? && c.sibling.right.Bin?
  {
  }

  /** A red far nephew: the rotated tree has the black height the context asks for. */
  lemma {:induction false} FarRedDone(up: Ctx, d: Dir, t: Tree, p: Node, pRed: bool, a: Tree, w: Node, b: Tree)
    requires Short(Step(up, d, p, pRed, Mk(d, a, w, false, b)), t) && !IsRed(t) && IsRed(b)
    ensures RedBlack(Plug(up, Mk(d, Mk(d, t, p, false, a), w, pRed, Paint(b, false))))
  {
    var s, x := Mk(d, a, w, false, b), Mk(d, t, p, false, a);
    assert Balanced(s) && NoRedRed(s) && NoRedRed(t);
    MkParts(d, a, w, false, b);
    MkWhole(d, t, p, false, a);
    MkWhole(d, x, w, pRed, Paint(b, false));
    AcceptsPlug(up, Mk(d, x, w, pRed, Paint(b, false)), BlackHeight(t) + (if pRed then 1 else 2));
  }

  lemma {:induction false} MkParts(d: Dir, x: Tree, n: Node, red: bool, y: Tree)
    requires Balanced(Mk(d, x, n, red, y)) && NoRedRed(Mk(d, x, n, red, y))
    ensures Balanced(x) && Balanced(y) && NoRedRed(x) && NoRedRed(y)
    ensures BlackHeight(x) == BlackHeight(y) == BlackHeight(Mk(d, x, n, red, y)) - (if red then 0 else 1)
    ensures IsRed(y) ==> BlackHeight(Paint(y, false)) == BlackHeight(y) + 1 && NoRedRed(Paint(y, false)) && Balanced(Paint(y, false))
  {
  }

  lemma {:induction false} MkWhole(d: Dir, x: Tree, n: Node, red: bool, y: Tree)
    requires Balanced(x) && Balanced(y) && NoRedRed(x) && NoRedRed(y) && BlackHeight(x) == BlackHeight(y)
    requires red ==> !IsRed(x) && !IsRed(y)
    ensures Balanced(Mk(d, x, n, red, y)) && NoRedRed(Mk(d, x, n, red, y))
    ensures BlackHeight(Mk(d, x, n, red, y)) == BlackHeight(x) + (if red then 0 else 1)
  {
  }

  /** Both nephews black: the shortage moves up. */
  lemma {:induction false} RecolourShort(up: Ctx, d: Dir, t: Tree, p: Node, pRed: bool, a: Tree, w: Node, b: Tree)
    requires Short(Step(up, d, p, pRed, Mk(d, a, w, false, b)), t) && !IsRed(t) && !IsRed(a) && !IsRed(b)
    ensures Short(up, Mk(d, t, p, pRed, Mk(d, a, w, true, b)))
  {
  }

  /** A red near nephew becomes the sibling, with a red far child. */
  lemma {:induction false} NearRedShort(up: Ctx, d: Dir, t: Tree, p: Node, pRed: bool, a1: Tree, m: Node, a2: Tree, w: Node, b: Tree)
    requires Short(Step(up, d, p, pRed, Mk(d, Mk(d, a1, m, true, a2), w, false, b)), t) && !IsRed(b)
    ensures Short(Step(up, d, p, pRed, Mk(d, a1, m, false, Mk(d, a2, w, true, b))), t)
  {
    var s, s' := Mk(d, Mk(d, a1, m, true, a2), w, false, b), Mk(d, a2, w, true, b);
    assert Balanced(s) && NoRedRed(s) && Balanced(Mk(d, a1, m, true, a2)) && NoRedRed(Mk(d, a1, m, true, a2));
    assert Balanced(a1) && Balanced(a2) && NoRedRed(a1) && NoRedRed(a2) && Balanced(b) && NoRedRed(b);
    assert Balanced(s') && NoRedRed(s');
    assert Balanced(Mk(d, a1, m, false, s')) && NoRedRed(Mk(d, a1, m, false, s'));
  }

  /** Rotating a red sibling away leaves a short focus below a red node with a black sibling. */
  lemma {:induction false} RedSiblingShort(up: Ctx, d: Dir, t: Tree, p: Node, a: Tree, w: Node, b: Tree)
    requires Short(Step(up, d, p, false, Mk(d, a, w, true, b)), t)
    ensures Short(Step(Step(up, d, w, false, b), d, p, true, a), t) && a.Bin? && !a.red
  {
  }

  /** Every node of a tree is the root of a subtree in some context. */
  lemma {:induction false} Locate(outer: Ctx, s: Tree, n: Node) returns (c: Ctx, t: Tree)
    requires n in Nodes(s)
    ensures t.Bin? && t.node == n && Plug(c, t) == Plug(outer, s)
    decreases s
  {
    if s.node == n {
      c, t := outer, s;
    } else if n in Nodes(s.left) {
      c, t := Locate(Step(outer, Left, s.node, s.red, s.right), s.left, n);
    } else {
      c, t := Locate(Step(outer, Right, s.node, s.red, s.left), s.right, n);
    }
  }

  /** A context that only goes left. */
  ghost predicate Leftward(c: Ctx) {
    c.Step? ==> c.dir == Left && Leftward(c.up)
  }

  lemma {:induction false} LeftwardOrder(c: Ctx, t: Tree)
    requires Leftward(c)
    ensures Before(c) == [] && InOrder(Plug(c, t)) == InOrder(t) + After(c)
  {
    if c.Step? { LeftwardOrder(c.up, Nil); }
    PlugOrder(c, t);
  }

  /** What a context accepts does not depend on which node sits where. */
  lemma {:induction false} AcceptsRename(up: Ctx, n: Node, s: Node, red: bool, l: Tree, inner: Ctx, h: nat)
    requires Accepts(Compose(Step(up, Right, n, red, l), inner), h)
    ensures Accepts(Compose(Step(up, Right, s, red, l), inner), h)
    decreases inner
  {
    if inner.Step? {
      AcceptsRename(up, n, s, red, l, inner.up, h + (if inner.red then 0 else 1));
      if inner.up.Step? { assert Compose(Step(up, Right, n, red, l), inner.up).Step?; }
    }
  }

  lemma {:induction false} CtxOrderHas(c: Ctx, n: Node)
    ensures n in Before(c) || n in After(c) ==> n in CtxNodes(c)
  {
    if c.Step? {
      CtxOrderHas(c.up, n);
      InOrderHas(c.sibling, n);
    }
  }

  /** The order without the focused node. */
  lemma {:induction false} OrderWithout(c: Ctx, t: Tree)
    requires Distinct(Plug(c, t)) && t.Bin?
    ensures Without(InOrder(Plug(c, t)), t.node) == (Before(c) + InOrder(t.left)) + (InOrder(t.right) + After(c))
    ensures Sorted(InOrder(Plug(c, t))) ==> Sorted(Without(InOrder(Plug(c, t)), t.node))
    ensures |InOrder(Plug(c, t))| == |Without(InOrder(Plug(c, t)), t.node)| + 1
  {
    var a, b := Before(c) + InOrder(t.left), InOrder(t.right) + After(c);
    assert InOrder(Plug(c, t)) == a + [t.node] + b by { PlugOrder(c, t); OrderParts(Before(c), t, After(c)); }
    NotAround(c, t);
    WithoutAt(a, b, t.node);
    if Sorted(InOrder(Plug(c, t))) { SortedRemove(a, b, t.node); }
  }

  /** The focused node is neither before nor after itself. */
  lemma {:induction false} NotAround(c: Ctx, t: Tree)
    requires Distinct(Plug(c, t)) && t.Bin?
    ensures t.node !in Before(c) + InOrder(t.left) && t.node !in InOrder(t.right) + After(c)
  {
    PlugDistinct(c, t);
    CtxOrderHas(c, t.node);
    InOrderHas(t.left, t.node);
    InOrderHas(t.right, t.node);
  }

  lemma {:induction false} OrderSpliced(c: Ctx, d: Dir, s: Tree, n: Node, red: bool)
    requires Distinct(Plug(c, Mk(d, s, n, red, Nil)))
    ensures InOrder(Plug(c, s)) == Without(InOrder(Plug(c, Mk(d, s, n, red, Nil))), n)
  {
    OrderWithout(c, Mk(d, s, n, red, Nil));
    PlugOrder(c, s);
    OneSide(Before(c), InOrder(s), After(c));
  }

  lemma {:induction false} OneSide(a: seq<Node>, x: seq<Node>, b: seq<Node>)
    ensures (a + x) + ([] + b) == a + x + b == (a + []) + (x + b)
  {
  }

  /** The order below, with and without its first node. */
  lemma {:induction false} SuccessorOrder(inner: Ctx, s: Node, sRed: bool, r: Tree)
    requires Leftward(inner)
    ensures InOrder(Plug(inner, Bin(Nil, s, sRed, r))) == [s] + InOrder(r) + After(inner)
    ensures InOrder(Plug(inner, r)) == InOrder(r) + After(inner)
  {
    LeftwardOrder(inner, Bin(Nil, s, sRed, r));
    LeftwardOrder(inner, r);
    assert InOrder(Bin(Nil, s, sRed, r)) == [s] + InOrder(r);
  }

  /** Replacing a node by its successor leaves the order of the others. */
  lemma {:induction false} OrderSucceeded(c: Ctx, l: Tree, n: Node, red: bool, inner: Ctx, s: Node, sRed: bool, r: Tree)
    requires Distinct(Plug(c, Bin(l, n, red, Plug(inner, Bin(Nil, s, sRed, r))))) && Leftward(inner)
    ensures InOrder(Plug(c, Bin(l, s, red, Plug(inner, r))))
         == Without(InOrder(Plug(c, Bin(l, n, red, Plug(inner, Bin(Nil, s, sRed, r))))), n)
  {
    OrderWithout(c, Bin(l, n, red, Plug(inner, Bin(Nil, s, sRed, r))));
    SuccessorOrder(inner, s, sRed, r);
    PlugOrder(c, Bin(l, s, red, Plug(inner, r)));
    Reassociate(Before(c), InOrder(l), [s], InOrder(r), After(inner), After(c));
  }

  lemma {:induction false} Reassociate<T>(a: seq<T>, b: seq<T>, c: seq<T>, d: seq<T>, e: seq<T>, f: seq<T>)
    ensures a + (b + c + (d + e)) + f == (a + b) + ((c + d + e) + f)
  {
  }

  /** Distinct nodes: the hole is right below the base only when nothing is in between. */
  lemma {:induction false} InnerTop(base: Ctx, inner: Ctx)
    requires base.Step? && DistinctCtx(Compose(base, inner)) && Above(Compose(base, inner)) == base.node
    ensures inner.Top?
  {
    if inner.Step? { ComposeNodes(base, inner.up); }
  }

  lemma {:induction false} ComposeNodes(base: Ctx, inner: Ctx)
    ensures CtxNodes(base) <= CtxNodes(Compose(base, inner))
    decreases inner
  {
    if inner.Step? { ComposeNodes(base, inner.up); }
  }

  lemma {:induction false} InnerBin(inner: Ctx, t: Tree)
    ensures inner.Step? ==> Plug(inner, t).Bin?
    decreases inner
  {
    PlugRoot(inner, t);
    TopRoot(inner, Root(t));
  }

  /** The end of the insertion fix-up: a black q above two red nodes. */
  lemma {:induction false} RotatedAccepts(up: Ctx, d: Dir, x1: Tree, q: Node, x2: Tree, g: Node, u: Tree)
    requires IsRed(x1) && Balanced(x1) && NoRedRed(x1) && Balanced(x2) && NoRedRed(x2) && !IsRed(x2)
    requires Balanced(u) && NoRedRed(u) && !IsRed(u)
    requires BlackHeight(x1) == BlackHeight(x2) == BlackHeight(u) && Accepts(up, BlackHeight(u) + 1)
    ensures RedBlack(Plug(up, Mk(d, x1, q, false, Mk(d, x2, g, true, u))))
  {
    MkWhole(d, x2, g, true, u);
    MkWhole(d, x1, q, false, Mk(d, x2, g, true, u));
    AcceptsPlug(up, Mk(d, x1, q, false, Mk(d, x2, g, true, u)), BlackHeight(u) + 1);
  }

  /** Recolouring the node at the focus. */
  lemma {:induction false} PaintedPlug(c: Ctx, t: Tree, red: bool)
    requires t.Bin? && Distinct(Plug(c, t))
    ensures Distinct(Plug(c, t.(red := red))) && Nodes(Plug(c, t.(red := red))) == Nodes(Plug(c, t))
    ensures InOrder(Plug(c, t.(red := red))) == InOrder(Plug(c, t)) && Root(Plug(c, t.(red := red))) == Root(Plug(c, t))
  {
    var t' := t.(red := red);
    PlugOrder(c, t);
    PlugOrder(c, t');
    PlugRoot(c, t);
    PlugRoot(c, t');
    PlugDistinct(c, t);
    PlugDistinct(c, t');
  }

  lemma {:induction false} PaintedLink(c: Ctx, t: Tree, red: bool, x: Node)
    requires t.Bin? && Distinct(Plug(c, t)) && x in Nodes(Plug(c, t))
    ensures x in Nodes(Plug(c, t.(red := red)))
    ensures LinkAt(Plug(c, t.(red := red)), null, x)
      == if x == t.node then LinkAt(Plug(c, t), null, x).(red := red) else LinkAt(Plug(c, t), null, x)
  {
    PaintedPlug(c, t, red);
    PlugLink(c, t, x);
    PlugLink(c, t.(red := red), x);
  }

  /** Where a descent that passes smaller and equal keys ends is where the key belongs. */
  lemma {:induction false} OrderInserted(c: Ctx, n: Node)
    requires Sorted(InOrder(Plug(c, Nil)))
    requires KeysAround(c, n.value)
    ensures InsertSorted(InOrder(Plug(c, Nil)), n) == Before(c) + [n] + After(c)
    ensures Sorted(Before(c) + [n] + After(c)) && |Before(c) + [n] + After(c)| == |InOrder(Plug(c, Nil))| + 1
  {
    PlugOrder(c, Nil);
    assert InOrder(Plug(c, Nil)) == Before(c) + After(c);
    InsertSortedAt(Before(c), After(c), n);
    SortedInsert(Before(c), After(c), n);
  }

  lemma {:induction false} RotationDistinct(c: Ctx, d: Dir, a: Tree, n: Node, nRed: bool, b: Tree, m: Node, mRed: bool, e: Tree)
    requires Distinct(Plug(c, Mk(d, a, n, nRed, Mk(d, b, m, mRed, e))))
    ensures var all := Nodes(Plug(c, Mk(d, a, n, nRed, Mk(d, b, m, mRed, e))));
      n in all && m in all && (b.Bin? ==> b.node in all) && (c.Step? ==> c.node in all)
    ensures n != m && (b.Bin? ==> b.node != n && b.node != m && b.node != Above(c))
    ensures c.Step? ==> c.node != n && c.node != m && Root(c.sibling) != n
  {
    var m' := Mk(d, b, m, mRed, e);
    PlugDistinct(c, Mk(d, a, n, nRed, m'));
    assert Nodes(Mk(d, a, n, nRed, m')) == Nodes(a) + {n} + Nodes(m') && Nodes(m') == Nodes(b) + {m} + Nodes(e);
    assert c.Step? && c.sibling.Bin? ==> c.sibling.node in CtxNodes(c);
  }

  lemma {:induction false} SubstituteRoots(c: Ctx, l: Tree, n: Node, red: bool, r: Tree, s: Node)
    ensures Root(Plug(c, Bin(l, s, red, r))) == if c.Top? then s else Root(Plug(c, Bin(l, n, red, r)))
  {
    PlugRoot(c, Bin(l, n, red, r));
    PlugRoot(c, Bin(l, s, red, r));
    if c.Step? { SameCtxRoot(c, n, s); }
  }

  lemma {:induction false} SameCtxRoot(c: Ctx, x: Node?, y: Node?)
    requires c.Step?
    ensures CtxRoot(c, x) == CtxRoot(c, y)
  {
  }
}
