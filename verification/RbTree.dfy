/**
 lib/rb.c: insertion, removal and search on linked nodes. `shape` is the ghost tree the
 links spell out; the link-level operations keep `Linked()` and say what they do to the
 shape, and the loops above them argue about shapes alone.
 */
module RbTree {
  import opened RbShape
  import opened RbBalance
  import opened RbLinks
  import opened RbNearest

  datatype SearchType = Exact | Lt | Lte | Gt | Gte {
    predicate Wants(k: nat, v: nat) {
      match this
      case Exact => k == v
      case Lt => k < v
      case Lte => k <= v
      case Gt => k > v
      case Gte => k >= v
    }

    /** Key `a` answers the search at least as well as key `b`. */
    predicate AsGood(a: nat, b: nat) {
      match this
      case Exact => a == b
      case Lt => a >= b
      case Lte => a >= b
      case Gt => a <= b
      case Gte => a <= b
    }
  }

  class RbTree {
    var root: Node?
    var count: nat
    ghost var shape: Tree
    ghost var repr: set<Node>

    constructor ()
      ensures Valid() && Contents() == []
    {
      root, count, shape, repr := null, 0, Nil, {};
    }

    /** The nodes' fields and the root pointer spell out `shape`. */
    ghost predicate Linked()
      reads this, repr
    {
      && root == Root(shape) && Distinct(shape) && repr == Nodes(shape)
      && forall x :: x in repr ==> x.Fields() == LinkAt(shape, null, x)
    }

    /** The full invariant between operations. */
    ghost predicate Valid()
      reads this, repr
    {
      Linked() && RedBlack(shape) && Sorted(InOrder(shape)) && count == |InOrder(shape)|
    }

    ghost function Contents(): seq<Node>
      reads this
    {
      InOrder(shape)
    }

    /** The nodes of the tree, as a set and in order. */
    lemma {:induction false} Members()
      requires Linked()
      ensures forall m: Node {:trigger m in repr} {:trigger m in Contents()} :: m in Contents() <==> m in repr
    {
      forall m: Node ensures m in Contents() <==> m in repr { InOrderHas(shape, m); }
    }

    /** What the links say at the focus of a decomposition of the shape. */
    lemma {:induction false} Focus(c: Ctx, t: Tree)
      requires Linked() && shape == Plug(c, t)
      ensures Nodes(shape) == CtxNodes(c) + Nodes(t)
      ensures DistinctCtx(c) && Distinct(t) && CtxNodes(c) !! Nodes(t)
      ensures root == Root(t) <==> c.Top?
      ensures t.Bin? ==> t.node.Fields() == Link(Above(c), Root(t.left), Root(t.right), t.red)
      ensures c.Step? ==> c.node.Fields() == NodeLink(c.dir, Above(c.up), Root(t), c.red, Root(c.sibling))
    {
      PlugDistinct(c, t);
      PlugRoot(c, t);
      TopRoot(c, Root(t));
      if t.Bin? { PlugLink(c, t, t.node); }
      if c.Step? { PlugLink(c, t, c.node); }
    }

    /** The pointer writes of a rotation. */
    method RotateLinks(node: Node, d: Dir) returns (newRoot: Node)
      requires node.Child(d.Flip()) != null
      requires var m, above := node.Child(d.Flip()), node.parent;
        && m != node && above != node && above != m
        && m.Child(d) != node && m.Child(d) != m && (above != null ==> m.Child(d) != above)
      modifies this`root, node, node.Child(d.Flip()), node.Child(d.Flip()).Child(d), node.parent
      ensures newRoot == old(node.Child(d.Flip()))
      ensures node.Fields() == old(node.Fields()).Set(d.Flip(), old(newRoot.Child(d))).(parent := newRoot)
      ensures newRoot.Fields() == old(newRoot.Fields()).Set(d, node).(parent := old(node.parent))
      ensures var moved := node.Child(d.Flip());
        moved == null || moved.Fields() == old(moved.Fields()).(parent := node)
      ensures var above := newRoot.parent;
        if above == null then root == newRoot
        else && root == old(root)
             && above.Fields() == old(above.Fields()).Set(if node == old(above.right) then Right else Left, newRoot)
    {
      var above := node.parent;
      newRoot := node.Child(d.Flip());
      node.SetChild(d.Flip(), newRoot.Child(d));
      if node.Child(d.Flip()) != null { node.Child(d.Flip()).parent := node; }
      newRoot.SetChild(d, node);
      node.parent := newRoot;
      newRoot.parent := above;
      if above != null {
        above.SetChild(if node == above.right then Right else Left, newRoot);
      } else {
        root := newRoot;
      }
    }

    method RotateIn(node: Node, d: Dir, ghost m: Node, ghost moved: Node?, ghost above: Node?, ghost side: Dir)
      returns (newRoot: Node)
      requires node in repr && m in repr && (moved != null ==> moved in repr) && (above != null ==> above in repr)
      requires m != node && moved != node && moved != m && above != node && above != m
      requires moved == above ==> moved == null
      requires node.Child(d.Flip()) == m && m.Child(d) == moved && node.parent == above
      requires above != null ==> above.Child(side) == node && above.Child(side.Flip()) != node
      modifies this`root, repr
      ensures newRoot == m && root == if above == null then m else old(root)
      ensures forall x :: x in repr ==> x.Fields() == RotationLink(d, node, m, moved, above, side, x, old(x.Fields()))
    {
      newRoot := RotateLinks(node, d);
      forall x | x in repr
        ensures x.Fields() == RotationLink(d, node, m, moved, above, side, x, old(x.Fields()))
      {
        if x != node && x != m && x != moved && x != above { assert x.Fields() == old(x.Fields()); }
      }
    }

    /** The pointer writes of a rotation, against the shape before it. */
    method RotateAt(node: Node, d: Dir, ghost c: Ctx,
                    ghost a: Tree, ghost nRed: bool, ghost b: Tree, ghost m: Node, ghost mRed: bool, ghost e: Tree)
      returns (newRoot: Node)
      requires Linked() && shape == Plug(c, Mk(d, a, node, nRed, Mk(d, b, m, mRed, e)))
      modifies this`root, repr
      ensures newRoot == m && root == if c.Top? then m else Root(shape)
      ensures forall x :: x in repr ==>
        x.Fields() == RotationLink(d, node, m, Root(b), Above(c), if c.Top? then Left else c.dir, x, LinkAt(shape, null, x))
    {
      RotationFocus(c, d, a, node, nRed, b, m, mRed, e);
      newRoot := RotateIn(node, d, m, Root(b), Above(c), if c.Top? then Left else c.dir);
    }

    /** a n (b m e)  becomes  (a n b) m e, read in direction d. */
    method Rotate(node: Node, d: Dir, ghost c: Ctx,
                  ghost a: Tree, ghost nRed: bool, ghost b: Tree, ghost m: Node, ghost mRed: bool, ghost e: Tree)
      returns (newRoot: Node)
      requires Linked() && shape == Plug(c, Mk(d, a, node, nRed, Mk(d, b, m, mRed, e)))
      modifies this, repr
      ensures Linked() && shape == Plug(c, Mk(d, Mk(d, a, node, nRed, b), m, mRed, e)) && newRoot == m
      ensures Contents() == old(Contents()) && repr == old(repr) && count == old(count)
    {
      RotatedPlug(c, d, a, node, nRed, b, m, mRed, e);
      newRoot := RotateAt(node, d, c, a, nRed, b, m, mRed, e);
      shape := Plug(c, Mk(d, Mk(d, a, node, nRed, b), m, mRed, e));
      forall x | x in repr ensures x.Fields() == LinkAt(shape, null, x) {
        RotatedPlugLink(c, d, a, node, nRed, b, m, mRed, e, x);
      }
    }

    /** What the links say before a rotation at `n`. */
    lemma {:induction false} RotationFocus(c: Ctx, d: Dir, a: Tree, n: Node, nRed: bool, b: Tree, m: Node, mRed: bool, e: Tree)
      requires Linked() && shape == Plug(c, Mk(d, a, n, nRed, Mk(d, b, m, mRed, e)))
      ensures n in repr && m in repr && (b.Bin? ==> b.node in repr) && (c.Step? ==> c.node in repr)
      ensures n != m && (b.Bin? ==> b.node != n && b.node != m && b.node != Above(c))
      ensures c.Step? ==> c.node != n && c.node != m && c.node.Child(c.dir) == n && c.node.Child(c.dir.Flip()) != n
      ensures n.Fields() == NodeLink(d, Above(c), Root(a), nRed, m)
      ensures m.Fields() == NodeLink(d, n, Root(b), mRed, Root(e))
    {
      var u := Mk(d, b, m, mRed, e);
      MkLink(d, b, m, mRed, e, n);
      RotationDistinct(c, d, a, n, nRed, b, m, mRed, e);
      RotationUpper(c, d, a, n, nRed, u);
      RotationLower(c, d, a, n, nRed, u);
    }

    lemma {:induction false} MkLink(d: Dir, b: Tree, m: Node, red: bool, e: Tree, p: Node)
      ensures var u := Mk(d, b, m, red, e); u.Bin? && u.node == m && NodeLink(d, p, Root(b), red, Root(e)) == Link(p, Root(u.left), Root(u.right), u.red)
    {
    }

    lemma {:induction false} RotationUpper(c: Ctx, d: Dir, a: Tree, n: Node, nRed: bool, u: Tree)
      requires Linked() && shape == Plug(c, Mk(d, a, n, nRed, u))
      ensures n.Fields() == NodeLink(d, Above(c), Root(a), nRed, Root(u))
      ensures c.Step? ==> c.node.Fields() == NodeLink(c.dir, Above(c.up), n, c.red, Root(c.sibling))
    {
      Focus(c, Mk(d, a, n, nRed, u));
    }

    lemma {:induction false} RotationLower(c: Ctx, d: Dir, a: Tree, n: Node, nRed: bool, u: Tree)
      requires Linked() && shape == Plug(c, Mk(d, a, n, nRed, u)) && u.Bin?
      ensures u.node.Fields() == Link(n, Root(u.left), Root(u.right), u.red)
    {
      Focus(Step(c, d.Flip(), n, nRed, a), u);
    }

    /** Recolouring the node at the focus. */
    method SetRed(node: Node, red: bool, ghost c: Ctx, ghost t: Tree)
      requires Linked() && shape == Plug(c, t) && t.Bin? && t.node == node
      modifies this, repr
      ensures Linked() && shape == Plug(c, t.(red := red))
      ensures Contents() == old(Contents()) && repr == old(repr) && count == old(count)
    {
      Focus(c, t);
      PaintedPlug(c, t, red);
      node.red := red;
      forall x | x in repr ensures x.Fields() == LinkAt(Plug(c, t.(red := red)), null, x) {
        PaintedLink(c, t, red, x);
      }
      shape := Plug(c, t.(red := red));
    }

    /** The pointer writes that replace `u` by `v` below the parent of `u`. */
    method Transplant(u: Node, v: Node?, ghost c: Ctx)
      requires u.parent == Above(c) && (c.Top? ==> root == u)
      requires c.Step? ==> c.node != u && c.node != v && c.node.Child(c.dir) == u && c.node.Child(c.dir.Flip()) != u
      requires v != u
      modifies this`root, u.parent, v
      ensures root == if c.Top? then v else old(root)
      ensures c.Step? ==> c.node.Fields() == old(c.node.Fields()).Set(c.dir, v)
      ensures v != null ==> v.Fields() == old(v.Fields()).(parent := Above(c))
    {
      if u.parent == null {
        root := v;
      } else {
        u.parent.SetChild(if u == u.parent.right then Right else Left, v);
      }
      if v != null { v.parent := u.parent; }
    }

    lemma {:induction false} SpliceFocus(node: Node, c: Ctx, d: Dir, s: Tree, red: bool)
      requires Linked() && shape == Plug(c, Mk(d, s, node, red, Nil))
      ensures node in repr && node.parent == Above(c) && (c.Top? ==> root == node) && Root(s) != node
      ensures s.Bin? ==> s.node in repr
      ensures c.Step? ==> c.node in repr && c.node != node && c.node != Root(s) && c.node.Child(c.dir) == node && c.node.Child(c.dir.Flip()) != node
      ensures Distinct(Plug(c, s)) && Nodes(Plug(c, s)) == repr - {node} && Root(Plug(c, s)) == if c.Top? then Root(s) else root
    {
      ghost var t := Mk(d, s, node, red, Nil);
      Focus(c, t);
      assert s.Bin? ==> s.node in Nodes(t);
      SpliceLink(c, d, s, node, red, node);
      PlugRoot(c, t);
      PlugRoot(c, s);
      if c.Step? { SameCtxRoot(c, Root(t), Root(s)); }
    }

    /** Removes a node that has no child on the side away from `d`. */
    method Splice(node: Node, x: Node?, ghost c: Ctx, ghost d: Dir, ghost s: Tree, ghost red: bool)
      requires Linked() && shape == Plug(c, Mk(d, s, node, red, Nil)) && x == Root(s)
      modifies this, repr
      ensures Linked() && shape == Plug(c, s) && node in old(repr) && repr == old(repr) - {node}
      ensures node.Fields() == old(node.Fields()) && count == old(count)
    {
      SpliceFocus(node, c, d, s, red);
      Transplant(node, x, c);
      repr := repr - {node};
      forall y | y in repr ensures y.Fields() == LinkAt(Plug(c, s), null, y) {
        SpliceLink(c, d, s, node, red, y);
        assert y != x && y != Above(c) ==> y.Fields() == old(y.Fields());
      }
      shape := Plug(c, s);
    }

    /** Hangs a red leaf in an empty hole. */
    method Attach(node: Node, direction: Dir, ghost c: Ctx)
      requires Linked() && shape == Plug(c, Nil) && c.Step? && c.dir == direction && node !in repr
      requires node.Fields() == Link(c.node, null, null, true)
      modifies this, repr
      ensures Linked() && shape == Plug(c, Bin(Nil, node, true, Nil)) && repr == old(repr) + {node}
      ensures Contents() == Before(c) + [node] + After(c) && count == old(count)
    {
      Focus(c, Nil);
      LeafPlug(c, node, true);
      node.parent.SetChild(direction, node);
      repr := repr + {node};
      shape := Plug(c, Bin(Nil, node, true, Nil));
      forall y | y in repr ensures y.Fields() == LinkAt(shape, null, y) {
        LeafLink(c, node, true, y);
        assert y != c.node ==> y.Fields() == old(y.Fields());
      }
    }

    /** Last steps of the insertion fix-up: the outer grandchild's parent `q` moves above `g`. */
    method FinishInsert(q: Node, g: Node, d: Dir, ghost up: Ctx, ghost x1: Tree, ghost x2: Tree, ghost u: Tree)
      requires Linked() && shape == Plug(up, Mk(d, Mk(d, x1, q, true, x2), g, false, u))
      modifies this, repr
      ensures Linked() && shape == Plug(up, Mk(d, x1, q, false, Mk(d, x2, g, true, u)))
      ensures Contents() == old(Contents()) && repr == old(repr) && count == old(count)
    {
      var f := d.Flip();
      ghost var y := Mk(d, x2, g, false, u);
      var _ := Rotate(g, f, up, u, false, x2, q, true, x1);
      assert shape == Plug(up, Mk(d, x1, q, true, y));
      SetRed(q, false, up, Mk(d, x1, q, true, y));
      assert shape == Plug(Step(up, f, q, false, x1), y);
      SetRed(g, true, Step(up, f, q, false, x1), y);
    }

    /** What holds of the focus in the insertion fix-up: only the edge above it may be red-red. */
    ghost predicate RedFocus(c: Ctx, t: Tree) {
      IsRed(t) && Balanced(t) && NoRedRed(t) && Accepts(c, BlackHeight(t))
    }

    /** The uncle is red: push the blackness of `g` down to both its children and move up. */
    method RecolourInsert(p: Node, u: Node, g: Node, ghost c: Ctx, ghost t: Tree) returns (ghost c': Ctx, ghost t': Tree)
      requires Linked() && shape == Plug(c, t) && RedFocus(c, t)
      requires c.Step? && c.red && c.node == p && c.up.node == g && IsRed(c.up.sibling) && c.up.sibling.node == u
      modifies this, repr
      ensures Linked() && shape == Plug(c', t') && RedFocus(c', t') && t'.node == g && g.parent == Above(c')
      ensures Depth(c') < Depth(c)
      ensures Contents() == old(Contents()) && repr == old(repr) && count == old(count)
    {
      ghost var up, d, ut, x := c.up.up, c.up.dir, c.up.sibling, Mk(c.dir, t, p, true, c.sibling);
      SetRed(p, false, Step(up, d, g, false, ut), x);
      SetRed(u, false, Step(up, d.Flip(), g, false, Paint(x, false)), ut);
      SetRed(g, true, up, Mk(d, Paint(x, false), g, false, Paint(ut, false)));
      RecolourAccepts(c, t);
      c', t' := up, Mk(d, Paint(x, false), g, true, Paint(ut, false));
      assert Depth(c) == 1 + Depth(c.up) == 2 + Depth(c.up.up);
      Focus(c', t');
    }

    /** The node is the inner grandchild: rotate it above its parent. */
    method Straighten(node: Node, parent: Node, grandparent: Node, direction: Dir, ghost up: Ctx, ghost u: Tree, ghost t: Tree, ghost s: Tree)
      returns (newParent: Node)
      requires Linked() && t.Bin? && t.node == node && t.red
      requires shape == Plug(Step(Step(up, direction, grandparent, false, u), direction.Flip(), parent, true, s), t)
      modifies this, repr
      ensures Linked() && newParent == node
      ensures shape == Plug(Step(up, direction, grandparent, false, u), Mk(direction, Mk(direction, s, parent, true, Sub(t, direction)), node, true, Sub(t, direction.Flip())))
      ensures Contents() == old(Contents()) && repr == old(repr) && count == old(count)
    {
      ghost var d, c := direction, Step(up, direction, grandparent, false, u);
      var _ := Rotate(parent, direction, c, s, true, Sub(t, d), node, true, Sub(t, d.Flip()));
      Focus(c, Mk(d, Mk(d, s, parent, true, Sub(t, d)), node, true, Sub(t, d.Flip())));
      newParent := grandparent.Child(direction);
    }

    /** The uncle is black: one or two rotations end the fix-up. */
    method RotateInsert(node: Node, parent0: Node, grandparent: Node, direction: Dir,
                        ghost up: Ctx, ghost u: Tree, ghost d1: Dir, ghost t: Tree, ghost s: Tree)
      requires Linked() && shape == Plug(Step(Step(up, direction, grandparent, false, u), d1, parent0, true, s), t)
      requires t.Bin? && t.node == node && t.red && Balanced(t) && NoRedRed(t) && !IsRed(u)
      requires Accepts(Step(Step(up, direction, grandparent, false, u), d1, parent0, true, s), BlackHeight(t))
      modifies this, repr
      ensures Linked() && RedBlack(shape)
      ensures Contents() == old(Contents()) && repr == old(repr) && count == old(count)
    {
      var parent := parent0;
      ghost var d := direction;
      Focus(Step(Step(up, d, grandparent, false, u), d1, parent, true, s), t);
      ghost var x1, x2 := t, s;
      if node == parent.Child(direction.Flip()) {
        x1, x2 := Mk(d, s, parent, true, Sub(t, d)), Sub(t, d1);
        parent := Straighten(node, parent, grandparent, direction, up, u, t, s);
      }
      RotatedAccepts(up, d, x1, parent, x2, grandparent, u);
      FinishInsert(parent, grandparent, direction, up, x1, x2, u);
    }

    lemma {:induction false} GrandparentFocus(c: Ctx, t: Tree)
      requires Linked() && shape == Plug(c, t) && t.Bin? && c.Step? && c.red && c.up.Step?
      ensures var p, g, u := c.node, c.up.node, c.up.sibling;
        && p in repr && g in repr && p.red && p.parent == g && g.parent == Above(c.up.up)
        && (if p == g.right then Right else Left) == c.up.dir
        && g.Child(c.up.dir.Flip()) == Root(u)
        && (u.Bin? ==> u.node in repr && u.node.red == u.red)
    {
      var x := Mk(c.dir, t, c.node, c.red, c.sibling);
      Focus(c, t);
      Focus(c.up, x);
      Focus(Step(c.up.up, c.up.dir.Flip(), c.up.node, c.up.red, x), c.up.sibling);
    }

    method RebalanceInsert(start: Node, ghost c0: Ctx, ghost t0: Tree)
      requires Linked() && shape == Plug(c0, t0) && t0.Bin? && t0.node == start && c0.Step? && RedFocus(c0, t0)
      modifies this, repr
      ensures Linked() && RedBlack(shape)
      ensures Contents() == old(Contents()) && repr == old(repr) && count == old(count)
    {
      var node := start;
      ghost var c, t := c0, t0;
      Focus(c, t);
      var parent := node.parent;
      if parent == null { return; }
      while parent != null
        invariant Linked() && shape == Plug(c, t) && RedFocus(c, t) && t.node == node && parent == Above(c)
        invariant Contents() == old(Contents()) && repr == old(repr) && count == old(count)
        decreases Depth(c)
      {
        var done;
        done, node, c, t := FixAt(node, parent, c, t);
        if done { return; }
        parent := node.parent;
      }
      BlackenRoot(c, t);
    }

    /** Below a black parent nothing is wrong. */
    lemma {:induction false} BelowBlack(c: Ctx, t: Tree)
      requires shape == Plug(c, t) && RedFocus(c, t) && c.Step? && !c.red
      ensures RedBlack(shape)
    {
      AcceptsPlug(c, t, BlackHeight(t));
    }

    /** The body of the loop. */
    method FixAt(node: Node, parent: Node, ghost c: Ctx, ghost t: Tree) returns (done: bool, next: Node, ghost c': Ctx, ghost t': Tree)
      requires Linked() && shape == Plug(c, t) && RedFocus(c, t) && t.node == node && parent == Above(c)
      modifies this, repr
      ensures Linked() && Contents() == old(Contents()) && repr == old(repr) && count == old(count)
      ensures done ==> RedBlack(shape)
      ensures !done ==> shape == Plug(c', t') && RedFocus(c', t') && t'.node == next && next.parent == Above(c') && Depth(c') < Depth(c)
    {
      Focus(c, t);
      if !parent.red {
        BelowBlack(c, t);
        return true, node, c, t;
      }
      done, next, c', t' := FixRed(node, parent, c, t);
    }

    /** The body of the loop below a red parent: done after a rotation, or on with the grandparent. */
    method FixRed(node: Node, parent: Node, ghost c: Ctx, ghost t: Tree) returns (done: bool, next: Node, ghost c': Ctx, ghost t': Tree)
      requires Linked() && shape == Plug(c, t) && RedFocus(c, t) && t.node == node && c.Step? && c.node == parent && c.red
      modifies this, repr
      ensures Linked() && Contents() == old(Contents()) && repr == old(repr) && count == old(count)
      ensures done ==> RedBlack(shape)
      ensures !done ==> shape == Plug(c', t') && RedFocus(c', t') && t'.node == next && next.parent == Above(c') && Depth(c') < Depth(c)
    {
      next, c', t' := node, c, t;
      GrandparentFocus(c, t);
      var grandparent := parent.parent;
      // The colouring rules out a red parent without a parent, so the branch that blackens it is dead.
      if grandparent == null { assert false; }
      var direction := if parent == grandparent.right then Right else Left;
      var uncle := grandparent.Child(direction.Flip());
      if uncle == null || !uncle.red {
        RotateInsert(node, parent, grandparent, direction, c.up.up, c.up.sibling, c.dir, t, c.sibling);
        return true, next, c', t';
      }
      c', t' := RecolourInsert(parent, uncle, grandparent, c, t);
      return false, grandparent, c', t';
    }

    /** The last line of rebalance_insert. */
    method BlackenRoot(ghost c: Ctx, ghost t: Tree)
      requires Linked() && shape == Plug(c, t) && c.Top? && RedFocus(c, t) && root != null
      modifies this, repr
      ensures Linked() && RedBlack(shape)
      ensures Contents() == old(Contents()) && repr == old(repr) && count == old(count)
    {
      Focus(c, t);
      SetRed(root, false, Top, t);
      AcceptsPlug(Top, Paint(t, false), BlackHeight(Paint(t, false)));
    }

    /** Walks down to the empty hole where `node` belongs, leaving `node.parent` at the node above it. */
    method Descend(node: Node) returns (direction: Dir, ghost c: Ctx)
      requires Linked() && Sorted(InOrder(shape)) && node !in repr && node.Fields() == Link(null, null, null, true)
      modifies node
      ensures shape == Plug(c, Nil) && node.Fields() == Link(Above(c), null, null, true) && (c.Step? ==> c.dir == direction)
      ensures KeysAround(c, node.value) && Linked()
    {
      ghost var t := shape;
      c := Top;
      var current := root;
      direction := Left;
      while current != null
        invariant Linked() && shape == Plug(c, t) && Root(t) == current
        invariant node.Fields() == Link(Above(c), null, null, true) && (c.Step? ==> c.dir == direction)
        invariant KeysAround(c, node.value)
        decreases t
      {
        Focus(c, t);
        direction := if node.value < current.value then Left else Right;
        DescendKeys(c, t, node.value, direction);
        node.parent := current;
        c, t := Step(c, direction, t.node, t.red, Sub(t, direction.Flip())), Sub(t, direction);
        current := current.Child(direction);
      }
    }

    /** rb_insert: `node` joins after every node with a key that is not larger. */
    method Insert(node: Node)
      requires Valid() && node !in repr
      modifies this, repr, node
      ensures Valid() && repr == old(repr) + {node}
      ensures Contents() == InsertSorted(old(Contents()), node) && count == old(count) + 1
    {
      count := count + 1;
      node.left, node.right, node.parent := null, null, null;
      node.red := true;

      var direction;
      ghost var c;
      direction, c := Descend(node);
      OrderInserted(c, node);
      HangAndRebalance(node, direction, c);
    }

    method HangAndRebalance(node: Node, direction: Dir, ghost c: Ctx)
      requires Linked() && RedBlack(shape) && shape == Plug(c, Nil) && node !in repr
      requires node.Fields() == Link(Above(c), null, null, true) && (c.Step? ==> c.dir == direction)
      modifies this, repr, node
      ensures Linked() && RedBlack(shape) && repr == old(repr) + {node}
      ensures Contents() == Before(c) + [node] + After(c) && count == old(count)
    {
      RedBlackUnplug(c, Nil);
      if node.parent == null {
        assert c.Top? && Before(c) == After(c) == [];
        root := node;
        node.red := false;
        shape, repr := Bin(Nil, node, false, Nil), {node};
        assert InOrder(shape) == [node] == Before(c) + [node] + After(c);
        return;
      }
      Attach(node, direction, c);
      Focus(c, Bin(Nil, node, true, Nil));
      if node.parent.parent == null {
        AcceptsPlug(c, Bin(Nil, node, true, Nil), 0);
        return;
      }
      RebalanceInsert(node, c, Bin(Nil, node, true, Nil));
    }

    /** The sibling is red: rotate it above `p`, so that the new sibling is black. */
    method RedSibling(p: Node, w: Node, d: Dir, ghost up: Ctx, ghost t: Tree, ghost a: Tree, ghost b: Tree)
      requires Linked() && shape == Plug(up, Mk(d, t, p, false, Mk(d, a, w, true, b)))
      modifies this, repr
      ensures Linked() && shape == Plug(up, Mk(d, Mk(d, t, p, true, a), w, false, b))
      ensures Contents() == old(Contents()) && repr == old(repr) && count == old(count)
    {
      SetRed(w, false, Step(up, d.Flip(), p, false, t), Mk(d, a, w, true, b));
      SetRed(p, true, up, Mk(d, t, p, false, Mk(d, a, w, false, b)));
      var _ := Rotate(p, d, up, t, true, a, w, false, b);
    }

    /** The near child `m` of the sibling is red: rotate it above the sibling. */
    method NearRed(p: Node, m: Node, w: Node, d: Dir, ghost up: Ctx, ghost t: Tree, ghost pRed: bool,
                   ghost a1: Tree, ghost a2: Tree, ghost b: Tree)
      requires Linked() && shape == Plug(up, Mk(d, t, p, pRed, Mk(d, Mk(d, a1, m, true, a2), w, false, b)))
      modifies this, repr
      ensures Linked() && shape == Plug(up, Mk(d, t, p, pRed, Mk(d, a1, m, false, Mk(d, a2, w, true, b))))
      ensures Contents() == old(Contents()) && repr == old(repr) && count == old(count)
    {
      ghost var c := Step(up, d.Flip(), p, pRed, t);
      NearRecolour(m, w, d, c, a1, a2, b);
      var _ := Rotate(w, d.Flip(), c, b, true, a2, m, false, a1);
    }

    method NearRecolour(m: Node, w: Node, d: Dir, ghost c: Ctx, ghost a1: Tree, ghost a2: Tree, ghost b: Tree)
      requires Linked() && shape == Plug(c, Mk(d, Mk(d, a1, m, true, a2), w, false, b))
      modifies this, repr
      ensures Linked() && shape == Plug(c, Mk(d.Flip(), b, w, true, Mk(d.Flip(), a2, m, false, a1)))
      ensures Contents() == old(Contents()) && repr == old(repr) && count == old(count)
    {
      ghost var x, x' := Mk(d, a1, m, true, a2), Mk(d, a1, m, false, a2);
      assert shape == Plug(Step(c, d, w, false, b), x);
      SetRed(m, false, Step(c, d, w, false, b), x);
      assert shape == Plug(c, Mk(d, x', w, false, b));
      SetRed(w, true, c, Mk(d, x', w, false, b));
    }

    /** The recolouring before the last rotation. */
    method FarRecolour(p: Node, w: Node, far: Node, d: Dir, ghost up: Ctx, ghost t: Tree, ghost pRed: bool, ghost a: Tree, ghost b: Tree)
      requires Linked() && shape == Plug(up, Mk(d, t, p, pRed, Mk(d, a, w, false, b))) && b.Bin? && b.node == far
      modifies this, repr
      ensures Linked() && shape == Plug(up, Mk(d, t, p, false, Mk(d, a, w, pRed, Paint(b, false))))
      ensures Contents() == old(Contents()) && repr == old(repr) && count == old(count)
    {
      PaintSibling(p, w, d, up, t, pRed, a, b);
      ghost var y := Mk(d, a, w, pRed, b);
      SetRed(p, false, up, Mk(d, t, p, pRed, y));
      ghost var c := Step(up, d.Flip(), p, false, t);
      assert shape == Plug(Step(c, d.Flip(), w, pRed, a), b);
      SetRed(far, false, Step(c, d.Flip(), w, pRed, a), b);
    }

    method PaintSibling(p: Node, w: Node, d: Dir, ghost up: Ctx, ghost t: Tree, ghost pRed: bool, ghost a: Tree, ghost b: Tree)
      requires Linked() && shape == Plug(up, Mk(d, t, p, pRed, Mk(d, a, w, false, b)))
      modifies this, repr
      ensures Linked() && shape == Plug(up, Mk(d, t, p, pRed, Mk(d, a, w, pRed, b)))
      ensures Contents() == old(Contents()) && repr == old(repr) && count == old(count)
    {
      ghost var y := Mk(d, a, w, false, b);
      Focus(up, Mk(d, t, p, pRed, y));
      SetRed(w, p.red, Step(up, d.Flip(), p, pRed, t), y);
    }

    /** The far child of the sibling is red: one rotation restores the missing black node. */
    method FarRed(p: Node, w: Node, far: Node, d: Dir, ghost up: Ctx, ghost t: Tree, ghost pRed: bool, ghost a: Tree, ghost b: Tree)
      requires Linked() && shape == Plug(up, Mk(d, t, p, pRed, Mk(d, a, w, false, b))) && IsRed(b) && b.node == far
      modifies this, repr
      ensures Linked() && shape == Plug(up, Mk(d, Mk(d, t, p, false, a), w, pRed, Paint(b, false)))
      ensures Contents() == old(Contents()) && repr == old(repr) && count == old(count)
    {
      FarRecolour(p, w, far, d, up, t, pRed, a, b);
      var _ := Rotate(p, d, up, t, false, a, w, pRed, Paint(b, false));
    }

    /** With a red nephew on either side one or two rotations end the deletion fix-up. */
    method RedNephew(p: Node, w0: Node, d: Dir, ghost up: Ctx, ghost t: Tree, ghost pRed: bool, ghost a: Tree, ghost b: Tree)
      requires Linked() && shape == Plug(up, Mk(d, t, p, pRed, Mk(d, a, w0, false, b)))
      requires Short(Step(up, d, p, pRed, Mk(d, a, w0, false, b)), t) && !IsRed(t) && (IsRed(a) || IsRed(b))
      modifies this, repr
      ensures Linked() && RedBlack(shape) && shape.Bin?
      ensures Contents() == old(Contents()) && repr == old(repr) && count == old(count)
    {
      var w := w0;
      ghost var a', b' := a, b;
      SiblingFocus(up, d, t, p, pRed, a, w, b);
      if !IsRedNode(w.Child(d.Flip())) {
        ghost var a1, a2 := Sub(a, d), Sub(a, d.Flip());
        NearRedShort(up, d, t, p, pRed, a1, a.node, a2, w, b);
        NearRed(p, w.Child(d), w, d, up, t, pRed, a1, a2, b);
        a', b' := a1, Mk(d, a2, w, true, b);
        SiblingFocus(up, d, t, p, pRed, a', a.node, b');
        w := p.Child(d.Flip());
      }
      FarRedDone(up, d, t, p, pRed, a', w, b');
      FarRed(p, w, w.Child(d.Flip()), d, up, t, pRed, a', b');
      TopRoot(up, w);
      PlugRoot(up, Mk(d, Mk(d, t, p, false, a'), w, pRed, Paint(b', false)));
    }

    /** The deletion fix-up with a black sibling `w`. */
    method BlackSibling(p: Node, w: Node, d: Dir, ghost up: Ctx, ghost t: Tree, ghost pRed: bool, ghost a: Tree, ghost b: Tree)
      returns (x: Node?, ghost c': Ctx, ghost t': Tree)
      requires Linked() && shape == Plug(up, Mk(d, t, p, pRed, Mk(d, a, w, false, b)))
      requires Short(Step(up, d, p, pRed, Mk(d, a, w, false, b)), t) && !IsRed(t)
      modifies this, repr
      ensures Linked() && shape == Plug(c', t') && Short(c', t') && t'.Bin? && t'.node == x
      ensures Climb(c', t') <= if pRed then 0 else Depth(up)
      ensures Contents() == old(Contents()) && repr == old(repr) && count == old(count)
    {
      SiblingFocus(up, d, t, p, pRed, a, w, b);
      if !IsRedNode(w.Child(d)) && !IsRedNode(w.Child(d.Flip())) {
        RecolourShort(up, d, t, p, pRed, a, w, b);
        SetRed(w, true, Step(up, d.Flip(), p, pRed, t), Mk(d, a, w, false, b));
        x, c', t' := p, up, Mk(d, t, p, pRed, Mk(d, a, w, true, b));
      } else {
        RedNephew(p, w, d, up, t, pRed, a, b);
        x, c', t' := root, Top, shape;
      }
    }

    /** IS_RED */
    predicate IsRedNode(n: Node?)
      reads n
    {
      n != null && n.red
    }

    lemma {:induction false} SiblingFocus(up: Ctx, d: Dir, t: Tree, p: Node, pRed: bool, a: Tree, w: Node, b: Tree)
      requires Linked() && shape == Plug(up, Mk(d, t, p, pRed, Mk(d, a, w, false, b)))
      ensures p.Child(d.Flip()) == w && w.Child(d) == Root(a) && w.Child(d.Flip()) == Root(b)
      ensures w.red == false && IsRedNode(Root(a)) == IsRed(a) && IsRedNode(Root(b)) == IsRed(b)
    {
      var c := Step(up, d.Flip(), p, pRed, t);
      Focus(c, Mk(d, a, w, false, b));
      RedAtFocus(Step(c, d, w, false, b), a);
      RedAtFocus(Step(c, d.Flip(), w, false, a), b);
    }

    lemma {:induction false} RedAtFocus(c: Ctx, t: Tree)
      requires Linked() && shape == Plug(c, t)
      ensures IsRedNode(Root(t)) == IsRed(t)
    {
      Focus(c, t);
    }

    /** One round of the deletion fix-up below `p`, with the short tree in direction `d`. */
    method FixShort(p: Node, d: Dir, ghost c: Ctx, ghost t: Tree) returns (x: Node?, ghost c': Ctx, ghost t': Tree)
      requires Linked() && shape == Plug(c, t) && Short(c, t) && !IsRed(t) && c.Step? && c.node == p && c.dir == d
      modifies this, repr
      ensures Linked() && shape == Plug(c', t') && Short(c', t') && t'.Bin? && t'.node == x
      ensures Climb(c', t') < Climb(c, t)
      ensures Contents() == old(Contents()) && repr == old(repr) && count == old(count)
    {
      ShortSibling(c, t);
      ghost var s, up := c.sibling, c.up;
      ghost var a, b := Sub(s, d), Sub(s, d.Flip());
      Focus(c, t);
      Focus(Step(up, d.Flip(), p, c.red, t), s);
      var w := p.Child(d.Flip());
      if IsRedNode(w) {
        RedSiblingShort(up, d, t, p, a, w, b);
        RedSibling(p, w, d, up, t, a, b);
        up := Step(up, d, w, false, b);
        Focus(Step(up, d, p, true, a), t);
        assert p.Child(d.Flip()) == a.node;
        w := p.Child(d.Flip());
        x, c', t' := BlackSibling(p, w, d, up, t, true, Sub(a, d), Sub(a, d.Flip()));
      } else {
        x, c', t' := BlackSibling(p, w, d, up, t, c.red, a, b);
      }
    }

    /** The loop of rb_remove: from a short focus back to a red-black tree. */
    method RebalanceRemove(x0: Node?, xp0: Node?, ghost c0: Ctx, ghost t0: Tree)
      requires Linked() && shape == Plug(c0, t0) && Short(c0, t0) && Root(t0) == x0 && Above(c0) == xp0
      modifies this, repr
      ensures Linked() && RedBlack(shape)
      ensures Contents() == old(Contents()) && repr == old(repr) && count == old(count)
    {
      var x, xp := x0, xp0;
      ghost var c, t := c0, t0;
      Focus(c, t);
      while x != root && !IsRedNode(x)
        invariant Linked() && shape == Plug(c, t) && Short(c, t) && Root(t) == x && Above(c) == xp
        invariant (root == x <==> c.Top?) && IsRedNode(x) == IsRed(t)
        invariant Contents() == old(Contents()) && repr == old(repr) && count == old(count)
        decreases Climb(c, t)
      {
        Focus(c, t);
        ShortSibling(c, t);
        var d := if x == xp.left then Left else Right;
        assert c.sibling.node in CtxNodes(c);
        x, c, t := FixShort(xp, d, c, t);
        Focus(c, t);
        xp := x.parent;
      }
      if x != null { SetRed(x, false, c, t); }
      AcceptsPlug(c, Paint(t, false), BlackHeight(Paint(t, false)));
    }

    /** The successor takes the place of `node`: parent, left subtree and colour. */
    method TakePlace(node: Node, s: Node, ghost c: Ctx, ghost S: set<Node>)
      requires node in S && s in S && node != s && node.left != null && node.left in S && node.left != node && node.left != s
      requires node.parent == Above(c) && (c.Top? ==> root == node) && node.left != Above(c)
      requires c.Step? ==> c.node in S && c.node != node && c.node != s
      requires c.Step? ==> c.node.Child(c.dir) == node && c.node.Child(c.dir.Flip()) != node
      modifies this`root, S
      ensures root == if c.Top? then s else old(root)
      ensures s.Fields() == Link(Above(c), old(node.left), old(s.right), old(node.red))
      ensures forall x :: x in S && x != s ==> x.Fields() == Rehung(x, old(node.left), s, c, s, old(x.Fields()))
    {
      Transplant(node, s, c);
      s.left := node.left;
      s.left.parent := s;
      s.red := node.red;
    }

    /** The pointer writes of a promotion, against the shape before it. */
    method PromoteAt(node: Node, s: Node, ghost c: Ctx, ghost l: Tree, ghost red: bool, ghost sRed: bool, ghost r: Tree)
      requires Linked() && shape == Plug(c, Bin(l, node, red, Bin(Nil, s, sRed, r))) && l.Bin?
      modifies this`root, repr
      ensures node in repr && s in repr && s != node && root == if c.Top? then s else Root(shape)
      ensures s.Fields() == Link(Above(c), Root(l), Root(r), red)
      ensures forall x :: x in repr && x != s ==> x.Fields() == Rehung(x, Root(l), s, c, s, LinkAt(shape, null, x))
    {
      PromoteFocus(c, l, node, red, s, sRed, r);
      TakePlace(node, s, c, repr);
    }

    /** The successor is the right child of `node`. */
    method Promote(node: Node, s: Node, ghost c: Ctx, ghost l: Tree, ghost red: bool, ghost sRed: bool, ghost r: Tree)
      requires Linked() && shape == Plug(c, Bin(l, node, red, Bin(Nil, s, sRed, r))) && l.Bin?
      modifies this, repr
      ensures Linked() && shape == Plug(c, Bin(l, s, red, r)) && node in old(repr) && repr == old(repr) - {node}
      ensures count == old(count)
    {
      ghost var t := Bin(l, node, red, Bin(Nil, s, sRed, r));
      PromoteLink(c, l, node, red, s, sRed, r, s);
      PlugRoot(c, t);
      PlugRoot(c, Bin(l, s, red, r));
      PromoteAt(node, s, c, l, red, sRed, r);
      repr := repr - {node};
      shape := Plug(c, Bin(l, s, red, r));
      PlugLink(c, Bin(l, s, red, r), s);
      forall x | x in repr ensures x.Fields() == LinkAt(shape, null, x) {
        PromoteLink(c, l, node, red, s, sRed, r, x);
      }
    }

    lemma {:induction false} PromoteFocus(c: Ctx, l: Tree, n: Node, red: bool, s: Node, sRed: bool, r: Tree)
      requires Linked() && shape == Plug(c, Bin(l, n, red, Bin(Nil, s, sRed, r))) && l.Bin?
      ensures n in repr && s in repr && l.node in repr && n != s && l.node != n && l.node != s && l.node != Above(c)
      ensures n.Fields() == Link(Above(c), l.node, s, red) && s.Fields() == Link(n, null, Root(r), sRed) && (c.Top? ==> root == n)
      ensures c.Step? ==> c.node in repr && c.node != n && c.node != s
      ensures c.Step? ==> c.node.Child(c.dir) == n && c.node.Child(c.dir.Flip()) != n
    {
      var right := Bin(Nil, s, sRed, r);
      var t := Bin(l, n, red, right);
      Focus(c, t);
      Focus(Step(c, Right, n, red, l), right);
      assert l.node in Nodes(l) && s in Nodes(right);
      assert Nodes(t) == Nodes(l) + {n} + Nodes(right) && Nodes(l) !! Nodes(right);
    }

    /** The same for a successor that also takes over the right subtree. */
    method TakeBoth(node: Node, s: Node, ghost c: Ctx, ghost S: set<Node>)
      requires node in S && s in S && node != s && node.left != null && node.left in S && node.left != node && node.left != s
      requires node.right != null && node.right in S && node.right != node && node.right != s && node.right != node.left
      requires node.parent == Above(c) && (c.Top? ==> root == node) && node.left != Above(c) && node.right != Above(c)
      requires c.Step? ==> c.node in S && c.node != node && c.node != s
      requires c.Step? ==> c.node.Child(c.dir) == node && c.node.Child(c.dir.Flip()) != node
      modifies this`root, S
      ensures root == if c.Top? then s else old(root)
      ensures s.Fields() == Link(Above(c), old(node.left), old(node.right), old(node.red))
      ensures forall x :: x in S && x != s ==>
        x.Fields() == if x == old(node.right) then old(x.Fields()).(parent := s) else Rehung(x, old(node.left), s, c, s, old(x.Fields()))
    {
      s.right := node.right;
      s.right.parent := s;
      TakePlace(node, s, c, S);
    }

    /** The pointer writes of a replacement, against the shape before it. */
    method SubstituteAt(node: Node, s: Node, ghost c: Ctx, ghost l: Tree, ghost red: bool, ghost r: Tree)
      requires Linked() && shape == Plug(c, Bin(l, node, red, r)) && l.Bin? && r.Bin? && s !in repr
      modifies this`root, repr, s
      ensures node in repr && root == if c.Top? then s else Root(shape)
      ensures s.Fields() == Link(Above(c), Root(l), Root(r), red)
      ensures forall x :: x in repr ==>
        x.Fields() == if x == Root(r) then LinkAt(shape, null, x).(parent := s) else Rehung(x, Root(l), s, c, s, LinkAt(shape, null, x))
    {
      SubstituteFocus(node, c, l, red, r);
      TakeBoth(node, s, c, repr + {s});
    }

    /** The successor, already taken out of the tree, replaces `node`. */
    method Substitute(node: Node, s: Node, ghost c: Ctx, ghost l: Tree, ghost red: bool, ghost r: Tree)
      requires Linked() && shape == Plug(c, Bin(l, node, red, r)) && l.Bin? && r.Bin? && s !in repr
      modifies this, repr, s
      ensures Linked() && shape == Plug(c, Bin(l, s, red, r)) && node in old(repr) && repr == old(repr) - {node} + {s}
      ensures count == old(count)
    {
      SubstituteLink(c, l, node, red, r, s, s);
      SubstituteRoots(c, l, node, red, r, s);
      SubstituteAt(node, s, c, l, red, r);
      repr := repr - {node} + {s};
      shape := Plug(c, Bin(l, s, red, r));
      PlugLink(c, Bin(l, s, red, r), s);
      forall x | x in repr ensures x.Fields() == LinkAt(shape, null, x) {
        SubstituteLink(c, l, node, red, r, s, x);
      }
    }

    lemma {:induction false} SubstituteFocus(node: Node, c: Ctx, l: Tree, red: bool, r: Tree)
      requires Linked() && shape == Plug(c, Bin(l, node, red, r)) && l.Bin? && r.Bin?
      ensures node in repr && l.node in repr && r.node in repr && l.node != node && r.node != node && l.node != r.node
      ensures node.Fields() == Link(Above(c), l.node, r.node, red) && (c.Top? ==> root == node) && l.node != Above(c) && r.node != Above(c)
      ensures c.Step? ==> c.node in repr && c.node != node && c.node.Child(c.dir) == node && c.node.Child(c.dir.Flip()) != node
    {
      Focus(c, Bin(l, node, red, r));
      assert l.node in Nodes(l) && r.node in Nodes(r);
    }

    /** Where the fix-up starts after a node has been taken out; `wasRed` is the colour that left the tree. */
    ghost predicate Detached(c: Ctx, t: Tree, x: Node?, xp: Node?, wasRed: bool) {
      && Root(t) == x && Above(c) == xp && Balanced(t) && NoRedRed(t)
      && Accepts(c, BlackHeight(t) + (if wasRed then 0 else 1))
      && (wasRed ==> !IsRed(t))
    }

    /** The leftmost node below the right child of the node at the focus. */
    method Successor(node: Node, ghost c: Ctx, ghost t: Tree) returns (successor: Node, ghost inner: Ctx, ghost s: Tree)
      requires Linked() && shape == Plug(c, t) && t.Bin? && t.node == node && t.right.Bin?
      ensures s.Bin? && s.node == successor && s.left.Nil? && Leftward(inner) && Plug(inner, s) == t.right
      ensures shape == Plug(Compose(Step(c, Right, node, t.red, t.left), inner), s)
    {
      Focus(c, t);
      ghost var base := Step(c, Right, node, t.red, t.left);
      inner, s := Top, t.right;
      Focus(base, s);
      successor := node.right;
      while successor.left != null
        invariant s.Bin? && s.node == successor && Leftward(inner) && Plug(inner, s) == t.right
        invariant shape == Plug(Compose(base, inner), s) && successor.left == Root(s.left)
        decreases s
      {
        inner, s := Step(inner, Left, s.node, s.red, s.right), s.left;
        Focus(Compose(base, inner), s);
        successor := successor.left;
      }
    }

    /** What the links say about the successor. */
    lemma {:induction false} SuccessorLinks(c: Ctx, t: Tree, inner: Ctx, s: Tree)
      requires Linked() && t.Bin? && s.Bin? && s.left.Nil?
      requires shape == Plug(Compose(Step(c, Right, t.node, t.red, t.left), inner), s)
      ensures s.node.Fields() == Link(Above(Compose(Step(c, Right, t.node, t.red, t.left), inner)), null, Root(s.right), s.red)
      ensures s.node.parent == t.node <==> inner.Top?
    {
      var base := Step(c, Right, t.node, t.red, t.left);
      Focus(Compose(base, inner), s);
      if Above(Compose(base, inner)) == t.node { InnerTop(base, inner); }
    }

    /** What is known about the tree that remains. */
    lemma {:induction false} SuccessorShapes(c: Ctx, t: Tree, inner: Ctx, s: Tree)
      requires t.Bin? && s.Bin? && s.left.Nil? && Plug(inner, s) == t.right
      ensures var base, base' := Step(c, Right, t.node, t.red, t.left), Step(c, Right, s.node, t.red, t.left);
        && Plug(Compose(base', inner), s.right) == Plug(c, Bin(t.left, s.node, t.red, Plug(inner, s.right)))
        && Plug(Compose(base, inner), s.right) == Plug(c, t.(right := Plug(inner, s.right)))
        && (inner.Step? ==> Plug(inner, s.right).Bin?)
    {
      PlugCompose(Step(c, Right, s.node, t.red, t.left), inner, s.right);
      PlugCompose(Step(c, Right, t.node, t.red, t.left), inner, s.right);
      InnerBin(inner, s.right);
    }

    lemma {:induction false} SuccessorHeights(c: Ctx, t: Tree, inner: Ctx, s: Tree)
      requires t.Bin? && s.Bin? && s.left.Nil? && RedBlack(Plug(Compose(Step(c, Right, t.node, t.red, t.left), inner), s))
      ensures Detached(Compose(Step(c, Right, s.node, t.red, t.left), inner), s.right, Root(s.right), if inner.Top? then s.node else inner.node, s.red)
    {
      RedBlackUnplug(Compose(Step(c, Right, t.node, t.red, t.left), inner), s);
      AcceptsRename(c, t.node, s.node, t.red, t.left, inner, BlackHeight(s));
    }

    /** The pointer part of replacing a node by its successor. */
    method TakeSuccessor(node: Node, successor: Node, ghost c: Ctx, ghost t: Tree, ghost inner: Ctx, ghost s: Tree) returns (xp: Node)
      requires Linked() && t.Bin? && t.node == node && t.left.Bin? && s.Bin? && s.node == successor && s.left.Nil?
      requires Plug(inner, s) == t.right && shape == Plug(c, t)
      requires shape == Plug(Compose(Step(c, Right, node, t.red, t.left), inner), s)
      modifies this, repr
      ensures Linked() && shape == Plug(c, Bin(t.left, successor, t.red, Plug(inner, s.right)))
      ensures xp == if inner.Top? then successor else inner.node
      ensures node in old(repr) && repr == old(repr) - {node} && count == old(count)
    {
      SuccessorLinks(c, t, inner, s);
      SuccessorShapes(c, t, inner, s);
      if successor.parent == node {
        xp := successor;
        Promote(node, successor, c, t.left, t.red, s.red, s.right);
      } else {
        xp := successor.parent;
        TakeDeeper(node, successor, c, t, inner, s);
      }
    }

    /** The successor lies deeper: it is spliced out and put in the place of `node`. */
    method TakeDeeper(node: Node, successor: Node, ghost c: Ctx, ghost t: Tree, ghost inner: Ctx, ghost s: Tree)
      requires Linked() && t.Bin? && t.node == node && t.left.Bin? && s.Bin? && s.node == successor && s.left.Nil? && inner.Step?
      requires Plug(inner, s) == t.right && shape == Plug(c, t)
      requires shape == Plug(Compose(Step(c, Right, node, t.red, t.left), inner), s)
      modifies this, repr
      ensures Linked() && shape == Plug(c, Bin(t.left, successor, t.red, Plug(inner, s.right)))
      ensures node in old(repr) && repr == old(repr) - {node} && count == old(count)
    {
      SuccessorLinks(c, t, inner, s);
      SuccessorShapes(c, t, inner, s);
      Splice(successor, successor.right, Compose(Step(c, Right, node, t.red, t.left), inner), Right, s.right, s.red);
      Substitute(node, successor, c, t.left, t.red, Plug(inner, s.right));
    }

    /** A node with two children: its successor replaces it. */
    method DetachInner(node: Node, ghost c: Ctx, ghost t: Tree)
      returns (x: Node?, xp: Node?, wasRed: bool, ghost c': Ctx, ghost t': Tree)
      requires Linked() && RedBlack(shape) && shape == Plug(c, t) && t.Bin? && t.node == node && t.left.Bin? && t.right.Bin?
      modifies this, repr
      ensures Linked() && shape == Plug(c', t') && Detached(c', t', x, xp, wasRed)
      ensures Contents() == Without(old(Contents()), node) && repr == old(repr) - {node} && count == old(count)
    {
      var successor;
      ghost var inner, s;
      successor, inner, s := Successor(node, c, t);
      SuccessorLinks(c, t, inner, s);
      SuccessorShapes(c, t, inner, s);
      SuccessorHeights(c, t, inner, s);
      OrderSucceeded(c, t.left, node, t.red, inner, successor, s.red, s.right);
      wasRed := successor.red;
      x := successor.right;
      c', t' := Compose(Step(c, Right, successor, t.red, t.left), inner), s.right;
      xp := TakeSuccessor(node, successor, c, t, inner, s);
    }

    /** rb_remove up to the fix-up loop. */
    method Detach(node: Node) returns (x: Node?, xp: Node?, wasRed: bool, ghost c': Ctx, ghost t': Tree)
      requires Linked() && RedBlack(shape) && node in repr
      modifies this, repr
      ensures Linked() && shape == Plug(c', t') && Detached(c', t', x, xp, wasRed)
      ensures Contents() == Without(old(Contents()), node) && repr == old(repr) - {node} && count == old(count)
    {
      ghost var c, t := Locate(Top, shape, node);
      Focus(c, t);
      RedBlackUnplug(c, t);
      wasRed := node.red;
      if node.left == null {
        OrderSpliced(c, Right, t.right, node, t.red);
        x, xp := node.right, node.parent;
        c', t' := c, t.right;
        Splice(node, x, c, Right, t.right, t.red);
      } else if node.right == null {
        OrderSpliced(c, Left, t.left, node, t.red);
        x, xp := node.left, node.parent;
        c', t' := c, t.left;
        Splice(node, x, c, Left, t.left, t.red);
      } else {
        x, xp, wasRed, c', t' := DetachInner(node, c, t);
      }
    }

    /** rb_remove: exactly `node` leaves, and the tree stays valid. */
    method Remove(node: Node)
      requires Valid() && node in repr
      modifies this, repr
      ensures Valid() && repr == old(repr) - {node}
      ensures Contents() == Without(old(Contents()), node) && count == old(count) - 1
    {
      ghost var c, t := Locate(Top, shape, node);
      OrderWithout(c, t);
      count := count - 1;
      var x, xp, wasRed;
      x, xp, wasRed, c, t := Detach(node);
      assert xp == null || x == xp.left || x == xp.right by { Focus(c, t); }
      if wasRed {
        AcceptsPlug(c, t, BlackHeight(t));
        return;
      }
      RebalanceRemove(x, xp, c, t);
    }

    ghost predicate Answers(kind: SearchType, v: nat, r: Node?, m: Node) {
      kind.Wants(m.value, v) ==> r != null && kind.AsGood(r.value, m.value)
    }

    /** At a node with this key the way goes on in direction d, and `r` is no worse than the node. */
    ghost predicate Guided(kind: SearchType, v: nat, key: nat, d: Dir, r: Node?) {
      match kind
      case Exact => v != key && (d == Right <==> v > key)
      case Lt => if d == Left then key >= v else r != null && key <= r.value
      case Lte => if d == Left then key > v else r != null && key <= r.value
      case Gt => if d == Right then key <= v else r != null && r.value <= key
      case Gte => if d == Right then key < v else r != null && r.value <= key
    }

    /** Entering child `d` of the focus skips only nodes that cannot improve on `r`. */
    lemma {:induction false} Skip(c: Ctx, t: Tree, d: Dir, kind: SearchType, v: nat, r: Node?, m: Node)
      requires Linked() && Sorted(InOrder(shape)) && shape == Plug(c, t) && t.Bin? && m in Nodes(t) && m !in Nodes(Sub(t, d))
      requires Guided(kind, v, t.node.value, d, r)
      ensures Answers(kind, v, r, m)
    {
      SortedAt(c, t, m);
    }

    lemma {:induction false} StillAnswers(c: Ctx, t: Tree, d: Dir, kind: SearchType, v: nat, r0: Node?, r: Node?, m: Node)
      requires Linked() && Sorted(InOrder(shape)) && shape == Plug(c, t) && t.Bin? && m !in Nodes(Sub(t, d))
      requires Guided(kind, v, t.node.value, d, r) && (m in Nodes(t) || Answers(kind, v, r0, m))
      requires r0 != null ==> r != null && kind.AsGood(r.value, r0.value)
      ensures Answers(kind, v, r, m)
    {
      if m in Nodes(t) { Skip(c, t, d, kind, v, r, m); }
    }

    /** Every node outside the subtree is answered for. */
    ghost predicate Answered(t: Tree, kind: SearchType, v: nat, r: Node?)
      reads this, repr
    {
      forall m: Node :: m in repr && m !in Nodes(t) ==> Answers(kind, v, r, m)
    }

    lemma {:induction false} StillAnswered(c: Ctx, t: Tree, d: Dir, kind: SearchType, v: nat, r0: Node?, r: Node?)
      requires Linked() && Sorted(InOrder(shape)) && shape == Plug(c, t) && t.Bin? && Answered(t, kind, v, r0)
      requires Guided(kind, v, t.node.value, d, r)
      requires r0 != null ==> r != null && kind.AsGood(r.value, r0.value)
      ensures Answered(Sub(t, d), kind, v, r)
    {
      forall m: Node | m in repr && m !in Nodes(Sub(t, d)) ensures Answers(kind, v, r, m) {
        StillAnswers(c, t, d, kind, v, r0, r, m);
      }
    }

    /** What rb_search does at a node: the direction to go, and the best node so far. */
    method Choose(v: nat, kind: SearchType, current: Node, r0: Node?, nearest0: nat) returns (d: Dir, r: Node?, nearest: nat)
      requires r0 != null ==> kind.Wants(r0.value, v) && r0.value == nearest0
      requires kind == Exact ==> current.value != v
      ensures Guided(kind, v, current.value, d, r) && (r == r0 || r == current)
      ensures r != null ==> kind.Wants(r.value, v) && r.value == nearest
      ensures r0 != null ==> r != null && kind.AsGood(r.value, r0.value)
    {
      var key := current.value;
      r, nearest := r0, nearest0;
      match kind {
        case Exact =>
          d := if v > key then Right else Left;
        case Lt | Lte =>
          if key > v || (kind == Lt && key == v) {
            d := Left;
          } else {
            if r == null || key > nearest { r, nearest := current, key; }
            d := Right;
          }
        case Gt | Gte =>
          if key < v || (kind == Gt && key == v) {
            d := Right;
          } else {
            if r == null || key < nearest { r, nearest := current, key; }
            d := Left;
          }
      }
    }

    /** One turn of the descent at the focus. */
    method SearchTurn(v: nat, kind: SearchType, current: Node, r0: Node?, nearest0: nat, ghost c: Ctx, ghost t: Tree)
      returns (r: Node?, nearest: nat, next: Node?, ghost c': Ctx, ghost t': Tree)
      requires Linked() && Sorted(InOrder(shape)) && shape == Plug(c, t) && Root(t) == current && Answered(t, kind, v, r0)
      requires r0 != null ==> r0 in repr && kind.Wants(r0.value, v) && r0.value == nearest0
      requires kind == Exact ==> current.value != v
      ensures shape == Plug(c', t') && Root(t') == next && Answered(t', kind, v, r) && Height(t') < Height(t)
      ensures r != null ==> r in repr && kind.Wants(r.value, v) && r.value == nearest
    {
      Focus(c, t);
      var d;
      d, r, nearest := Choose(v, kind, current, r0, nearest0);
      StillAnswered(c, t, d, kind, v, r0, r);
      next := current.Child(d);
      c', t' := Step(c, d, t.node, t.red, Sub(t, d.Flip())), Sub(t, d);
    }

    /** rb_search, all kinds but NEAREST: a node with the best qualifying key, or null when no key qualifies. */
    method Search(v: nat, kind: SearchType) returns (r: Node?)
      requires Valid()
      ensures r != null ==> r in repr && kind.Wants(r.value, v)
      ensures r != null ==> forall m :: m in repr && kind.Wants(m.value, v) ==> kind.AsGood(r.value, m.value)
      ensures r == null ==> forall m :: m in repr ==> !kind.Wants(m.value, v)
    {
      r := null;
      var nearest := 0;
      var current := root;
      ghost var c, t := Top, shape;
      while current != null
        invariant shape == Plug(c, t) && Root(t) == current && Answered(t, kind, v, r)
        invariant r != null ==> r in repr && kind.Wants(r.value, v) && r.value == nearest
        decreases Height(t)
      {
        Focus(c, t);
        if kind == Exact && current.value == v { return current; }
        r, nearest, current, c, t := SearchTurn(v, kind, current, r, nearest, c, t);
      }
    }

    /** rb_search NEAREST: the node above the place where the descent ends, the deeper of the neighbours of `v`. */
    method SearchNearest(v: nat) returns (r: Node?)
      requires Valid()
      ensures r == Above(Descent(Top, shape, v)) && (r == null <==> repr == {})
      ensures r != null ==> r in repr
      ensures r != null && r.value < v ==> Predecessor(shape, v, r)
      ensures r != null && r.value >= v ==> RbNearest.Successor(shape, v, r)
    {
      r := null;
      var current := root;
      ghost var c, t := Top, shape;
      while current != null
        invariant shape == Plug(c, t) && Root(t) == current && r == Above(c)
        invariant Descent(c, t, v) == Descent(Top, shape, v)
        decreases t
      {
        Focus(c, t);
        r := current;
        var d := if v > current.value then Right else Left;
        current := current.Child(d);
        c, t := Step(c, d, t.node, t.red, Sub(t, d.Flip())), Sub(t, d);
      }
      if shape.Bin? { NearestIsDeeper(shape, v); }
    }
  }
}
