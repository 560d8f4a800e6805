/**
 Nodes of the intrusive red-black tree and the ghost values that describe a linked
 structure of them: a `Tree` is the shape below a node, a `Ctx` is everything around it
 (a zipper, read from the hole up to the root).
 */
module RbShape {

  datatype Dir = Left | Right {
    function Flip(): Dir { if Left? then Right else Left }
  }

  class Node {
    const value: nat
    var red: bool
    var parent: Node?
    var left: Node?
    var right: Node?

    constructor (value: nat)
      ensures this.value == value
    {
      this.value := value;
      red := false;
      parent, left, right := null, null, null;
    }

    ghost function Fields(): Link
      reads this
    {
      Link(parent, left, right, red)
    }

    function Child(d: Dir): Node?
      reads this
    {
      if d.Left? then left else right
    }

    method SetChild(d: Dir, n: Node?)
      modifies this
      ensures Fields() == old(Fields()).Set(d, n)
    {
      if d == Left { left := n; } else { right := n; }
    }
  }

  datatype Tree = Nil | Bin(left: Tree, node: Node, red: bool, right: Tree)

  /** The hole is child `dir` of `node`; `sibling` is its other subtree. */
  datatype Ctx = Top | Step(up: Ctx, dir: Dir, node: Node, red: bool, sibling: Tree)

  function Mk(d: Dir, near: Tree, n: Node, red: bool, far: Tree): Tree {
    if d.Left? then Bin(near, n, red, far) else Bin(far, n, red, near)
  }

  function Sub(t: Tree, d: Dir): Tree
    requires t.Bin?
  {
    if d.Left? then t.left else t.right
  }

  function Root(t: Tree): Node? {
    if t.Nil? then null else t.node
  }

  function Above(c: Ctx): Node? {
    if c.Top? then null else c.node
  }

  predicate IsRed(t: Tree) { t.Bin? && t.red }

  function Plug(c: Ctx, t: Tree): Tree
    decreases c
  {
    match c
    case Top => t
    case Step(up, d, n, red, s) => Plug(up, Mk(d, t, n, red, s))
  }

  function Depth(c: Ctx): nat {
    if c.Top? then 0 else 1 + Depth(c.up)
  }

  /** `inner` hangs inside the hole of `outer`. */
  function Compose(outer: Ctx, inner: Ctx): Ctx
    decreases inner
  {
    match inner
    case Top => outer
    case Step(up, d, n, red, s) => Step(Compose(outer, up), d, n, red, s)
  }

  // ---------- nodes and order ----------

  function Nodes(t: Tree): set<Node> {
    match t
    case Nil => {}
    case Bin(l, n, _, r) => Nodes(l) + {n} + Nodes(r)
  }

  function CtxNodes(c: Ctx): set<Node> {
    match c
    case Top => {}
    case Step(up, _, n, _, s) => CtxNodes(up) + {n} + Nodes(s)
  }

  ghost predicate Distinct(t: Tree) {
    match t
    case Nil => true
    case Bin(l, n, _, r) =>
      && n !in Nodes(l) && n !in Nodes(r) && Nodes(l) !! Nodes(r)
      && Distinct(l) && Distinct(r)
  }

  ghost predicate DistinctCtx(c: Ctx) {
    match c
    case Top => true
    case Step(up, _, n, _, s) =>
      && n !in CtxNodes(up) && n !in Nodes(s) && Nodes(s) !! CtxNodes(up)
      && Distinct(s) && DistinctCtx(up)
  }

  function InOrder(t: Tree): seq<Node> {
    match t
    case Nil => []
    case Bin(l, n, _, r) => InOrder(l) + [n] + InOrder(r)
  }

  function Before(c: Ctx): seq<Node> {
    match c
    case Top => []
    case Step(up, d, n, _, s) => if d.Left? then Before(up) else Before(up) + InOrder(s) + [n]
  }

  function After(c: Ctx): seq<Node> {
    match c
    case Top => []
    case Step(up, d, n, _, s) => if d.Left? then [n] + InOrder(s) + After(up) else After(up)
  }

  // ---------- links ----------

  /** The four fields of a node. */
  datatype Link = Link(parent: Node?, left: Node?, right: Node?, red: bool) {
    function Set(d: Dir, n: Node?): Link { if d.Left? then this.(left := n) else this.(right := n) }
  }

  function NodeLink(d: Dir, p: Node?, near: Node?, red: bool, far: Node?): Link {
    if d.Left? then Link(p, near, far, red) else Link(p, far, near, red)
  }

  /** What the fields of node `x` must be in a tree hanging under `p`. */
  function LinkAt(t: Tree, p: Node?, x: Node): Link
    requires x in Nodes(t)
  {
    if x == t.node then Link(p, Root(t.left), Root(t.right), t.red)
    else if x in Nodes(t.left) then LinkAt(t.left, t.node, x)
    else LinkAt(t.right, t.node, x)
  }

  /** The same in a context whose hole is filled by a tree with root `hole`. */
  function CtxLinkAt(c: Ctx, hole: Node?, x: Node): Link
    requires x in CtxNodes(c)
  {
    if x == c.node then NodeLink(c.dir, Above(c.up), hole, c.red, Root(c.sibling))
    else if x in Nodes(c.sibling) then LinkAt(c.sibling, c.node, x)
    else CtxLinkAt(c.up, c.node, x)
  }

  function CtxRoot(c: Ctx, hole: Node?): Node? {
    match c
    case Top => hole
    case Step(up, _, n, _, _) => CtxRoot(up, n)
  }

  // ---------- plugging ----------

  lemma {:induction false} PlugDistinct(c: Ctx, t: Tree)
    ensures Nodes(Plug(c, t)) == CtxNodes(c) + Nodes(t)
    ensures Distinct(Plug(c, t)) <==> Distinct(t) && DistinctCtx(c) && CtxNodes(c) !! Nodes(t)
    decreases c
  {
    match c
    case Top =>
    case Step(up, d, n, red, s) => PlugDistinct(up, Mk(d, t, n, red, s));
  }

  /** Links of a plugged tree: those of the context and those of the tree in the hole. */
  lemma {:induction false} PlugLink(c: Ctx, t: Tree, x: Node)
    requires Distinct(Plug(c, t)) && x in Nodes(Plug(c, t))
    ensures x in Nodes(t) ==> LinkAt(Plug(c, t), null, x) == LinkAt(t, Above(c), x)
    ensures x !in Nodes(t) ==> x in CtxNodes(c) && LinkAt(Plug(c, t), null, x) == CtxLinkAt(c, Root(t), x)
    decreases c
  {
    match c
    case Top =>
    case Step(up, d, n, red, s) =>
      var t' := Mk(d, t, n, red, s);
      PlugDistinct(up, t');
      PlugLink(up, t', x);
  }

  lemma {:induction false} PlugRoot(c: Ctx, t: Tree)
    ensures Root(Plug(c, t)) == CtxRoot(c, Root(t))
    decreases c
  {
    match c
    case Top =>
    case Step(up, d, n, red, s) => PlugRoot(up, Mk(d, t, n, red, s));
  }

  lemma {:induction false} PlugOrder(c: Ctx, t: Tree)
    ensures InOrder(Plug(c, t)) == Before(c) + InOrder(t) + After(c)
    decreases c
  {
    match c
    case Top =>
    case Step(up, d, n, red, s) =>
      PlugOrder(up, Mk(d, t, n, red, s));
      Regroup(Before(up), InOrder(t), [n], InOrder(s), After(up));
      Regroup(Before(up), InOrder(s), [n], InOrder(t), After(up));
  }

  lemma {:induction false} Regroup(a: seq<Node>, x: seq<Node>, n: seq<Node>, y: seq<Node>, b: seq<Node>)
    ensures a + (x + n + y) + b == a + x + (n + y + b)
    ensures a + (x + n + y) + b == (a + x + n) + y + b
  {
  }

  lemma {:induction false} PlugCompose(outer: Ctx, inner: Ctx, t: Tree)
    ensures Plug(Compose(outer, inner), t) == Plug(outer, Plug(inner, t))
    decreases inner
  {
    match inner
    case Top =>
    case Step(up, d, n, red, s) => PlugCompose(outer, up, Mk(d, t, n, red, s));
  }

  lemma {:induction false} InOrderHas(t: Tree, n: Node)
    ensures n in InOrder(t) <==> n in Nodes(t)
  {
    match t
    case Nil =>
    case Bin(l, _, _, r) => InOrderHas(l, n); InOrderHas(r, n);
  }
}
