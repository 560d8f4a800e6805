/**
 The red-black invariant on shapes, what a context demands of the tree in its hole, and
 the key order. Everything here is about values; the heap enters in `RbTree`.
 */
module RbBalance {
  import opened RbShape
  import opened Blocks

  function BlackHeight(t: Tree): nat {
    if t.Nil? then 0 else BlackHeight(t.left) + (if t.red then 0 else 1)
  }

  ghost predicate Balanced(t: Tree) {
    t.Bin? ==> BlackHeight(t.left) == BlackHeight(t.right) && Balanced(t.left) && Balanced(t.right)
  }

  ghost predicate NoRedRed(t: Tree) {
    t.Bin? ==>
      && (t.red ==> !IsRed(t.left) && !IsRed(t.right))
      && NoRedRed(t.left) && NoRedRed(t.right)
  }

  /** Black root, no red node with a red child, equal black height on every path. */
  ghost predicate RedBlack(t: Tree) {
    Balanced(t) && NoRedRed(t) && !IsRed(t)
  }

  function Paint(t: Tree, red: bool): Tree {
    if t.Nil? then t else t.(red := red)
  }

  /** The context completes to a red-black tree when a black tree of black height `h` fills it. */
  ghost predicate Accepts(c: Ctx, h: nat) {
    match c
    case Top => true
    case Step(up, _, _, red, s) =>
      && Balanced(s) && NoRedRed(s) && BlackHeight(s) == h
      && (red ==> !IsRed(s) && up.Step? && !up.red)
      && Accepts(up, h + (if red then 0 else 1))
  }

  lemma {:induction false} AcceptsPlug(c: Ctx, t: Tree, h: nat)
    requires Accepts(c, h) && Balanced(t) && NoRedRed(t) && BlackHeight(t) == h
    requires IsRed(t) ==> c.Step? && !c.red
    ensures RedBlack(Plug(c, t))
    decreases c
  {
    match c
    case Top =>
    case Step(up, d, n, red, s) => AcceptsPlug(up, Mk(d, t, n, red, s), h + (if red then 0 else 1));
  }

  lemma {:induction false} RedBlackUnplug(c: Ctx, t: Tree)
    requires RedBlack(Plug(c, t))
    ensures Accepts(c, BlackHeight(t)) && Balanced(t) && NoRedRed(t)
    ensures IsRed(t) ==> c.Step? && !c.red
    decreases c
  {
    match c
    case Top =>
    case Step(up, d, n, red, s) => RedBlackUnplug(up, Mk(d, t, n, red, s));
  }

  /** Balance bounds the longest path: at most twice the black height, plus one. */
  function Height(t: Tree): nat {
    if t.Nil? then 0
    else 1 + if Height(t.left) >= Height(t.right) then Height(t.left) else Height(t.right)
  }

  function Size(t: Tree): nat {
    if t.Nil? then 0 else Size(t.left) + 1 + Size(t.right)
  }

  lemma {:induction false} HeightByBlackHeight(t: Tree)
    requires Balanced(t) && NoRedRed(t)
    ensures Height(t) <= 2 * BlackHeight(t) + (if IsRed(t) then 1 else 0)
    ensures Size(t) + 1 >= Pow2(BlackHeight(t))
  {
    if t.Bin? {
      HeightByBlackHeight(t.left);
      HeightByBlackHeight(t.right);
    }
  }

  /** Every search path of a red-black tree is at most twice the logarithm of its size. */
  lemma {:induction false} LogarithmicHeight(t: Tree)
    requires RedBlack(t)
    ensures Pow2(Height(t)) <= (Size(t) + 1) * (Size(t) + 1)
  {
    HeightByBlackHeight(t);
    var b := BlackHeight(t);
    Pow2Monotone(Height(t), 2 * b);
    Pow2Double(b);
    SquareMonotone(Pow2(b), Size(t) + 1);
  }

  lemma {:induction false} SquareMonotone(a: nat, b: nat)
    requires a <= b
    ensures a * a <= b * b
  {
    assert b * b - a * a == (b - a) * (b + a);
  }

  lemma {:induction false} Pow2Double(b: nat)
    ensures Pow2(2 * b) == Pow2(b) * Pow2(b)
  {
    if b > 0 {
      Pow2Double(b - 1);
      assert Pow2(2 * b) == 2 * Pow2(2 * b - 1) == 4 * Pow2(2 * (b - 1));
      assert Pow2(b) * Pow2(b) == (2 * Pow2(b - 1)) * (2 * Pow2(b - 1)) == 4 * (Pow2(b - 1) * Pow2(b - 1));
    }
  }

  // ---------- key order ----------

  /** Non-strict: equal keys are allowed. */
  ghost predicate Sorted(s: seq<Node>) {
    forall i, j :: 0 <= i < j < |s| ==> s[i].value <= s[j].value
  }

  /** Where an insertion puts `n`: after every node whose key is not larger. */
  function InsertSorted(s: seq<Node>, n: Node): seq<Node> {
    if s == [] || n.value < s[0].value then [n] + s
    else [s[0]] + InsertSorted(s[1..], n)
  }

  function Without(s: seq<Node>, n: Node): seq<Node> {
    if s == [] then [] else (if s[0] == n then [] else [s[0]]) + Without(s[1..], n)
  }

  lemma {:induction false} InsertSortedAt(a: seq<Node>, b: seq<Node>, n: Node)
    requires forall m :: m in a ==> m.value <= n.value
    requires forall m :: m in b ==> n.value < m.value
    ensures InsertSorted(a + b, n) == a + [n] + b
  {
    if a == [] {
      assert a + b == b;
    } else {
      assert (a + b)[1..] == a[1..] + b;
      InsertSortedAt(a[1..], b, n);
    }
  }

  lemma {:induction false} WithoutAbsent(s: seq<Node>, n: Node)
    requires n !in s
    ensures Without(s, n) == s
  {
    if s != [] { WithoutAbsent(s[1..], n); }
  }

  lemma {:induction false} WithoutAt(a: seq<Node>, b: seq<Node>, n: Node)
    requires n !in a && n !in b
    ensures Without(a + [n] + b, n) == a + b
  {
    var s := a + [n] + b;
    if a == [] {
      assert s[1..] == b && a + b == b;
      WithoutAbsent(b, n);
    } else {
      assert s[1..] == a[1..] + [n] + b;
      WithoutAt(a[1..], b, n);
    }
  }

  lemma {:induction false} SortedInsert(a: seq<Node>, b: seq<Node>, n: Node)
    requires Sorted(a + b)
    requires forall m :: m in a ==> m.value <= n.value
    requires forall m :: m in b ==> n.value < m.value
    ensures Sorted(a + [n] + b)
  {
    var s := a + [n] + b;
    forall i, j | 0 <= i < j < |s| ensures s[i].value <= s[j].value {
      var i' := if i < |a| then i else i - 1;
      var j' := if j < |a| then j else j - 1;
      if i != |a| && j != |a| { assert s[i] == (a + b)[i'] && s[j] == (a + b)[j']; }
    }
  }

  lemma {:induction false} SortedRemove(a: seq<Node>, b: seq<Node>, n: Node)
    requires Sorted(a + [n] + b)
    ensures Sorted(a + b)
  {
    var s := a + [n] + b;
    forall i, j | 0 <= i < j < |a + b| ensures (a + b)[i].value <= (a + b)[j].value {
      assert (a + b)[i] == s[if i < |a| then i else i + 1];
      assert (a + b)[j] == s[if j < |a| then j else j + 1];
    }
  }

  lemma {:induction false} SortedAround(a: seq<Node>, n: Node, b: seq<Node>, m: Node)
    requires Sorted(a + [n] + b)
    ensures m in a ==> m.value <= n.value
    ensures m in b ==> n.value <= m.value
  {
    var s := a + [n] + b;
    assert s[|a|] == n;
    if m in a { var i :| 0 <= i < |a| && a[i] == m; assert s[i] == m; }
    if m in b { var i :| 0 <= i < |b| && b[i] == m; assert s[|a| + 1 + i] == m; }
  }

  /** What the order of the whole tree says at a focused node. */
  lemma {:induction false} SortedAt(c: Ctx, t: Tree, m: Node)
    requires t.Bin? && Sorted(InOrder(Plug(c, t)))
    ensures m in Before(c) || m in Nodes(t.left) ==> m.value <= t.node.value
    ensures m in After(c) || m in Nodes(t.right) ==> t.node.value <= m.value
  {
    var a := Before(c) + InOrder(t.left);
    var b := InOrder(t.right) + After(c);
    assert InOrder(Plug(c, t)) == a + [t.node] + b by { PlugOrder(c, t); OrderParts(Before(c), t, After(c)); }
    SortedAround(a, t.node, b, m);
    InOrderHas(t.left, m);
    InOrderHas(t.right, m);
  }

  lemma {:induction false} OrderParts(before: seq<Node>, t: Tree, after: seq<Node>)
    requires t.Bin?
    ensures before + InOrder(t) + after == (before + InOrder(t.left)) + [t.node] + (InOrder(t.right) + after)
  {
  }
}
