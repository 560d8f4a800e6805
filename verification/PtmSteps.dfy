/**
 What one store into a page table does to every walk of every address space.
 */
module PtmSteps {
  import opened Basics
  import opened PtmModel

  /** m' is m with entry i of table t replaced, and possibly tables that had no role before. */
  ghost predicate Stored(m: Memory, m': Memory, role: map<nat, Role>, t: nat, i: nat) {
    && t in role && i < ENTRIES && IsTable(m, t) && IsTable(m', t)
    && (forall f: nat {:trigger IsTable(m', f)} :: f in role && f != t ==> IsTable(m', f) && f in m && m'[f] == m[f])
    && (forall k: nat :: k < ENTRIES && k != i ==> m'[t][k] == m[t][k])
  }

  /** The same way on with no right taken away. */
  predicate Widens(e: Entry, e': Entry) {
    Leads(e) && Leads(e') && e'.addr == e.addr && Includes(e'.Allows(), e.Allows())
  }

  ghost predicate Blank(m: Memory, f: nat) {
    IsTable(m, f) && forall k: nat :: k < ENTRIES ==> !m[f][k].present
  }

  /** A store that no walk notices: an entry is widened, or one that was absent now leads to an empty table. */
  ghost predicate Silent(m: Memory, m': Memory, role: map<nat, Role>, t: nat, i: nat) {
    && Stored(m, m', role, t, i) && role[t].level > 1
    && (Widens(m[t][i], m'[t][i]) || (!m[t][i].present && Leads(m'[t][i]) && Blank(m', m'[t][i].addr)))
  }

  /** The way down to the stored table, and what its entries grant, are as before. */
  lemma {:induction false} StoreKeepsAbove(m: Memory, m': Memory, role: map<nat, Role>, kernel: nat, t: nat, i: nat, f: nat, u: nat, j: nat, need: Rights)
    requires Wf(m, role, kernel) && Stored(m, m', role, t, i) && f in role && 0 < role[t].level <= j
    ensures Down(m', f, role[f].level, u, j) == Down(m, f, role[f].level, u, j)
    ensures Grants(m', f, role[f].level, u, need, j) == Grants(m, f, role[f].level, u, need, j)
    decreases role[f].level
  {
    var level := role[f].level;
    assert IsTable(m, f);
    assert IsTable(m', f);
    if level > j {
      assert EntryOk(m, role, kernel, f, Index(u, level));
      var e := m[f][Index(u, level)];
      if Leads(e) { StoreKeepsAbove(m, m', role, kernel, t, i, e.addr, u, j, need); }
    }
  }

  lemma {:induction false} SilentKeepsWalks(m: Memory, m': Memory, role: map<nat, Role>, kernel: nat, t: nat, i: nat, f: nat, u: nat)
    requires Wf(m, role, kernel) && Silent(m, m', role, t, i) && f in role
    ensures Walk(m', f, role[f].level, u) == Walk(m, f, role[f].level, u)
    decreases role[f].level
  {
    var level := role[f].level;
    assert IsTable(m, f);
    assert IsTable(m', f);
    var k := Index(u, level);
    assert EntryOk(m, role, kernel, f, k);
    var e := m[f][k];
    if Leads(e) && level > 1 { SilentKeepsWalks(m, m', role, kernel, t, i, e.addr, u); }
  }

  lemma {:induction false} SilentKeepsGrants(m: Memory, m': Memory, role: map<nat, Role>, kernel: nat, t: nat, i: nat, f: nat, u: nat, need: Rights, stop: nat)
    requires Wf(m, role, kernel) && Silent(m, m', role, t, i) && f in role && stop > 0
    requires Grants(m, f, role[f].level, u, need, stop)
    ensures Grants(m', f, role[f].level, u, need, stop)
    decreases role[f].level
  {
    var level := role[f].level;
    if level > stop {
      var k := Index(u, level);
      assert IsTable(m', f);
      assert EntryOk(m, role, kernel, f, k);
      SilentKeepsGrants(m, m', role, kernel, t, i, m[f][k].addr, u, need, stop);
    }
  }

  lemma {:induction false} SilentKeepsCover(m: Memory, m': Memory, role: map<nat, Role>, role': map<nat, Role>, kernel: nat, t: nat, i: nat)
    requires Wf(m, role, kernel) && Silent(m, m', role, t, i) && Covered(m, role)
    requires forall r: nat :: Root(role', r) ==> Root(role, r)
    ensures Covered(m', role')
  {
    forall r: nat, u: nat | Root(role', r) && u < PAGES ensures CoveredAt(m', r, u) {
      assert CoveredAt(m, r, u);
      SilentKeepsWalks(m, m', role, kernel, t, i, r, u);
      if Walk(m, r, LEVELS, u).Some? {
        WalkLevel(m, r, LEVELS, u);
        var (leaf, level) := Walk(m, r, LEVELS, u).value;
        SilentKeepsGrants(m, m', role, kernel, t, i, r, u, leaf.Allows(), level);
      }
    }
  }

  /** A store keeps the tables well formed when the new entry leads where it should, or nowhere. */
  lemma {:induction false} StoreKeepsWf(m: Memory, m': Memory, role: map<nat, Role>, kernel: nat, t: nat, i: nat)
    requires Wf(m, role, kernel) && Stored(m, m', role, t, i)
    requires EntryOk(m', role, kernel, t, i)
    ensures Wf(m', role, kernel)
  {
    forall f: nat | f in role ensures IsTable(m', f) && 1 <= role[f].level <= LEVELS { assert IsTable(m, f); }
    forall f: nat, k: nat | f in role && k < ENTRIES ensures EntryOk(m', role, kernel, f, k) {
      assert IsTable(m', f);
      assert EntryOk(m, role, kernel, f, k);
    }
  }

  /** An empty table may take any role. */
  lemma {:induction false} BlankKeepsWf(m: Memory, m': Memory, role: map<nat, Role>, kernel: nat, blank: nat, part: Role)
    requires Wf(m, role, kernel) && blank !in role && 1 <= part.level <= LEVELS
    requires Blank(m', blank) && forall f: nat :: f in role ==> f in m && f in m' && m'[f] == m[f]
    ensures Wf(m', role[blank := part], kernel)
  {
    var role' := role[blank := part];
    forall f: nat | f in role' ensures IsTable(m', f) && 1 <= role'[f].level <= LEVELS { if f in role { assert IsTable(m, f); } }
    forall f: nat, k: nat | f in role' && k < ENTRIES ensures EntryOk(m', role', kernel, f, k) {
      if f in role {
        assert IsTable(m, f);
        assert EntryOk(m, role, kernel, f, k);
      }
    }
  }

  /** The walks that a leaf stored at level j changes are those that come through its table and index. */
  lemma {:induction false} LeafWalks(m: Memory, m': Memory, role: map<nat, Role>, kernel: nat, t: nat, i: nat, f: nat, u: nat)
    requires Wf(m, role, kernel) && Stored(m, m', role, t, i) && f in role && role[t].level > 0
    requires m'[t][i].present && (m'[t][i].large || role[t].level == 1)
    ensures var j := role[t].level;
      Walk(m', f, role[f].level, u) ==
      if Down(m, f, role[f].level, u, j) == Some(t) && Index(u, j) == i then Some((m'[t][i], j))
      else Walk(m, f, role[f].level, u)
    decreases role[f].level
  {
    var level := role[f].level;
    assert IsTable(m, f);
    assert IsTable(m', f);
    var k := Index(u, level);
    assert EntryOk(m, role, kernel, f, k);
    var e := m[f][k];
    if Leads(e) && level > 1 { LeafWalks(m, m', role, kernel, t, i, e.addr, u); }
  }

  /** Below a leaf the rest of the walk plays no part: a path that did not come through t keeps its grants. */
  lemma {:induction false} LeafKeepsGrants(m: Memory, m': Memory, role: map<nat, Role>, kernel: nat, t: nat, i: nat, f: nat, u: nat, need: Rights, stop: nat)
    requires Wf(m, role, kernel) && Stored(m, m', role, t, i) && f in role && role[t].level > 0 && stop > 0
    requires !(Down(m, f, role[f].level, u, role[t].level) == Some(t) && Index(u, role[t].level) == i)
    requires Grants(m, f, role[f].level, u, need, stop)
    ensures Grants(m', f, role[f].level, u, need, stop)
    decreases role[f].level
  {
    var level := role[f].level;
    if level > stop {
      var k := Index(u, level);
      assert IsTable(m', f);
      assert EntryOk(m, role, kernel, f, k);
      LeafKeepsGrants(m, m', role, kernel, t, i, m[f][k].addr, u, need, stop);
    }
  }

  /** Two addresses that agree above level `stop` are granted the same on the way down to it. */
  lemma {:induction false} GrantsAgree(m: Memory, f: nat, level: nat, u: nat, v: nat, need: Rights, stop: nat)
    requires Above(u, stop) == Above(v, stop) && Grants(m, f, level, v, need, stop)
    ensures Grants(m, f, level, u, need, stop)
    decreases level
  {
    if level > stop {
      AboveAgrees(u, v, stop, level - 1);
      GrantsAgree(m, m[f][Index(v, level)].addr, level - 1, u, v, need, stop);
    }
  }

  // ---------- the shared kernel half ----------

  /** A top-level entry of the kernel half: nothing is forbidden to the kernel. */
  function KernelEntry(table: nat): Entry { Entry(true, true, false, false, false, false, Standard, table) }

  /** Every space has the kernel's own entries 256 to 511. */
  ghost predicate Shared(m: Memory, role: map<nat, Role>, kernel: nat) {
    forall r: nat, i: nat {:trigger SharedAt(m, kernel, r, i)} :: Root(role, r) && 256 <= i < ENTRIES ==> SharedAt(m, kernel, r, i)
  }

  predicate SharedAt(m: Memory, kernel: nat, r: nat, i: nat) {
    IsTable(m, r) && IsTable(m, kernel) && i < ENTRIES && m[r][i] == KernelEntry(m[kernel][i].addr)
  }

  ghost predicate Good(m: Memory, role: map<nat, Role>, kernel: nat) {
    && Wf(m, role, kernel) && Root(role, kernel)
    && (forall r: nat {:trigger Root(role, r)} :: r in role && role[r].level == LEVELS ==> Root(role, r))
    && Shared(m, role, kernel) && Covered(m, role)
  }

  predicate InKernelHalf(u: nat) { Index(u, LEVELS) >= 256 }

  lemma {:induction false} TopIsEmpty(u: nat)
    requires u < PAGES
    ensures Above(u, LEVELS) == 0
  {
    assert Above(u, 1) == u / ENTRIES;
    assert Above(u, 2) == u / ENTRIES / ENTRIES;
    assert Above(u, 3) == u / ENTRIES / ENTRIES / ENTRIES;
  }

  /** All spaces walk the kernel half alike. */
  lemma {:induction false} KernelWalksAlike(m: Memory, role: map<nat, Role>, kernel: nat, r: nat, s: nat, u: nat)
    requires Wf(m, role, kernel) && Shared(m, role, kernel) && Root(role, r) && Root(role, s) && InKernelHalf(u)
    ensures Walk(m, r, LEVELS, u) == Walk(m, s, LEVELS, u)
    ensures Effective(m, r, LEVELS, u) == Effective(m, s, LEVELS, u)
    ensures forall j: nat :: 0 < j < LEVELS ==> Down(m, r, LEVELS, u, j) == Down(m, s, LEVELS, u, j)
    ensures forall j: nat, need: Rights :: Grants(m, r, LEVELS, u, need, j) == Grants(m, s, LEVELS, u, need, j)
  {
    var i := Index(u, LEVELS);
    assert SharedAt(m, kernel, r, i) && SharedAt(m, kernel, s, i);
  }

  /** Who comes through entry Index(v, j) of the table that space `root` reaches for v. */
  lemma {:induction false} Reaches(m: Memory, role: map<nat, Role>, kernel: nat, root: nat, v: nat, t: nat, j: nat, r: nat, u: nat)
    requires Wf(m, role, kernel) && Shared(m, role, kernel) && Root(role, root) && Root(role, r) && u < PAGES && v < PAGES
    requires 0 < j < LEVELS && Down(m, root, LEVELS, v, j) == Some(t)
    ensures (Down(m, r, LEVELS, u, j) == Some(t) && Index(u, j) == Index(v, j)) <==>
      (Above(u, j - 1) == Above(v, j - 1) && (r == root || InKernelHalf(u)))
  {
    TopIsEmpty(u);
    TopIsEmpty(v);
    DownPrefix(m, role, kernel, root, v, j);
    AboveSplits(u, j);
    AboveSplits(v, j);
    if Above(u, j - 1) == Above(v, j - 1) {
      AboveAgrees(u, v, j - 1, LEVELS - 1);
      AboveAgrees(u, v, j - 1, j);
      SameWayDown(m, root, LEVELS, u, v, j);
      if InKernelHalf(u) { KernelWalksAlike(m, role, kernel, r, root, u); }
    }
    if Down(m, r, LEVELS, u, j) == Some(t) {
      DownPrefix(m, role, kernel, r, u, j);
      if Index(u, j) == Index(v, j) { AboveAgrees(u, v, j - 1, LEVELS - 1); }
    }
  }

  // ---------- what the two kinds of store keep ----------

  /** An intermediate entry gains exactly the rights needed; a new one has exactly these. */
  predicate Widened(was: Entry, e: Entry, need: Rights) {
    && e.present && !e.large
    && e.write == ((was.present && was.write) || need.write) && e.user == ((was.present && was.user) || need.user)
    && e.nx == ((was.present ==> was.nx) && !need.exec) && (was.present ==> e.addr == was.addr)
  }

  /** An intermediate entry as a map with these rights leaves it. */
  function Opened(e: Entry, need: Rights): Entry {
    e.(write := e.write || need.write, user := e.user || need.user, nx := e.nx && !need.exec)
  }

  /** A new intermediate entry. */
  function Fresh(table: nat, need: Rights): Entry {
    Entry(true, need.write, need.user, !need.exec, false, false, Standard, table)
  }

  /** All walks are the same. */
  ghost predicate SameWalks(m: Memory, m': Memory, role: map<nat, Role>) {
    forall r: nat, u: nat {:trigger Walk(m', r, LEVELS, u)} :: Root(role, r) && u < PAGES ==>
      Walk(m', r, LEVELS, u) == Walk(m, r, LEVELS, u)
  }

  ghost predicate SameRoots(role: map<nat, Role>, role': map<nat, Role>) {
    forall r: nat {:trigger Root(role', r)} {:trigger Root(role, r)} :: Root(role, r) <==> Root(role', r)
  }

  /** The shared entries of every space are as they were. */
  ghost predicate SameTop(m: Memory, m': Memory, role: map<nat, Role>) {
    forall r: nat, i: nat {:trigger SameAt(m, m', r, i)} :: Root(role, r) && 256 <= i < ENTRIES ==> SameAt(m, m', r, i)
  }

  predicate SameAt(m: Memory, m': Memory, r: nat, i: nat) {
    IsTable(m, r) && IsTable(m', r) && i < ENTRIES && m'[r][i] == m[r][i]
  }

  lemma {:induction false} TopKeepsShared(m: Memory, m': Memory, role: map<nat, Role>, role': map<nat, Role>, kernel: nat)
    requires Shared(m, role, kernel) && Root(role, kernel) && SameTop(m, m', role) && SameRoots(role, role')
    ensures Shared(m', role', kernel)
  {
    forall r: nat, i: nat | Root(role', r) && 256 <= i < ENTRIES ensures SharedAt(m', kernel, r, i) {
      assert Root(role, r);
      assert SharedAt(m, kernel, r, i);
      assert SameAt(m, m', r, i) && SameAt(m, m', kernel, i);
    }
  }

  /** Widening one intermediate entry keeps everything. */
  lemma {:induction false} OpenKeepsGood(m: Memory, m': Memory, role: map<nat, Role>, kernel: nat, t: nat, i: nat)
    requires Good(m, role, kernel) && Stored(m, m', role, t, i) && Widens(m[t][i], m'[t][i]) && role[t].level > 1
    requires SameTop(m, m', role)
    ensures Good(m', role, kernel) && SameWalks(m, m', role)
  {
    assert EntryOk(m, role, kernel, t, i);
    StoreKeepsWf(m, m', role, kernel, t, i);
    TopKeepsShared(m, m', role, role, kernel);
    SilentKeepsCover(m, m', role, role, kernel, t, i);
    forall r: nat, u: nat | Root(role, r) ensures Walk(m', r, LEVELS, u) == Walk(m, r, LEVELS, u) {
      SilentKeepsWalks(m, m', role, kernel, t, i, r, u);
    }
  }

  /** So does linking an empty table below an absent entry. */
  lemma {:induction false} LinkKeepsGood(m: Memory, m': Memory, role: map<nat, Role>, role': map<nat, Role>, kernel: nat, t: nat, i: nat)
    requires Good(m, role, kernel) && Stored(m, m', role, t, i) && role[t].level > 1
    requires !m[t][i].present && Leads(m'[t][i]) && Blank(m', m'[t][i].addr) && m'[t][i].addr !in role
    requires role' == role[m'[t][i].addr := ChildRole(role[t], i, kernel)]
    requires SameTop(m, m', role)
    ensures Good(m', role', kernel) && SameWalks(m, m', role) && SameRoots(role, role')
  {
    var blank := m'[t][i].addr;
    var mid := m[blank := m'[blank]];
    assert IsTable(m, t);
    forall f: nat | f in role ensures f in m { assert IsTable(m, f); }
    BlankKeepsWf(m, mid, role, kernel, blank, ChildRole(role[t], i, kernel));
    forall f: nat | f in role' && f != t ensures f in mid && f in m' && m'[f] == mid[f] {
      if f in role { assert IsTable(m, f) && IsTable(m', f); }
    }
    assert Stored(mid, m', role', t, i);
    StoreKeepsWf(mid, m', role', kernel, t, i);
    assert SameRoots(role, role');
    TopKeepsShared(m, m', role, role', kernel);
    SilentKeepsCover(m, m', role, role', kernel, t, i);
    forall r: nat, u: nat | Root(role, r) ensures Walk(m', r, LEVELS, u) == Walk(m, r, LEVELS, u) {
      SilentKeepsWalks(m, m', role, kernel, t, i, r, u);
    }
  }

  /** The walks of the page that a leaf at level j maps for v in space `root` are the leaf; all others are as before. */
  ghost predicate Mapped(m: Memory, m': Memory, role: map<nat, Role>, root: nat, v: nat, leaf: Entry, j: nat) {
    forall r: nat, u: nat {:trigger MappedAt(m, m', root, v, leaf, j, r, u)} :: Root(role, r) && u < PAGES ==> MappedAt(m, m', root, v, leaf, j, r, u)
  }

  ghost predicate MappedAt(m: Memory, m': Memory, root: nat, v: nat, leaf: Entry, j: nat, r: nat, u: nat) {
    && j > 0
    && Walk(m', r, LEVELS, u) ==
       if Above(u, j - 1) == Above(v, j - 1) && (r == root || InKernelHalf(u)) then Some((leaf, j)) else Walk(m, r, LEVELS, u)
  }

  lemma {:induction false} LeafMaps(m: Memory, m': Memory, role: map<nat, Role>, kernel: nat, root: nat, v: nat, t: nat, j: nat, leaf: Entry)
    requires Good(m, role, kernel) && Root(role, root) && v < PAGES && 0 < j < LEVELS
    requires Down(m, root, LEVELS, v, j) == Some(t) && t in role && role[t].level == j
    requires Stored(m, m', role, t, Index(v, j)) && m'[t][Index(v, j)] == leaf
    requires leaf.present && (leaf.large || j == 1)
    ensures Mapped(m, m', role, root, v, leaf, j)
  {
    forall r: nat, u: nat | Root(role, r) && u < PAGES ensures MappedAt(m, m', root, v, leaf, j, r, u) {
      LeafWalks(m, m', role, kernel, t, Index(v, j), r, u);
      Reaches(m, role, kernel, root, v, t, j, r, u);
    }
  }

  lemma {:induction false} LeafCovered(m: Memory, m': Memory, role: map<nat, Role>, kernel: nat, root: nat, v: nat, t: nat, j: nat, leaf: Entry, r: nat, u: nat)
    requires Good(m, role, kernel) && Root(role, root) && v < PAGES && 0 < j < LEVELS && Root(role, r) && u < PAGES
    requires Down(m, root, LEVELS, v, j) == Some(t) && t in role && role[t].level == j
    requires Grants(m, root, LEVELS, v, leaf.Allows(), j)
    requires Stored(m, m', role, t, Index(v, j)) && Mapped(m, m', role, root, v, leaf, j)
    requires Walk(m', r, LEVELS, u).Some?
    ensures CoveredAt(m', r, u)
  {
    var (e, at) := Walk(m', r, LEVELS, u).value;
    assert MappedAt(m, m', root, v, leaf, j, r, u);
    Reaches(m, role, kernel, root, v, t, j, r, u);
    if Above(u, j - 1) == Above(v, j - 1) && (r == root || InKernelHalf(u)) {
      AboveAgrees(u, v, j - 1, j);
      GrantsAgree(m, root, LEVELS, u, v, leaf.Allows(), j);
      if InKernelHalf(u) { KernelWalksAlike(m, role, kernel, r, root, u); }
      StoreKeepsAbove(m, m', role, kernel, t, Index(v, j), r, u, j, leaf.Allows());
    } else {
      assert CoveredAt(m, r, u);
      WalkLevel(m, r, LEVELS, u);
      LeafKeepsGrants(m, m', role, kernel, t, Index(v, j), r, u, e.Allows(), at);
    }
  }

  lemma {:induction false} LeafKeepsGood(m: Memory, m': Memory, role: map<nat, Role>, kernel: nat, root: nat, v: nat, t: nat, j: nat, leaf: Entry)
    requires Good(m, role, kernel) && Root(role, root) && v < PAGES && 0 < j < LEVELS
    requires Down(m, root, LEVELS, v, j) == Some(t) && t in role && role[t].level == j
    requires Grants(m, root, LEVELS, v, leaf.Allows(), j)
    requires Stored(m, m', role, t, Index(v, j)) && m'[t][Index(v, j)] == leaf
    requires leaf.present && (leaf.large <==> j > 1) && SameTop(m, m', role)
    ensures Good(m', role, kernel) && Mapped(m, m', role, root, v, leaf, j)
  {
    assert EntryOk(m, role, kernel, t, Index(v, j));
    StoreKeepsWf(m, m', role, kernel, t, Index(v, j));
    TopKeepsShared(m, m', role, role, kernel);
    LeafMaps(m, m', role, kernel, root, v, t, j, leaf);
    forall r: nat, u: nat | Root(role, r) && u < PAGES ensures CoveredAt(m', r, u) {
      if Walk(m', r, LEVELS, u).Some? { LeafCovered(m, m', role, kernel, root, v, t, j, leaf, r, u); }
    }
  }
}
