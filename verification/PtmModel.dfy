/**
 Four-level page tables as a memory of 512-entry tables: the walk, the role each table
 plays, and what single stores do to every walk (Intel SDM volume 3A, 4-level paging).
 Entries are decoded into their fields.
 */
module PtmModel {
  import opened Basics
  import Division

  const ENTRIES: nat := 512
  const LEVELS: nat := 4
  const FRAME: nat := 4096
  /** Pages that a four-level walk tells apart. */
  const PAGES: nat := 0x10_0000_0000

  datatype Rights = Rights(write: bool, user: bool, exec: bool)

  datatype Entry = Entry(present: bool, write: bool, user: bool, nx: bool, large: bool, global: bool, cache: Cache, addr: nat) {
    function Allows(): Rights { Rights(write, user, !nx) }
  }

  const EMPTY := Entry(false, false, false, false, false, false, Standard, 0)

  type Table = seq<Entry>
  type Memory = map<nat, Table>

  /** What a table is for: the address space it belongs to, its level, and the address bits above its index. */
  datatype Role = Role(space: nat, level: nat, prefix: nat)

  /** The address space that paging tells apart: 48 bits. */
  const LOW: nat := 0x1_0000_0000_0000

  function Low(v: nat): nat { Division.Rem(v, LOW) }

  /** The number of the 4K page of v, from the 48 bits that paging looks at. */
  function Vpn(v: nat): (u: nat)
    ensures u < PAGES
  {
    Low(v) / FRAME
  }

  /** Address bits above level L: the page number without its low L index fields. */
  function Above(vpn: nat, level: nat): nat {
    if level == 0 then vpn else Above(vpn, level - 1) / ENTRIES
  }

  /** VADDR_TO_INDEX */
  function Index(vpn: nat, level: nat): (i: nat)
    requires level > 0
    ensures i < ENTRIES
  {
    Above(vpn, level - 1) % ENTRIES
  }

  /** Each level's index is the nine bits of the address above the bytes that an entry of the level spans. */
  lemma {:induction false} IndexBits(v: nat)
    ensures Index(Vpn(v), 1) == v / 0x1000 % 512 && Index(Vpn(v), 2) == v / 0x20_0000 % 512
    ensures Index(Vpn(v), 3) == v / 0x4000_0000 % 512 && Index(Vpn(v), 4) == v / 0x80_0000_0000 % 512
  {
    var u, w := Vpn(v), Low(v);
    Division.QuotQuot(w, 0x1000, 512, 0x20_0000);
    Division.QuotQuot(w, 0x20_0000, 512, 0x4000_0000);
    Division.QuotQuot(w, 0x4000_0000, 512, 0x80_0000_0000);
    assert Above(u, 1) == u / 512;
    assert Above(u, 2) == Above(u, 1) / 512;
    assert Above(u, 3) == Above(u, 2) / 512;
    Division.NineBits(v, 0x1000, 0x800_0000, LOW);
    Division.NineBits(v, 0x20_0000, 0x4_0000, LOW);
    Division.NineBits(v, 0x4000_0000, 512, LOW);
    Division.NineBits(v, 0x80_0000_0000, 1, LOW);
  }

  lemma {:induction false} AboveSplits(vpn: nat, level: nat)
    requires level > 0
    ensures Above(vpn, level - 1) == Above(vpn, level) * ENTRIES + Index(vpn, level)
  {
  }

  predicate IsTable(m: Memory, f: nat) { f in m && |m[f]| == ENTRIES }

  /** An entry that leads to a lower table. */
  predicate Leads(e: Entry) { e.present && !e.large }

  /** Where the children of a table belong: entries 256.. of a top-level table are the shared kernel half. */
  function ChildRole(r: Role, i: nat, kernel: nat): Role
    requires r.level > 0
  {
    Role(if r.level == LEVELS && i >= 256 then kernel else r.space, r.level - 1, r.prefix * ENTRIES + i)
  }

  ghost predicate EntryOk(m: Memory, role: map<nat, Role>, kernel: nat, f: nat, i: nat) {
    && f in role && IsTable(m, f) && i < ENTRIES && role[f].level > 0
    && var e := m[f][i];
      && (e.present && e.large ==> 2 <= role[f].level <= 3)
      && (Leads(e) && role[f].level > 1 ==> e.addr in role && role[e.addr] == ChildRole(role[f], i, kernel))
  }

  /** Every table is a table, with a level, and its entries lead to tables of the right role. */
  ghost predicate Wf(m: Memory, role: map<nat, Role>, kernel: nat) {
    && (forall f: nat {:trigger IsTable(m, f)} :: f in role ==> IsTable(m, f) && 1 <= role[f].level <= LEVELS)
    && (forall f: nat, i: nat {:trigger EntryOk(m, role, kernel, f, i)} :: f in role && i < ENTRIES ==> EntryOk(m, role, kernel, f, i))
  }

  /** The walk from a table of some level: the leaf entry and its level, or none when something is not present. */
  function Walk(m: Memory, f: nat, level: nat, vpn: nat): Option<(Entry, nat)>
    decreases level
  {
    if level == 0 || !IsTable(m, f) then None
    else
      var e := m[f][Index(vpn, level)];
      if !e.present then None
      else if level == 1 || e.large then Some((e, level))
      else Walk(m, e.addr, level - 1, vpn)
  }

  /** The table of level j that the walk reaches, if it gets there. */
  function Down(m: Memory, f: nat, level: nat, vpn: nat, j: nat): Option<nat>
    requires j > 0
    decreases level
  {
    if level < j || !IsTable(m, f) then None
    else if level == j then Some(f)
    else
      var e := m[f][Index(vpn, level)];
      if !Leads(e) then None else Down(m, e.addr, level - 1, vpn, j)
  }

  /** The walk passes levels above `stop`, and each entry it passes includes the rights in `need`. */
  ghost predicate Grants(m: Memory, f: nat, level: nat, vpn: nat, need: Rights, stop: nat)
    decreases level
  {
    level <= stop || (
      && IsTable(m, f)
      && var e := m[f][Index(vpn, level)];
        Leads(e) && Includes(e.Allows(), need) && Grants(m, e.addr, level - 1, vpn, need, stop))
  }

  predicate Includes(have: Rights, need: Rights) {
    (need.write ==> have.write) && (need.user ==> have.user) && (need.exec ==> have.exec)
  }

  /** The rights the processor gives: those that every entry of the walk has. */
  function Effective(m: Memory, f: nat, level: nat, vpn: nat): Option<Rights>
    decreases level
  {
    if level == 0 || !IsTable(m, f) then None
    else
      var e := m[f][Index(vpn, level)];
      if !e.present then None
      else if level == 1 || e.large then Some(e.Allows())
      else
        match Effective(m, e.addr, level - 1, vpn)
        case None => None
        case Some(r) => Some(Rights(r.write && e.write, r.user && e.user, r.exec && !e.nx))
  }

  /** A top-level table, and the number of its address space. */
  predicate Root(role: map<nat, Role>, r: nat) { r in role && role[r] == Role(r, LEVELS, 0) }

  /** The entries above each leaf of each space grant at least what the leaf grants. */
  ghost predicate Covered(m: Memory, role: map<nat, Role>) {
    forall r: nat, vpn: nat {:trigger CoveredAt(m, r, vpn)} :: Root(role, r) && vpn < PAGES ==> CoveredAt(m, r, vpn)
  }

  ghost predicate CoveredAt(m: Memory, r: nat, vpn: nat) {
    match Walk(m, r, LEVELS, vpn)
    case None => true
    case Some((leaf, level)) => Grants(m, r, LEVELS, vpn, leaf.Allows(), level)
  }

  /** Under that cover the processor gives exactly the leaf's rights. */
  lemma {:induction false} EffectiveIsLeaf(m: Memory, f: nat, level: nat, vpn: nat)
    requires Walk(m, f, level, vpn).Some?
    requires var (leaf, at) := Walk(m, f, level, vpn).value; Grants(m, f, level, vpn, leaf.Allows(), at)
    ensures Effective(m, f, level, vpn) == Some(Walk(m, f, level, vpn).value.0.Allows())
    decreases level
  {
    var e := m[f][Index(vpn, level)];
    if level > 1 && !e.large {
      WalkLevel(m, e.addr, level - 1, vpn);
      EffectiveIsLeaf(m, e.addr, level - 1, vpn);
    }
  }

  lemma {:induction false} WalkLevel(m: Memory, f: nat, level: nat, vpn: nat)
    ensures Walk(m, f, level, vpn).Some? ==> 1 <= Walk(m, f, level, vpn).value.1 <= level
    decreases level
  {
    if level > 0 && IsTable(m, f) { WalkLevel(m, m[f][Index(vpn, level)].addr, level - 1, vpn); }
  }

  // ---------- roles along a walk ----------

  /** A walk that reaches a table of level j reaches one whose prefix is the address bits above j. */
  lemma {:induction false} DownPrefix(m: Memory, role: map<nat, Role>, kernel: nat, f: nat, vpn: nat, j: nat)
    requires Wf(m, role, kernel) && f in role && j > 0 && role[f].prefix == Above(vpn, role[f].level)
    requires Down(m, f, role[f].level, vpn, j).Some?
    ensures var t := Down(m, f, role[f].level, vpn, j).value;
      && t in role && role[t].level == j && role[t].prefix == Above(vpn, j)
      && (j < role[f].level < LEVELS ==> role[t].space == role[f].space)
      && (j < role[f].level == LEVELS ==> role[t].space == if Index(vpn, LEVELS) >= 256 then kernel else role[f].space)
    decreases role[f].level
  {
    var level := role[f].level;
    if level > j {
      var i := Index(vpn, level);
      assert EntryOk(m, role, kernel, f, i);
      AboveSplits(vpn, level);
      DownPrefix(m, role, kernel, m[f][i].addr, vpn, j);
    }
  }

  /** The walk goes on from wherever it got. */
  lemma {:induction false} WalkFromDown(m: Memory, f: nat, level: nat, vpn: nat, j: nat)
    requires j > 0 && Down(m, f, level, vpn, j).Some?
    ensures Walk(m, f, level, vpn) == Walk(m, Down(m, f, level, vpn, j).value, j, vpn)
    decreases level
  {
    if level > j { WalkFromDown(m, m[f][Index(vpn, level)].addr, level - 1, vpn, j); }
  }

  lemma {:induction false} AboveAgrees(u: nat, v: nat, j: nat, k: nat)
    requires j <= k && Above(u, j) == Above(v, j)
    ensures Above(u, k) == Above(v, k)
  {
    if j < k { AboveAgrees(u, v, j, k - 1); }
  }

  /** Two addresses with the same bits above j take the same way down to level j. */
  lemma {:induction false} SameWayDown(m: Memory, f: nat, level: nat, u: nat, v: nat, j: nat)
    requires j > 0 && Above(u, j) == Above(v, j)
    ensures Down(m, f, level, u, j) == Down(m, f, level, v, j)
    decreases level
  {
    if level > j && IsTable(m, f) {
      AboveAgrees(u, v, j, level - 1);
      var e := m[f][Index(v, level)];
      if Leads(e) { SameWayDown(m, e.addr, level - 1, u, v, j); }
    }
  }
}
