/**
 What the page tables promise: addresses of a mapped range translate to its frames and all
 others as before, the lookup agrees below 2^52, rights are those last mapped, and every
 space sees the same kernel half.
 */
module PtmTheorems {
  import opened Basics
  import opened PtmModel
  import opened PtmSteps
  import opened Ptm
  import Division

  // ---------- translation of a mapped range ----------

  /** How far an address lies beyond the start of a range, in the bits that paging looks at. */
  function Into(q: Request, v: nat): int { Low(v) - Low(q.vaddr) }

  lemma {:induction false} MaskKeeps(p: nat, level: nat)
    requires 1 <= level <= 3 && On(p, level) && p < 0x10_0000_0000_0000
    ensures Masked(p, level) == p
  {
    if level == 2 { Division.Coarser(0x1_0000, 32, p); }
    if level == 3 { Division.Coarser(0x1_0000, 0x4000, p); }
  }

  /** The offset in a page does not depend on the bits that paging ignores. */
  lemma {:induction false} OffsetOfLow(v: nat, level: nat)
    requires 1 <= level <= 3
    ensures Offset(v, level) == Offset(Low(v), level)
  {
    Division.RemIsMod(v, LOW);
    Whole(v / LOW, level);
    Division.Shifted(Span(level), LOW * (v / LOW), Low(v));
  }

  /** Shifting by a multiple of the page size changes no offset, and dropping the 4K offset no start. */
  lemma {:induction false} OffsetShift(w: nat, d: nat, level: nat)
    requires 1 <= level <= 3 && On(w, level)
    ensures Offset(w + d, level) == Offset(d, level) && Start(Start(d, 1), level) == Start(d, level)
  {
    Division.Shifted(Span(level), w, d);
    Division.Coarser(FRAME, 1, d);
    Division.Coarser(FRAME, 512, d);
    Division.Coarser(FRAME, 0x4_0000, d);
  }

  lemma {:induction false} LevelAligned(q: Request, o: nat)
    requires q.Ok() && o < q.length
    ensures var level := LevelAt(q.vaddr, q.paddr, q.length, q.gigabyte, o);
      On(q.vaddr, level) && On(q.paddr, level) && On(Low(q.vaddr), level)
  {
    LowBits(q.vaddr, LevelAt(q.vaddr, q.paddr, q.length, q.gigabyte, o));
  }

  /** The page that holds an address of the range, by distance. */
  lemma {:induction false} PageInto(q: Request, r: nat, v: nat)
    requires q.Ok()
    ensures q.Hits(q.length, r, Vpn(v)) <==> 0 <= Into(q, v) < q.length && (r == q.root || InKernelHalf(Vpn(v)))
    ensures 0 <= Into(q, v) ==> Vpn(v) >= Vpn(q.vaddr) && (Vpn(v) - Vpn(q.vaddr)) * FRAME == Start(Into(q, v), 1)
  {
    LowBits(q.vaddr, 1);
    var w, x := Low(q.vaddr), Low(v);
    Division.RemIsMod(w, FRAME);
    Division.RemIsMod(q.length, FRAME);
    if w <= x {
      var d: nat := x - w;
      Division.RemIsMod(d, FRAME);
      Division.Unique(FRAME, x, w / FRAME + d / FRAME, d % FRAME);
    }
  }

  /** The offset of an address of the range is that of its distance. */
  lemma {:induction false} OffsetInto(q: Request, v: nat, d: nat, level: nat)
    requires 1 <= level <= 3 && On(Low(q.vaddr), level) && d == Into(q, v)
    ensures Offset(v, level) == Offset(d, level) && Start(Start(d, 1), level) == Start(d, level)
  {
    OffsetOfLow(v, level);
    OffsetShift(Low(q.vaddr), d, level);
  }

  lemma {:induction false} FrameOf(q: Request, d: nat, level: nat)
    requires 1 <= level <= 3 && On(q.paddr, level) && d < q.length && q.paddr + q.length <= 0x10_0000_0000_0000
    ensures Masked(q.paddr + Start(d, level), level) == q.paddr + Start(d, level)
  {
    OnSum(q.paddr, Start(d, level), level);
    MaskKeeps(q.paddr + Start(d, level), level);
  }

  /** The start of a page plus the offset in it. */
  lemma {:induction false} StartPlusOffset(q: Request, v: nat, d: nat, o: nat, level: nat, frame: nat, offset: nat)
    requires q.Ok() && d == Into(q, v) && d < q.length && o == Start(d, 1) && level == LevelAt(q.vaddr, q.paddr, q.length, q.gigabyte, o)
    requires frame == Masked(q.paddr + Start(o, level), level) && offset == Offset(v, level)
    ensures frame + offset == q.paddr + d
  {
    LevelAligned(q, o);
    OffsetInto(q, v, d, level);
    FrameOf(q, d, level);
  }

  lemma {:induction false} HitTranslates(m': Memory, q: Request, r: nat, v: nat)
    requires q.Ok() && 0 <= Into(q, v) < q.length && Vpn(v) >= Vpn(q.vaddr)
    requires Walk(m', r, LEVELS, Vpn(v)) == Some((q.LeafOf(Vpn(v)), q.Level(Vpn(v))))
    requires (Vpn(v) - Vpn(q.vaddr)) * FRAME == Start(Into(q, v), 1)
    ensures Translate(m', r, v) == Some(q.paddr + Into(q, v))
  {
    var o, level := (Vpn(v) - Vpn(q.vaddr)) * FRAME, q.Level(Vpn(v));
    StartPlusOffset(q, v, Into(q, v), o, level, q.LeafOf(Vpn(v)).addr, Offset(v, level));
  }

  /** After a map, the range translates to its frames, in its space (or in all, in the kernel half); nothing else changes. */
  lemma {:induction false} MapTranslates(m: Memory, m': Memory, role: map<nat, Role>, q: Request, r: nat, v: nat)
    requires q.Ok() && Root(role, r) && MappedTo(m, m', role, q, q.length)
    ensures Translate(m', r, v) ==
      if 0 <= Into(q, v) < q.length && (r == q.root || InKernelHalf(Vpn(v))) then Some(q.paddr + Into(q, v))
      else Translate(m, r, v)
  {
    PageInto(q, r, v);
    assert MappedToAt(m, m', q, q.length, r, Vpn(v));
    if q.Hits(q.length, r, Vpn(v)) { HitTranslates(m', q, r, v); }
  }

  /** After a map, the leaves of the range carry what was asked for. */
  lemma {:induction false} MapCarries(m: Memory, m': Memory, role: map<nat, Role>, q: Request, r: nat, v: nat)
    requires q.Ok() && Root(role, r) && MappedTo(m, m', role, q, q.length)
    requires 0 <= Into(q, v) < q.length && (r == q.root || InKernelHalf(Vpn(v)))
    ensures var w := Walk(m', r, LEVELS, Vpn(v)); w.Some? && Carries(w.value.0, q.prot, q.cache, q.user, q.global)
  {
    PageInto(q, r, v);
    assert MappedToAt(m, m', q, q.length, r, Vpn(v));
  }

  // ---------- the lookup against the processor ----------

  /** The lookup gives what the processor gives exactly for addresses below 2^52: user addresses, and no kernel address. */
  lemma {:induction false} AnswerExact(leaf: Entry, level: nat, v: nat)
    requires 1 <= level <= 3 && leaf.addr + Offset(v, level) < TOP && v < WORD
    ensures Answer(leaf, level, v) == leaf.addr + Offset(v, level) <==> v < TOP
  {
    HighBits(v, leaf.addr + Offset(v, level));
  }

  /** Adding the bits from 52 up to a number of 52 bits neither wraps nor disappears, unless there are none. */
  lemma {:induction false} HighBits(v: nat, low: nat)
    requires low < TOP && v < WORD
    ensures Division.Rem(low + (v - Division.Rem(v, TOP)), WORD) == low <==> v < TOP
  {
    Division.RemIsMod(v, TOP);
    var high := v - Division.Rem(v, TOP);
    assert high == TOP * (v / TOP);
    Division.RemUnique(WORD, low + high, 0, low + high);
  }

  /** An address of the user half, looked up after a map of user addresses. */
  lemma {:induction false} UserLookup(m: Memory, m': Memory, role: map<nat, Role>, q: Request, r: nat, v: nat)
    requires q.Ok() && Root(role, r) && MappedTo(m, m', role, q, q.length)
    requires q.vaddr + q.length <= 0x8000_0000_0000 && v < 0x8000_0000_0000 && q.length > 0
    ensures var after := Walk(m', r, LEVELS, Vpn(v));
      if r == q.root && q.vaddr <= v < q.vaddr + q.length
      then after.Some? && Answer(after.value.0, after.value.1, v) == q.paddr + (v - q.vaddr)
      else after == Walk(m, r, LEVELS, Vpn(v))
  {
    MapTranslates(m, m', role, q, r, v);
    PageInto(q, r, v);
    LowerHalf(v);
    assert Into(q, v) == v - q.vaddr;
    assert MappedToAt(m, m', q, q.length, r, Vpn(v));
    var after := Walk(m', r, LEVELS, Vpn(v));
    if r == q.root && q.vaddr <= v < q.vaddr + q.length {
      WalkLevel(m', r, LEVELS, Vpn(v));
      AnswerExact(after.value.0, after.value.1, v);
    }
  }

  lemma {:induction false} LowerHalf(v: nat)
    requires v < 0x8000_0000_0000
    ensures !InKernelHalf(Vpn(v)) && Low(v) == v
  {
    var u := Vpn(v);
    assert u < 0x8_0000_0000;
    assert Above(u, 1) == u / ENTRIES;
    assert Above(u, 2) == u / ENTRIES / ENTRIES;
    assert Above(u, 3) == u / ENTRIES / ENTRIES / ENTRIES;
  }

  // ---------- rights over a whole run ----------

  datatype Event = Mapping(q: Request) | Creation(root: nat)

  /** A run: well-formed tables throughout, each step a map or a new space as the methods state them. */
  ghost predicate Run(ms: seq<Memory>, roles: seq<map<nat, Role>>, events: seq<Event>, kernel: nat) {
    && |ms| == |roles| == |events| + 1
    && (forall k: nat {:trigger Good(ms[k], roles[k], kernel)} :: k <= |events| ==> Good(ms[k], roles[k], kernel))
    && (forall k: nat {:trigger StepAt(ms, roles, events, kernel, k)} :: k < |events| ==> StepAt(ms, roles, events, kernel, k))
  }

  ghost predicate StepAt(ms: seq<Memory>, roles: seq<map<nat, Role>>, events: seq<Event>, kernel: nat, k: nat) {
    |ms| == |roles| == |events| + 1 && k < |events| && Step(ms[k], ms[k + 1], roles[k], roles[k + 1], events[k], kernel)
  }

  ghost predicate Step(m: Memory, m': Memory, role: map<nat, Role>, role': map<nat, Role>, event: Event, kernel: nat) {
    && SameTop(m, m', role)
    && match event
       case Mapping(q) => q.Ok() && SameRoots(role, role') && MappedTo(m, m', role, q, q.length)
       case Creation(root) => NewRoot(role, role', root) && SameWalks(m, m', role) && FreshSpace(m', kernel, root)
  }

  /** One more address space. */
  ghost predicate NewRoot(role: map<nat, Role>, role': map<nat, Role>, root: nat) {
    !Root(role, root) && forall r: nat {:trigger Root(role', r)} {:trigger Root(role, r)} :: Root(role', r) <==> Root(role, r) || r == root
  }

  /** It maps nothing of its own, and the kernel half. */
  ghost predicate FreshSpace(m': Memory, kernel: nat, root: nat) {
    forall u: nat {:trigger Walk(m', root, LEVELS, u)} :: u < PAGES ==>
      Walk(m', root, LEVELS, u) == if InKernelHalf(u) then Walk(m', kernel, LEVELS, u) else None
  }

  /** The last of the first n events that mapped page u in space r since r was created. */
  function LastMap(events: seq<Event>, n: nat, r: nat, u: nat): Option<Request>
    requires n <= |events|
  {
    if n == 0 then None
    else
      match events[n - 1]
      case Mapping(q) => if q.Hits(q.length, r, u) then Some(q) else LastMap(events, n - 1, r, u)
      case Creation(root) => if r == root && !InKernelHalf(u) then None else LastMap(events, n - 1, r, u)
  }

  lemma {:induction false} LastMapHits(ms: seq<Memory>, roles: seq<map<nat, Role>>, events: seq<Event>, kernel: nat, n: nat, r: nat, u: nat)
    requires Run(ms, roles, events, kernel) && n <= |events| && LastMap(events, n, r, u).Some?
    ensures var q := LastMap(events, n, r, u).value; q.Ok() && q.Hits(q.length, r, u)
  {
    assert StepAt(ms, roles, events, kernel, n - 1);
    if LastMap(events, n - 1, r, u) == LastMap(events, n, r, u) { LastMapHits(ms, roles, events, kernel, n - 1, r, u); }
  }

  /** In the kernel half it does not matter which space is asked. */
  lemma {:induction false} LastMapShared(events: seq<Event>, n: nat, r: nat, s: nat, u: nat)
    requires n <= |events| && InKernelHalf(u)
    ensures LastMap(events, n, r, u) == LastMap(events, n, s, u)
  {
    if n > 0 { LastMapShared(events, n - 1, r, s, u); }
  }

  lemma {:induction false} RootsStay(ms: seq<Memory>, roles: seq<map<nat, Role>>, events: seq<Event>, kernel: nat, n: nat, r: nat)
    requires Run(ms, roles, events, kernel) && n <= |events| && Root(roles[0], r)
    ensures Root(roles[n], r)
  {
    if n > 0 {
      RootsStay(ms, roles, events, kernel, n - 1, r);
      assert StepAt(ms, roles, events, kernel, n - 1);
    }
  }

  /** What space r walked to for page u when the run began; spaces made since then had nothing of their own. */
  function AtStart(m: Memory, role: map<nat, Role>, kernel: nat, r: nat, u: nat): Option<(Entry, nat)> {
    if InKernelHalf(u) then Walk(m, kernel, LEVELS, u) else if Root(role, r) then Walk(m, r, LEVELS, u) else None
  }

  lemma {:induction false} RunWalks(ms: seq<Memory>, roles: seq<map<nat, Role>>, events: seq<Event>, kernel: nat, n: nat, r: nat, u: nat)
    requires Run(ms, roles, events, kernel) && n <= |events| && Root(roles[n], r) && u < PAGES
    ensures var after := Walk(ms[n], r, LEVELS, u);
      match LastMap(events, n, r, u)
      case None => after == AtStart(ms[0], roles[0], kernel, r, u)
      case Some(q) => u >= Vpn(q.vaddr) && after == Some((q.LeafOf(u), q.Level(u)))
    decreases n
  {
    assert Good(ms[n], roles[n], kernel);
    if n == 0 {
      if InKernelHalf(u) { KernelWalksAlike(ms[0], roles[0], kernel, r, kernel, u); }
    } else {
      assert StepAt(ms, roles, events, kernel, n - 1);
      match events[n - 1]
      case Mapping(q) =>
        RunWalks(ms, roles, events, kernel, n - 1, r, u);
        assert MappedToAt(ms[n - 1], ms[n], q, q.length, r, u);
      case Creation(root) =>
        if r != root {
          RunWalks(ms, roles, events, kernel, n - 1, r, u);
          assert Walk(ms[n], r, LEVELS, u) == Walk(ms[n - 1], r, LEVELS, u);
        } else {
          WalksOfNew(ms, roles, events, kernel, n, r, u);
        }
    }
  }

  /** The step that creates space r. */
  lemma {:induction false} WalksOfNew(ms: seq<Memory>, roles: seq<map<nat, Role>>, events: seq<Event>, kernel: nat, n: nat, r: nat, u: nat)
    requires Run(ms, roles, events, kernel) && 0 < n <= |events| && events[n - 1] == Creation(r) && u < PAGES
    ensures var after := Walk(ms[n], r, LEVELS, u);
      match LastMap(events, n, r, u)
      case None => after == AtStart(ms[0], roles[0], kernel, r, u)
      case Some(q) => u >= Vpn(q.vaddr) && after == Some((q.LeafOf(u), q.Level(u)))
    decreases n, 0
  {
    assert StepAt(ms, roles, events, kernel, n - 1);
    assert Good(ms[n - 1], roles[n - 1], kernel);
    if Root(roles[0], r) { RootsStay(ms, roles, events, kernel, n - 1, r); }
    if InKernelHalf(u) {
      RunWalks(ms, roles, events, kernel, n - 1, kernel, u);
      LastMapShared(events, n - 1, r, kernel, u);
      assert Walk(ms[n], kernel, LEVELS, u) == Walk(ms[n - 1], kernel, LEVELS, u);
    }
  }

  lemma {:induction false} EffectiveRights(m: Memory, role: map<nat, Role>, kernel: nat, r: nat, u: nat)
    requires Good(m, role, kernel) && Root(role, r) && u < PAGES
    ensures Effective(m, r, LEVELS, u) == match Walk(m, r, LEVELS, u) case None => None case Some((leaf, _)) => Some(leaf.Allows())
  {
    assert CoveredAt(m, r, u);
    if Walk(m, r, LEVELS, u).Some? { EffectiveIsLeaf(m, r, LEVELS, u); } else { NoEffect(m, r, LEVELS, u); }
  }

  lemma {:induction false} NoEffect(m: Memory, f: nat, level: nat, u: nat)
    requires Walk(m, f, level, u).None?
    ensures Effective(m, f, level, u).None?
    decreases level
  {
    if level > 1 && IsTable(m, f) && Leads(m[f][Index(u, level)]) { NoEffect(m, m[f][Index(u, level)].addr, level - 1, u); }
  }

  /** After every run, the rights of a page are those last mapped for it, or the first ones if it never was. */
  lemma {:induction false} RightsAreLastMapped(ms: seq<Memory>, roles: seq<map<nat, Role>>, events: seq<Event>, kernel: nat, r: nat, u: nat)
    requires Run(ms, roles, events, kernel) && Root(roles[|events|], r) && u < PAGES
    ensures Effective(ms[|events|], r, LEVELS, u) ==
      match LastMap(events, |events|, r, u)
      case None => (match AtStart(ms[0], roles[0], kernel, r, u) case None => None case Some((leaf, _)) => Some(leaf.Allows()))
      case Some(q) => Some(Rights(q.prot.write, q.user, q.prot.exec))
  {
    var n := |events|;
    RunWalks(ms, roles, events, kernel, n, r, u);
    assert Good(ms[n], roles[n], kernel);
    EffectiveRights(ms[n], roles[n], kernel, r, u);
  }

  /** After every run, every space walks the kernel half as every other does, with the same rights, through the entries it began with. */
  lemma {:induction false} KernelHalfStaysShared(ms: seq<Memory>, roles: seq<map<nat, Role>>, events: seq<Event>, kernel: nat, n: nat, r: nat, s: nat, u: nat)
    requires Run(ms, roles, events, kernel) && n <= |events| && Root(roles[n], r) && Root(roles[n], s) && InKernelHalf(u)
    ensures Walk(ms[n], r, LEVELS, u) == Walk(ms[n], s, LEVELS, u) && Effective(ms[n], r, LEVELS, u) == Effective(ms[n], s, LEVELS, u)
    ensures Root(roles[0], r) ==> SameAt(ms[0], ms[n], r, Index(u, LEVELS))
  {
    assert Good(ms[n], roles[n], kernel);
    KernelWalksAlike(ms[n], roles[n], kernel, r, s, u);
    if Root(roles[0], r) { TopStays(ms, roles, events, kernel, n, r, Index(u, LEVELS)); }
  }

  lemma {:induction false} TopStays(ms: seq<Memory>, roles: seq<map<nat, Role>>, events: seq<Event>, kernel: nat, n: nat, r: nat, i: nat)
    requires Run(ms, roles, events, kernel) && n <= |events| && Root(roles[0], r) && 256 <= i < ENTRIES
    ensures Root(roles[n], r) && SameAt(ms[0], ms[n], r, i)
  {
    if n == 0 {
      assert Good(ms[0], roles[0], kernel);
      assert SharedAt(ms[0], kernel, r, i);
    } else {
      TopStays(ms, roles, events, kernel, n - 1, r, i);
      assert StepAt(ms, roles, events, kernel, n - 1);
      assert SameAt(ms[n - 1], ms[n], r, i);
    }
  }

  lemma {:induction false} RunThen(ms: seq<Memory>, roles: seq<map<nat, Role>>, events: seq<Event>, kernel: nat, m: Memory, role: map<nat, Role>, event: Event)
    requires Run(ms, roles, events, kernel) && Good(m, role, kernel)
    requires Step(ms[|events|], m, roles[|events|], role, event, kernel)
    ensures Run(ms + [m], roles + [role], events + [event], kernel)
  {
    var ms', roles', events' := ms + [m], roles + [role], events + [event];
    forall k: nat | k <= |events'| ensures Good(ms'[k], roles'[k], kernel) {
      if k <= |events| { assert Good(ms[k], roles[k], kernel); }
    }
    forall k: nat | k < |events'| ensures StepAt(ms', roles', events', kernel, k) {
      if k < |events| { assert StepAt(ms, roles, events, kernel, k); }
    }
  }

  /** Page tables that remember what was done with them: whatever calls a client makes, they form a run. */
  class History {
    const tables: PageTables
    ghost var ms: seq<Memory>
    ghost var roles: seq<map<nat, Role>>
    ghost var events: seq<Event>

    ghost predicate Valid()
      reads this, tables
    {
      && tables.Valid() && Run(ms, roles, events, tables.kernel)
      && ms[|events|] == tables.mem && roles[|events|] == tables.role
      && (forall r: nat :: Root(roles[0], r) <==> r == tables.kernel)
      && forall u: nat {:trigger Walk(ms[0], tables.kernel, LEVELS, u)} :: Walk(ms[0], tables.kernel, LEVELS, u) == None
    }

    constructor (top: nat)
      ensures Valid() && events == [] && tables.kernel == top && fresh(tables)
    {
      tables := new PageTables(top);
      new;
      ms, roles, events := [tables.mem], [tables.role], [];
      assert Good(ms[0], roles[0], tables.kernel);
    }

    method Map(q: Request)
      requires Valid() && Root(tables.role, q.root) && q.Ok() && NothingLarger(tables.mem, q) && KernelOnly(q)
      modifies this, tables
      ensures Valid() && events == old(events) + [Mapping(q)] && SameRoots(old(tables.role), tables.role)
      ensures MappedTo(old(tables.mem), tables.mem, old(tables.role), q, q.length)
    {
      tables.Map(q);
      RunThen(ms, roles, events, tables.kernel, tables.mem, tables.role, Mapping(q));
      ms, roles, events := ms + [tables.mem], roles + [tables.role], events + [Mapping(q)];
    }

    method CreateSpace() returns (root: nat)
      requires Valid()
      modifies this, tables
      ensures Valid() && events == old(events) + [Creation(root)]
      ensures SameWalks(old(tables.mem), tables.mem, old(tables.role)) && NewRoot(old(tables.role), tables.role, root)
    {
      root := tables.CreateSpace();
      RunThen(ms, roles, events, tables.kernel, tables.mem, tables.role, Creation(root));
      ms, roles, events := ms + [tables.mem], roles + [tables.role], events + [Creation(root)];
    }

    /** At any time the rights of a page of any space are those last mapped for it since the space was created, and none if it never was. */
    lemma {:induction false} Rights(r: nat, u: nat)
      requires Valid() && Root(tables.role, r) && u < PAGES
      ensures Effective(tables.mem, r, LEVELS, u) ==
        match LastMap(events, |events|, r, u)
        case None => None
        case Some(q) => Some(PtmModel.Rights(q.prot.write, q.user, q.prot.exec))
    {
      RightsAreLastMapped(ms, roles, events, tables.kernel, r, u);
    }

    /** At any time an address translates to the physical address last mapped for it, with the attributes it was mapped with, and to none if it never was. */
    lemma {:induction false} Translates(r: nat, v: nat)
      requires Valid() && Root(tables.role, r)
      ensures match LastMap(events, |events|, r, Vpn(v))
        case None => Translate(tables.mem, r, v) == None && Walk(tables.mem, r, LEVELS, Vpn(v)) == None
        case Some(q) =>
          && 0 <= Into(q, v) < q.length && Translate(tables.mem, r, v) == Some(q.paddr + Into(q, v))
          && var w := Walk(tables.mem, r, LEVELS, Vpn(v)); w.Some? && Carries(w.value.0, q.prot, q.cache, q.user, q.global)
    {
      var n, u := |events|, Vpn(v);
      RunWalks(ms, roles, events, tables.kernel, n, r, u);
      if LastMap(events, n, r, u).Some? {
        LastMapHits(ms, roles, events, tables.kernel, n, r, u);
        var q := LastMap(events, n, r, u).value;
        PageInto(q, r, v);
        HitTranslates(tables.mem, q, r, v);
      }
    }

    /** Whatever an address translates to after any run lies below 2^52, as what was mapped does. */
    lemma {:induction false} Reach(r: nat, v: nat)
      requires Valid() && Root(tables.role, r)
      ensures Translate(tables.mem, r, v).Some? ==> Translate(tables.mem, r, v).value < TOP
    {
      Translates(r, v);
      if LastMap(events, |events|, r, Vpn(v)).Some? { LastMapHits(ms, roles, events, tables.kernel, |events|, r, Vpn(v)); }
    }

    /** After any run a page is found exactly when it is mapped, and the answer is its translation exactly for addresses below 2^52. */
    method Physical(root: nat, vaddr: nat) returns (found: bool, paddr: nat)
      requires Valid() && Root(tables.role, root) && vaddr < WORD
      ensures found <==> Translate(tables.mem, root, vaddr).Some?
      ensures found ==> (paddr == Translate(tables.mem, root, vaddr).value <==> vaddr < TOP)
    {
      found, paddr := tables.Physical(root, vaddr);
      Reach(root, vaddr);
      if found {
        var (leaf, level) := Walk(tables.mem, root, LEVELS, Vpn(vaddr)).value;
        AnswerExact(leaf, level, vaddr);
      }
    }
  }

  /** A page of the first kernel addresses, mapped at 1M in otherwise empty tables. */
  lemma {:induction false} FirstKernelPage(q: Request, v: nat)
    requires q.vaddr == v == 0xFFFF_8000_0000_0000 && q.paddr == 0x10_0000 && q.length == 0x1000
    ensures q.Ok() && Into(q, v) == 0 && v < WORD && v >= TOP
  {
    Division.RemUnique(FRAME, v, v / FRAME, 0);
    Division.RemUnique(FRAME, 0x10_0000, 0x100, 0);
    Division.RemUnique(FRAME, 0x1000, 1, 0);
    Division.RemUnique(LOW, v, 0xFFFF, 0x8000_0000_0000);
  }

  /** Looking that page up finds it, but not at 1M. */
  method PhysicalMissesKernelPage() returns (found: bool, paddr: nat)
    ensures found && paddr != 0x10_0000
  {
    var h := new History(7);
    var v := 0xFFFF_8000_0000_0000;
    var q := Request(7, v, 0x10_0000, 0x1000, Prot(true, true, false), Standard, false, true, true);
    FirstKernelPage(q, v);
    assert h.events == [];
    EmptyAtFirst(h, q);
    ghost var m, role := h.tables.mem, h.tables.role;
    h.Map(q);
    MapTranslates(m, h.tables.mem, role, q, 7, v);
    found, paddr := h.Physical(7, v);
  }

  lemma {:induction false} EmptyAtFirst(h: History, q: Request)
    requires h.Valid() && h.events == [] && q.root == h.tables.kernel && !q.user
    ensures Root(h.tables.role, q.root) && NothingLarger(h.tables.mem, q) && KernelOnly(q)
  {
  }
}
