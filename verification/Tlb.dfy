/**
 The TLB shootdown of arch/x86_64/tlb.c as an interleaved protocol over any number of CPUs.
 A round is one call of x86_64_tlb_shootdown; round numbers stand for the address ranges.
 `flushed[c]` holds the rounds whose range CPU c has invalidated since they began.
 */
module Tlb {

  /** What the interrupt handler of a CPU has still to do. */
  datatype Handler = Free | Flush(round: nat) | Count

  /** Where the initiator of the current round stands. */
  datatype Phase = Held | Own | OwnCount | Polling | Sending(to: nat)

  datatype Lead = Nobody | Lead(cpu: nat, phase: Phase)

  /** pend[c] counts the interrupts on their way to CPU c. */
  datatype State = State(lead: Lead, round: nat, status: seq<bool>, count: nat, pend: seq<nat>, handler: seq<Handler>, flushed: seq<set<nat>>)
  {
    ghost predicate Sized(n: nat) { |status| == |pend| == |handler| == |flushed| == n }
  }

  datatype Action =
    | Acquire(cpu: nat)    // g_shootdown_lock
    | Reset                // the section at 62-68
    | FlushOwn
    | CountOwn
    | Check(cpu: nat)      // line 82: a CPU that has not answered
    | Send                 // line 84: it may have answered since
    | Leave
    | Enter(cpu: nat)      // the handler's section at 34-45
    | FlushNow(cpu: nat)
    | CountNow(cpu: nat)

  /** The initiator is running its own code, not the handler. */
  ghost predicate LeadRuns(s: State, n: nat, phase: Phase) {
    s.Sized(n) && s.lead.Lead? && s.lead.cpu < n && s.lead.phase == phase && s.handler[s.lead.cpu] == Free
  }

  ghost predicate Enabled(s: State, n: nat, a: Action) {
    s.Sized(n) &&
    match a
    case Acquire(c) => c < n && s.lead == Nobody && s.handler[c] == Free
    case Reset => LeadRuns(s, n, Held)
    case FlushOwn => LeadRuns(s, n, Own)
    case CountOwn => LeadRuns(s, n, OwnCount)
    case Check(c) => LeadRuns(s, n, Polling) && c < n && c != s.lead.cpu && !s.status[c]
    case Send => s.lead.Lead? && s.lead.phase.Sending? && LeadRuns(s, n, s.lead.phase) && s.lead.phase.to < n && s.lead.phase.to != s.lead.cpu
    case Leave => LeadRuns(s, n, Polling) && s.count == n
    case Enter(c) => c < n && s.pend[c] > 0 && s.handler[c] == Free
    case FlushNow(c) => c < n && s.handler[c].Flush?
    case CountNow(c) => c < n && s.handler[c] == Count
  }

  function Do(s: State, n: nat, a: Action): State
    requires Enabled(s, n, a)
  {
    match a
    case Acquire(c) => s.(lead := Lead(c, Held))
    case Reset => s.(lead := s.lead.(phase := Own), round := s.round + 1, count := 0, status := seq(n, _ => false))
    case FlushOwn => s.(lead := s.lead.(phase := OwnCount), flushed := s.flushed[s.lead.cpu := s.flushed[s.lead.cpu] + {s.round}])
    case CountOwn => s.(lead := s.lead.(phase := Polling), count := s.count + 1)
    case Check(c) => s.(lead := s.lead.(phase := Sending(c)))
    case Send => s.(lead := s.lead.(phase := Polling), pend := s.pend[s.lead.phase.to := s.pend[s.lead.phase.to] + 1])
    case Leave => s.(lead := Nobody)
    case Enter(c) =>
      var taken := s.(pend := s.pend[c := s.pend[c] - 1]);
      if s.status[c] then taken else taken.(status := s.status[c := true], handler := s.handler[c := Flush(s.round)])
    case FlushNow(c) => s.(flushed := s.flushed[c := s.flushed[c] + {s.handler[c].round}], handler := s.handler[c := Count])
    case CountNow(c) => s.(count := s.count + 1, handler := s.handler[c := Free])
  }

  /** Before the first round: nothing on its way; the status array holds anything. */
  ghost predicate Init(s: State, n: nat) {
    && s.Sized(n) && s.lead == Nobody
    && forall c: nat {:trigger s.pend[c]} {:trigger s.handler[c]} {:trigger s.flushed[c]} :: c < n ==> s.pend[c] == 0 && s.handler[c] == Free && s.flushed[c] == {}
  }

  /** What a round promises when it ends: every CPU has invalidated its range. */
  ghost predicate AllFlushed(s: State, n: nat) {
    s.Sized(n) && forall c: nat {:trigger s.flushed[c]} :: c < n ==> s.round in s.flushed[c]
  }

  // ---------- counting ----------

  /** CPU c has added its one to the count of this round. */
  predicate Done(s: State, c: nat) {
    c < |s.status| && c < |s.handler| && s.lead.Lead? &&
    if c == s.lead.cpu then s.lead.phase.Polling? || s.lead.phase.Sending? else s.status[c] && s.handler[c] == Free
  }

  function Tally(s: State, k: nat): (t: nat)
    ensures t <= k
  {
    if k == 0 then 0 else Tally(s, k - 1) + if Done(s, k - 1) then 1 else 0
  }

  lemma {:induction false} TallyFull(s: State, k: nat, c: nat)
    requires Tally(s, k) == k && c < k
    ensures Done(s, c)
  {
    if c < k - 1 { TallyFull(s, k - 1, c); }
  }

  /** If no more than CPU d changes, the tally changes by what d does. */
  lemma {:induction false} TallyStep(s: State, s': State, k: nat, d: nat)
    requires forall c: nat :: c < k && c != d ==> Done(s, c) == Done(s', c)
    ensures Tally(s', k) - Tally(s, k) == if d >= k || Done(s, d) == Done(s', d) then 0 else if Done(s', d) then 1 else -1
  {
    if k > 0 { TallyStep(s, s', k - 1, d); }
  }

  lemma {:induction false} TallyNone(s: State, k: nat)
    requires forall c: nat :: c < k ==> !Done(s, c)
    ensures Tally(s, k) == 0
  {
    if k > 0 { TallyNone(s, k - 1); }
  }

  // ---------- the invariant ----------

  predicate InRound(s: State) { s.lead.Lead? && s.lead.phase != Held }

  /** What holds of one CPU. Between rounds an interrupt still on its way finds the status set. */
  ghost predicate CpuOk(s: State, n: nat, c: nat) {
    && s.Sized(n) && c < n && (forall r: nat :: r in s.flushed[c] ==> r <= s.round)
    && if !InRound(s) then s.handler[c] == Free && (s.status[c] || s.pend[c] == 0)
       else if c == s.lead.cpu then
         s.handler[c] == Free && s.pend[c] == 0 && !s.status[c] && (s.lead.phase != Own ==> s.round in s.flushed[c])
       else
         && (!s.status[c] ==> s.handler[c] == Free)
         && (s.handler[c].Flush? ==> s.handler[c].round == s.round)
         && (s.status[c] && !s.handler[c].Flush? ==> s.round in s.flushed[c])
  }

  ghost predicate Inv(s: State, n: nat) {
    && s.Sized(n) && (s.lead.Lead? ==> s.lead.cpu < n)
    && (s.lead.Lead? && s.lead.phase.Sending? ==> s.lead.phase.to < n && s.lead.phase.to != s.lead.cpu)
    && (forall c: nat {:trigger CpuOk(s, n, c)} :: c < n ==> CpuOk(s, n, c))
    && (InRound(s) ==> s.count == Tally(s, n))
  }

  /** The assumption under which a round is safe: no interrupt of an earlier round is on its way to the initiator. */
  ghost predicate CleanStart(s: State, n: nat, a: Action) {
    a == Reset && LeadRuns(s, n, Held) ==> s.pend[s.lead.cpu] == 0
  }

  lemma {:induction false} CpuKeeps(s: State, n: nat, a: Action, c: nat)
    requires Inv(s, n) && Enabled(s, n, a) && CleanStart(s, n, a) && c < n
    ensures CpuOk(Do(s, n, a), n, c)
  {
    assert CpuOk(s, n, c);
    if s.lead.Lead? { assert CpuOk(s, n, s.lead.cpu); }
    if a == Leave {
      LeaveFlushed(s, n);
      assert Done(s, c);
    }
  }

  /** When the initiator leaves its loop, every CPU has invalidated the range of the round, and counted once. */
  lemma {:induction false} LeaveFlushed(s: State, n: nat)
    requires Inv(s, n) && Enabled(s, n, Leave)
    ensures AllFlushed(s, n)
    ensures forall c: nat :: c < n ==> Done(s, c)
  {
    forall c: nat | c < n ensures Done(s, c) && s.round in s.flushed[c] {
      TallyFull(s, n, c);
      assert CpuOk(s, n, c);
    }
  }

  lemma {:induction false} CountKeeps(s: State, n: nat, a: Action)
    requires Inv(s, n) && Enabled(s, n, a) && CleanStart(s, n, a) && InRound(Do(s, n, a))
    ensures Do(s, n, a).count == Tally(Do(s, n, a), n)
  {
    var s' := Do(s, n, a);
    if a == Reset {
      forall c: nat | c < n ensures !Done(s', c) {}
      TallyNone(s', n);
    } else {
      var d := if a.Enter? || a.FlushNow? || a.CountNow? || a.Check? then a.cpu else s.lead.cpu;
      assert CpuOk(s, n, d);
      TallyStep(s, s', n, d);
    }
  }

  /** Every step keeps the invariant, if rounds start clean. */
  lemma {:induction false} StepKeeps(s: State, n: nat, a: Action)
    requires Inv(s, n) && Enabled(s, n, a) && CleanStart(s, n, a)
    ensures Inv(Do(s, n, a), n)
  {
    forall c: nat | c < n ensures CpuOk(Do(s, n, a), n, c) { CpuKeeps(s, n, a, c); }
    if InRound(Do(s, n, a)) { CountKeeps(s, n, a); }
  }

  // ---------- every run ----------

  /** The states of a run, one more than its actions. */
  ghost predicate Run(ss: seq<State>, n: nat, acts: seq<Action>) {
    |ss| == |acts| + 1 && forall i: nat {:trigger StepAt(ss, n, acts, i)} :: i < |acts| ==> StepAt(ss, n, acts, i)
  }

  ghost predicate StepAt(ss: seq<State>, n: nat, acts: seq<Action>, i: nat) {
    i < |acts| && i + 1 < |ss| && Enabled(ss[i], n, acts[i]) && ss[i + 1] == Do(ss[i], n, acts[i])
  }

  ghost predicate CleanRun(ss: seq<State>, n: nat, acts: seq<Action>) {
    |ss| == |acts| + 1 && forall i: nat {:trigger acts[i]} :: i < |acts| ==> CleanStart(ss[i], n, acts[i])
  }

  lemma {:induction false} RunInv(ss: seq<State>, n: nat, acts: seq<Action>, k: nat)
    requires Run(ss, n, acts) && CleanRun(ss, n, acts) && Inv(ss[0], n) && k < |ss|
    ensures Inv(ss[k], n)
    decreases k
  {
    if k > 0 {
      RunInv(ss, n, acts, k - 1);
      assert StepAt(ss, n, acts, k - 1);
      StepKeeps(ss[k - 1], n, acts[k - 1]);
    }
  }

  /** In every run whose rounds start clean, no round ends before every CPU has invalidated its range. */
  lemma {:induction false} EveryRoundFlushes(ss: seq<State>, n: nat, acts: seq<Action>, k: nat)
    requires Run(ss, n, acts) && CleanRun(ss, n, acts) && Init(ss[0], n) && k < |acts| && acts[k] == Leave
    ensures AllFlushed(ss[k], n) && ss[k].count == Tally(ss[k], n) == n
  {
    forall c: nat | c < n ensures CpuOk(ss[0], n, c) {}
    RunInv(ss, n, acts, k);
    assert StepAt(ss, n, acts, k);
    LeaveFlushed(ss[k], n);
  }

  // ---------- exactly when a round is safe ----------

  /** A run that ends with the end of its first round. */
  ghost predicate OneRound(acts: seq<Action>) {
    |acts| > 0 && acts[|acts| - 1] == Leave && forall i: nat {:trigger acts[i]} :: i < |acts| - 1 ==> acts[i] != Leave
  }

  /** Every way to go on from s ends its round with every CPU flushed. */
  ghost predicate Safe(s: State, n: nat) {
    forall ss: seq<State>, acts: seq<Action> {:trigger Run(ss, n, acts)} ::
      Run(ss, n, acts) && ss[0] == s && OneRound(acts) ==> AllFlushed(ss[|acts| - 1], n)
  }

  /** From a clean start no step of the round is unclean. */
  lemma {:induction false} CleanThroughout(ss: seq<State>, n: nat, acts: seq<Action>, i: nat, k: nat)
    requires Run(ss, n, acts) && OneRound(acts) && Inv(ss[0], n) && ss[0].lead == Lead(i, Held) && ss[0].pend[i] == 0
    requires k < |acts|
    ensures Inv(ss[k], n) && ss[k].lead.Lead? && ss[k].lead.cpu == i
    ensures ss[k].lead.phase == Held ==> ss[k].pend[i] == 0
    decreases k
  {
    if k > 0 {
      CleanThroughout(ss, n, acts, i, k - 1);
      assert StepAt(ss, n, acts, k - 1);
      assert acts[k - 1] != Leave;
      StepKeeps(ss[k - 1], n, acts[k - 1]);
    }
  }

  lemma {:induction false} CleanIsSafe(s: State, n: nat, i: nat)
    requires Inv(s, n) && s.lead == Lead(i, Held) && s.pend[i] == 0
    ensures Safe(s, n)
  {
    forall ss: seq<State>, acts: seq<Action> | Run(ss, n, acts) && ss[0] == s && OneRound(acts)
      ensures AllFlushed(ss[|acts| - 1], n)
    {
      CleanThroughout(ss, n, acts, i, |acts| - 1);
      assert StepAt(ss, n, acts, |acts| - 1);
      LeaveFlushed(ss[|acts| - 1], n);
    }
  }

  /** A run from s that has not ended its round. */
  ghost predicate Path(ss: seq<State>, n: nat, acts: seq<Action>, s: State, s': State) {
    && Run(ss, n, acts) && ss[0] == s && ss[|acts|] == s'
    && forall i: nat {:trigger acts[i]} :: i < |acts| ==> acts[i] != Leave
  }

  lemma {:induction false} Extend(ss: seq<State>, n: nat, acts: seq<Action>, a: Action)
    requires Run(ss, n, acts) && Enabled(ss[|acts|], n, a)
    ensures Run(ss + [Do(ss[|acts|], n, a)], n, acts + [a])
  {
    var ss', acts' := ss + [Do(ss[|acts|], n, a)], acts + [a];
    forall i: nat | i < |acts'| ensures StepAt(ss', n, acts', i) {
      if i < |acts| { assert StepAt(ss, n, acts, i); }
    }
  }

  lemma {:induction false} More(ss: seq<State>, n: nat, acts: seq<Action>, s: State, at: State, a: Action)
    returns (ss': seq<State>, acts': seq<Action>)
    requires Path(ss, n, acts, s, at) && Enabled(at, n, a) && a != Leave
    ensures Path(ss', n, acts', s, Do(at, n, a))
  {
    Extend(ss, n, acts, a);
    ss', acts' := ss + [Do(at, n, a)], acts + [a];
  }

  // ---------- a round can always be finished ----------

  /** The steps that CPU c and the initiator still have to make. */
  function Left(s: State, c: nat): nat
    requires c < |s.status| && c < |s.handler| && c < |s.pend|
  {
    if s.lead.Lead? && c == s.lead.cpu then 0
    else
      match s.handler[c]
      case Count => 1
      case Flush(_) => 2
      case Free => if s.status[c] then 0 else if s.pend[c] > 0 then 3 else if s.lead.Lead? && s.lead.phase == Sending(c) then 4 else 6
  }

  function LeftOfAll(s: State, k: nat): nat
    requires k <= |s.status| && k <= |s.handler| && k <= |s.pend|
  {
    if k == 0 then 0 else LeftOfAll(s, k - 1) + Left(s, k - 1)
  }

  function Distance(s: State, n: nat): nat
    requires s.Sized(n)
  {
    LeftOfAll(s, n) + if s.lead.Nobody? then 0 else match s.lead.phase case Held => 0 case Own => 3 case OwnCount => 2 case Polling => 0 case Sending(_) => 1
  }

  lemma {:induction false} LeftStep(s: State, s': State, n: nat, k: nat, d: nat)
    requires s.Sized(n) && s'.Sized(n) && k <= n && d < n && forall c: nat :: c < k && c != d ==> Left(s', c) == Left(s, c)
    ensures LeftOfAll(s', k) - LeftOfAll(s, k) == if d < k then Left(s', d) - Left(s, d) else 0
  {
    if k > 0 { LeftStep(s, s', n, k - 1, d); }
  }

  /** A step of the initiator outside its wait loop brings the end closer. */
  lemma {:induction false} InitiatorStep(s: State, n: nat, a: Action)
    requires Inv(s, n) && InRound(s) && s.lead.phase != Polling
    requires a == match s.lead.phase case Own => FlushOwn case OwnCount => CountOwn case _ => Send
    ensures Enabled(s, n, a) && InRound(Do(s, n, a)) && Distance(Do(s, n, a), n) < Distance(s, n)
  {
    assert CpuOk(s, n, s.lead.cpu);
    LeftStep(s, Do(s, n, a), n, n, if a == Send then s.lead.phase.to else s.lead.cpu);
  }

  /** Inside it, so does a step of a CPU that has not counted. */
  lemma {:induction false} CpuStep(s: State, n: nat, d: nat, a: Action)
    requires Inv(s, n) && InRound(s) && s.lead.phase == Polling && d < n && d != s.lead.cpu && !Done(s, d)
    requires a == if s.handler[d] == Count then CountNow(d) else if s.handler[d].Flush? then FlushNow(d) else if s.pend[d] > 0 then Enter(d) else Check(d)
    ensures Enabled(s, n, a) && InRound(Do(s, n, a)) && Distance(Do(s, n, a), n) < Distance(s, n)
  {
    assert CpuOk(s, n, d);
    assert CpuOk(s, n, s.lead.cpu);
    LeftStep(s, Do(s, n, a), n, n, d);
  }

  /** While a round cannot be left yet, some step brings its end closer. */
  lemma {:induction false} NextStep(s: State, n: nat) returns (a: Action)
    requires Inv(s, n) && InRound(s) && !Enabled(s, n, Leave)
    ensures Enabled(s, n, a) && a != Leave && a != Reset && !a.Acquire?
    ensures InRound(Do(s, n, a)) && Distance(Do(s, n, a), n) < Distance(s, n)
  {
    assert CpuOk(s, n, s.lead.cpu);
    if s.lead.phase == Polling {
      var d := NotDone(s, n);
      a := if s.handler[d] == Count then CountNow(d) else if s.handler[d].Flush? then FlushNow(d) else if s.pend[d] > 0 then Enter(d) else Check(d);
      CpuStep(s, n, d, a);
    } else {
      a := match s.lead.phase case Own => FlushOwn case OwnCount => CountOwn case _ => Send;
      InitiatorStep(s, n, a);
    }
  }

  /** Some CPU has not counted yet. */
  lemma {:induction false} NotDone(s: State, n: nat) returns (c: nat)
    requires Inv(s, n) && InRound(s) && s.lead.phase == Polling && s.count != n
    ensures c < n && c != s.lead.cpu && !Done(s, c)
  {
    c := TallyMissing(s, n);
  }

  lemma {:induction false} TallyMissing(s: State, k: nat) returns (c: nat)
    requires Tally(s, k) != k
    ensures c < k && !Done(s, c)
  {
    if !Done(s, k - 1) { c := k - 1; } else { c := TallyMissing(s, k - 1); }
  }

  /** From any state of a round there is a way to its end, and it ends with every CPU flushed. */
  lemma {:induction false} CanFinish(s: State, n: nat) returns (ss: seq<State>, acts: seq<Action>)
    requires Inv(s, n) && InRound(s)
    ensures Run(ss, n, acts) && ss[0] == s && OneRound(acts) && AllFlushed(ss[|acts| - 1], n)
  {
    ss, acts := [s], [];
    var at := s;
    while !Enabled(at, n, Leave)
      invariant Path(ss, n, acts, s, at) && Inv(at, n) && InRound(at)
      decreases Distance(at, n)
    {
      var a := NextStep(at, n);
      StepKeeps(at, n, a);
      ss, acts := More(ss, n, acts, s, at, a);
      at := Do(at, n, a);
    }
    LeaveFlushed(at, n);
    Extend(ss, n, acts, Leave);
    ss, acts := ss + [Do(at, n, Leave)], acts + [Leave];
  }

  /** So a call that has taken the lock can return, if it starts clean. */
  lemma {:induction false} RoundCanFinish(s: State, n: nat, i: nat) returns (ss: seq<State>, acts: seq<Action>)
    requires Inv(s, n) && s.lead == Lead(i, Held) && s.pend[i] == 0
    ensures Enabled(s, n, Reset) && Run(ss, n, acts) && ss[0] == Do(s, n, Reset) && OneRound(acts) && AllFlushed(ss[|acts| - 1], n)
  {
    assert CpuOk(s, n, i);
    StepKeeps(s, n, Reset);
    ss, acts := CanFinish(Do(s, n, Reset), n);
  }

  /** The initiator i has counted itself twice, the CPUs below k other than i and v have counted, and v has done nothing. */
  ghost predicate Doubled(s: State, n: nat, i: nat, v: nat, k: nat) {
    && s.Sized(n) && i < n && v < n && i != v && k <= n
    && s.lead == Lead(i, Polling) && !s.status[v] && s.round !in s.flushed[v]
    && (forall c: nat {:trigger s.handler[c]} :: c < n ==> s.handler[c] == Free)
    && (forall c: nat {:trigger s.status[c]} :: k <= c < n && c != i ==> !s.status[c])
    && s.count == 2 + k - (if i < k then 1 else 0) - (if v < k then 1 else 0)
  }

  /** The initiator i has counted itself. */
  lemma {:induction false} CountOnce(s: State, n: nat, i: nat, v: nat) returns (ss: seq<State>, acts: seq<Action>, at: State)
    requires Inv(s, n) && s.lead == Lead(i, Held) && s.pend[i] > 0 && v < n && v != i
    ensures Path(ss, n, acts, s, at) && at.Sized(n) && at.lead == Lead(i, Polling) && at.pend == s.pend && at.count == 1 && at.handler == s.handler
    ensures at.round !in at.flushed[v] && forall c: nat :: c < n ==> !at.status[c]
  {
    assert CpuOk(s, n, i) && CpuOk(s, n, v);
    ss, acts, at := [s], [], s;
    ss, acts := More(ss, n, acts, s, at, Reset);
    at := Do(at, n, Reset);
    ss, acts := More(ss, n, acts, s, at, FlushOwn);
    at := Do(at, n, FlushOwn);
    ss, acts := More(ss, n, acts, s, at, CountOwn);
    at := Do(at, n, CountOwn);
  }

  /** The stale interrupt makes the initiator count twice. */
  lemma {:induction false} CountTwice(s: State, n: nat, i: nat, v: nat) returns (ss: seq<State>, acts: seq<Action>, at: State)
    requires Inv(s, n) && s.lead == Lead(i, Held) && s.pend[i] > 0 && v < n && v != i
    ensures Path(ss, n, acts, s, at) && Doubled(at, n, i, v, 0)
  {
    forall c: nat | c < n ensures s.handler[c] == Free { assert CpuOk(s, n, c); }
    ss, acts, at := CountOnce(s, n, i, v);
    ss, acts := More(ss, n, acts, s, at, Enter(i));
    at := Do(at, n, Enter(i));
    ss, acts := More(ss, n, acts, s, at, FlushNow(i));
    at := Do(at, n, FlushNow(i));
    ss, acts := More(ss, n, acts, s, at, CountNow(i));
    at := Do(at, n, CountNow(i));
  }

  /** An interrupt for CPU k. */
  lemma {:induction false} Ask(ss: seq<State>, n: nat, acts: seq<Action>, s: State, was: State, i: nat, v: nat, k: nat)
    returns (ss': seq<State>, acts': seq<Action>, at: State)
    requires Path(ss, n, acts, s, was) && Doubled(was, n, i, v, k) && k < n && k != i && k != v
    ensures Path(ss', n, acts', s, at) && Doubled(at, n, i, v, k) && at.pend[k] > 0
  {
    at := was;
    ss', acts' := More(ss, n, acts, s, at, Check(k));
    at := Do(at, n, Check(k));
    ss', acts' := More(ss', n, acts', s, at, Send);
    at := Do(at, n, Send);
  }

  /** One more CPU is served. */
  lemma {:induction false} Serve(ss: seq<State>, n: nat, acts: seq<Action>, s: State, was: State, i: nat, v: nat, k: nat)
    returns (ss': seq<State>, acts': seq<Action>, at: State)
    requires Path(ss, n, acts, s, was) && Doubled(was, n, i, v, k) && k < n && k != i && k != v
    ensures Path(ss', n, acts', s, at) && Doubled(at, n, i, v, k + 1)
  {
    ss', acts', at := Ask(ss, n, acts, s, was, i, v, k);
    ss', acts' := More(ss', n, acts', s, at, Enter(k));
    at := Do(at, n, Enter(k));
    ss', acts' := More(ss', n, acts', s, at, FlushNow(k));
    at := Do(at, n, FlushNow(k));
    ss', acts' := More(ss', n, acts', s, at, CountNow(k));
    at := Do(at, n, CountNow(k));
  }

  lemma {:induction false} ServeAll(s: State, n: nat, i: nat, v: nat, k: nat) returns (ss: seq<State>, acts: seq<Action>, at: State)
    requires Inv(s, n) && s.lead == Lead(i, Held) && s.pend[i] > 0 && v < n && v != i && k <= n
    ensures Path(ss, n, acts, s, at) && Doubled(at, n, i, v, k)
    decreases k
  {
    if k == 0 {
      ss, acts, at := CountTwice(s, n, i, v);
    } else {
      ss, acts, at := ServeAll(s, n, i, v, k - 1);
      if k - 1 != i && k - 1 != v { ss, acts, at := Serve(ss, n, acts, s, at, i, v, k - 1); }
    }
  }

  /** With two CPUs or more, one stale interrupt at the initiator is enough for a round that ends too early. */
  lemma {:induction false} StaleIsUnsafe(s: State, n: nat, i: nat)
    requires Inv(s, n) && s.lead == Lead(i, Held) && s.pend[i] > 0 && n >= 2
    ensures !Safe(s, n)
  {
    var v := if i == 0 then 1 else 0;
    var ss, acts, at := ServeAll(s, n, i, v, n);
    Extend(ss, n, acts, Leave);
    var ss', acts' := ss + [Do(at, n, Leave)], acts + [Leave];
    assert Run(ss', n, acts') && ss'[0] == s && OneRound(acts') && ss'[|acts'| - 1] == at;
    assert at.round !in at.flushed[v];
  }

  /** A round is safe in every interleaving if and only if no interrupt is on its way to its initiator when it starts. */
  lemma {:induction false} SafeExactly(s: State, n: nat, i: nat)
    requires Inv(s, n) && s.lead == Lead(i, Held) && n >= 2
    ensures Safe(s, n) <==> s.pend[i] == 0
  {
    if s.pend[i] == 0 { CleanIsSafe(s, n, i); } else { StaleIsUnsafe(s, n, i); }
  }

  /** At most one interrupt is on its way to each CPU, as many as a controller keeps. */
  ghost predicate OnePending(s: State) { forall c: nat {:trigger s.pend[c]} :: c < |s.pend| ==> s.pend[c] <= 1 }

  /** A run of two CPUs in which rounds start clean and no interrupt waits behind another. */
  ghost predicate Plain(ss: seq<State>, acts: seq<Action>, s: State, at: State) {
    && Run(ss, 2, acts) && CleanRun(ss, 2, acts) && ss[0] == s && ss[|acts|] == at && Inv(at, 2)
    && forall k: nat {:trigger OnePending(ss[k])} :: k < |ss| ==> OnePending(ss[k])
  }

  lemma {:induction false} Then(ss: seq<State>, acts: seq<Action>, s: State, at: State, a: Action) returns (ss': seq<State>, acts': seq<Action>)
    requires Plain(ss, acts, s, at) && Enabled(at, 2, a) && CleanStart(at, 2, a) && OnePending(Do(at, 2, a))
    ensures Plain(ss', acts', s, Do(at, 2, a))
  {
    Extend(ss, 2, acts, a);
    StepKeeps(at, 2, a);
    ss', acts' := ss + [Do(at, 2, a)], acts + [a];
    forall i: nat | i < |acts'| ensures CleanStart(ss'[i], 2, acts'[i]) {
      if i < |acts| { assert acts[i] == acts'[i] && CleanStart(ss[i], 2, acts[i]); }
    }
    forall k: nat | k < |ss'| ensures OnePending(ss'[k]) { if k < |ss| { assert ss'[k] == ss[k] && OnePending(ss[k]); } }
  }

  /** CPU 0 starts a round. */
  lemma {:induction false} Begun(s: State) returns (ss: seq<State>, acts: seq<Action>, at: State)
    requires Init(s, 2)
    ensures Plain(ss, acts, s, at)
    ensures at.lead == Lead(0, Own) && at.count == 0 && at.pend == [0, 0] && at.status == [false, false] && at.handler == [Free, Free]
  {
    forall c: nat | c < 2 ensures CpuOk(s, 2, c) {}
    ss, acts, at := [s], [], s;
    ss, acts := Then(ss, acts, s, at, Acquire(0));
    at := Do(at, 2, Acquire(0));
    ss, acts := Then(ss, acts, s, at, Reset);
    at := Do(at, 2, Reset);
  }

  lemma {:induction false} Started(s: State) returns (ss: seq<State>, acts: seq<Action>, at: State)
    requires Init(s, 2)
    ensures Plain(ss, acts, s, at)
    ensures at.lead == Lead(0, Polling) && at.count == 1 && at.pend == [0, 0] && at.status == [false, false] && at.handler == [Free, Free]
  {
    ss, acts, at := Begun(s);
    ss, acts := Then(ss, acts, s, at, FlushOwn);
    at := Do(at, 2, FlushOwn);
    ss, acts := Then(ss, acts, s, at, CountOwn);
    at := Do(at, 2, CountOwn);
  }

  /** It checks CPU 1 again while the first interrupt is on the way, and repeats it once that has been taken. */
  lemma {:induction false} Repeated(s: State) returns (ss: seq<State>, acts: seq<Action>, at: State)
    requires Init(s, 2)
    ensures Plain(ss, acts, s, at)
    ensures at.lead == Lead(0, Polling) && at.count == 1 && at.pend == [0, 1] && at.status == [false, true] && at.handler == [Free, Flush(at.round)]
  {
    ss, acts, at := Started(s);
    ss, acts := Then(ss, acts, s, at, Check(1));
    at := Do(at, 2, Check(1));
    ss, acts := Then(ss, acts, s, at, Send);
    at := Do(at, 2, Send);
    ss, acts := Then(ss, acts, s, at, Check(1));
    at := Do(at, 2, Check(1));
    ss, acts := Then(ss, acts, s, at, Enter(1));
    at := Do(at, 2, Enter(1));
    ss, acts := Then(ss, acts, s, at, Send);
    at := Do(at, 2, Send);
  }

  /** Such a start is reachable: CPU 1 starts the next round before the repeated interrupt arrives. */
  lemma {:induction false} StaleStartReachable(s: State) returns (ss: seq<State>, acts: seq<Action>, at: State)
    requires Init(s, 2)
    ensures Plain(ss, acts, s, at)
    ensures at.lead == Lead(1, Held) && at.pend[1] == 1 && !Safe(at, 2)
  {
    ss, acts, at := Repeated(s);
    ss, acts := Then(ss, acts, s, at, FlushNow(1));
    at := Do(at, 2, FlushNow(1));
    ss, acts := Then(ss, acts, s, at, CountNow(1));
    at := Do(at, 2, CountNow(1));
    ss, acts := Then(ss, acts, s, at, Leave);
    at := Do(at, 2, Leave);
    ss, acts := Then(ss, acts, s, at, Acquire(1));
    at := Do(at, 2, Acquire(1));
    StaleIsUnsafe(at, 2, 1);
  }
}
