/**
 The mutex of common/lock/mutex.c as an interleaved protocol: any number of threads, one
 atomic step at a time (a compare-and-swap, a list operation, taking or leaving the inner
 spinlock). A blocked thread goes on once it has been scheduled.
 */
module Mutex {
  import opened Basics

  datatype Word = Unlocked | Locked | Contested

  /** Where a thread stands. */
  datatype Pc =
    | Idle                      // outside, and not the owner
    | Try(left: nat)            // tries left before the slow path
    | WantInner                 // at the inner lock in mutex_acquire
    | Exchange                  // holds it; the exchange comes next
    | MustPush                  // the exchange found an owner
    | Pushed                    // in the queue; the inner lock is to be left
    | Waiting                   // blocked
    | Woken                     // scheduled by a releasing owner; wants the inner lock back
    | HoldWoken
    | MustLock                  // the exchange found the mutex free
    | HoldLocked
    | Owner                     // mutex_acquire has returned
    | WantHand(seen: Word)      // mutex_release lost its compare-and-swap, having read `seen`
    | MustHand(seen: Word)      // holds the inner lock; the assertions come next
    | Handed                    // has popped a waiter and scheduled it
    | HoldHanded

  /** pushes and hands record, in order, who entered the queue and who was handed the mutex. */
  datatype State = State(word: Word, inner: Option<nat>, queue: seq<nat>, pc: map<nat, Pc>, pushes: seq<nat>, hands: seq<nat>)

  /** One attempt before the loop and SPIN_COUNT in it. */
  const TRIES: nat := 11

  ghost predicate Init(s: State) {
    && s.word == Unlocked && s.inner == None && s.queue == [] && s.pushes == [] && s.hands == []
    && forall t: nat {:trigger s.pc[t]} :: t in s.pc ==> s.pc[t] == Idle
  }

  function Go(s: State, t: nat, to: Pc): State { s.(pc := s.pc[t := to]) }

  /** The steps of thread t. */
  ghost predicate Step(s: State, s': State, t: nat) {
    t in s.pc &&
    match s.pc[t]
    case Idle => s' == Go(s, t, Try(TRIES))
    case Try(n) =>
      // a weak compare-and-swap may also fail on a free mutex
      || (n > 0 && s.word == Unlocked && s' == Go(s, t, Owner).(word := Locked))
      || s' == Go(s, t, if n <= 1 then WantInner else Try(n - 1))
    case WantInner => s.inner == None && s' == Go(s, t, Exchange).(inner := Some(t))
    case Exchange => s' == Go(s, t, if s.word != Unlocked then MustPush else MustLock).(word := Contested)
    case MustPush => s' == Go(s, t, Pushed).(queue := s.queue + [t], pushes := s.pushes + [t])
    case Pushed => s' == Go(s, t, Waiting).(inner := None)
    case Waiting => false
    case Woken => s.inner == None && s' == Go(s, t, HoldWoken).(inner := Some(t))
    case HoldWoken => s' == Go(s, t, Owner).(inner := None)
    case MustLock => s' == Go(s, t, HoldLocked).(word := Locked)
    case HoldLocked => s' == Go(s, t, Owner).(inner := None)
    case Owner => s' == if s.word == Locked then Go(s, t, Idle).(word := Unlocked) else Go(s, t, WantHand(s.word))
    case WantHand(seen) => s.inner == None && s' == Go(s, t, MustHand(seen)).(inner := Some(t))
    case MustHand(_) =>
      && Asserted(s, t)
      && s.queue[0] in s.pc
      && s' == Go(Go(s, t, Handed), s.queue[0], Woken).(queue := s.queue[1..], hands := s.hands + [s.queue[0]])
    case Handed => s' == Go(s, t, HoldHanded).(word := if s.queue == [] then Locked else s.word)
    case HoldHanded => s' == Go(s, t, Idle).(inner := None)
  }

  /** The two assertions at lines 45 and 46. */
  predicate Asserted(s: State, t: nat) {
    t in s.pc && s.pc[t].MustHand? ==> s.pc[t].seen == Contested && |s.queue| > 0
  }

  predicate Inside(p: Pc) {
    p.Exchange? || p.MustPush? || p.Pushed? || p.HoldWoken? || p.MustLock? || p.HoldLocked? || p.MustHand? || p.Handed? || p.HoldHanded?
  }

  /** The threads that own the mutex, from the step that gives it to them to the step that takes it away. */
  predicate Owns(p: Pc) {
    p.Owner? || p.Woken? || p.HoldWoken? || p.MustLock? || p.HoldLocked? || p.WantHand? || p.MustHand?
  }

  predicate Queued(p: Pc) { p.Pushed? || p.Waiting? }

  /** Steps between a change of the word and the matching change of the queue. */
  predicate InFlight(p: Pc) { p.MustPush? || p.MustLock? || p.Handed? }

  // ---------- the invariant ----------

  /** What the shared variables say about one thread. */
  ghost predicate Fits(s: State, owner: Option<nat>, t: nat) {
    && t in s.pc
    && (Inside(s.pc[t]) <==> s.inner == Some(t))
    && (Owns(s.pc[t]) <==> owner == Some(t))
    && (Queued(s.pc[t]) <==> t in s.queue)
    && (s.pc[t].MustLock? ==> s.queue == [])
    && (s.pc[t].WantHand? || s.pc[t].MustHand? ==> s.pc[t].seen == Contested && s.word == Contested)
  }

  ghost predicate Inv(s: State, owner: Option<nat>) {
    && (forall t: nat {:trigger Fits(s, owner, t)} :: t in s.pc ==> Fits(s, owner, t))
    && (s.inner.Some? ==> s.inner.value in s.pc) && (owner.Some? ==> owner.value in s.pc)
    && (forall i: nat {:trigger s.queue[i]} :: i < |s.queue| ==> s.queue[i] in s.pc)
    && (forall i: nat, j: nat {:trigger s.queue[i], s.queue[j]} :: i < j < |s.queue| ==> s.queue[i] != s.queue[j])
    && (s.word == Unlocked <==> owner == None)
    && (s.word == Contested <==> s.queue != [] || (s.inner.Some? && InFlight(s.pc[s.inner.value])))
    && (s.inner.Some? && s.pc[s.inner.value].Handed? ==> owner.Some? && s.pc[owner.value].Woken?)
    && s.pushes == s.hands + s.queue
  }

  /** Who owns the mutex after a step. */
  function NextOwner(s: State, s': State, owner: Option<nat>, t: nat): Option<nat> {
    if t !in s.pc || t !in s'.pc then owner
    else if Owns(s'.pc[t]) then Some(t)
    else if Owns(s.pc[t]) then (if s.pc[t].MustHand? && |s.queue| > 0 then Some(s.queue[0]) else None)
    else owner
  }

  lemma {:induction false} InitInv(s: State)
    requires Init(s)
    ensures Inv(s, None)
  {
  }

  /** The steps of mutex_acquire up to blocking. */
  predicate Entering(p: Pc) { p.Idle? || p.Try? || p.WantInner? || p.Exchange? }

  lemma {:induction false} EnteringKeeps(s: State, s': State, owner: Option<nat>, t: nat)
    requires Inv(s, owner) && Step(s, s', t) && Entering(s.pc[t])
    ensures Inv(s', NextOwner(s, s', owner, t))
  {
    if s.pc[t].Idle? || s.pc[t].Try? { TryKeeps(s, s', owner, t); } else { WaitKeeps(s, s', owner, t); }
  }

  lemma {:induction false} TryKeeps(s: State, s': State, owner: Option<nat>, t: nat)
    requires Inv(s, owner) && Step(s, s', t) && (s.pc[t].Idle? || s.pc[t].Try?)
    ensures Inv(s', NextOwner(s, s', owner, t))
  {
    var owner' := NextOwner(s, s', owner, t);
    assert Fits(s, owner, t);
    forall u: nat | u in s'.pc ensures Fits(s', owner', u) { assert Fits(s, owner, u); }
  }

  lemma {:induction false} WaitKeeps(s: State, s': State, owner: Option<nat>, t: nat)
    requires Inv(s, owner) && Step(s, s', t) && (s.pc[t].WantInner? || s.pc[t].Exchange?)
    ensures Inv(s', NextOwner(s, s', owner, t))
  {
    var owner' := NextOwner(s, s', owner, t);
    assert Fits(s, owner, t);
    forall u: nat | u in s'.pc ensures Fits(s', owner', u) { assert Fits(s, owner, u); }
  }

  lemma {:induction false} PushKeeps(s: State, s': State, owner: Option<nat>, t: nat)
    requires Inv(s, owner) && Step(s, s', t) && s.pc[t].MustPush?
    ensures Inv(s', NextOwner(s, s', owner, t))
  {
    var owner' := NextOwner(s, s', owner, t);
    assert Fits(s, owner, t);
    forall u: nat | u in s'.pc ensures Fits(s', owner', u) { assert Fits(s, owner, u); }
  }

  /** The other steps of a thread that holds the inner lock, or takes it after being woken. */
  predicate Leaving(p: Pc) { p.Pushed? || p.Woken? || p.HoldWoken? || p.MustLock? || p.HoldLocked? }

  lemma {:induction false} LeavingKeeps(s: State, s': State, owner: Option<nat>, t: nat)
    requires Inv(s, owner) && Step(s, s', t) && Leaving(s.pc[t])
    ensures Inv(s', NextOwner(s, s', owner, t))
  {
    var owner' := NextOwner(s, s', owner, t);
    assert Fits(s, owner, t);
    forall u: nat | u in s'.pc ensures Fits(s', owner', u) { assert Fits(s, owner, u); }
  }

  /** The steps of mutex_release except the hand-off. */
  predicate Releasing(p: Pc) { p.Owner? || p.WantHand? || p.Handed? || p.HoldHanded? }

  lemma {:induction false} ReleasingKeeps(s: State, s': State, owner: Option<nat>, t: nat)
    requires Inv(s, owner) && Step(s, s', t) && Releasing(s.pc[t])
    ensures Inv(s', NextOwner(s, s', owner, t))
  {
    var owner' := NextOwner(s, s', owner, t);
    assert Fits(s, owner, t);
    forall u: nat | u in s'.pc ensures Fits(s', owner', u) { assert Fits(s, owner, u); }
  }

  /** The head of the queue is a waiter, and is in the queue once. */
  lemma {:induction false} PopFacts(s: State, owner: Option<nat>, t: nat, u: nat)
    requires Inv(s, owner) && t in s.pc && s.pc[t].MustHand? && |s.queue| > 0
    ensures s.queue[0] in s.pc && s.queue[0] != t && s.queue[0] !in s.queue[1..]
    ensures u != s.queue[0] ==> (u in s.queue[1..] <==> u in s.queue)
  {
    assert Fits(s, owner, t);
    var head := s.queue[0];
    assert head in s.queue;
    assert Fits(s, owner, head);
    assert s.queue == [head] + s.queue[1..];
  }

  lemma {:induction false} HandKeeps(s: State, s': State, owner: Option<nat>, t: nat)
    requires Inv(s, owner) && Step(s, s', t) && s.pc[t].MustHand?
    ensures Inv(s', NextOwner(s, s', owner, t))
  {
    var owner' := NextOwner(s, s', owner, t);
    assert Fits(s, owner, t);
    PopFacts(s, owner, t, t);
    forall u: nat | u in s'.pc ensures Fits(s', owner', u) {
      assert Fits(s, owner, u);
      PopFacts(s, owner, t, u);
    }
    assert s.hands + s.queue == (s.hands + [s.queue[0]]) + s.queue[1..];
  }

  /** Every step keeps the invariant. */
  lemma {:induction false} StepKeeps(s: State, s': State, owner: Option<nat>, t: nat)
    requires Inv(s, owner) && Step(s, s', t)
    ensures Inv(s', NextOwner(s, s', owner, t))
  {
    var p := s.pc[t];
    if Entering(p) { EnteringKeeps(s, s', owner, t); }
    else if p.MustPush? { PushKeeps(s, s', owner, t); }
    else if Leaving(p) { LeavingKeeps(s, s', owner, t); }
    else if p.MustHand? { HandKeeps(s, s', owner, t); }
    else { ReleasingKeeps(s, s', owner, t); }
  }

  // ---------- every run ----------

  /** A run: who[i] takes the step from ss[i] to ss[i + 1]. */
  ghost predicate Run(ss: seq<State>, who: seq<nat>) {
    && |ss| == |who| + 1 && Init(ss[0])
    && forall i: nat {:trigger StepAt(ss, who, i)} :: i < |who| ==> StepAt(ss, who, i)
  }

  ghost predicate StepAt(ss: seq<State>, who: seq<nat>, i: nat) {
    i < |who| && i + 1 < |ss| && Step(ss[i], ss[i + 1], who[i])
  }

  lemma {:induction false} RunInv(ss: seq<State>, who: seq<nat>, n: nat) returns (owner: Option<nat>)
    requires Run(ss, who) && n < |ss|
    ensures Inv(ss[n], owner)
    decreases n
  {
    if n == 0 {
      InitInv(ss[0]);
      owner := None;
    } else {
      var before := RunInv(ss, who, n - 1);
      assert StepAt(ss, who, n - 1);
      StepKeeps(ss[n - 1], ss[n], before, who[n - 1]);
      owner := NextOwner(ss[n - 1], ss[n], before, who[n - 1]);
    }
  }

  /** At most one thread owns the mutex, and none exactly when the word says unlocked. */
  lemma {:induction false} MutualExclusion(ss: seq<State>, who: seq<nat>, n: nat, t: nat, u: nat)
    requires Run(ss, who) && n < |ss| && t in ss[n].pc && u in ss[n].pc
    ensures Owns(ss[n].pc[t]) && Owns(ss[n].pc[u]) ==> t == u
    ensures Owns(ss[n].pc[t]) ==> ss[n].word != Unlocked
    ensures Inside(ss[n].pc[t]) && Inside(ss[n].pc[u]) ==> t == u
  {
    var owner := RunInv(ss, who, n);
    assert Fits(ss[n], owner, t) && Fits(ss[n], owner, u);
  }

  /** While nobody is inside the inner lock, the word is contested exactly when somebody waits. */
  lemma {:induction false} QueueMeansContested(ss: seq<State>, who: seq<nat>, n: nat)
    requires Run(ss, who) && n < |ss| && ss[n].inner == None
    ensures ss[n].word == Contested <==> ss[n].queue != []
  {
    var owner := RunInv(ss, who, n);
  }

  /** The assertions of mutex_release never fail. */
  lemma {:induction false} AssertionsHold(ss: seq<State>, who: seq<nat>, n: nat, t: nat)
    requires Run(ss, who) && n < |ss|
    ensures Asserted(ss[n], t)
  {
    var owner := RunInv(ss, who, n);
    if t in ss[n].pc { assert Fits(ss[n], owner, t); }
  }

  /** The mutex is handed over in the order of the queue, and every waiter that was not yet served is still in it. */
  lemma {:induction false} FirstComeFirstServed(ss: seq<State>, who: seq<nat>, n: nat, t: nat)
    requires Run(ss, who) && n < |ss| && t in ss[n].pc
    ensures |ss[n].hands| <= |ss[n].pushes| && ss[n].hands == ss[n].pushes[..|ss[n].hands|]
    ensures Queued(ss[n].pc[t]) <==> t in ss[n].pushes[|ss[n].hands|..]
  {
    var owner := RunInv(ss, who, n);
    assert Fits(ss[n], owner, t);
    assert ss[n].pushes[|ss[n].hands|..] == ss[n].queue;
  }

  /** Earlier entries of the history stay. */
  lemma {:induction false} HistoryGrows(ss: seq<State>, who: seq<nat>, m: nat, n: nat)
    requires Run(ss, who) && m <= n < |ss|
    ensures ss[m].pushes <= ss[n].pushes && ss[m].hands <= ss[n].hands && ss[m].pc.Keys == ss[n].pc.Keys
    decreases n
  {
    if m < n {
      HistoryGrows(ss, who, m, n - 1);
      assert StepAt(ss, who, n - 1);
      var owner := RunInv(ss, who, n - 1);
      assert Fits(ss[n - 1], owner, who[n - 1]);
    }
  }

  /** A thread can take a step of its own. */
  ghost predicate Enabled(s: State, t: nat) { exists s': State :: Step(s, s', t) }

  /** The step of thread t; of a try, one that succeeds if the mutex is free. */
  function Next(s: State, t: nat): State
    requires t in s.pc
  {
    match s.pc[t]
    case Idle => Go(s, t, Try(TRIES))
    case Try(n) => if n > 0 && s.word == Unlocked then Go(s, t, Owner).(word := Locked) else Go(s, t, if n <= 1 then WantInner else Try(n - 1))
    case WantInner => Go(s, t, Exchange).(inner := Some(t))
    case Exchange => Go(s, t, if s.word != Unlocked then MustPush else MustLock).(word := Contested)
    case MustPush => Go(s, t, Pushed).(queue := s.queue + [t], pushes := s.pushes + [t])
    case Pushed => Go(s, t, Waiting).(inner := None)
    case Waiting => s
    case Woken => Go(s, t, HoldWoken).(inner := Some(t))
    case HoldWoken => Go(s, t, Owner).(inner := None)
    case MustLock => Go(s, t, HoldLocked).(word := Locked)
    case HoldLocked => Go(s, t, Owner).(inner := None)
    case Owner => if s.word == Locked then Go(s, t, Idle).(word := Unlocked) else Go(s, t, WantHand(s.word))
    case WantHand(seen) => Go(s, t, MustHand(seen)).(inner := Some(t))
    case MustHand(_) =>
      if s.queue == [] then s
      else Go(Go(s, t, Handed), s.queue[0], Woken).(queue := s.queue[1..], hands := s.hands + [s.queue[0]])
    case Handed => Go(s, t, HoldHanded).(word := if s.queue == [] then Locked else s.word)
    case HoldHanded => Go(s, t, Idle).(inner := None)
  }

  lemma {:induction false} NextIsStep(s: State, owner: Option<nat>, t: nat)
    requires Inv(s, owner) && t in s.pc && (Inside(s.pc[t]) || (s.inner == None && !s.pc[t].Waiting?))
    ensures Step(s, Next(s, t), t)
  {
    assert Fits(s, owner, t);
    if s.pc[t].MustHand? { PopFacts(s, owner, t, t); }
  }

  /** Nobody is stuck for good: while a thread is inside a call or owns the mutex, one of those threads can move. */
  lemma {:induction false} NoDeadlock(ss: seq<State>, who: seq<nat>, n: nat, t: nat) returns (u: nat)
    requires Run(ss, who) && n < |ss| && t in ss[n].pc && !ss[n].pc[t].Idle?
    ensures u in ss[n].pc && !ss[n].pc[u].Idle? && Enabled(ss[n], u)
  {
    var s := ss[n];
    var owner := RunInv(ss, who, n);
    assert Fits(s, owner, t);
    if s.inner.Some? {
      u := s.inner.value;
    } else if s.pc[t].Waiting? {
      u := owner.value;
    } else {
      u := t;
    }
    assert Fits(s, owner, u);
    NextIsStep(s, owner, u);
  }

  // ---------- everyone can be served ----------

  /** On the way through mutex_acquire, or about to call it. */
  predicate Acquiring(p: Pc) { !p.Owner? && !p.WantHand? && !p.MustHand? && !p.Handed? && !p.HoldHanded? }

  /** Who moves next for the sake of t: who holds the inner lock, else the owner if t waits, else t. */
  function Mover(s: State, owner: Option<nat>, t: nat): nat
    requires t in s.pc
  {
    if s.inner.Some? then s.inner.value else if s.pc[t].Waiting? && owner.Some? then owner.value else t
  }

  /** How far a thread is from owning the mutex. */
  function Stage(p: Pc): nat {
    match p
    case Idle => 40
    case Try(n) => 13 + n
    case WantInner => 12
    case Exchange => 11
    case MustPush => 10
    case Pushed => 9
    case Waiting => 8
    case Woken => 7
    case MustLock => 6
    case HoldWoken => 5
    case HoldLocked => 5
    case Owner => 4
    case WantHand(_) => 3
    case MustHand(_) => 2
    case Handed => 1
    case HoldHanded => 0
  }

  function Position(q: seq<nat>, t: nat): (n: nat)
    ensures n <= |q|
  {
    if q == [] || q[0] == t then 0 else 1 + Position(q[1..], t)
  }

  /** Who is ahead of t in the queue, if t waits. */
  function Ahead(s: State, t: nat): nat { if t in s.pc && s.pc[t].Waiting? then Position(s.queue, t) else 0 }

  /** What the owner has still to do before it hands over, if t waits for that. */
  function OwnerLeft(s: State, owner: Option<nat>, t: nat): nat {
    if t in s.pc && s.pc[t].Waiting? && owner.Some? && owner.value in s.pc then Stage(s.pc[owner.value]) else 0
  }

  /** What has still to be done inside the inner lock. */
  function InnerLeft(s: State): nat {
    if s.inner.Some? && s.inner.value in s.pc then Stage(s.pc[s.inner.value]) + 1 else 0
  }

  /** Smaller in one of the four measures, and no larger in those before it. */
  predicate Closer(s: State, owner: Option<nat>, s': State, owner': Option<nat>, t: nat)
    requires t in s.pc && t in s'.pc
  {
    || Stage(s'.pc[t]) < Stage(s.pc[t])
    || (Stage(s'.pc[t]) == Stage(s.pc[t]) &&
        (|| Ahead(s', t) < Ahead(s, t)
         || (Ahead(s', t) == Ahead(s, t) &&
             (|| OwnerLeft(s', owner', t) < OwnerLeft(s, owner, t)
              || (OwnerLeft(s', owner', t) == OwnerLeft(s, owner, t) && InnerLeft(s') < InnerLeft(s))))))
  }

  lemma {:induction false} PositionBehind(q: seq<nat>, t: nat, u: nat)
    requires t in q
    ensures Position(q + [u], t) == Position(q, t)
  {
    if q[0] != t {
      assert (q + [u])[1..] == q[1..] + [u];
      PositionBehind(q[1..], t, u);
    }
  }

  /** A step of t itself brings it closer. */
  lemma {:induction false} OwnProgress(s: State, owner: Option<nat>, t: nat)
    requires Inv(s, owner) && t in s.pc && Acquiring(s.pc[t]) && !s.pc[t].Waiting?
    requires s.inner.None? || s.inner.value == t
    ensures Stage(Next(s, t).pc[t]) < Stage(s.pc[t]) && (Acquiring(Next(s, t).pc[t]) || Next(s, t).pc[t] == Owner)
  {
    assert Fits(s, owner, t);
  }

  /** A step inside the inner lock brings its release closer. */
  lemma {:induction false} InnerProgress(s: State, owner: Option<nat>, t: nat, u: nat)
    requires Inv(s, owner) && t in s.pc && Acquiring(s.pc[t]) && u in s.pc && s.inner == Some(u) && u != t && !s.pc[u].MustHand?
    ensures var s' := Next(s, u); t in s'.pc && Closer(s, owner, s', NextOwner(s, s', owner, u), t) && Acquiring(s'.pc[t])
  {
    assert Fits(s, owner, t) && Fits(s, owner, u);
    var s' := Next(s, u);
    assert s'.pc[t] == s.pc[t] && (s'.inner == None || Stage(s'.pc[u]) < Stage(s.pc[u]));
    assert Ahead(s', t) == Ahead(s, t) by { if s.pc[u].MustPush? && s.pc[t].Waiting? { PositionBehind(s.queue, t, u); } }
    if s.pc[t].Waiting? { SameOwner(s, owner, t, u); }
  }

  /** While somebody waits, the owner stays the owner until it hands over, and is no farther from that. */
  lemma {:induction false} SameOwner(s: State, owner: Option<nat>, t: nat, u: nat)
    requires Inv(s, owner) && t in s.pc && s.pc[t].Waiting? && u in s.pc && s.inner == Some(u) && !s.pc[u].MustHand?
    ensures var s' := Next(s, u); NextOwner(s, s', owner, u) == owner && OwnerLeft(s', owner, t) <= OwnerLeft(s, owner, t)
  {
    assert Fits(s, owner, t) && Fits(s, owner, u);
    assert Fits(s, owner, owner.value);
  }

  /** The hand-over serves t or one thread ahead of it, or ends the wait of another. */
  lemma {:induction false} HandProgress(s: State, owner: Option<nat>, t: nat, u: nat)
    requires Inv(s, owner) && t in s.pc && Acquiring(s.pc[t]) && u in s.pc && s.inner == Some(u) && u != t && s.pc[u].MustHand?
    ensures var s' := Next(s, u); t in s'.pc && Closer(s, owner, s', NextOwner(s, s', owner, u), t) && Acquiring(s'.pc[t])
  {
    assert Fits(s, owner, t) && Fits(s, owner, u);
    PopFacts(s, owner, u, t);
  }

  /** While t waits and the inner lock is free, a step of the owner brings the hand-over closer. */
  lemma {:induction false} OwnerProgress(s: State, owner: Option<nat>, t: nat)
    requires Inv(s, owner) && t in s.pc && s.pc[t].Waiting? && s.inner.None?
    ensures owner.Some? && owner.value in s.pc && !s.pc[owner.value].Waiting?
    ensures var s' := Next(s, owner.value); t in s'.pc && Closer(s, owner, s', NextOwner(s, s', owner, owner.value), t) && Acquiring(s'.pc[t])
  {
    assert Fits(s, owner, t);
    assert Fits(s, owner, owner.value);
  }

  lemma {:induction false} Progress(s: State, owner: Option<nat>, t: nat)
    requires Inv(s, owner) && t in s.pc && Acquiring(s.pc[t])
    ensures var u := Mover(s, owner, t); u in s.pc && Step(s, Next(s, u), u)
    ensures var s' := Next(s, Mover(s, owner, t));
      && t in s'.pc && Closer(s, owner, s', NextOwner(s, s', owner, Mover(s, owner, t)), t) && (Acquiring(s'.pc[t]) || s'.pc[t] == Owner)
  {
    var u := Mover(s, owner, t);
    assert Fits(s, owner, t);
    if s.inner.Some? {
      assert Fits(s, owner, u);
      if u == t { OwnProgress(s, owner, t); }
      else if s.pc[u].MustHand? { HandProgress(s, owner, t, u); }
      else { InnerProgress(s, owner, t, u); }
    } else if s.pc[t].Waiting? {
      OwnerProgress(s, owner, t);
    } else {
      OwnProgress(s, owner, t);
    }
    NextIsStep(s, owner, u);
  }

  lemma {:induction false} RunThen(ss: seq<State>, who: seq<nat>, s': State, u: nat)
    requires Run(ss, who) && Step(ss[|who|], s', u)
    ensures Run(ss + [s'], who + [u])
  {
    var ss', who' := ss + [s'], who + [u];
    forall i: nat | i < |who'| ensures StepAt(ss', who', i) {
      if i < |who| { assert StepAt(ss, who, i); }
    }
  }

  /** Nobody is shut out: every run can be continued so that a given thread comes to own the mutex. */
  lemma {:induction false} CanAcquire(ss0: seq<State>, who0: seq<nat>, t: nat) returns (ss: seq<State>, who: seq<nat>)
    requires Run(ss0, who0) && t in ss0[|who0|].pc && Acquiring(ss0[|who0|].pc[t])
    ensures Run(ss, who) && ss0 <= ss && who0 <= who && t in ss[|who|].pc && ss[|who|].pc[t] == Owner
  {
    ss, who := ss0, who0;
    var owner := RunInv(ss, who, |who|);
    var s := ss[|who|];
    while s.pc[t] != Owner
      invariant Run(ss, who) && ss0 <= ss && who0 <= who && s == ss[|who|] && t in s.pc && Inv(s, owner)
      invariant Acquiring(s.pc[t]) || s.pc[t] == Owner
      decreases Stage(s.pc[t]), Ahead(s, t), OwnerLeft(s, owner, t), InnerLeft(s)
    {
      Progress(s, owner, t);
      var u := Mover(s, owner, t);
      var s' := Next(s, u);
      StepKeeps(s, s', owner, u);
      RunThen(ss, who, s', u);
      ss, who, owner, s := ss + [s'], who + [u], NextOwner(s, s', owner, u), s';
    }
  }
}
