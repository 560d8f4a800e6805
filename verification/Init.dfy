/**
 Initialisation targets (sys/init.c): a target runs after the targets of its stage that it
 names. `ran` records the calls of the targets' functions, in order.
 */
module Init {
  import opened Basics

  datatype Scope = Bsp | Aps | All

  datatype Target = Target(name: string, stage: nat, scope: Scope, deps: seq<string>)

  /** DO_TARGET */
  predicate InScope(t: Target, isAp: bool) { t.scope == All || (isAp && t.scope == Aps) || (!isAp && t.scope == Bsp) }

  /** The first target of a stage with a name. */
  function Find(ts: seq<Target>, stage: nat, name: string): (r: Option<nat>)
    ensures r.Some? ==> r.value < |ts| && ts[r.value].stage == stage && ts[r.value].name == name
    ensures r.Some? ==> forall k: nat :: k < r.value ==> !(ts[k].stage == stage && ts[k].name == name)
    ensures r.None? ==> forall t :: t in ts ==> !(t.stage == stage && t.name == name)
  {
    FindFrom(ts, stage, name, 0)
  }

  function FindFrom(ts: seq<Target>, stage: nat, name: string, i: nat): (r: Option<nat>)
    requires i <= |ts|
    ensures r.Some? ==> i <= r.value < |ts| && ts[r.value].stage == stage && ts[r.value].name == name
    ensures r.Some? ==> forall k: nat :: i <= k < r.value ==> !(ts[k].stage == stage && ts[k].name == name)
    ensures r.None? ==> forall k: nat :: i <= k < |ts| ==> !(ts[k].stage == stage && ts[k].name == name)
    decreases |ts| - i
  {
    if i == |ts| then None
    else if ts[i].stage == stage && ts[i].name == name then Some(i)
    else FindFrom(ts, stage, name, i + 1)
  }

  /** Dependency k of target i, if it is known. */
  function Dep(ts: seq<Target>, i: nat, k: nat): Option<nat>
    requires i < |ts| && k < |ts[i].deps|
  {
    Find(ts, ts[i].stage, ts[i].deps[k])
  }

  ghost predicate Lower(ts: seq<Target>, rank: seq<nat>, i: nat, k: nat)
    requires |rank| == |ts|
  {
    i < |ts| && k < |ts[i].deps| && (Dep(ts, i, k).Some? ==> rank[Dep(ts, i, k).value] < rank[i])
  }

  /** The known dependencies have no cycle: each is ranked below its target. */
  ghost predicate Acyclic(ts: seq<Target>, rank: seq<nat>) {
    |rank| == |ts| && forall i: nat, k: nat {:trigger Lower(ts, rank, i, k)} :: i < |ts| && k < |ts[i].deps| ==> Lower(ts, rank, i, k)
  }

  /** The known targets that the first k dependencies of target i lead to, directly or through others. */
  ghost function Needs(ts: seq<Target>, rank: seq<nat>, i: nat, k: nat): set<nat>
    requires Acyclic(ts, rank) && i < |ts| && k <= |ts[i].deps|
    decreases rank[i], k
  {
    if k == 0 then {}
    else
      assert Lower(ts, rank, i, k - 1);
      Needs(ts, rank, i, k - 1) + match Dep(ts, i, k - 1) case None => {} case Some(j) => {j} + AllNeeds(ts, rank, j)
  }

  ghost function AllNeeds(ts: seq<Target>, rank: seq<nat>, i: nat): set<nat>
    requires Acyclic(ts, rank) && i < |ts|
    decreases rank[i], |ts[i].deps| + 1
  {
    Needs(ts, rank, i, |ts[i].deps|)
  }

  /** Target j is the one of target i's stage that some name in its dependencies stands for. */
  ghost predicate DependsOn(ts: seq<Target>, i: nat, j: nat) {
    i < |ts| && exists k: nat :: k < |ts[i].deps| && Find(ts, ts[i].stage, ts[i].deps[k]) == Some(j)
  }

  /** A target needs exactly the targets it names, and what those need. */
  lemma {:induction false} NeedsExactly(ts: seq<Target>, rank: seq<nat>, i: nat, d: nat)
    requires Acyclic(ts, rank) && i < |ts|
    ensures d in AllNeeds(ts, rank, i) <==> exists j: nat :: DependsOn(ts, i, j) && j < |ts| && (d == j || d in AllNeeds(ts, rank, j))
  {
    NeedsUpTo(ts, rank, i, |ts[i].deps|, d);
    if d in AllNeeds(ts, rank, i) {
      var k: nat :| k < |ts[i].deps| && NeededBy(ts, rank, i, k, d);
      assert DependsOn(ts, i, Dep(ts, i, k).value);
    }
    forall j: nat | DependsOn(ts, i, j) && j < |ts| && (d == j || d in AllNeeds(ts, rank, j)) ensures d in AllNeeds(ts, rank, i) {
      var k: nat :| k < |ts[i].deps| && Find(ts, ts[i].stage, ts[i].deps[k]) == Some(j);
      assert NeededBy(ts, rank, i, k, d);
    }
  }

  ghost predicate NeededBy(ts: seq<Target>, rank: seq<nat>, i: nat, k: nat, d: nat)
    requires Acyclic(ts, rank)
  {
    i < |ts| && k < |ts[i].deps| && Dep(ts, i, k).Some? && (d == Dep(ts, i, k).value || d in AllNeeds(ts, rank, Dep(ts, i, k).value))
  }

  lemma {:induction false} NeedsUpTo(ts: seq<Target>, rank: seq<nat>, i: nat, n: nat, d: nat)
    requires Acyclic(ts, rank) && i < |ts| && n <= |ts[i].deps|
    ensures d in Needs(ts, rank, i, n) <==> exists k: nat :: k < n && NeededBy(ts, rank, i, k, d)
    decreases n
  {
    if n > 0 {
      assert Lower(ts, rank, i, n - 1);
      NeedsUpTo(ts, rank, i, n - 1, d);
      assert NeededBy(ts, rank, i, n - 1, d) || !NeededBy(ts, rank, i, n - 1, d);
      if d in Needs(ts, rank, i, n - 1) {
        var k: nat :| k < n - 1 && NeededBy(ts, rank, i, k, d);
      }
    }
  }

  lemma {:induction false} NeedsInStage(ts: seq<Target>, rank: seq<nat>, i: nat, k: nat, d: nat)
    requires Acyclic(ts, rank) && i < |ts| && k <= |ts[i].deps| && d in Needs(ts, rank, i, k)
    ensures d < |ts| && ts[d].stage == ts[i].stage && rank[d] < rank[i]
    decreases rank[i], k
  {
    assert Lower(ts, rank, i, k - 1);
    if d in Needs(ts, rank, i, k - 1) {
      NeedsInStage(ts, rank, i, k - 1, d);
    } else {
      var j := Dep(ts, i, k - 1).value;
      if d != j { NeedsInStage(ts, rank, j, |ts[j].deps|, d); }
    }
  }

  lemma {:induction false} NeedsNext(ts: seq<Target>, rank: seq<nat>, i: nat, k: nat, j: nat)
    requires Acyclic(ts, rank) && i < |ts| && k < |ts[i].deps| && Dep(ts, i, k) == Some(j)
    ensures Needs(ts, rank, i, k + 1) == Needs(ts, rank, i, k) + (AllNeeds(ts, rank, j) + {j})
  {
    assert Lower(ts, rank, i, k);
  }

  /** All that a target needs and is in scope was complete before, or ran before it. */
  ghost predicate InOrder(ts: seq<Target>, rank: seq<nat>, isAp: bool, was: seq<bool>, ext: seq<nat>, p: nat)
    requires Acyclic(ts, rank) && |was| == |ts|
  {
    && p < |ext| && ext[p] < |ts|
    && forall d: nat :: d in AllNeeds(ts, rank, ext[p]) && d < |ts| && InScope(ts[d], isAp) ==> was[d] || d in ext[..p]
  }

  /** A stretch of the initialisation that has to complete the targets in `s` ran exactly the functions in `ext`. */
  ghost predicate Ran(ts: seq<Target>, rank: seq<nat>, isAp: bool, s: set<nat>, was: seq<bool>, now: seq<bool>, ext: seq<nat>)
    requires Acyclic(ts, rank)
  {
    && |was| == |now| == |ts|
    && (forall j: nat {:trigger now[j]} :: j < |ts| ==> (now[j] <==> was[j] || j in ext))
    && NoDup(ext) && (forall j: nat {:trigger j in ext} :: j in ext ==> j in s && j < |ts| && InScope(ts[j], isAp) && !was[j])
    && (forall j: nat {:trigger j in s} :: j in s ==> j < |ts| && (InScope(ts[j], isAp) ==> now[j]))
    && (forall p: nat {:trigger InOrder(ts, rank, isAp, was, ext, p)} :: p < |ext| ==> InOrder(ts, rank, isAp, was, ext, p))
  }

  lemma {:induction false} RanNothing(ts: seq<Target>, rank: seq<nat>, isAp: bool, was: seq<bool>)
    requires Acyclic(ts, rank) && |was| == |ts|
    ensures Ran(ts, rank, isAp, {}, was, was, [])
  {
  }

  lemma {:induction false} RanThen(ts: seq<Target>, rank: seq<nat>, isAp: bool, s1: set<nat>, s2: set<nat>,
                                   was: seq<bool>, mid: seq<bool>, now: seq<bool>, e1: seq<nat>, e2: seq<nat>)
    requires Acyclic(ts, rank) && Ran(ts, rank, isAp, s1, was, mid, e1) && Ran(ts, rank, isAp, s2, mid, now, e2)
    ensures Ran(ts, rank, isAp, s1 + s2, was, now, e1 + e2)
  {
    var ext := e1 + e2;
    forall j: nat | j in e2 ensures j !in e1 { assert !mid[j]; }
    assert NoDup(ext) by {
      forall p: nat, q: nat | p < q < |ext| ensures ext[p] != ext[q] {
        if q >= |e1| && p < |e1| { assert ext[p] in e1 && ext[q] == e2[q - |e1|]; }
      }
    }
    forall j: nat | j in ext ensures j in s1 + s2 && j < |ts| && InScope(ts[j], isAp) && !was[j] {
      if j in e2 { assert !mid[j]; }
    }
    forall j: nat | j in s1 + s2 ensures j < |ts| && (InScope(ts[j], isAp) ==> now[j]) {
      if j in s1 && InScope(ts[j], isAp) { assert mid[j]; }
    }
    forall p: nat | p < |ext| ensures InOrder(ts, rank, isAp, was, ext, p) {
      if p < |e1| {
        assert ext[p] == e1[p] && InOrder(ts, rank, isAp, was, e1, p) && ext[..p] == e1[..p];
      } else {
        var q: nat := p - |e1|;
        assert ext[p] == e2[q] && InOrder(ts, rank, isAp, mid, e2, q) && ext[..p] == e1 + e2[..q];
      }
    }
  }

  /** The last lines of run_target. */
  lemma {:induction false} RanSelf(ts: seq<Target>, rank: seq<nat>, isAp: bool, i: nat, was: seq<bool>, mid: seq<bool>, e: seq<nat>)
    requires Acyclic(ts, rank) && i < |ts| && Ran(ts, rank, isAp, AllNeeds(ts, rank, i), was, mid, e)
    ensures Ran(ts, rank, isAp, AllNeeds(ts, rank, i) + {i}, was,
                if InScope(ts[i], isAp) then mid[i := true] else mid,
                if InScope(ts[i], isAp) && !mid[i] then e + [i] else e)
  {
    var runs := InScope(ts[i], isAp) && !mid[i];
    var ext, now := if runs then e + [i] else e, if InScope(ts[i], isAp) then mid[i := true] else mid;
    if i in AllNeeds(ts, rank, i) { NeedsInStage(ts, rank, i, |ts[i].deps|, i); }
    if runs { assert i !in e; }
    forall p: nat | p < |ext| ensures InOrder(ts, rank, isAp, was, ext, p) {
      if p < |e| {
        assert ext[p] == e[p] && InOrder(ts, rank, isAp, was, e, p) && ext[..p] == e[..p];
      } else {
        assert ext[..p] == e;
        forall d: nat | d in AllNeeds(ts, rank, i) && d < |ts| && InScope(ts[d], isAp) ensures was[d] || d in e { assert mid[d]; }
      }
    }
  }

  class Targets {
    const ts: seq<Target>
    var completed: seq<bool>
    var current: nat
    var ran: seq<nat>

    ghost predicate Valid() reads this { |completed| == |ts| }

    constructor (ts: seq<Target>)
      ensures Valid() && this.ts == ts && current == 0 && ran == [] && forall i: nat :: i < |ts| ==> !completed[i]
    {
      this.ts := ts;
      completed := seq(|ts|, _ => false);
      current, ran := 0, [];
    }

    method FindTarget(stage: nat, name: string) returns (r: Option<nat>)
      ensures r == Find(ts, stage, name)
    {
      var i := 0;
      while i < |ts|
        invariant 0 <= i <= |ts| && Find(ts, stage, name) == FindFrom(ts, stage, name, i)
      {
        if ts[i].stage == stage && ts[i].name == name { return Some(i); }
        i := i + 1;
      }
      return None;
    }

    /** Run a target after everything it needs. */
    method RunTarget(i: nat, isAp: bool, ghost rank: seq<nat>) returns (ghost ext: seq<nat>)
      requires Valid() && i < |ts| && Acyclic(ts, rank)
      modifies this`completed, this`ran
      ensures Valid() && ran == old(ran) + ext
      ensures Ran(ts, rank, isAp, AllNeeds(ts, rank, i) + {i}, old(completed), completed, ext)
      decreases rank[i], 1
    {
      ext := [];
      RanNothing(ts, rank, isAp, completed);
      var k := 0;
      while k < |ts[i].deps|
        invariant 0 <= k <= |ts[i].deps| && Valid() && ran == old(ran) + ext
        invariant Ran(ts, rank, isAp, Needs(ts, rank, i, k), old(completed), completed, ext)
        decreases |ts[i].deps| - k
      {
        ext := RunDependency(i, k, isAp, rank, old(completed), ext);
        k := k + 1;
      }
      ext := RunSelf(i, isAp, rank, old(completed), ext);
    }

    /** One turn of the loop at 44-51; `was` and `before` are what was complete and what has run since the call. */
    method RunDependency(i: nat, k: nat, isAp: bool, ghost rank: seq<nat>, ghost was: seq<bool>, ghost before: seq<nat>) returns (ghost ext: seq<nat>)
      requires Valid() && i < |ts| && Acyclic(ts, rank) && k < |ts[i].deps|
      requires Ran(ts, rank, isAp, Needs(ts, rank, i, k), was, completed, before)
      modifies this`completed, this`ran
      ensures Valid() && before <= ext && ran == old(ran) + ext[|before|..]
      ensures Ran(ts, rank, isAp, Needs(ts, rank, i, k + 1), was, completed, ext)
      decreases rank[i], 0
    {
      var dep := FindTarget(ts[i].stage, ts[i].deps[k]);
      assert Lower(ts, rank, i, k) && dep == Dep(ts, i, k);
      ext := before;
      if dep.Some? {
        ghost var mid := completed;
        ghost var more := RunTarget(dep.value, isAp, rank);
        RanThen(ts, rank, isAp, Needs(ts, rank, i, k), AllNeeds(ts, rank, dep.value) + {dep.value}, was, mid, completed, before, more);
        NeedsNext(ts, rank, i, k, dep.value);
        ext := before + more;
      }
    }

    /** The last lines of run_target. */
    method RunSelf(i: nat, isAp: bool, ghost rank: seq<nat>, ghost was: seq<bool>, ghost before: seq<nat>) returns (ghost ext: seq<nat>)
      requires Valid() && i < |ts| && Acyclic(ts, rank)
      requires Ran(ts, rank, isAp, AllNeeds(ts, rank, i), was, completed, before)
      modifies this`completed, this`ran
      ensures Valid() && before <= ext && ran == old(ran) + ext[|before|..]
      ensures Ran(ts, rank, isAp, AllNeeds(ts, rank, i) + {i}, was, completed, ext)
    {
      RanSelf(ts, rank, isAp, i, was, completed, before);
      ext := before;
      if !InScope(ts[i], isAp) || completed[i] {
        assert InScope(ts[i], isAp) ==> completed[i := true] == completed;
        return;
      }
      completed := completed[i := true];
      ran := ran + [i];
      ext := ext + [i];
    }

    /** Make the targets that APs run ready for the next one. */
    method ResetAp()
      requires Valid()
      modifies this`completed, this`current
      ensures Valid() && current == 0
      ensures forall i: nat {:trigger completed[i]} :: i < |ts| ==> completed[i] == if InScope(ts[i], true) then false else old(completed)[i]
    {
      current := 0;
      var i := 0;
      while i < |ts|
        invariant 0 <= i <= |ts| && Valid() && current == 0
        invariant forall j: nat {:trigger completed[j]} :: j < |ts| ==> completed[j] == if j < i && InScope(ts[j], true) then false else old(completed)[j]
      {
        if InScope(ts[i], true) { completed := completed[i := false]; }
        i := i + 1;
      }
    }

    /** Run every target of a stage. */
    method RunStage(stage: nat, isAp: bool, ghost rank: seq<nat>) returns (ghost ext: seq<nat>)
      requires Valid() && Acyclic(ts, rank) && stage >= current
      modifies this`completed, this`ran, this`current
      ensures Valid() && current == stage && ran == old(ran) + ext
      ensures StageRan(ts, rank, isAp, stage, old(completed), completed, ext)
    {
      current := stage;
      ext := [];
      RanNothing(ts, rank, isAp, completed);
      var i := 0;
      ghost var s: set<nat> := {};
      while i < |ts|
        invariant 0 <= i <= |ts| && Valid() && current == stage && ran == old(ran) + ext
        invariant Ran(ts, rank, isAp, s, old(completed), completed, ext)
        invariant forall j: nat :: j < i && ts[j].stage == stage ==> j in s
        invariant forall j: nat :: j in s ==> j < |ts| && ts[j].stage == stage
      {
        if ts[i].stage == stage {
          ghost var mid := completed;
          ghost var more := RunTarget(i, isAp, rank);
          RanThen(ts, rank, isAp, s, AllNeeds(ts, rank, i) + {i}, old(completed), mid, completed, ext, more);
          forall j: nat | j in AllNeeds(ts, rank, i) ensures j < |ts| && ts[j].stage == stage { NeedsInStage(ts, rank, i, |ts[i].deps|, j); }
          s := s + (AllNeeds(ts, rank, i) + {i});
          assert old(ran) + ext + more == old(ran) + (ext + more);
          ext := ext + more;
        }
        i := i + 1;
      }
    }

    /** The next stage of a processor that started from `was` with `before` behind it. */
    method NextStage(stage: nat, isAp: bool, ghost rank: seq<nat>, ghost was: seq<bool>, ghost before: seq<nat>, ghost cs0: seq<seq<bool>>, ghost exts0: seq<seq<nat>>)
      returns (ghost cs: seq<seq<bool>>, ghost exts: seq<seq<nat>>)
      requires Valid() && Acyclic(ts, rank) && stage == |exts0| >= current
      requires BringUp(ts, rank, isAp, cs0, exts0) && cs0[0] == was && cs0[|exts0|] == completed && ran == before + Flat(exts0)
      modifies this`completed, this`ran, this`current
      ensures Valid() && current == stage && |exts| == stage + 1
      ensures BringUp(ts, rank, isAp, cs, exts) && cs[0] == was && cs[|exts|] == completed && ran == before + Flat(exts)
    {
      ghost var ext := RunStage(stage, isAp, rank);
      BringUpThen(ts, rank, isAp, cs0, exts0, completed, ext);
      cs, exts := cs0 + [completed], exts0 + [ext];
    }

    /** The seven stages of one processor (init_ap; the boot processor's calls in the kernel's entry). */
    method RunStages(isAp: bool, ghost rank: seq<nat>) returns (ghost cs: seq<seq<bool>>, ghost exts: seq<seq<nat>>)
      requires Valid() && Acyclic(ts, rank) && current == 0
      modifies this`completed, this`ran, this`current
      ensures Valid() && |exts| == STAGES && BringUp(ts, rank, isAp, cs, exts)
      ensures cs[0] == old(completed) && ran == old(ran) + Flat(exts)
    {
      ghost var was, before := completed, ran;
      cs, exts := [was], [];
      cs, exts := NextStage(0, isAp, rank, was, before, cs, exts);
      cs, exts := NextStage(1, isAp, rank, was, before, cs, exts);
      cs, exts := NextStage(2, isAp, rank, was, before, cs, exts);
      cs, exts := NextStage(3, isAp, rank, was, before, cs, exts);
      cs, exts := NextStage(4, isAp, rank, was, before, cs, exts);
      cs, exts := NextStage(5, isAp, rank, was, before, cs, exts);
      cs, exts := NextStage(6, isAp, rank, was, before, cs, exts);
    }

    /** One turn of the loop at arch/x86_64/init.c:186-198: reset the targets and wait for the AP. */
    method StartAp(ghost rank: seq<nat>) returns (ghost run: seq<nat>)
      requires Valid() && Acyclic(ts, rank)
      modifies this`completed, this`ran, this`current
      ensures Valid() && ran == old(ran) + run && Complete(ts, rank, true, STAGES, run)
    {
      ResetAp();
      ghost var cs, exts := RunStages(true, rank);
      run := Flat(exts);
      StagesComplete(ts, rank, true, cs, exts);
    }

    /** The whole machine: the boot processor's stages, then one AP after the other. `usable` are the processors that did not fail. */
    method Boot(usable: seq<bool>, bsp: nat, ghost rank: seq<nat>) returns (ghost runs: seq<seq<nat>>)
      requires Valid() && Acyclic(ts, rank) && current == 0 && ran == [] && forall i: nat :: i < |ts| ==> !completed[i]
      modifies this`completed, this`ran, this`current
      ensures Valid() && ran == Flat(runs) && |runs| == 1 + Others(usable, bsp, |usable|)
      ensures Booted(ts, rank, runs)
      ensures forall j: nat {:trigger multiset(ran)[j]} :: multiset(ran)[j] == if j < |ts| && ts[j].stage < STAGES then Times(ts[j].scope, Others(usable, bsp, |usable|)) else 0
    {
      ghost var cs, exts := RunStages(false, rank);
      StagesComplete(ts, rank, false, cs, exts);
      runs := [Flat(exts)];
      assert Flat(runs) == ran by { assert runs[..0] == []; }
      var i := 0;
      while i < |usable|
        invariant 0 <= i <= |usable| && Valid() && ran == Flat(runs) && |runs| == 1 + Others(usable, bsp, i)
        invariant Booted(ts, rank, runs)
      {
        if usable[i] && i != bsp {
          ghost var run := StartAp(rank);
          assert (runs + [run])[..|runs|] == runs;
          runs := runs + [run];
        }
        i := i + 1;
      }
      forall j: nat ensures multiset(ran)[j] == if j < |ts| && ts[j].stage < STAGES then Times(ts[j].scope, Others(usable, bsp, |usable|)) else 0 {
        TimesRun(ts, rank, runs, j);
      }
    }
  }

  /** One stage: `ext` is each target of the stage that is in scope and was not complete, exactly once, after what it needs. */
  ghost predicate StageRan(ts: seq<Target>, rank: seq<nat>, isAp: bool, stage: nat, was: seq<bool>, now: seq<bool>, ext: seq<nat>)
    requires Acyclic(ts, rank)
  {
    && |was| == |now| == |ts| && NoDup(ext)
    && (forall j: nat {:trigger j in ext} :: j in ext <==> j < |ts| && ts[j].stage == stage && InScope(ts[j], isAp) && !was[j])
    && (forall j: nat {:trigger now[j]} :: j < |ts| ==> (now[j] <==> was[j] || j in ext))
    && (forall p: nat {:trigger InOrder(ts, rank, isAp, was, ext, p)} :: p < |ext| ==> InOrder(ts, rank, isAp, was, ext, p))
  }

  // ---------- bringing up a processor ----------

  /** INIT_STAGE_BOOT to INIT_STAGE_LATE */
  const STAGES: nat := 7

  function Flat(runs: seq<seq<nat>>): seq<nat> {
    if runs == [] then [] else Flat(runs[..|runs| - 1]) + runs[|runs| - 1]
  }

  /** The stages of one processor, in order: cs[k] is what was complete before stage k, exts[k] what stage k ran. */
  ghost predicate BringUp(ts: seq<Target>, rank: seq<nat>, isAp: bool, cs: seq<seq<bool>>, exts: seq<seq<nat>>)
    requires Acyclic(ts, rank)
  {
    |cs| == |exts| + 1 && forall k: nat {:trigger StageAt(ts, rank, isAp, cs, exts, k)} :: k < |exts| ==> StageAt(ts, rank, isAp, cs, exts, k)
  }

  ghost predicate StageAt(ts: seq<Target>, rank: seq<nat>, isAp: bool, cs: seq<seq<bool>>, exts: seq<seq<nat>>, k: nat)
    requires Acyclic(ts, rank)
  {
    k < |exts| && k + 1 < |cs| && StageRan(ts, rank, isAp, k, cs[k], cs[k + 1], exts[k])
  }

  /** Stages before its own leave a target alone. */
  lemma {:induction false} UntilItsStage(ts: seq<Target>, rank: seq<nat>, isAp: bool, cs: seq<seq<bool>>, exts: seq<seq<nat>>, k: nat, j: nat)
    requires Acyclic(ts, rank) && BringUp(ts, rank, isAp, cs, exts) && |cs[0]| == |ts| && j < |ts| && k <= |exts| && k <= ts[j].stage
    ensures |cs[k]| == |ts| && cs[k][j] == cs[0][j]
  {
    if k > 0 {
      UntilItsStage(ts, rank, isAp, cs, exts, k - 1, j);
      assert StageAt(ts, rank, isAp, cs, exts, k - 1);
      assert cs[k][j] <==> cs[k - 1][j] || j in exts[k - 1];
    }
  }

  /** Each target that is in scope and was not complete at the start runs exactly once, in its own stage; no other target runs. */
  lemma {:induction false} EachRunsOnce(ts: seq<Target>, rank: seq<nat>, isAp: bool, cs: seq<seq<bool>>, exts: seq<seq<nat>>, j: nat, k: nat)
    requires Acyclic(ts, rank) && BringUp(ts, rank, isAp, cs, exts) && |cs[0]| == |ts| && k < |exts|
    ensures NoDup(exts[k])
    ensures j in exts[k] <==> j < |ts| && ts[j].stage == k && InScope(ts[j], isAp) && !cs[0][j]
  {
    assert StageAt(ts, rank, isAp, cs, exts, k);
    if j < |ts| && ts[j].stage == k { UntilItsStage(ts, rank, isAp, cs, exts, k, j); }
  }

  /** After a reset, an AP runs each of its targets exactly once, and never one of the boot processor alone. */
  lemma {:induction false} EachApRunsAll(ts: seq<Target>, rank: seq<nat>, cs: seq<seq<bool>>, exts: seq<seq<nat>>, j: nat, k: nat)
    requires Acyclic(ts, rank) && BringUp(ts, rank, true, cs, exts) && |cs[0]| == |ts| && k < |exts|
    requires forall i: nat {:trigger cs[0][i]} :: i < |ts| && InScope(ts[i], true) ==> !cs[0][i]
    ensures NoDup(exts[k])
    ensures j in exts[k] <==> j < |ts| && ts[j].stage == k && ts[j].scope != Bsp
  {
    EachRunsOnce(ts, rank, true, cs, exts, j, k);
  }

  lemma {:induction false} BringUpThen(ts: seq<Target>, rank: seq<nat>, isAp: bool, cs: seq<seq<bool>>, exts: seq<seq<nat>>, now: seq<bool>, ext: seq<nat>)
    requires Acyclic(ts, rank) && BringUp(ts, rank, isAp, cs, exts) && StageRan(ts, rank, isAp, |exts|, cs[|exts|], now, ext)
    ensures BringUp(ts, rank, isAp, cs + [now], exts + [ext]) && Flat(exts + [ext]) == Flat(exts) + ext
  {
    var cs', exts' := cs + [now], exts + [ext];
    assert exts'[..|exts|] == exts;
    forall k: nat | k < |exts'| ensures StageAt(ts, rank, isAp, cs', exts', k) {
      if k < |exts| { assert StageAt(ts, rank, isAp, cs, exts, k); }
    }
  }

  /** At position p everything in scope that the target needs, and every earlier stage, is behind it. */
  ghost predicate InTurn(ts: seq<Target>, rank: seq<nat>, isAp: bool, ext: seq<nat>, p: nat)
    requires Acyclic(ts, rank)
  {
    && p < |ext| && ext[p] < |ts|
    && forall d: nat {:trigger d in ext[..p]} :: d < |ts| && InScope(ts[d], isAp) && (d in AllNeeds(ts, rank, ext[p]) || ts[d].stage < ts[ext[p]].stage) ==> d in ext[..p]
  }

  /** A processor ran each target in its scope of the first n stages exactly once, and all in turn. */
  ghost predicate Complete(ts: seq<Target>, rank: seq<nat>, isAp: bool, n: nat, ext: seq<nat>)
    requires Acyclic(ts, rank)
  {
    && NoDup(ext)
    && (forall j: nat {:trigger j in ext} :: j in ext <==> j < |ts| && ts[j].stage < n && InScope(ts[j], isAp))
    && (forall p: nat {:trigger InTurn(ts, rank, isAp, ext, p)} :: p < |ext| ==> InTurn(ts, rank, isAp, ext, p))
  }

  /** A processor none of whose targets was complete runs them all. */
  lemma {:induction false} StagesComplete(ts: seq<Target>, rank: seq<nat>, isAp: bool, cs: seq<seq<bool>>, exts: seq<seq<nat>>)
    requires Acyclic(ts, rank) && BringUp(ts, rank, isAp, cs, exts) && |cs[0]| == |ts|
    requires forall i: nat {:trigger cs[0][i]} :: i < |ts| && InScope(ts[i], isAp) ==> !cs[0][i]
    ensures Complete(ts, rank, isAp, |exts|, Flat(exts))
    decreases |exts|
  {
    if exts != [] {
      var k: nat := |exts| - 1;
      var cs', exts' := cs[..|cs| - 1], exts[..k];
      forall i: nat | i < |exts'| ensures StageAt(ts, rank, isAp, cs', exts', i) { assert StageAt(ts, rank, isAp, cs, exts, i); }
      StagesComplete(ts, rank, isAp, cs', exts');
      StageComplete(ts, rank, isAp, cs, exts, k);
    }
  }

  lemma {:induction false} StageComplete(ts: seq<Target>, rank: seq<nat>, isAp: bool, cs: seq<seq<bool>>, exts: seq<seq<nat>>, k: nat)
    requires Acyclic(ts, rank) && BringUp(ts, rank, isAp, cs, exts) && |cs[0]| == |ts| && k < |exts|
    requires forall i: nat {:trigger cs[0][i]} :: i < |ts| && InScope(ts[i], isAp) ==> !cs[0][i]
    requires Complete(ts, rank, isAp, k, Flat(exts[..k]))
    ensures Complete(ts, rank, isAp, k + 1, Flat(exts[..k]) + exts[k])
  {
    var e1, e2 := Flat(exts[..k]), exts[k];
    var ext := e1 + e2;
    assert StageAt(ts, rank, isAp, cs, exts, k);
    forall j: nat ensures j in e2 <==> j < |ts| && ts[j].stage == k && InScope(ts[j], isAp) { EachRunsOnce(ts, rank, isAp, cs, exts, j, k); }
    forall p: nat, q: nat | p < q < |ext| ensures ext[p] != ext[q] {
      if p < |e1| <= q { assert ext[p] in e1 && e2[q - |e1|] in e2; }
    }
    forall p: nat | p < |ext| ensures InTurn(ts, rank, isAp, ext, p) {
      if p < |e1| {
        assert InTurn(ts, rank, isAp, e1, p) && ext[..p] == e1[..p];
      } else {
        StageInTurn(ts, rank, isAp, cs, exts, k, e1, p - |e1|);
      }
    }
  }

  lemma {:induction false} StageInTurn(ts: seq<Target>, rank: seq<nat>, isAp: bool, cs: seq<seq<bool>>, exts: seq<seq<nat>>, k: nat, e1: seq<nat>, q: nat)
    requires Acyclic(ts, rank) && BringUp(ts, rank, isAp, cs, exts) && |cs[0]| == |ts| && k < |exts| && q < |exts[k]|
    requires forall i: nat {:trigger cs[0][i]} :: i < |ts| && InScope(ts[i], isAp) ==> !cs[0][i]
    requires Complete(ts, rank, isAp, k, e1)
    ensures InTurn(ts, rank, isAp, e1 + exts[k], |e1| + q)
  {
    var ext, p, i := e1 + exts[k], |e1| + q, exts[k][q];
    assert StageAt(ts, rank, isAp, cs, exts, k);
    assert InOrder(ts, rank, isAp, cs[k], exts[k], q);
    assert ext[..p] == e1 + exts[k][..q];
    assert i in exts[k];
    forall d: nat | d < |ts| && InScope(ts[d], isAp) && (d in AllNeeds(ts, rank, i) || ts[d].stage < k) ensures d in ext[..p] {
      if ts[d].stage >= k {
        NeedsInStage(ts, rank, i, |ts[i].deps|, d);
        UntilItsStage(ts, rank, isAp, cs, exts, k, d);
      }
    }
  }

  // ---------- the whole machine ----------

  /** The usable processors among the first n other than the boot processor. */
  function Others(usable: seq<bool>, bsp: nat, n: nat): nat
    requires n <= |usable|
  {
    if n == 0 then 0 else Others(usable, bsp, n - 1) + if usable[n - 1] && n - 1 != bsp then 1 else 0
  }

  /** The boot processor's run and those of the APs. */
  ghost predicate Booted(ts: seq<Target>, rank: seq<nat>, runs: seq<seq<nat>>)
    requires Acyclic(ts, rank)
  {
    runs != [] && forall k: nat {:trigger runs[k]} :: k < |runs| ==> Complete(ts, rank, k > 0, STAGES, runs[k])
  }

  /** How often a target of a scope runs on a machine with so many APs. */
  function Times(scope: Scope, aps: nat): nat {
    match scope
    case Bsp => 1
    case Aps => aps
    case All => 1 + aps
  }

  lemma {:induction false} OnceEach(s: seq<nat>, j: nat)
    requires NoDup(s)
    ensures multiset(s)[j] == if j in s then 1 else 0
  {
    if s != [] {
      assert s == [s[0]] + s[1..];
      TailHas(s, j);
      OnceEach(s[1..], j);
    }
  }

  /** Each target of the stages runs once on each processor of its scope, and never again. */
  lemma {:induction false} TimesRun(ts: seq<Target>, rank: seq<nat>, runs: seq<seq<nat>>, j: nat)
    requires Acyclic(ts, rank) && Booted(ts, rank, runs)
    ensures multiset(Flat(runs))[j] == if j < |ts| && ts[j].stage < STAGES then Times(ts[j].scope, |runs| - 1) else 0
    decreases |runs|
  {
    var k: nat := |runs| - 1;
    assert Complete(ts, rank, k > 0, STAGES, runs[k]);
    OnceEach(runs[k], j);
    if k == 0 {
      assert runs[..0] == [];
      assert Flat(runs) == runs[0];
    } else {
      forall i: nat | i < k ensures Complete(ts, rank, i > 0, STAGES, runs[..k][i]) { assert runs[..k][i] == runs[i]; }
      TimesRun(ts, rank, runs[..k], j);
    }
  }
}
