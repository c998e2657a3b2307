/** The order a run keeps (scripts/run-gates.ts): what has been answered when a gate starts or is
  * skipped, which gate of the list is taken, and the order of the observed results. */
module GateOrder {
  import opened Wrappers
  import opened GateGraph
  import opened GateRuns

  // ---- predecessors come first ----

  /** Every `needs` gate has passed and every `after` gate has a result. */
  ghost predicate PredecessorsAnswered(g: Gate, results: Results) {
    && (forall id :: id in g.needs ==> id in results && results[id].Status() == Passed)
    && (forall id :: id in g.after ==> id in results)
  }

  lemma ReadyIsAnswered(c: Config, s: Run, g: Gate)
    requires ResultsMatch(c, s)
    ensures PredecessorsReady(g, s.states) <==> PredecessorsAnswered(g, s.results)
  {
    forall id ensures GateSettled(s.states, id) <==> id in s.results {
    }
    forall id ensures IsIn(s.states, id, Settled(Passed)) <==> id in s.results && s.results[id].Status() == Passed {
    }
  }

  /** In every state of every run, each gate handed to the executor has all its `needs` gates
    * passed and all its `after` gates answered. */
  lemma StartedAfterPredecessors(c: Config, trace: seq<Run>, k: nat, i: nat)
    requires Runnable(c) && IsRun(c, trace) && k < |trace| && i < |trace[k].started|
    ensures PredecessorsAnswered(trace[k].started[i], trace[k].results)
  {
    ReachableInv(c, trace, k);
    ReadyIsAnswered(c, trace[k], trace[k].started[i]);
  }

  /** The gate was observed before position i, and `passed` says whether it must have passed. */
  ghost predicate ObservedBefore(observed: seq<GateResult>, i: nat, id: Id, passed: bool)
    requires i <= |observed|
  {
    exists j :: 0 <= j < i && observed[j].gate.id == id && (passed ==> observed[j].Status() == Passed)
  }

  ghost predicate PredecessorsObserved(observed: seq<GateResult>, i: nat)
    requires i < |observed|
  {
    && (forall id :: id in observed[i].gate.needs ==> ObservedBefore(observed, i, id, true))
    && (forall id :: id in observed[i].gate.after ==> ObservedBefore(observed, i, id, false))
  }

  /** Each executed gate is observed after its `needs` gates passed and its `after` gates settled. */
  ghost predicate InOrder(observed: seq<GateResult>) {
    forall i :: 0 <= i < |observed| && observed[i].Executed? ==> PredecessorsObserved(observed, i)
  }

  lemma StillObserved(observed: seq<GateResult>, r: GateResult, i: nat)
    requires i < |observed| && PredecessorsObserved(observed, i)
    ensures PredecessorsObserved(observed + [r], i)
  {
    var longer := observed + [r];
    forall id | id in longer[i].gate.needs ensures ObservedBefore(longer, i, id, true) {
      var j :| 0 <= j < i && observed[j].gate.id == id && observed[j].Status() == Passed;
      assert longer[j] == observed[j];
    }
    forall id | id in longer[i].gate.after ensures ObservedBefore(longer, i, id, false) {
      var j :| 0 <= j < i && observed[j].gate.id == id;
      assert longer[j] == observed[j];
    }
  }

  lemma AnsweredIsObserved(s: Run, id: Id, r: GateResult)
    requires ObservedOnce(s) && id in s.results && s.results[id].gate.id == id
    ensures ObservedBefore(s.observed + [r], |s.observed|, id, s.results[id].Status() == Passed)
  {
    var j :| 0 <= j < |s.observed| && s.observed[j] == s.results[id];
    assert (s.observed + [r])[j] == s.observed[j];
  }

  lemma NextObserved(c: Config, s: Run, r: GateResult)
    requires ResultsMatch(c, s) && ObservedOnce(s) && PredecessorsAnswered(r.gate, s.results)
    ensures PredecessorsObserved(s.observed + [r], |s.observed|)
  {
    forall id | id in r.gate.needs ensures ObservedBefore(s.observed + [r], |s.observed|, id, true) {
      AnsweredIsObserved(s, id, r);
    }
    forall id | id in r.gate.after ensures ObservedBefore(s.observed + [r], |s.observed|, id, false) {
      AnsweredIsObserved(s, id, r);
    }
  }

  lemma AppendKeepsOrder(observed: seq<GateResult>, r: GateResult)
    requires InOrder(observed)
    requires r.Executed? ==> PredecessorsObserved(observed + [r], |observed|)
    ensures InOrder(observed + [r])
  {
    forall i | 0 <= i < |observed| + 1 && (observed + [r])[i].Executed? ensures PredecessorsObserved(observed + [r], i) {
      if i < |observed| {
        StillObserved(observed, r, i);
      }
    }
  }

  lemma SettleKeepsOrder(c: Config, s: Run, s': Run, i: nat)
    requires Inv(c, s) && Settle(c, s, s', i) && InOrder(s.observed)
    ensures InOrder(s'.observed)
  {
    var g := s.running[i];
    assert g in s.started;
    ReadyIsAnswered(c, s, g);
    NextObserved(c, s, Executed(g, c.execute(g)));
    AppendKeepsOrder(s.observed, Executed(g, c.execute(g)));
  }

  lemma SkipKeepsOrder(c: Config, s: Run, s': Run)
    requires Skip(c, s, s') && InOrder(s.observed)
    ensures InOrder(s'.observed)
  {
    var g := FirstBlocked(c.gates, s.states).value;
    AppendKeepsOrder(s.observed, DependencySkip(g, FailedNeeds(g.needs, s.states)));
  }

  lemma StepKeepsOrder(c: Config, s: Run, s': Run)
    requires Inv(c, s) && Step(c, s, s') && InOrder(s.observed)
    ensures InOrder(s'.observed)
  {
    if Skip(c, s, s') {
      SkipKeepsOrder(c, s, s');
    } else if i: nat :| Settle(c, s, s', i) {
      SettleKeepsOrder(c, s, s', i);
    }
  }

  ghost predicate SoundStep(c: Config, s: Run, s': Run) {
    Inv(c, s) && Step(c, s, s')
  }

  lemma RunStepIsSound(c: Config, trace: seq<Run>, k: nat)
    requires Runnable(c) && IsRun(c, trace) && 0 < k < |trace|
    ensures SoundStep(c, trace[k - 1], trace[k])
  {
    ReachableInv(c, trace, k - 1);
    RunStep(c, trace, k);
  }

  lemma SoundStepKeepsOrder(c: Config, s: Run, s': Run)
    requires SoundStep(c, s, s') && InOrder(s.observed)
    ensures InOrder(s'.observed)
  {
    StepKeepsOrder(c, s, s');
  }

  /** In every run, each executed gate's predecessors stand earlier among the observed results. */
  lemma {:induction false} ObservedInOrder(c: Config, trace: seq<Run>, k: nat)
    requires Runnable(c) && IsRun(c, trace) && k < |trace|
    ensures InOrder(trace[k].observed)
  {
    if k > 0 {
      ObservedInOrder(c, trace, k - 1);
      RunStepIsSound(c, trace, k);
      SoundStepKeepsOrder(c, trace[k - 1], trace[k]);
    }
  }

  // ---- the first gate of the list is taken ----

  function Kept<T>(s: seq<T>, p: T -> bool): seq<T> {
    if s == [] then [] else (if p(s[0]) then [s[0]] else []) + Kept(s[1..], p)
  }

  /** The gate has neither been started nor answered, and all its predecessors are answered well. */
  ghost predicate MayStart(s: Run, g: Gate) {
    g !in s.started && g.id !in s.results && PredecessorsAnswered(g, s.results)
  }

  /** The gate has neither been started nor answered, and one of its `needs` gates did not pass. */
  ghost predicate MustSkip(s: Run, g: Gate) {
    && g !in s.started && g.id !in s.results
    && exists id :: id in g.needs && id in s.results && s.results[id].Status() != Passed
  }

  lemma {:induction false} FirstInList(gates: seq<Gate>, p: Gate -> bool) returns (k: nat)
    requires First(gates, p).Some?
    ensures k < |gates| && gates[k] == First(gates, p).value && forall j :: 0 <= j < k ==> !p(gates[j])
  {
    if p(gates[0]) {
      k := 0;
    } else {
      k := FirstInList(gates[1..], p);
      k := k + 1;
    }
  }

  lemma PendingIsUntouched(c: Config, s: Run, g: Gate)
    requires DistinctIds(c.gates) && Inv(c, s) && g in c.gates
    ensures IsIn(s.states, g.id, Pending) <==> g !in s.started && g.id !in s.results
  {
    assert Known(c.gates, g.id);
    if g in s.started {
      var i :| 0 <= i < |s.started| && s.started[i] == g;
    }
    if g.id in s.results {
      assert IsIn(s.states, g.id, Settled(s.results[g.id].Status()));
    }
    if g.id !in s.results && !IsIn(s.states, g.id, Pending) {
      assert !GateSettled(s.states, g.id);
      assert IsIn(s.states, g.id, Running);
    }
  }

  lemma ReadyMayStart(c: Config, s: Run, g: Gate)
    requires DistinctIds(c.gates) && Inv(c, s) && g in c.gates
    ensures IsReady(g, s.states) <==> MayStart(s, g)
  {
    PendingIsUntouched(c, s, g);
    ReadyIsAnswered(c, s, g);
  }

  lemma FailedIsAnswered(c: Config, s: Run, id: Id)
    requires ResultsMatch(c, s)
    ensures GateFailed(s.states, id) <==> id in s.results && s.results[id].Status() != Passed
  {
    SettledCases(s.states, id);
  }

  lemma BlockedMustSkip(c: Config, s: Run, g: Gate)
    requires DistinctIds(c.gates) && Inv(c, s) && g in c.gates
    ensures IsBlocked(g, s.states) <==> MustSkip(s, g)
  {
    PendingIsUntouched(c, s, g);
    forall id ensures GateFailed(s.states, id) <==> id in s.results && s.results[id].Status() != Passed {
      FailedIsAnswered(c, s, id);
    }
  }

  /** The gate that starts is the first of the list that may. */
  lemma StartsFirst(c: Config, s: Run, s': Run) returns (k: nat)
    requires DistinctIds(c.gates) && Inv(c, s) && Start(c, s, s')
    ensures k < |c.gates| && s'.started == s.started + [c.gates[k]] && MayStart(s, c.gates[k])
    ensures forall j :: 0 <= j < k ==> !MayStart(s, c.gates[j])
  {
    k := FirstInList(c.gates, g => IsReady(g, s.states));
    ReadyMayStart(c, s, c.gates[k]);
    forall j | 0 <= j < k ensures !MayStart(s, c.gates[j]) {
      ReadyMayStart(c, s, c.gates[j]);
    }
  }

  lemma {:induction false} FailedNeedsAre(c: Config, s: Run, needs: seq<Id>)
    requires ResultsMatch(c, s)
    ensures FailedNeeds(needs, s.states) == Kept(needs, id => id in s.results && s.results[id].Status() != Passed)
  {
    if needs != [] {
      FailedIsAnswered(c, s, needs[0]);
      FailedNeedsAre(c, s, needs[1..]);
    }
  }

  /** The gate that is skipped is the first of the list that must be, and its reason lists, in
    * their order, the `needs` gates that have not passed by then. */
  lemma SkipsFirst(c: Config, s: Run, s': Run) returns (k: nat)
    requires DistinctIds(c.gates) && Inv(c, s) && Skip(c, s, s')
    ensures k < |c.gates| && MustSkip(s, c.gates[k]) && forall j :: 0 <= j < k ==> !MustSkip(s, c.gates[j])
    ensures s'.observed == s.observed + [DependencySkip(c.gates[k],
              Kept(c.gates[k].needs, id => id in s.results && s.results[id].Status() != Passed))]
  {
    k := FirstInList(c.gates, g => IsBlocked(g, s.states));
    BlockedMustSkip(c, s, c.gates[k]);
    forall j | 0 <= j < k ensures !MustSkip(s, c.gates[j]) {
      BlockedMustSkip(c, s, c.gates[j]);
    }
    FailedNeedsAre(c, s, c.gates[k].needs);
  }

  lemma NoneReadyMayStart(c: Config, s: Run)
    requires DistinctIds(c.gates) && Inv(c, s)
    ensures FirstReady(c.gates, s.states).None? <==> forall g :: g in c.gates ==> !MayStart(s, g)
  {
    forall g | g in c.gates ensures IsReady(g, s.states) <==> MayStart(s, g) {
      ReadyMayStart(c, s, g);
    }
  }

  /** The runner waits only with a full pool or with nothing to start, and skips only with nothing
    * running and nothing to start. */
  lemma WaitsAndSkipsLast(c: Config, s: Run, s': Run)
    requires DistinctIds(c.gates) && Inv(c, s) && Step(c, s, s') && s'.started == s.started
    ensures |s.running| >= c.maxActive || forall g :: g in c.gates ==> !MayStart(s, g)
    ensures |s'.running| == |s.running| ==> s.running == [] && forall g :: g in c.gates ==> !MayStart(s, g)
  {
    NoneReadyMayStart(c, s);
  }
}
