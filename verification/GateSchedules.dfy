/** What a finished run reports does not depend on the worker count or the settle
  * order: every result equals that of a one-gate-at-a-time reference run, and each
  * status is fixed by the gate's `needs` ancestors alone (scripts/run-gates.ts). */
module GateSchedules {
  import opened Digraph
  import opened GateGraph
  import opened GateRuns

  // ---- the sequential reference ----

  /** Run the first ready gate to its outcome; with none ready, skip the first blocked one. */
  function Sequential(c: Config, st: States, results: Results): Results
    decreases PendingIds(st)
  {
    var ready := FirstReady(c.gates, st);
    if ready.Some? then
      var g := ready.value;
      LeavesPending(st, g.id, Settled(c.execute(g)));
      Sequential(c, st[g.id := Settled(c.execute(g))], results[g.id := Executed(g, c.execute(g))])
    else
      var blocked := FirstBlocked(c.gates, st);
      if blocked.Some? then
        var g := blocked.value;
        LeavesPending(st, g.id, Settled(Skipped));
        Sequential(c, st[g.id := Settled(Skipped)], results[g.id := DependencySkip(g, FailedNeeds(g.needs, st))])
      else
        results
  }

  function Reference(c: Config): Results {
    Sequential(c, InitialStates(c.gates), map[])
  }

  lemma UpdatesCommute<K, V>(m: map<K, V>, a: K, x: V, b: K, y: V)
    requires a != b
    ensures m[a := x][b := y] == m[b := y][a := x]
  {
  }

  /** Executing any ready gate first leads to the same results. */
  lemma {:induction false} Confluence(c: Config, st: States, results: Results, g: Gate)
    requires DistinctIds(c.gates) && g in c.gates && IsReady(g, st)
    ensures Sequential(c, st, results)
         == Sequential(c, st[g.id := Settled(c.execute(g))], results[g.id := Executed(g, c.execute(g))])
    decreases PendingIds(st)
  {
    var h := FirstReady(c.gates, st).value;
    if h.id == g.id {
      SameGate(c.gates, g, h);
    } else {
      var stG, resG := st[g.id := Settled(c.execute(g))], results[g.id := Executed(g, c.execute(g))];
      var stH, resH := st[h.id := Settled(c.execute(h))], results[h.id := Executed(h, c.execute(h))];
      LeavesPending(st, g.id, Settled(c.execute(g)));
      LeavesPending(st, h.id, Settled(c.execute(h)));
      StillReady(h, st, g.id, Settled(c.execute(g)));
      StillReady(g, st, h.id, Settled(c.execute(h)));
      Confluence(c, stG, resG, h);
      Confluence(c, stH, resH, g);
      UpdatesCommute(st, g.id, Settled(c.execute(g)), h.id, Settled(c.execute(h)));
      UpdatesCommute(results, g.id, Executed(g, c.execute(g)), h.id, Executed(h, c.execute(h)));
    }
  }

  // ---- the results a state is bound to reach ----

  ghost function GateById(gates: seq<Gate>, id: Id): (g: Gate)
    requires Known(gates, id)
    ensures g in gates && g.id == id
  {
    var i :| 0 <= i < |gates| && gates[i].id == id;
    gates[i]
  }

  /** The states once every running gate has settled. */
  ghost function Landed(c: Config, st: States): States {
    map id | id in st :: if st[id] == Running && Known(c.gates, id)
                         then Settled(c.execute(GateById(c.gates, id))) else st[id]
  }

  ghost function LandedResults(c: Config, st: States, results: Results): Results {
    results + map id | id in st && IsIn(st, id, Running) && Known(c.gates, id) ::
                Executed(GateById(c.gates, id), c.execute(GateById(c.gates, id)))
  }

  ghost function Outlook(c: Config, s: Run): Results {
    Sequential(c, Landed(c, s.states), LandedResults(c, s.states, s.results))
  }

  lemma LandedAfterStart(c: Config, st: States, g: Gate)
    requires DistinctIds(c.gates) && g in c.gates && IsReady(g, st)
    ensures Landed(c, st[g.id := Running]) == Landed(c, st)[g.id := Settled(c.execute(g))]
    ensures IsReady(g, Landed(c, st))
  {
    SameGate(c.gates, g, GateById(c.gates, g.id));
    forall id | GateSettled(st, id) ensures IsIn(Landed(c, st), id, st[id]) {
    }
  }

  lemma LandedResultsAfterStart(c: Config, st: States, results: Results, g: Gate)
    requires DistinctIds(c.gates) && g in c.gates && IsReady(g, st)
    ensures LandedResults(c, st[g.id := Running], results)
         == LandedResults(c, st, results)[g.id := Executed(g, c.execute(g))]
  {
    SameGate(c.gates, g, GateById(c.gates, g.id));
  }

  lemma StartKeepsOutlook(c: Config, s: Run, s': Run)
    requires DistinctIds(c.gates) && Inv(c, s) && Start(c, s, s')
    ensures Outlook(c, s') == Outlook(c, s)
  {
    var g := FirstReady(c.gates, s.states).value;
    LandedAfterStart(c, s.states, g);
    LandedResultsAfterStart(c, s.states, s.results, g);
    Confluence(c, Landed(c, s.states), LandedResults(c, s.states, s.results), g);
  }

  lemma LandedAfterSettle(c: Config, st: States, g: Gate)
    requires DistinctIds(c.gates) && g in c.gates && IsIn(st, g.id, Running)
    ensures Landed(c, st[g.id := Settled(c.execute(g))]) == Landed(c, st)
  {
    SameGate(c.gates, g, GateById(c.gates, g.id));
  }

  ghost predicate WillLand(c: Config, st: States, id: Id) {
    IsIn(st, id, Running) && Known(c.gates, id)
  }

  lemma LandedResultAt(c: Config, st: States, results: Results, id: Id)
    ensures id in LandedResults(c, st, results) <==> WillLand(c, st, id) || id in results
    ensures WillLand(c, st, id) ==>
              LandedResults(c, st, results)[id] == Executed(GateById(c.gates, id), c.execute(GateById(c.gates, id)))
    ensures !WillLand(c, st, id) && id in results ==> LandedResults(c, st, results)[id] == results[id]
  {
  }

  lemma SameLandedResult(c: Config, st: States, results: Results, g: Gate, id: Id)
    requires DistinctIds(c.gates) && g in c.gates && WillLand(c, st, g.id)
    ensures var left := LandedResults(c, st[g.id := Settled(c.execute(g))], results[g.id := Executed(g, c.execute(g))]);
            var right := LandedResults(c, st, results);
            (id in left <==> id in right) && (id in left ==> left[id] == right[id])
  {
    LandedResultAt(c, st, results, id);
    LandedResultAt(c, st[g.id := Settled(c.execute(g))], results[g.id := Executed(g, c.execute(g))], id);
    SameGate(c.gates, g, GateById(c.gates, g.id));
  }

  lemma SameEntries<K, V>(a: map<K, V>, b: map<K, V>)
    requires forall k :: k in a <==> k in b
    requires forall k :: k in a ==> a[k] == b[k]
    ensures a == b
  {
  }

  lemma LandedResultsAfterSettle(c: Config, st: States, results: Results, g: Gate)
    requires DistinctIds(c.gates) && g in c.gates && IsIn(st, g.id, Running)
    ensures LandedResults(c, st[g.id := Settled(c.execute(g))], results[g.id := Executed(g, c.execute(g))])
         == LandedResults(c, st, results)
  {
    var left := LandedResults(c, st[g.id := Settled(c.execute(g))], results[g.id := Executed(g, c.execute(g))]);
    var right := LandedResults(c, st, results);
    forall id ensures (id in left <==> id in right) && (id in left ==> left[id] == right[id]) {
      SameLandedResult(c, st, results, g, id);
    }
    SameEntries(left, right);
  }

  lemma SettleKeepsOutlook(c: Config, s: Run, s': Run, i: nat)
    requires DistinctIds(c.gates) && Inv(c, s) && Settle(c, s, s', i)
    ensures Outlook(c, s') == Outlook(c, s)
  {
    LandedAfterSettle(c, s.states, s.running[i]);
    LandedResultsAfterSettle(c, s.states, s.results, s.running[i]);
  }

  lemma NoneRunning(c: Config, s: Run, id: Id)
    requires RunningMatches(c, s) && s.running == [] && Known(c.gates, id)
    ensures !IsIn(s.states, id, Running)
  {
    var g := GateById(c.gates, id);
    assert IsIn(s.states, g.id, Running) ==> g in s.running;
  }

  lemma IdleIsLanded(c: Config, s: Run)
    requires Inv(c, s) && s.running == []
    ensures Landed(c, s.states) == s.states && LandedResults(c, s.states, s.results) == s.results
  {
    forall id | Known(c.gates, id) ensures !IsIn(s.states, id, Running) {
      NoneRunning(c, s, id);
    }
  }

  lemma SkipKeepsOutlook(c: Config, s: Run, s': Run)
    requires DistinctIds(c.gates) && Inv(c, s) && Skip(c, s, s')
    ensures Outlook(c, s') == Outlook(c, s)
  {
    IdleIsLanded(c, s);
    SkipKeepsInv(c, s, s');
    IdleIsLanded(c, s');
  }

  lemma StepKeepsOutlook(c: Config, s: Run, s': Run)
    requires DistinctIds(c.gates) && Inv(c, s) && Step(c, s, s')
    ensures Outlook(c, s') == Outlook(c, s)
  {
    if Start(c, s, s') {
      StartKeepsOutlook(c, s, s');
    } else if Skip(c, s, s') {
      SkipKeepsOutlook(c, s, s');
    } else {
      var i: nat :| Settle(c, s, s', i);
      SettleKeepsOutlook(c, s, s', i);
    }
  }

  lemma InitialOutlook(c: Config)
    ensures Outlook(c, Initial(c)) == Reference(c)
  {
    assert Landed(c, Initial(c).states) == Initial(c).states;
    assert LandedResults(c, Initial(c).states, Initial(c).results) == map[];
  }

  lemma NextOutlook(c: Config, trace: seq<Run>, k: nat)
    requires Runnable(c) && IsRun(c, trace) && 0 < k < |trace|
    ensures Outlook(c, trace[k]) == Outlook(c, trace[k - 1])
  {
    ReachableInv(c, trace, k - 1);
    RunStep(c, trace, k);
    StepKeepsOutlook(c, trace[k - 1], trace[k]);
  }

  lemma FirstOutlook(c: Config, trace: seq<Run>)
    requires IsRun(c, trace)
    ensures Outlook(c, trace[0]) == Reference(c)
  {
    InitialOutlook(c);
  }

  lemma RunKeepsOutlook(c: Config, trace: seq<Run>, k: nat)
    requires Runnable(c) && IsRun(c, trace) && k < |trace|
    ensures Outlook(c, trace[k]) == Reference(c)
  {
    FirstOutlook(c, trace);
    for j := 0 to k
      invariant Outlook(c, trace[j]) == Reference(c)
    {
      NextOutlook(c, trace, j + 1);
    }
  }

  /** A finished run holds exactly the results of the sequential reference. */
  lemma FinishedRunMatchesReference(c: Config, trace: seq<Run>)
    requires Runnable(c) && IsRun(c, trace) && Over(trace[|trace| - 1])
    ensures trace[|trace| - 1].results == Reference(c)
  {
    var s := trace[|trace| - 1];
    RunKeepsOutlook(c, trace, |trace| - 1);
    ReachableInv(c, trace, |trace| - 1);
    IdleIsLanded(c, s);
  }

  /** The worker count does not enter the reference. */
  lemma {:induction false} SequentialIgnoresWorkers(c: Config, d: Config, st: States, results: Results)
    requires c.gates == d.gates && c.execute == d.execute
    ensures Sequential(c, st, results) == Sequential(d, st, results)
    decreases PendingIds(st)
  {
    var ready, blocked := FirstReady(c.gates, st), FirstBlocked(c.gates, st);
    if ready.Some? {
      var g := ready.value;
      LeavesPending(st, g.id, Settled(c.execute(g)));
      SequentialIgnoresWorkers(c, d, st[g.id := Settled(c.execute(g))], results[g.id := Executed(g, c.execute(g))]);
    } else if blocked.Some? {
      var g := blocked.value;
      LeavesPending(st, g.id, Settled(Skipped));
      SequentialIgnoresWorkers(c, d, st[g.id := Settled(Skipped)],
                               results[g.id := DependencySkip(g, FailedNeeds(g.needs, st))]);
    }
  }

  /** Schedule independence: any two finished runs of the same gates, with any worker
    * counts and settle orders, end with the same statuses and the same skip reasons. */
  lemma ScheduleIndependence(c: Config, d: Config, cTrace: seq<Run>, dTrace: seq<Run>)
    requires c.gates == d.gates && c.execute == d.execute
    requires Runnable(c) && IsRun(c, cTrace) && Over(cTrace[|cTrace| - 1])
    requires Runnable(d) && IsRun(d, dTrace) && Over(dTrace[|dTrace| - 1])
    ensures cTrace[|cTrace| - 1].results == dTrace[|dTrace| - 1].results
  {
    FinishedRunMatchesReference(c, cTrace);
    FinishedRunMatchesReference(d, dTrace);
    SequentialIgnoresWorkers(c, d, InitialStates(c.gates), map[]);
  }

  // ---- the statuses in closed form ----

  /** Each gate id with its `needs` ids only. */
  function Needs(gates: seq<Gate>): (g: Graph)
    ensures forall v :: v in g <==> Known(gates, v)
  {
    if gates == [] then
      map[]
    else
      var last := gates[|gates| - 1];
      assert forall v :: Known(gates, v) <==> Known(gates[..|gates| - 1], v) || v == last.id by {
        assert gates == gates[..|gates| - 1] + [last];
      }
      Needs(gates[..|gates| - 1])[last.id := last.needs]
  }

  lemma {:induction false} NeedsOf(gates: seq<Gate>, i: nat)
    requires DistinctIds(gates) && i < |gates|
    ensures Known(gates, gates[i].id) && Needs(gates)[gates[i].id] == gates[i].needs
  {
    var init := gates[..|gates| - 1];
    if i < |init| {
      assert init[i] == gates[i];
      NeedsOf(init, i);
    }
  }

  ghost predicate OwnOutcomeNotPassed(c: Config, id: Id) {
    Known(c.gates, id) && c.execute(GateById(c.gates, id)) != Passed
  }

  /** A `needs` walk of at least one edge from the gate to one whose own outcome is not a pass. */
  ghost predicate FailingWalk(c: Config, id: Id, w: seq<Id>) {
    && |w| >= 2 && w[0] == id && Walk(Needs(c.gates), w)
    && OwnOutcomeNotPassed(c, w[|w| - 1])
  }

  ghost predicate HasFailingAncestor(c: Config, id: Id) {
    exists w :: FailingWalk(c, id, w)
  }

  /** A settled gate was executed with all needs passed, or skipped over a need that did not pass. */
  ghost predicate LocallyConsistent(c: Config, results: Results) {
    && (forall v :: v in results <==> Known(c.gates, v))
    && forall id :: id in results ==>
         var r := results[id];
         && r.gate in c.gates && r.gate.id == id
         && match r {
              case Executed(g, outcome) =>
                outcome == c.execute(g) && forall n :: n in g.needs ==> n in results && results[n].Status() == Passed
              case DependencySkip(g, _) =>
                exists n :: n in g.needs && n in results && results[n].Status() != Passed
            }
  }

  lemma OverIsConsistent(c: Config, s: Run)
    requires DistinctIds(c.gates) && Inv(c, s) && Over(s)
    ensures LocallyConsistent(c, s.results)
  {
    forall v ensures v in s.results <==> Known(c.gates, v) {
      if Known(c.gates, v) {
        NoneRunning(c, s, v);
      }
    }
    forall id | id in s.results && s.results[id].Executed?
      ensures s.results[id].outcome == c.execute(s.results[id].gate) && PredecessorsReady(s.results[id].gate, s.states)
    {
      ExecutedWasReady(c, s, id);
    }
    forall id | id in s.results && s.results[id].DependencySkip?
      ensures exists n :: n in s.results[id].gate.needs && n in s.results && s.results[n].Status() != Passed
    {
      assert s.results[id].failedDeps[0] in s.results[id].failedDeps;
    }
  }

  lemma ExecutedWasReady(c: Config, s: Run, id: Id)
    requires Inv(c, s) && id in s.results && s.results[id].Executed?
    ensures s.results[id].outcome == c.execute(s.results[id].gate) && PredecessorsReady(s.results[id].gate, s.states)
  {
    var g := s.results[id].gate;
    var k :| 0 <= k < |s.started| && s.started[k] == g;
  }

  ghost predicate Disagrees(c: Config, results: Results, id: Id) {
    id in results && (results[id].Executed? <==> HasFailingAncestor(c, id))
  }

  lemma ExecutedPushesUp(c: Config, results: Results, id: Id) returns (n: Id)
    requires DistinctIds(c.gates) && LocallyConsistent(c, results) && id in results
    requires results[id].Executed? && HasFailingAncestor(c, id)
    ensures Disagrees(c, results, n) && Edge(Needs(c.gates), id, n)
  {
    var w :| FailingWalk(c, id, w);
    n := w[1];
    assert Edge(Needs(c.gates), w[0], w[1]);
    EdgeIsNeed(c, results[id].gate, n);
    OwnOutcome(c, results, n);
    if |w| > 2 {
      TailFails(c, w);
    }
  }

  lemma EdgeIsNeed(c: Config, g: Gate, n: Id)
    requires DistinctIds(c.gates) && g in c.gates && Edge(Needs(c.gates), g.id, n)
    ensures n in g.needs
  {
    var i :| 0 <= i < |c.gates| && c.gates[i] == g;
    NeedsOf(c.gates, i);
  }

  lemma TailFails(c: Config, w: seq<Id>)
    requires |w| > 2 && FailingWalk(c, w[0], w)
    ensures HasFailingAncestor(c, w[1])
  {
    assert FailingWalk(c, w[1], w[1..]);
  }

  lemma FailedNeedIsAncestor(c: Config, id: Id, n: Id)
    requires Edge(Needs(c.gates), id, n) && OwnOutcomeNotPassed(c, n)
    ensures HasFailingAncestor(c, id)
  {
    assert FailingWalk(c, id, [id, n]);
  }

  lemma AncestorOfNeed(c: Config, id: Id, n: Id)
    requires Edge(Needs(c.gates), id, n) && HasFailingAncestor(c, n)
    ensures HasFailingAncestor(c, id)
  {
    var w :| FailingWalk(c, n, w);
    WalkFrom(Needs(c.gates), id, w);
    assert FailingWalk(c, id, [id] + w);
  }

  lemma OwnOutcome(c: Config, results: Results, n: Id)
    requires DistinctIds(c.gates) && LocallyConsistent(c, results) && n in results
    ensures results[n].Executed? ==> (OwnOutcomeNotPassed(c, n) <==> results[n].Status() != Passed)
  {
    SameGate(c.gates, results[n].gate, GateById(c.gates, n));
  }

  /** A gate's `needs`, as edges. */
  lemma NeedIsEdge(c: Config, g: Gate, n: Id)
    requires DistinctIds(c.gates) && g in c.gates && n in g.needs
    ensures Edge(Needs(c.gates), g.id, n)
  {
    var i :| 0 <= i < |c.gates| && c.gates[i] == g;
    NeedsOf(c.gates, i);
  }

  lemma SkippedPushesUp(c: Config, results: Results, id: Id) returns (n: Id)
    requires DistinctIds(c.gates) && LocallyConsistent(c, results) && id in results
    requires results[id].DependencySkip? && !HasFailingAncestor(c, id)
    ensures Disagrees(c, results, n) && Edge(Needs(c.gates), id, n)
  {
    n :| n in results[id].gate.needs && n in results && results[n].Status() != Passed;
    NeedIsEdge(c, results[id].gate, n);
    OwnOutcome(c, results, n);
    if OwnOutcomeNotPassed(c, n) {
      FailedNeedIsAncestor(c, id, n);
    }
    if HasFailingAncestor(c, n) {
      AncestorOfNeed(c, id, n);
    }
  }

  /** A disagreement at a gate comes from a disagreement at one of its needs. */
  lemma DisagreementMovesUp(c: Config, results: Results, id: Id) returns (n: Id)
    requires DistinctIds(c.gates) && LocallyConsistent(c, results) && Disagrees(c, results, id)
    ensures Disagrees(c, results, n) && Edge(Needs(c.gates), id, n)
  {
    if results[id].Executed? {
      n := ExecutedPushesUp(c, results, id);
    } else {
      n := SkippedPushesUp(c, results, id);
    }
  }

  lemma NeedsArePredecessors(gates: seq<Gate>, v: Id, u: Id)
    requires DistinctIds(gates) && Edge(Needs(gates), v, u)
    ensures Edge(Predecessors(gates), v, u)
  {
    var i :| 0 <= i < |gates| && gates[i].id == v;
    NeedsOf(gates, i);
    PredecessorsOf(gates, i);
  }

  /** A gate is executed exactly when no proper `needs` ancestor has an outcome other than
    * passed, and then reports its own outcome; `after` edges never enter. */
  lemma StatusInClosedForm(c: Config, results: Results, id: Id)
    requires Validated(c.gates) && LocallyConsistent(c, results) && id in results
    ensures results[id].Executed? <==> !HasFailingAncestor(c, id)
    ensures results[id].Status() == if HasFailingAncestor(c, id) then Skipped else c.execute(GateById(c.gates, id))
  {
    SameGate(c.gates, results[id].gate, GateById(c.gates, id));
    var graph := Predecessors(c.gates);
    var bad := set v | v in results && Disagrees(c, results, v);
    forall v | v in bad ensures HasEdgeInto(graph, v, bad) {
      var n := DisagreementMovesUp(c, results, v);
      NeedsArePredecessors(c.gates, v, n);
    }
    NoStuckSet(graph, bad);
    assert id !in bad;
  }

  // ---- the exit code ----

  function ExitCode(results: seq<GateResult>): int {
    if exists i :: 0 <= i < |results| && !results[i].gate.allowFailure && results[i].Status() != Passed then 1 else 0
  }

  /** The exit code is zero exactly when every blocking gate passes and so do all its `needs` ancestors. */
  lemma ExitCodeInClosedForm(c: Config, results: Results, list: seq<GateResult>)
    requires Validated(c.gates) && LocallyConsistent(c, results) && |list| == |c.gates|
    requires forall i :: 0 <= i < |list| ==> c.gates[i].id in results && list[i] == results[c.gates[i].id]
    ensures ExitCode(list) == 0 <==>
            forall g :: g in c.gates && !g.allowFailure ==> c.execute(g) == Passed && !HasFailingAncestor(c, g.id)
  {
    forall i | 0 <= i < |list|
      ensures list[i].gate == c.gates[i]
      ensures list[i].Status() == Passed <==> c.execute(c.gates[i]) == Passed && !HasFailingAncestor(c, c.gates[i].id)
    {
      StatusInClosedForm(c, results, c.gates[i].id);
      SameGate(c.gates, list[i].gate, c.gates[i]);
      SameGate(c.gates, GateById(c.gates, c.gates[i].id), c.gates[i]);
    }
    if g :| g in c.gates && !g.allowFailure && !(c.execute(g) == Passed && !HasFailingAncestor(c, g.id)) {
      var i :| 0 <= i < |c.gates| && c.gates[i] == g;
      assert list[i].Status() != Passed;
    }
  }
}
