/** The states a gate run passes through, the steps between them, and what every
  * run shares whatever its worker count and settle order (scripts/run-gates.ts). */
module GateRuns {
  import opened Wrappers
  import opened Digraph
  import opened GateGraph

  datatype Status = Passed | Failed | Skipped

  datatype GateState = Pending | Running | Settled(status: Status)

  type States = map<Id, GateState>

  /** A gate's own outcome, or the skip recorded because dependencies did not pass. */
  datatype GateResult =
    | Executed(gate: Gate, outcome: Status)
    | DependencySkip(gate: Gate, failedDeps: seq<Id>)
  {
    function Status(): Status {
      if Executed? then outcome else Skipped
    }
  }

  /** What a run is given; `execute` answers each gate's outcome once it settles. */
  datatype Config = Config(gates: seq<Gate>, maxActive: nat, execute: Gate -> Status)

  /** The runner's variables, the results handed to the observer, and the gates handed to the executor. */
  datatype Run = Run(states: States, running: seq<Gate>, results: map<Id, GateResult>,
                     observed: seq<GateResult>, started: seq<Gate>)

  type Results = map<Id, GateResult>

  // ---- the pure questions of the runner ----

  predicate IsIn(st: States, id: Id, state: GateState) {
    id in st && st[id] == state
  }

  predicate GateSettled(st: States, id: Id) {
    id in st && st[id].Settled?
  }

  predicate GateFailed(st: States, id: Id) {
    IsIn(st, id, Settled(Failed)) || IsIn(st, id, Settled(Skipped))
  }

  predicate PredecessorsReady(gate: Gate, st: States) {
    && (forall id :: id in gate.needs ==> IsIn(st, id, Settled(Passed)))
    && (forall id :: id in gate.after ==> GateSettled(st, id))
  }

  predicate IsReady(gate: Gate, st: States) {
    IsIn(st, gate.id, Pending) && PredecessorsReady(gate, st)
  }

  predicate IsBlocked(gate: Gate, st: States) {
    IsIn(st, gate.id, Pending) && exists id :: id in gate.needs && GateFailed(st, id)
  }

  function First(gates: seq<Gate>, p: Gate -> bool): (r: Option<Gate>)
    ensures r.Some? ==> r.value in gates && p(r.value)
    ensures r.None? ==> forall g :: g in gates ==> !p(g)
  {
    if gates == [] then None
    else if p(gates[0]) then Some(gates[0])
    else First(gates[1..], p)
  }

  function FirstReady(gates: seq<Gate>, st: States): (r: Option<Gate>)
    ensures r.Some? ==> r.value in gates && IsReady(r.value, st)
    ensures r.None? ==> forall g :: g in gates ==> !IsReady(g, st)
  {
    First(gates, g => IsReady(g, st))
  }

  function FirstBlocked(gates: seq<Gate>, st: States): (r: Option<Gate>)
    ensures r.Some? ==> r.value in gates && IsBlocked(r.value, st)
    ensures r.None? ==> forall g :: g in gates ==> !IsBlocked(g, st)
  {
    First(gates, g => IsBlocked(g, st))
  }

  function FailedNeeds(needs: seq<Id>, st: States): (failed: seq<Id>)
    ensures forall id :: id in failed <==> id in needs && GateFailed(st, id)
  {
    if needs == [] then []
    else (if GateFailed(st, needs[0]) then [needs[0]] else []) + FailedNeeds(needs[1..], st)
  }

  // ---- runs ----

  function InitialStates(gates: seq<Gate>): (st: States)
    ensures forall v :: v in st <==> Known(gates, v)
    ensures forall v :: v in st ==> st[v] == Pending
  {
    if gates == [] then
      map[]
    else
      assert forall v :: Known(gates, v) <==> Known(gates[..|gates| - 1], v) || v == gates[|gates| - 1].id by {
        assert gates == gates[..|gates| - 1] + [gates[|gates| - 1]];
      }
      InitialStates(gates[..|gates| - 1])[gates[|gates| - 1].id := Pending]
  }

  function Initial(c: Config): Run {
    Run(InitialStates(c.gates), [], map[], [], [])
  }

  /** A worker is free and the first ready gate of the list takes it. */
  ghost predicate Start(c: Config, s: Run, s': Run) {
    && |s.running| < c.maxActive
    && var ready := FirstReady(c.gates, s.states);
       ready.Some? &&
       var g := ready.value;
       s' == s.(states := s.states[g.id := Running], running := s.running + [g], started := s.started + [g])
  }

  /** The runner waits only with a full pool or with nothing ready; the gate at position i settles. */
  ghost predicate Settle(c: Config, s: Run, s': Run, i: nat) {
    && (|s.running| >= c.maxActive || FirstReady(c.gates, s.states).None?)
    && i < |s.running|
    && var g := s.running[i];
       var result := Executed(g, c.execute(g));
       s' == s.(states := s.states[g.id := Settled(c.execute(g))], running := s.running[..i] + s.running[i + 1..],
                results := s.results[g.id := result], observed := s.observed + [result])
  }

  /** Nothing runs and nothing is ready: the first pending gate with a failed need is skipped. */
  ghost predicate Skip(c: Config, s: Run, s': Run) {
    && s.running == [] && FirstReady(c.gates, s.states).None?
    && var blocked := FirstBlocked(c.gates, s.states);
       blocked.Some? &&
       var g := blocked.value;
       var result := DependencySkip(g, FailedNeeds(g.needs, s.states));
       s' == s.(states := s.states[g.id := Settled(Skipped)],
                results := s.results[g.id := result], observed := s.observed + [result])
  }

  ghost predicate Step(c: Config, s: Run, s': Run) {
    Start(c, s, s') || (exists i: nat :: Settle(c, s, s', i)) || Skip(c, s, s')
  }

  ghost predicate Over(s: Run) {
    s.running == [] && forall id :: id in s.states ==> s.states[id] != Pending
  }

  ghost predicate IsRun(c: Config, trace: seq<Run>) {
    && trace != [] && trace[0] == Initial(c)
    && (forall i, j :: 0 <= i < j < |trace| && j == i + 1 ==> Step(c, trace[i], trace[j]))
  }

  /** The configurations a run accepts. */
  ghost predicate Runnable(c: Config) {
    Validated(c.gates) && c.maxActive >= 1
  }

  // ---- safety: what every reachable state satisfies ----

  ghost predicate RunningMatches(c: Config, s: Run) {
    && (forall i :: 0 <= i < |s.running| ==> s.running[i] in c.gates && IsIn(s.states, s.running[i].id, Running))
    && (forall i, j :: 0 <= i < j < |s.running| ==> s.running[i].id != s.running[j].id)
    && (forall g :: g in c.gates && IsIn(s.states, g.id, Running) ==> g in s.running)
  }

  ghost predicate ResultsMatch(c: Config, s: Run) {
    && (forall id :: id in s.results ==>
          s.results[id].gate in c.gates && s.results[id].gate.id == id && IsIn(s.states, id, Settled(s.results[id].Status())))
    && (forall id :: GateSettled(s.states, id) ==> id in s.results)
  }

  /** Each recorded result was observed, each observation is a recorded result, none twice. */
  ghost predicate ObservedOnce(s: Run) {
    && (forall i :: 0 <= i < |s.observed| ==>
          s.observed[i].gate.id in s.results && s.results[s.observed[i].gate.id] == s.observed[i])
    && (forall i, j :: 0 <= i < j < |s.observed| ==> s.observed[i].gate.id != s.observed[j].gate.id)
    && (forall id :: id in s.results ==> s.results[id] in s.observed)
  }

  /** The executor saw exactly the running and the executed gates, none twice,
    * and only after every need had passed and every `after` gate had settled. */
  ghost predicate StartedOnce(c: Config, s: Run) {
    && (forall i :: 0 <= i < |s.started| ==>
          var g := s.started[i];
          g in c.gates && PredecessorsReady(g, s.states) &&
          (IsIn(s.states, g.id, Running) || (g.id in s.results && s.results[g.id] == Executed(g, c.execute(g)))))
    && (forall i, j :: 0 <= i < j < |s.started| ==> s.started[i].id != s.started[j].id)
    && (forall g :: g in s.running ==> g in s.started)
    && (forall id :: id in s.results && s.results[id].Executed? ==> s.results[id].gate in s.started)
  }

  ghost predicate SkipsJustified(s: Run) {
    forall id :: id in s.results && s.results[id].DependencySkip? ==>
      && s.results[id].failedDeps != []
      && forall d :: d in s.results[id].failedDeps ==> d in s.results[id].gate.needs && GateFailed(s.states, d)
  }

  ghost predicate Inv(c: Config, s: Run) {
    && (forall v :: v in s.states <==> Known(c.gates, v))
    && |s.running| <= c.maxActive
    && RunningMatches(c, s) && ResultsMatch(c, s) && ObservedOnce(s) && StartedOnce(c, s) && SkipsJustified(s)
  }

  lemma SameGate(gates: seq<Gate>, g: Gate, h: Gate)
    requires DistinctIds(gates) && g in gates && h in gates && g.id == h.id
    ensures g == h
  {
  }

  /** A gate that is not settled records its result: the part `Settle` and `Skip` share. */
  ghost predicate Records(c: Config, s: Run, s': Run, result: GateResult) {
    && result.gate in c.gates && result.gate.id in s.states && !GateSettled(s.states, result.gate.id)
    && s'.states == s.states[result.gate.id := Settled(result.Status())]
    && s'.results == s.results[result.gate.id := result]
    && s'.observed == s.observed + [result]
    && s'.started == s.started
  }

  lemma StillReady(gate: Gate, st: States, id: Id, state: GateState)
    requires PredecessorsReady(gate, st) && !GateSettled(st, id)
    ensures PredecessorsReady(gate, st[id := state])
  {
  }

  lemma RecordsResults(c: Config, s: Run, s': Run, result: GateResult)
    requires ResultsMatch(c, s) && Records(c, s, s', result)
    ensures ResultsMatch(c, s')
  {
  }

  lemma RecordsObserved(c: Config, s: Run, s': Run, result: GateResult)
    requires ResultsMatch(c, s) && ObservedOnce(s) && Records(c, s, s', result)
    ensures ObservedOnce(s')
  {
  }

  lemma RecordsSkips(c: Config, s: Run, s': Run, result: GateResult)
    requires ResultsMatch(c, s) && SkipsJustified(s) && Records(c, s, s', result)
    requires result.DependencySkip? ==> result.failedDeps == FailedNeeds(result.gate.needs, s.states) != []
    ensures SkipsJustified(s')
  {
  }

  lemma RecordsStarted(c: Config, s: Run, s': Run, result: GateResult)
    requires DistinctIds(c.gates) && ResultsMatch(c, s) && StartedOnce(c, s) && Records(c, s, s', result)
    requires forall g :: g in s'.running ==> g in s.running
    requires result.Executed? ==> result == Executed(result.gate, c.execute(result.gate)) && result.gate in s.started
    requires result.DependencySkip? ==> IsIn(s.states, result.gate.id, Pending)
    ensures StartedOnce(c, s')
  {
    forall i | 0 <= i < |s.started| ensures PredecessorsReady(s.started[i], s'.states) {
      StillReady(s.started[i], s.states, result.gate.id, Settled(result.Status()));
    }
    forall id | id in s'.results && s'.results[id].Executed?
      ensures s'.results[id].gate in s'.started
    {
      if id != result.gate.id {
        assert s'.results[id] == s.results[id];
      }
    }
  }

  lemma StartKeepsInv(c: Config, s: Run, s': Run)
    requires DistinctIds(c.gates) && Inv(c, s) && Start(c, s, s')
    ensures Inv(c, s')
  {
    StartKeepsRunning(c, s, s');
    StartKeepsResults(c, s, s');
    StartKeepsStarted(c, s, s');
  }

  lemma StartKeepsRunning(c: Config, s: Run, s': Run)
    requires DistinctIds(c.gates) && RunningMatches(c, s) && Start(c, s, s')
    ensures RunningMatches(c, s')
  {
  }

  lemma StartKeepsResults(c: Config, s: Run, s': Run)
    requires ResultsMatch(c, s) && SkipsJustified(s) && Start(c, s, s')
    ensures ResultsMatch(c, s') && SkipsJustified(s')
  {
  }

  lemma StartKeepsStarted(c: Config, s: Run, s': Run)
    requires DistinctIds(c.gates) && Inv(c, s) && Start(c, s, s')
    ensures StartedOnce(c, s')
  {
    var g := FirstReady(c.gates, s.states).value;
    forall i | 0 <= i < |s.started| ensures PredecessorsReady(s.started[i], s'.states) {
      StillReady(s.started[i], s.states, g.id, Running);
    }
    StillReady(g, s.states, g.id, Running);
  }

  lemma SettleKeepsInv(c: Config, s: Run, s': Run, i: nat)
    requires DistinctIds(c.gates) && Inv(c, s) && Settle(c, s, s', i)
    ensures Inv(c, s')
  {
    var g := s.running[i];
    var result := Executed(g, c.execute(g));
    assert Records(c, s, s', result);
    RecordsResults(c, s, s', result);
    RecordsObserved(c, s, s', result);
    RecordsSkips(c, s, s', result);
    RecordsStarted(c, s, s', result);
    assert RunningMatches(c, s') by {
      SettleRunning(c, s, s', i);
    }
  }

  /** Where a running gate stands after the gate at position i settled. */
  lemma StillRunning(c: Config, s: Run, s': Run, i: nat, k: nat)
    requires Settle(c, s, s', i) && k < |s.running| && k != i
    ensures s.running[k] in s'.running
  {
    assert if k < i then s'.running[k] == s.running[k] else s'.running[k - 1] == s.running[k];
  }

  lemma SettleRunning(c: Config, s: Run, s': Run, i: nat)
    requires DistinctIds(c.gates) && RunningMatches(c, s) && Settle(c, s, s', i)
    ensures RunningMatches(c, s')
  {
    forall g | g in c.gates && IsIn(s'.states, g.id, Running) ensures g in s'.running {
      assert g.id != s.running[i].id && IsIn(s.states, g.id, Running);
      var k :| 0 <= k < |s.running| && s.running[k] == g;
      StillRunning(c, s, s', i, k);
    }
  }

  lemma SkipKeepsInv(c: Config, s: Run, s': Run)
    requires DistinctIds(c.gates) && Inv(c, s) && Skip(c, s, s')
    ensures Inv(c, s')
  {
    var g := FirstBlocked(c.gates, s.states).value;
    var result := DependencySkip(g, FailedNeeds(g.needs, s.states));
    assert Records(c, s, s', result);
    RecordsResults(c, s, s', result);
    RecordsObserved(c, s, s', result);
    RecordsSkips(c, s, s', result);
    RecordsStarted(c, s, s', result);
  }

  /** Safety: every state of every run satisfies the invariant. */
  lemma {:induction false} ReachableInv(c: Config, trace: seq<Run>, k: nat)
    requires Runnable(c) && IsRun(c, trace) && k < |trace|
    ensures Inv(c, trace[k])
  {
    if k > 0 {
      ReachableInv(c, trace, k - 1);
      RunStep(c, trace, k);
      StepKeepsInv(c, trace[k - 1], trace[k]);
    }
  }

  lemma RunStep(c: Config, trace: seq<Run>, k: nat)
    requires IsRun(c, trace) && 0 < k < |trace|
    ensures Step(c, trace[k - 1], trace[k])
  {
  }

  lemma RunExtends(c: Config, trace: seq<Run>, next: Run)
    requires IsRun(c, trace) && Step(c, trace[|trace| - 1], next)
    ensures IsRun(c, trace + [next])
  {
    var longer := trace + [next];
    forall i, j | 0 <= i < j < |longer| && j == i + 1 ensures Step(c, longer[i], longer[j]) {
      if j < |trace| {
        RunStep(c, trace, j);
      }
    }
  }

  lemma StepKeepsInv(c: Config, s: Run, s': Run)
    requires DistinctIds(c.gates) && Inv(c, s) && Step(c, s, s')
    ensures Inv(c, s')
  {
    if Start(c, s, s') {
      StartKeepsInv(c, s, s');
    } else if Skip(c, s, s') {
      SkipKeepsInv(c, s, s');
    } else {
      var i: nat :| Settle(c, s, s', i);
      SettleKeepsInv(c, s, s', i);
    }
  }

  // ---- liveness: no stall, and a bound on the number of steps ----

  function PendingIds(st: States): set<Id> {
    set id | id in st && st[id] == Pending
  }

  /** With nothing running, nothing ready and something pending, a pending gate has a
    * failed or skipped need: otherwise every pending gate would wait for a pending gate. */
  lemma {:induction false} NoStall(c: Config, s: Run)
    requires Runnable(c) && Inv(c, s)
    requires s.running == [] && FirstReady(c.gates, s.states).None?
    ensures FirstBlocked(c.gates, s.states).None? <==> forall id :: id in s.states ==> s.states[id] != Pending
  {
    if FirstBlocked(c.gates, s.states).None? {
      var graph, pending := Predecessors(c.gates), PendingIds(s.states);
      forall v | Known(c.gates, v) ensures s.states[v] != Running {
        var g :| g in c.gates && g.id == v;
      }
      forall v | v in pending ensures HasEdgeInto(graph, v, pending) {
        var i :| 0 <= i < |c.gates| && c.gates[i].id == v;
        var u := WaitsForPending(c.gates, s.states, i);
      }
      NoStuckSet(graph, pending);
      assert forall id :: id in s.states && s.states[id] == Pending ==> id in pending;
    }
  }

  lemma SettledCases(st: States, id: Id)
    ensures GateSettled(st, id) <==> IsIn(st, id, Settled(Passed)) || GateFailed(st, id)
  {
    if GateSettled(st, id) {
      match st[id].status {
        case Passed =>
        case Failed => assert st[id] == Settled(Failed);
        case Skipped => assert st[id] == Settled(Skipped);
      }
    }
  }

  lemma WaitsForPending(gates: seq<Gate>, st: States, i: nat) returns (u: Id)
    requires DistinctIds(gates) && KnownPredecessors(gates)
    requires forall v :: Known(gates, v) ==> v in st && st[v] != Running
    requires i < |gates| && IsIn(st, gates[i].id, Pending)
    requires !IsReady(gates[i], st) && !IsBlocked(gates[i], st)
    ensures u in PendingIds(st) && Edge(Predecessors(gates), gates[i].id, u)
  {
    var gate := gates[i];
    PredecessorsOf(gates, i);
    assert gate in gates;
    if exists id :: id in gate.needs && !IsIn(st, id, Settled(Passed)) {
      u :| u in gate.needs && !IsIn(st, u, Settled(Passed));
      SettledCases(st, u);
    } else {
      u :| u in gate.after && !GateSettled(st, u);
    }
    assert Known(gates, u);
  }

  /** Until a run is over it can take another step. */
  lemma Progress(c: Config, s: Run) returns (s': Run)
    requires Runnable(c) && Inv(c, s) && !Over(s)
    ensures Step(c, s, s')
  {
    var ready := FirstReady(c.gates, s.states);
    if ready.Some? && |s.running| < c.maxActive {
      s' := s.(states := s.states[ready.value.id := Running], running := s.running + [ready.value],
               started := s.started + [ready.value]);
    } else if s.running != [] {
      var g := s.running[0];
      var result := Executed(g, c.execute(g));
      s' := s.(states := s.states[g.id := Settled(c.execute(g))], running := s.running[..0] + s.running[1..],
               results := s.results[g.id := result], observed := s.observed + [result]);
      assert Settle(c, s, s', 0);
    } else {
      NoStall(c, s);
      var g := FirstBlocked(c.gates, s.states).value;
      var result := DependencySkip(g, FailedNeeds(g.needs, s.states));
      s' := s.(states := s.states[g.id := Settled(Skipped)],
               results := s.results[g.id := result], observed := s.observed + [result]);
    }
  }

  function Measure(s: Run): nat {
    2 * |PendingIds(s.states)| + |s.running|
  }

  lemma LeavesPending(st: States, id: Id, state: GateState)
    requires IsIn(st, id, Pending) && state != Pending
    ensures PendingIds(st[id := state]) == PendingIds(st) - {id}
    ensures |PendingIds(st[id := state])| == |PendingIds(st)| - 1
  {
    assert PendingIds(st[id := state]) == PendingIds(st) - {id};
    assert id in PendingIds(st);
  }

  lemma SettleLeavesPending(c: Config, s: Run, s': Run, i: nat)
    requires RunningMatches(c, s) && Settle(c, s, s', i)
    ensures PendingIds(s'.states) == PendingIds(s.states) && |s'.running| == |s.running| - 1
  {
  }

  lemma StepDecreases(c: Config, s: Run, s': Run)
    requires Inv(c, s) && Step(c, s, s')
    ensures Measure(s') < Measure(s)
  {
    if Start(c, s, s') {
      LeavesPending(s.states, FirstReady(c.gates, s.states).value.id, Running);
    } else if Skip(c, s, s') {
      LeavesPending(s.states, FirstBlocked(c.gates, s.states).value.id, Settled(Skipped));
    } else {
      var i: nat :| Settle(c, s, s', i);
      SettleLeavesPending(c, s, s', i);
    }
  }

  /** Termination: a run of n gates takes at most 2n steps. */
  lemma {:induction false} RunsAreShort(c: Config, trace: seq<Run>)
    requires Runnable(c) && IsRun(c, trace)
    ensures |trace| - 1 <= 2 * |c.gates| - Measure(trace[|trace| - 1])
  {
    if |trace| == 1 {
      InitialPending(c.gates);
    } else {
      var shorter := trace[..|trace| - 1];
      RunsAreShort(c, shorter);
      ReachableInv(c, trace, |shorter| - 1);
      StepDecreases(c, trace[|shorter| - 1], trace[|shorter|]);
    }
  }

  lemma {:induction false} InitialPending(gates: seq<Gate>)
    ensures |PendingIds(InitialStates(gates))| <= |gates|
  {
    if gates != [] {
      var init, id := gates[..|gates| - 1], gates[|gates| - 1].id;
      InitialPending(init);
      assert PendingIds(InitialStates(gates)) == PendingIds(InitialStates(init)) + {id};
    }
  }
}
