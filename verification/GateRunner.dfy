/** The scheduling loop of `runGates` (scripts/run-gates.ts), refining the steps of GateRuns. */
module GateRunner {
  import opened Wrappers
  import opened GateGraph
  import opened GateRuns
  import opened GateSchedules
  import opened GateOrder

  const MAX_SAFE_INTEGER: int := 9007199254740991

  datatype RunError =
    | InvalidGraph(error: GraphError)
    | InvalidConcurrency

  /** Append a step to the run so far. */
  ghost method TakeStep(c: Config, s: Run, next: Run, trace: seq<Run>) returns (s': Run, extended: seq<Run>)
    requires Runnable(c) && Inv(c, s) && IsRun(c, trace) && trace[|trace| - 1] == s && Step(c, s, next)
    ensures s' == next && IsRun(c, extended) && extended == trace + [next]
    ensures Inv(c, next) && Measure(next) < Measure(s)
  {
    RunExtends(c, trace, next);
    StepKeepsInv(c, s, next);
    StepDecreases(c, s, next);
    return next, trace + [next];
  }

  /** Fill the pool: start ready gates, in list order, while a worker is free. */
  method StartReady(c: Config, states: States, running: seq<Gate>, ghost s: Run, ghost trace: seq<Run>)
    returns (states': States, running': seq<Gate>, madeProgress: bool, ghost s': Run, ghost trace': seq<Run>)
    requires Runnable(c) && Inv(c, s) && IsRun(c, trace) && trace[|trace| - 1] == s
    requires s.states == states && s.running == running
    ensures Inv(c, s') && IsRun(c, trace') && trace'[|trace'| - 1] == s'
    ensures s' == s.(states := states', running := running', started := s'.started)
    ensures |running'| >= c.maxActive || FirstReady(c.gates, states').None?
    ensures if madeProgress then Measure(s') < Measure(s) && running' != [] else s' == s
  {
    states', running', madeProgress := states, running, false;
    s', trace' := s, trace;
    while |running'| < c.maxActive
      invariant Inv(c, s') && IsRun(c, trace') && trace'[|trace'| - 1] == s'
      invariant s' == s.(states := states', running := running', started := s'.started)
      invariant if madeProgress then Measure(s') < Measure(s) && running' != [] else s' == s
      decreases Measure(s')
    {
      var ready := FirstReady(c.gates, states');
      if ready.None? {
        break;
      }
      states' := states'[ready.value.id := Running];
      running' := running' + [ready.value];
      madeProgress := true;
      ghost var next := s'.(states := states', running := running', started := s'.started + [ready.value]);
      assert Start(c, s', next);
      s', trace' := TakeStep(c, s', next, trace');
    }
  }

  /** The observer saw every result, and no gate twice. */
  ghost predicate EachObservedOnce(results: Results, observed: seq<GateResult>) {
    && (forall id :: id in results ==> results[id] in observed)
    && (forall r :: r in observed ==> r.gate.id in results && results[r.gate.id] == r)
    && (forall i, j :: 0 <= i < j < |observed| ==> observed[i].gate.id != observed[j].gate.id)
  }

  /** The scheduling loop. Which promise `Promise.race` yields is a demonic choice, and
    * `c.execute` stands for the outcome each gate's process will have. */
  method Schedule(c: Config) returns (results: Results, observed: seq<GateResult>, ghost trace: seq<Run>)
    requires Runnable(c)
    ensures IsRun(c, trace) && Over(trace[|trace| - 1]) && Inv(c, trace[|trace| - 1])
    ensures trace[|trace| - 1].results == results && trace[|trace| - 1].observed == observed
    ensures results == Reference(c) && EachObservedOnce(results, observed) && InOrder(observed)
  {
    var states := InitialStates(c.gates);
    var running: seq<Gate> := [];
    results, observed := map[], [];
    ghost var s := Initial(c);
    trace := [s];
    ReachableInv(c, trace, 0);
    while true
      invariant s == Run(states, running, results, observed, s.started)
      invariant IsRun(c, trace) && trace[|trace| - 1] == s && Inv(c, s)
      decreases Measure(s)
    {
      var madeProgress;
      states, running, madeProgress, s, trace := StartReady(c, states, running, s, trace);
      if running == [] {
        NoStall(c, s);
        if forall id :: id in states ==> states[id] != Pending {
          break;
        }
        var blocked := FirstBlocked(c.gates, states);
        if blocked.None? {
          assert false; // the "stalled without a failed dependency" throw
        }
        var gate := blocked.value;
        var result := DependencySkip(gate, FailedNeeds(gate.needs, states));
        states := states[gate.id := Settled(Skipped)];
        results := results[gate.id := result];
        observed := observed + [result];
        ghost var next := Run(states, running, results, observed, s.started);
        assert Skip(c, s, next);
        s, trace := TakeStep(c, s, next, trace);
      } else if !madeProgress {
        var i: nat :| i < |running|;
        var gate := running[i];
        var result := Executed(gate, c.execute(gate));
        running := running[..i] + running[i + 1..];
        states := states[gate.id := Settled(result.Status())];
        results := results[gate.id := result];
        observed := observed + [result];
        ghost var next := Run(states, running, results, observed, s.started);
        assert Settle(c, s, next, i);
        s, trace := TakeStep(c, s, next, trace);
      }
    }
    FinishedRunMatchesReference(c, trace);
    ObservedInOrder(c, trace, |trace| - 1);
  }

  /** The answers in list order; a missing one would be the "missing result" throw. */
  method InListOrder(gates: seq<Gate>, results: Results) returns (list: seq<GateResult>)
    requires forall i :: 0 <= i < |gates| ==> gates[i].id in results
    ensures |list| == |gates|
    ensures forall i :: 0 <= i < |gates| ==> list[i] == results[gates[i].id]
  {
    list := [];
    for k := 0 to |gates|
      invariant |list| == k
      invariant forall i :: 0 <= i < k ==> list[i] == results[gates[i].id]
    {
      list := list + [results[gates[k].id]];
    }
  }

  /** What the answer for one gate must be. */
  ghost predicate Answers(c: Config, gate: Gate, r: GateResult) {
    && r.gate == gate
    && gate.id in Reference(c) && r == Reference(c)[gate.id]
    && r.Status() == if HasFailingAncestor(c, gate.id) then Skipped else c.execute(gate)
  }

  lemma ConsistentAnswers(c: Config, results: Results, i: nat)
    requires Validated(c.gates) && LocallyConsistent(c, results) && results == Reference(c) && i < |c.gates|
    ensures c.gates[i].id in results && Answers(c, c.gates[i], results[c.gates[i].id])
  {
    var g := c.gates[i];
    assert Known(c.gates, g.id);
    StatusInClosedForm(c, results, g.id);
    SameGate(c.gates, results[g.id].gate, g);
    SameGate(c.gates, GateById(c.gates, g.id), g);
  }

  lemma FinishedRunAnswers(c: Config, trace: seq<Run>, results: Results)
    requires Runnable(c) && IsRun(c, trace) && Over(trace[|trace| - 1]) && trace[|trace| - 1].results == results
    ensures LocallyConsistent(c, results)
    ensures forall i :: 0 <= i < |c.gates| ==>
              c.gates[i].id in results && Answers(c, c.gates[i], results[c.gates[i].id])
  {
    FinishedRunMatchesReference(c, trace);
    ReachableInv(c, trace, |trace| - 1);
    OverIsConsistent(c, trace[|trace| - 1]);
    forall i | 0 <= i < |c.gates| ensures c.gates[i].id in results && Answers(c, c.gates[i], results[c.gates[i].id]) {
      ConsistentAnswers(c, results, i);
    }
  }

  /** Invalid input is the only error; otherwise every gate gets the answer of the
    * sequential reference, and the exit code only depends on the `needs` ancestors. */
  method RunGates(gates: seq<Gate>, maxActive: int, execute: Gate -> Status)
    returns (r: Result<seq<GateResult>, RunError>)
    ensures r.Ok? <==> Validated(gates) && 1 <= maxActive <= MAX_SAFE_INTEGER
    ensures r.Err? ==> (r.error.InvalidGraph? <==> !Validated(gates))
    ensures r.Ok? ==> |r.value| == |gates|
    ensures r.Ok? ==> forall i :: 0 <= i < |gates| ==> Answers(Config(gates, maxActive, execute), gates[i], r.value[i])
    ensures r.Ok? ==>
              (ExitCode(r.value) == 0 <==>
               forall g :: g in gates && !g.allowFailure ==>
                 execute(g) == Passed && !HasFailingAncestor(Config(gates, maxActive, execute), g.id))
  {
    var valid := ValidateGateGraph(gates);
    if valid.Err? {
      return Err(InvalidGraph(valid.error));
    }
    if maxActive < 1 || maxActive > MAX_SAFE_INTEGER {
      return Err(InvalidConcurrency);
    }
    var c := Config(gates, maxActive, execute);
    var results, _, trace := Schedule(c);
    FinishedRunAnswers(c, trace, results);
    var list := InListOrder(gates, results);
    ExitCodeInClosedForm(c, results, list);
    return Ok(list);
  }
}
