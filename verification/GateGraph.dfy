/** Gate lists and the graph checks made before anything runs (scripts/run-gates.ts). */
module GateGraph {
  import opened Wrappers
  import opened Digraph

  type Id = Node

  /** A command's scheduling metadata; an absent `needs` or `after` is the empty list. */
  datatype Gate = Gate(id: Id, needs: seq<Id>, after: seq<Id>, allowFailure: bool)

  datatype GraphError =
    | NoGates
    | DuplicateId(id: Id)
    | UnknownNeed(gate: Gate, dependency: Id)
    | UnknownAfter(gate: Gate, predecessor: Id)
    | DependencyCycle(walk: seq<Id>)

  /** Every gate id with its `needs` and `after` ids; a later gate of the same id wins. */
  function Predecessors(gates: seq<Gate>): (g: Graph)
    ensures forall v :: v in g <==> exists i :: 0 <= i < |gates| && gates[i].id == v
  {
    if gates == [] then
      map[]
    else
      var last := gates[|gates| - 1];
      Predecessors(gates[..|gates| - 1])[last.id := last.needs + last.after]
  }

  ghost predicate DistinctIds(gates: seq<Gate>) {
    forall i, j :: 0 <= i < j < |gates| ==> gates[i].id != gates[j].id
  }

  ghost predicate Known(gates: seq<Gate>, id: Id) {
    exists i :: 0 <= i < |gates| && gates[i].id == id
  }

  ghost predicate KnownPredecessors(gates: seq<Gate>) {
    forall g, id :: g in gates && (id in g.needs || id in g.after) ==> Known(gates, id)
  }

  /** The graphs that may be executed. */
  ghost predicate Validated(gates: seq<Gate>) {
    && gates != []
    && DistinctIds(gates)
    && KnownPredecessors(gates)
    && Acyclic(Predecessors(gates))
  }

  lemma {:induction false} PredecessorsOf(gates: seq<Gate>, i: nat)
    requires DistinctIds(gates) && i < |gates|
    ensures gates[i].id in Predecessors(gates)
    ensures Predecessors(gates)[gates[i].id] == gates[i].needs + gates[i].after
  {
    var init := gates[..|gates| - 1];
    if i < |init| {
      assert init[i] == gates[i];
      PredecessorsOf(init, i);
    }
  }

  lemma AddThenRemove<K, V>(m: map<K, V>, k: K, v: V)
    requires k !in m
    ensures m[k := v] - {k} == m
  {
  }

  /** The state the depth-first search of `findDependencyCycle` closes over. */
  class CycleSearch {
    const graph: Graph
    var complete: set<Id>
    var active: map<Id, nat>
    var path: seq<Id>
    /** The order in which ids were completed. */
    ghost var order: seq<Id>

    ghost predicate Valid()
      reads this
    {
      && Walk(graph, path)
      && (forall v :: v in active ==> v in graph && active[v] < |path| && path[active[v]] == v)
      && (forall i :: 0 <= i < |path| ==> path[i] in active && active[path[i]] == i)
      && Distinct(order)
      && (forall v :: v in complete <==> v in order)
      && (forall v :: v in complete ==> v in graph && v !in active)
      && EdgesPointBack(graph, order)
    }

    constructor (graph: Graph)
      ensures Valid() && this.graph == graph && path == [] && order == []
    {
      this.graph := graph;
      complete, active, path, order := {}, map[], [], [];
    }

    method Enter(id: Id)
      requires Valid() && id in graph && id !in active && id !in complete
      requires path != [] ==> Edge(graph, path[|path| - 1], id)
      modifies this`active, this`path
      ensures Valid()
      ensures path == old(path) + [id] && active == old(active)[id := |old(path)|]
    {
      active := active[id := |path|];
      path := path + [id];
    }

    method Leave()
      requires Valid() && path != []
      requires forall u :: u in graph[path[|path| - 1]] && u in graph ==> u in order
      modifies this
      ensures Valid()
      ensures path == old(path[..|path| - 1]) && active == old(active - {path[|path| - 1]})
      ensures order == old(order + [path[|path| - 1]])
    {
      var id := path[|path| - 1];
      AppendPointsBack(graph, order, id);
      path := path[..|path| - 1];
      active := active - {id};
      complete := complete + {id};
      order := order + [id];
    }

    method Visit(id: Id) returns (cycle: Option<seq<Id>>)
      requires Valid()
      requires path != [] ==> Edge(graph, path[|path| - 1], id)
      modifies this
      ensures cycle.Some? ==> ClosedWalk(graph, cycle.value)
      ensures cycle.None? ==> Valid() && path == old(path) && active == old(active)
      ensures cycle.None? ==> old(order) <= order && (id in graph ==> id in order)
      decreases graph.Keys - active.Keys
    {
      if id in complete {
        return None;
      }
      if id in active {
        return Some(path[active[id]..] + [id]);
      }
      if id !in graph {
        return None;
      }
      Enter(id);
      ghost var unvisited := graph.Keys - active.Keys;
      ghost var entered := active;
      assert unvisited < graph.Keys - old(active.Keys) by {
        assert id in graph.Keys - old(active.Keys) && id !in unvisited;
      }
      var predecessors := graph[id];
      for k := 0 to |predecessors|
        invariant Valid()
        invariant path == old(path) + [id] && active == entered
        invariant old(order) <= order
        invariant forall j :: 0 <= j < k && predecessors[j] in graph ==> predecessors[j] in order
      {
        assert Edge(graph, id, predecessors[k]);
        cycle := Visit(predecessors[k]);
        if cycle.Some? {
          return;
        }
      }
      Leave();
      AddThenRemove(old(active), id, |old(path)|);
      return None;
    }

    /** The search from every gate in turn. */
    method VisitAll(gates: seq<Gate>) returns (cycle: Option<seq<Id>>)
      requires Valid() && path == [] && graph == Predecessors(gates)
      modifies this
      ensures cycle.Some? ==> ClosedWalk(graph, cycle.value)
      ensures cycle.None? ==> Valid() && forall j :: 0 <= j < |gates| ==> gates[j].id in order
    {
      for k := 0 to |gates|
        invariant Valid() && path == []
        invariant forall j :: 0 <= j < k ==> gates[j].id in order
      {
        cycle := Visit(gates[k].id);
        if cycle.Some? {
          return;
        }
      }
      return None;
    }
  }

  lemma EveryGateVisited(gates: seq<Gate>, order: seq<Id>)
    requires forall j :: 0 <= j < |gates| ==> gates[j].id in order
    ensures forall v :: v in Predecessors(gates) ==> v in order
  {
  }

  /** Either the gates' graph is acyclic and the completion order is topological,
    * or the answer is a genuine closed walk. */
  method FindDependencyCycle(gates: seq<Gate>) returns (cycle: Option<seq<Id>>, ghost order: seq<Id>)
    ensures cycle.None? <==> Acyclic(Predecessors(gates))
    ensures cycle.Some? ==> ClosedWalk(Predecessors(gates), cycle.value)
    ensures cycle.None? ==> TopologicalOrder(Predecessors(gates), order)
  {
    var search := new CycleSearch(Predecessors(gates));
    cycle := search.VisitAll(gates);
    order := search.order;
    if cycle.None? {
      EveryGateVisited(gates, order);
      OrderedIsAcyclic(search.graph, order);
    }
  }

  /** Accept exactly the validated graphs; every rejection names a real defect, and
    * an earlier kind of defect is reported before a later one. */
  method ValidateGateGraph(gates: seq<Gate>) returns (r: Result<(), GraphError>)
    ensures r.Ok? <==> Validated(gates)
    ensures r == Err(NoGates) <==> gates == []
    ensures (r.Err? && r.error.DuplicateId?) <==> !DistinctIds(gates)
    ensures r.Err? && r.error.DuplicateId? ==>
              exists i, j :: 0 <= i < j < |gates| && gates[i].id == gates[j].id == r.error.id && DistinctIds(gates[..j])
    ensures (r.Err? && (r.error.UnknownNeed? || r.error.UnknownAfter?)) <==>
            DistinctIds(gates) && !KnownPredecessors(gates)
    ensures r.Err? && r.error.UnknownNeed? ==>
              r.error.gate in gates && r.error.dependency in r.error.gate.needs && !Known(gates, r.error.dependency)
    ensures r.Err? && r.error.UnknownAfter? ==>
              r.error.gate in gates && r.error.predecessor in r.error.gate.after && !Known(gates, r.error.predecessor)
    ensures r.Err? && r.error.DependencyCycle? ==> ClosedWalk(Predecessors(gates), r.error.walk)
  {
    if gates == [] {
      return Err(NoGates);
    }
    var ids: set<Id> := {};
    for k := 0 to |gates|
      invariant DistinctIds(gates[..k])
      invariant forall v :: v in ids <==> Known(gates[..k], v)
    {
      if gates[k].id in ids {
        var i :| 0 <= i < k && gates[..k][i].id == gates[k].id;
        assert gates[i].id == gates[k].id;
        return Err(DuplicateId(gates[k].id));
      }
      assert gates[..k + 1] == gates[..k] + [gates[k]];
      ids := ids + {gates[k].id};
      forall v ensures v in ids <==> Known(gates[..k + 1], v) {
        if Known(gates[..k], v) {
          var i :| 0 <= i < k && gates[..k][i].id == v;
          assert gates[..k + 1][i].id == v;
        }
        assert gates[..k + 1][k].id == gates[k].id;
      }
    }
    assert gates[..|gates|] == gates;
    for k := 0 to |gates|
      invariant forall g, id :: g in gates[..k] && (id in g.needs || id in g.after) ==> Known(gates, id)
    {
      var gate := gates[k];
      for n := 0 to |gate.needs|
        invariant forall m :: 0 <= m < n ==> Known(gates, gate.needs[m])
      {
        if gate.needs[n] !in ids {
          return Err(UnknownNeed(gate, gate.needs[n]));
        }
      }
      for n := 0 to |gate.after|
        invariant forall m :: 0 <= m < n ==> Known(gates, gate.after[m])
      {
        if gate.after[n] !in ids {
          return Err(UnknownAfter(gate, gate.after[n]));
        }
      }
      assert gates[..k + 1] == gates[..k] + [gate];
    }
    var cycle, _ := FindDependencyCycle(gates);
    if cycle.Some? {
      return Err(DependencyCycle(cycle.value));
    }
    return Ok(());
  }
}
