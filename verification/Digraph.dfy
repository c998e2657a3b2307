/** Finite directed graphs, closed walks, and the pigeonhole fact behind every
  * "acyclic graphs do not get stuck" argument of this project. */
module Digraph {
  import opened Wrappers

  type Node = string

  /** Each node with the nodes its edges point to; a node outside the domain has no edges. */
  type Graph = map<Node, seq<Node>>

  predicate Edge(g: Graph, a: Node, b: Node) {
    a in g && b in g[a]
  }

  ghost predicate Walk(g: Graph, w: seq<Node>) {
    forall i, j :: 0 <= i < j < |w| && j == i + 1 ==> Edge(g, w[i], w[j])
  }

  ghost predicate ClosedWalk(g: Graph, w: seq<Node>) {
    |w| >= 2 && w[0] == w[|w| - 1] && Walk(g, w)
  }

  ghost predicate Acyclic(g: Graph) {
    forall w :: !ClosedWalk(g, w)
  }

  lemma WalkFrom(g: Graph, v: Node, w: seq<Node>)
    requires Walk(g, w) && w != [] && Edge(g, v, w[0])
    ensures Walk(g, [v] + w)
  {
  }

  /** Every listed node comes after the nodes its edges point to. */
  ghost predicate EdgesPointBack(g: Graph, order: seq<Node>) {
    forall i, u {:trigger Edge(g, order[i], u)} ::
      0 <= i < |order| && Edge(g, order[i], u) && u in g ==> u in order[..i]
  }

  ghost predicate TopologicalOrder(g: Graph, order: seq<Node>) {
    && Distinct(order)
    && (forall v :: v in g <==> v in order)
    && EdgesPointBack(g, order)
  }

  lemma AppendPointsBack(g: Graph, order: seq<Node>, v: Node)
    requires EdgesPointBack(g, order) && v in g
    requires forall u :: u in g[v] && u in g ==> u in order
    ensures EdgesPointBack(g, order + [v])
  {
    forall i, u | 0 <= i <= |order| && Edge(g, (order + [v])[i], u) && u in g
      ensures u in (order + [v])[..i]
    {
      if i < |order| {
        assert Edge(g, order[i], u) && (order + [v])[..i] == order[..i];
      } else {
        assert (order + [v])[..i] == order;
      }
    }
  }

  ghost predicate HasEdgeInto(g: Graph, v: Node, s: set<Node>) {
    exists u :: u in s && Edge(g, v, u)
  }

  /** A set in which every node has an edge back into the set. */
  ghost predicate Stuck(g: Graph, s: set<Node>) {
    forall v {:trigger HasEdgeInto(g, v, s)} :: v in s ==> HasEdgeInto(g, v, s)
  }

  lemma DistinctFits<T>(s: seq<T>, universe: set<T>)
    requires Distinct(s)
    requires forall x :: x in s ==> x in universe
    ensures |s| <= |universe|
  {
    if s != [] {
      var last := s[|s| - 1];
      assert s == s[..|s| - 1] + [last];
      DistinctFits(s[..|s| - 1], universe - {last});
    }
  }

  /** Following edges inside a stuck set must revisit a node. */
  lemma {:induction false} StuckWalkCloses(g: Graph, s: set<Node>, w: seq<Node>) returns (cycle: seq<Node>)
    requires Stuck(g, s)
    requires w != [] && Walk(g, w) && Distinct(w)
    requires forall v :: v in w ==> v in s
    ensures ClosedWalk(g, cycle)
    decreases |s| - |w|
  {
    assert w[|w| - 1] in s && HasEdgeInto(g, w[|w| - 1], s);
    var u :| u in s && Edge(g, w[|w| - 1], u);
    if u in w {
      var k :| 0 <= k < |w| && w[k] == u;
      cycle := w[k..] + [u];
    } else {
      DistinctFits(w + [u], s);
      cycle := StuckWalkCloses(g, s, w + [u]);
    }
  }

  /** An acyclic graph has no non-empty stuck set. */
  lemma {:induction false} NoStuckSet(g: Graph, s: set<Node>)
    requires Acyclic(g) && Stuck(g, s)
    ensures s == {}
  {
    if s != {} {
      var v :| v in s;
      var cycle := StuckWalkCloses(g, s, [v]);
    }
  }

  /** Along a walk the positions in a topological order only fall. */
  lemma {:induction false} WalkFalls(g: Graph, order: seq<Node>, w: seq<Node>, i: nat, j: nat)
    requires TopologicalOrder(g, order) && Walk(g, w)
    requires |w| >= 2 && w[|w| - 1] in g
    requires i < |order| && w[0] == order[i]
    requires j < |order| && w[|w| - 1] == order[j]
    ensures j < i
    decreases |w|
  {
    assert Edge(g, w[0], w[1]);
    if |w| > 2 {
      assert Edge(g, w[1], w[2]);
      var k :| 0 <= k < i && order[k] == w[1];
      WalkFalls(g, order, w[1..], k, j);
    }
  }

  lemma {:induction false} OrderedIsAcyclic(g: Graph, order: seq<Node>)
    requires TopologicalOrder(g, order)
    ensures Acyclic(g)
  {
    forall w ensures !ClosedWalk(g, w) {
      if ClosedWalk(g, w) {
        assert Edge(g, w[0], w[1]);
        var i :| 0 <= i < |order| && order[i] == w[0];
        WalkFalls(g, order, w, i, i);
      }
    }
  }
}
