/** Dependency-safe ordering of the workspace packages (scripts/package-graph.ts, `topoSort`). */
module PackageGraph {
  import opened Wrappers
  import opened Digraph
  import opened Sorting

  datatype Package = Package(short: string, group: string, deps: seq<string>)

  const MAX_SAFE_INTEGER: int := 9007199254740991

  /** A caller's group priorities, and the collation both string tiebreaks use. */
  datatype Ordering = Ordering(groups: seq<string>, before: (string, string) -> bool)

  /** The collation is a strict total order on strings. */
  ghost predicate Collates(o: Ordering) {
    && StrictOrder(o.before)
    && forall a, b :: a == b || o.before(a, b) || o.before(b, a)
  }

  function IndexOf(groups: seq<string>, group: string): int {
    if groups == [] then -1
    else if groups[0] == group then 0
    else var rest := IndexOf(groups[1..], group); if rest == -1 then -1 else rest + 1
  }

  function GroupRank(o: Ordering, group: string): int {
    var index := IndexOf(o.groups, group);
    if index == -1 then MAX_SAFE_INTEGER else index
  }

  /** `comparePackages(a, b) < 0`. */
  predicate Precedes(o: Ordering, a: Package, b: Package) {
    || GroupRank(o, a.group) < GroupRank(o, b.group)
    || (GroupRank(o, a.group) == GroupRank(o, b.group) &&
        (o.before(a.group, b.group) || (a.group == b.group && o.before(a.short, b.short))))
  }

  function PrecedesIn(o: Ordering): (Package, Package) -> bool {
    (a, b) => Precedes(o, a, b)
  }

  lemma PrecedesIsStrict(o: Ordering)
    requires Collates(o)
    ensures StrictOrder(PrecedesIn(o))
    ensures forall a, b :: Precedes(o, a, b) ==> !Precedes(o, b, a)
    ensures forall a: Package, b: Package :: a.short != b.short ==> Precedes(o, a, b) || Precedes(o, b, a)
  {
    forall a: Package, b: Package, c: Package | Precedes(o, a, b) && Precedes(o, b, c) ensures Precedes(o, a, c) {
    }
  }

  // ---- the package map ----

  /** Distinct names, as the entries of a map have. */
  ghost predicate DistinctShorts(packages: seq<Package>) {
    forall i, j :: 0 <= i < j < |packages| ==> packages[i].short != packages[j].short
  }

  /** Set a key of an insertion-ordered map: replace in place, or append. */
  function Put(entries: seq<Package>, p: Package): seq<Package> {
    if entries == [] then [p]
    else if entries[0].short == p.short then [p] + entries[1..]
    else [entries[0]] + Put(entries[1..], p)
  }

  /** `new Map(packages.map(pkg => [pkg.short, pkg]))`, in iteration order. */
  function Entries(packages: seq<Package>): (entries: seq<Package>)
    ensures DistinctShorts(entries)
  {
    if packages == [] then []
    else
      var init := Entries(packages[..|packages| - 1]);
      PutKeepsDistinct(init, packages[|packages| - 1]);
      Put(init, packages[|packages| - 1])
  }

  lemma {:induction false} PutKeepsDistinct(entries: seq<Package>, p: Package)
    requires DistinctShorts(entries)
    ensures DistinctShorts(Put(entries, p))
    ensures forall q :: q in Put(entries, p) <==> q == p || (q in entries && q.short != p.short)
  {
    if entries != [] && entries[0].short != p.short {
      PutKeepsDistinct(entries[1..], p);
      forall k | 0 <= k < |Put(entries[1..], p)| ensures Put(entries[1..], p)[k].short != entries[0].short {
        assert Put(entries[1..], p)[k] in Put(entries[1..], p);
      }
    }
  }

  lemma {:induction false} EntriesOfDistinct(packages: seq<Package>)
    requires DistinctShorts(packages)
    ensures forall q :: q in Entries(packages) <==> q in packages
  {
    if packages != [] {
      var init, last := packages[..|packages| - 1], packages[|packages| - 1];
      EntriesOfDistinct(init);
      PutKeepsDistinct(Entries(init), last);
      assert packages == init + [last];
    }
  }

  /** Each package name with its dependencies. */
  ghost function Deps(entries: seq<Package>): (g: Graph)
    requires DistinctShorts(entries)
    ensures forall v :: v in g <==> exists p :: p in entries && p.short == v
    ensures forall p :: p in entries ==> p.short in g && g[p.short] == p.deps
  {
    if entries == [] then map[]
    else
      var last := entries[|entries| - 1];
      assert entries == entries[..|entries| - 1] + [last];
      Deps(entries[..|entries| - 1])[last.short := last.deps]
  }

  ghost predicate AllKnown(g: Graph) {
    forall v, u :: Edge(g, v, u) ==> u in g
  }

  // ---- layers ----

  ghost predicate DepsIn(deps: seq<string>, s: set<string>) {
    forall u :: u in deps ==> u in s
  }

  /** The names placed by the first k rounds: all their dependencies were placed a round earlier. */
  ghost function Placed(g: Graph, k: nat): set<string> {
    if k == 0 then {} else set v | v in g && DepsIn(g[v], Placed(g, k - 1))
  }

  lemma {:induction false} PlacedGrows(g: Graph, j: nat, k: nat)
    requires j <= k
    ensures Placed(g, j) <= Placed(g, k)
  {
    if j > 0 {
      PlacedGrows(g, j - 1, k - 1);
    }
  }

  /** A name is placed in round d, counting from 0. */
  ghost predicate DepthIs(g: Graph, v: string, d: nat) {
    v in Placed(g, d + 1) && v !in Placed(g, d)
  }

  lemma DepthIsUnique(g: Graph, v: string, d: nat, e: nat)
    requires DepthIs(g, v, d) && DepthIs(g, v, e)
    ensures d == e
  {
    if d < e { PlacedGrows(g, d + 1, e); }
    if e < d { PlacedGrows(g, e + 1, d); }
  }

  lemma DependencyIsShallower(g: Graph, v: string, d: nat, u: string, e: nat)
    requires DepthIs(g, v, d) && Edge(g, v, u) && DepthIs(g, u, e)
    ensures e < d
  {
    assert u in Placed(g, d);
    if d <= e { PlacedGrows(g, d, e); }
  }

  ghost predicate ChainOf(g: Graph, v: string, w: seq<string>, length: nat) {
    |w| == length && length > 0 && w[0] == v && Walk(g, w)
  }

  ghost predicate HasChain(g: Graph, v: string, length: nat) {
    exists w :: ChainOf(g, v, w, length)
  }

  /** Placed within k rounds exactly when no dependency chain from the name has k + 1 names. */
  lemma {:induction false} PlacedIffNoLongChain(g: Graph, v: string, k: nat)
    requires AllKnown(g) && v in g
    ensures v in Placed(g, k) <==> !HasChain(g, v, k + 1)
    decreases k
  {
    if k == 0 {
      assert ChainOf(g, v, [v], 1);
    } else if v in Placed(g, k) {
      if HasChain(g, v, k + 1) {
        var w :| ChainOf(g, v, w, k + 1);
        assert Edge(g, w[0], w[1]);
        assert ChainOf(g, w[1], w[1..], k);
        PlacedIffNoLongChain(g, w[1], k - 1);
      }
    } else {
      var u :| u in g[v] && u !in Placed(g, k - 1);
      assert Edge(g, v, u);
      PlacedIffNoLongChain(g, u, k - 1);
      var w :| ChainOf(g, u, w, k);
      WalkFrom(g, v, w);
      assert ChainOf(g, v, [v] + w, k + 1);
    }
  }

  /** A package's depth is the number of edges of its longest dependency chain. */
  lemma DepthIsLongestChain(g: Graph, v: string, d: nat)
    requires AllKnown(g) && v in g
    ensures DepthIs(g, v, d) <==>
            HasChain(g, v, d + 1) && !HasChain(g, v, d + 2)
  {
    PlacedIffNoLongChain(g, v, d);
    PlacedIffNoLongChain(g, v, d + 1);
  }

  // ---- the specified order ----

  /** Shallower packages first, then the caller's order within one depth. */
  ghost predicate Below(g: Graph, o: Ordering, a: Package, b: Package) {
    exists d, e :: DepthIs(g, a.short, d) && DepthIs(g, b.short, e) && (d < e || (d == e && Precedes(o, a, b)))
  }

  ghost function BelowIn(g: Graph, o: Ordering): (Package, Package) -> bool {
    (a, b) => Below(g, o, a, b)
  }

  /** The list of all entries in ascending order of (depth, group rank, group, name). */
  ghost predicate LayeredOrder(entries: seq<Package>, o: Ordering, out: seq<Package>)
    requires DistinctShorts(entries)
  {
    && (forall p :: p in out <==> p in entries)
    && Ascending(out, BelowIn(Deps(entries), o))
  }

  lemma BelowIsAsymmetric(g: Graph, o: Ordering)
    requires Collates(o)
    ensures forall a, b :: Below(g, o, a, b) ==> !Below(g, o, b, a)
  {
    PrecedesIsStrict(o);
    forall a, b | Below(g, o, a, b) && Below(g, o, b, a) ensures false {
      var d, e :| DepthIs(g, a.short, d) && DepthIs(g, b.short, e) && (d < e || (d == e && Precedes(o, a, b)));
      var e', d' :| DepthIs(g, b.short, e') && DepthIs(g, a.short, d') && (e' < d' || (e' == d' && Precedes(o, b, a)));
      DepthIsUnique(g, a.short, d, d');
      DepthIsUnique(g, b.short, e, e');
    }
  }

  lemma SameDeps(a: seq<Package>, b: seq<Package>)
    requires DistinctShorts(a) && DistinctShorts(b) && forall p :: p in a <==> p in b
    ensures Deps(a) == Deps(b)
  {
    forall v ensures v in Deps(a) <==> v in Deps(b) {
    }
    forall v | v in Deps(a) ensures Deps(a)[v] == Deps(b)[v] {
      var p :| p in a && p.short == v;
    }
  }

  /** The specified order does not depend on the order of the input. */
  lemma OrderIgnoresInputOrder(a: seq<Package>, b: seq<Package>, o: Ordering, outA: seq<Package>, outB: seq<Package>)
    requires Collates(o) && DistinctShorts(a) && DistinctShorts(b) && (forall p :: p in a <==> p in b)
    requires LayeredOrder(a, o, outA) && LayeredOrder(b, o, outB)
    ensures outA == outB
  {
    SameDeps(a, b);
    BelowIsAsymmetric(Deps(a), o);
    AscendingIsUnique(outA, outB, BelowIn(Deps(a), o));
  }

  lemma AscendingIsDistinct(out: seq<Package>, lt: (Package, Package) -> bool)
    requires Ascending(out, lt) && forall x, y :: lt(x, y) ==> !lt(y, x)
    ensures Distinct(out)
  {
    forall i, j | 0 <= i < j < |out| ensures out[i] != out[j] {
      assert lt(out[i], out[j]) && !lt(out[j], out[i]);
    }
  }

  lemma DistinctHasOnce(s: seq<Package>, p: Package)
    requires Distinct(s)
    ensures multiset(s)[p] == if p in s then 1 else 0
  {
    if multiset(s)[p] >= 2 {
      TwiceHasPositions(s, p);
    }
  }

  lemma SameMultiset(a: seq<Package>, b: seq<Package>)
    requires Distinct(a) && Distinct(b) && forall p :: p in a <==> p in b
    ensures multiset(a) == multiset(b)
  {
    forall p ensures multiset(a)[p] == multiset(b)[p] {
      DistinctHasOnce(a, p);
      DistinctHasOnce(b, p);
    }
  }

  /** Packages with distinct names are ordered, each exactly once. */
  lemma OrderIsPermutation(packages: seq<Package>, o: Ordering, out: seq<Package>)
    requires Collates(o) && DistinctShorts(packages) && LayeredOrder(Entries(packages), o, out)
    ensures multiset(out) == multiset(packages) && LayeredOrder(packages, o, out)
  {
    EntriesOfDistinct(packages);
    SameDeps(Entries(packages), packages);
    BelowIsAsymmetric(Deps(packages), o);
    AscendingIsDistinct(out, BelowIn(Deps(packages), o));
    SameMultiset(out, packages);
  }

  // ---- the algorithm ----

  function ReadyOf(remaining: seq<Package>, placed: set<string>): (ready: seq<Package>)
    ensures forall p :: p in ready <==> p in remaining && forall u :: u in p.deps ==> u in placed
    ensures DistinctShorts(remaining) ==> DistinctShorts(ready)
  {
    if remaining == [] then []
    else
      var p, rest := remaining[0], ReadyOf(remaining[1..], placed);
      assert forall q :: q in remaining <==> q == p || q in remaining[1..];
      if forall u :: u in p.deps ==> u in placed then
        assert DistinctShorts(remaining) ==> forall k :: 0 <= k < |rest| ==> rest[k] in remaining[1..];
        [p] + rest
      else rest
  }

  function Without(remaining: seq<Package>, short: string): (r: seq<Package>)
    ensures forall p :: p in r <==> p in remaining && p.short != short
    ensures |r| <= |remaining|
    ensures (exists p :: p in remaining && p.short == short) ==> |r| < |remaining|
    ensures DistinctShorts(remaining) ==> DistinctShorts(r)
  {
    if remaining == [] then []
    else
      assert forall q :: q in remaining <==> q == remaining[0] || q in remaining[1..];
      var rest := Without(remaining[1..], short);
      if remaining[0].short == short then rest
      else
        assert DistinctShorts(remaining) ==> forall k :: 0 <= k < |rest| ==> rest[k] in remaining[1..];
        [remaining[0]] + rest
  }

  /** The loop's state after some rounds. */
  ghost predicate Rounds(entries: seq<Package>, o: Ordering, round: nat, remaining: seq<Package>, placed: set<string>, out: seq<Package>)
    requires DistinctShorts(entries)
  {
    && placed == Placed(Deps(entries), round)
    && DistinctShorts(remaining)
    && (forall p :: p in remaining <==> p in entries && p.short !in placed)
    && (forall p :: p in out <==> p in entries && p.short in placed)
    && Ascending(out, BelowIn(Deps(entries), o))
  }

  ghost predicate ReadyForRound(entries: seq<Package>, round: nat, ready: seq<Package>)
    requires DistinctShorts(entries)
  {
    forall p :: p in ready <==> p in entries && DepthIs(Deps(entries), p.short, round)
  }

  lemma ReadyHaveDepth(entries: seq<Package>, o: Ordering, round: nat, remaining: seq<Package>, placed: set<string>, out: seq<Package>)
    requires DistinctShorts(entries) && Rounds(entries, o, round, remaining, placed, out)
    ensures ReadyForRound(entries, round, ReadyOf(remaining, placed))
  {
    var g := Deps(entries);
    PlacedGrows(g, round, round + 1);
    forall p | p in entries ensures p in ReadyOf(remaining, placed) <==> DepthIs(g, p.short, round) {
      assert p.short in g && g[p.short] == p.deps;
      assert p.short in Placed(g, round + 1) <==> DepsIn(p.deps, placed);
    }
  }

  lemma SortedReadyAscends(entries: seq<Package>, o: Ordering, round: nat, ready: seq<Package>)
    requires Collates(o) && DistinctShorts(entries) && DistinctShorts(ready) && ReadyForRound(entries, round, ready)
    ensures var sorted := Sort(ready, PrecedesIn(o));
            ReadyForRound(entries, round, sorted) && Ascending(sorted, BelowIn(Deps(entries), o)) && DistinctShorts(sorted)
  {
    PrecedesIsStrict(o);
    SortAscends(ready, PrecedesIn(o));
    SortHas(ready, PrecedesIn(o));
    var sorted := Sort(ready, PrecedesIn(o));
    forall i, j | 0 <= i < j < |sorted|
      ensures Below(Deps(entries), o, sorted[i], sorted[j]) && sorted[i].short != sorted[j].short
    {
      assert sorted[i] in sorted && sorted[j] in sorted;
      assert PrecedesIn(o)(sorted[i], sorted[j]);
      var m, n := Position(ready, sorted[i]), Position(ready, sorted[j]);
      assert m != n by {
        assert !PrecedesIn(o)(sorted[j], sorted[i]);
      }
    }
  }

  lemma AppendAscends(entries: seq<Package>, o: Ordering, round: nat, out: seq<Package>, ready: seq<Package>)
    requires DistinctShorts(entries) && ReadyForRound(entries, round, ready)
    requires Ascending(out, BelowIn(Deps(entries), o)) && Ascending(ready, BelowIn(Deps(entries), o))
    requires forall p :: p in out ==> p.short in Placed(Deps(entries), round)
    ensures Ascending(out + ready, BelowIn(Deps(entries), o))
  {
    var g, all := Deps(entries), out + ready;
    forall i, j | 0 <= i < |out| <= j < |all| ensures Below(g, o, all[i], all[j]) {
      assert all[i] in out && all[j] in ready;
      var d := DepthWithin(g, all[i].short, round);
    }
  }

  lemma {:induction false} DepthWithin(g: Graph, v: string, k: nat) returns (d: nat)
    requires v in Placed(g, k)
    ensures d < k && DepthIs(g, v, d)
  {
    if v in Placed(g, k - 1) {
      d := DepthWithin(g, v, k - 1);
    } else {
      d := k - 1;
    }
  }

  lemma RoundComplete(entries: seq<Package>, round: nat, ready: seq<Package>, placed: set<string>)
    requires DistinctShorts(entries) && ReadyForRound(entries, round, ready)
    requires forall v :: v in placed <==> v in Placed(Deps(entries), round) || exists p :: p in ready && p.short == v
    ensures placed == Placed(Deps(entries), round + 1)
  {
    var g := Deps(entries);
    PlacedGrows(g, round, round + 1);
    forall v | v in Placed(g, round + 1) ensures v in placed {
      if v !in Placed(g, round) {
        var p :| p in entries && p.short == v;
        assert DepthIs(g, p.short, round);
      }
    }
  }

  lemma {:induction false} StuckStays(g: Graph, k: nat, j: nat)
    requires Placed(g, k + 1) <= Placed(g, k)
    ensures Placed(g, j) <= Placed(g, k)
  {
    if j > 0 {
      StuckStays(g, k, j - 1);
      forall v | v in Placed(g, j) ensures v in Placed(g, k) {
        assert DepsIn(g[v], Placed(g, k));
        assert v in Placed(g, k + 1);
      }
    }
  }

  /** With nothing ready, a known dependency of a remaining package remains too. */
  lemma StuckIsCyclic(entries: seq<Package>, o: Ordering, round: nat, remaining: seq<Package>, placed: set<string>, out: seq<Package>)
    requires DistinctShorts(entries) && Rounds(entries, o, round, remaining, placed, out)
    requires remaining != [] && ReadyOf(remaining, placed) == []
    ensures !(AllKnown(Deps(entries)) && Acyclic(Deps(entries)))
    ensures forall p, k :: p in remaining ==> p.short !in Placed(Deps(entries), k)
  {
    var g := Deps(entries);
    ReadyHaveDepth(entries, o, round, remaining, placed, out);
    forall v | v in Placed(g, round + 1) ensures v in Placed(g, round) {
      var p :| p in entries && p.short == v;
      assert !DepthIs(g, p.short, round);
    }
    forall p, k | p in remaining ensures p.short !in Placed(g, k) {
      StuckStays(g, round, k);
    }
    if AllKnown(g) {
      var stuck := set p | p in remaining :: p.short;
      forall v | v in stuck ensures HasEdgeInto(g, v, stuck) {
        var p :| p in remaining && p.short == v;
        assert p !in ReadyOf(remaining, placed);
        var u :| u in p.deps && u !in placed;
        assert Edge(g, v, u);
        var q :| q in entries && q.short == u;
        assert q in remaining;
      }
      assert remaining[0] in remaining && remaining[0].short in stuck;
      if Acyclic(g) {
        NoStuckSet(g, stuck);
      }
    }
  }

  function Shorts(out: seq<Package>): (r: seq<string>)
    ensures |r| == |out| && forall i :: 0 <= i < |out| ==> r[i] == out[i].short
  {
    seq(|out|, i requires 0 <= i < |out| => out[i].short)
  }

  /** No number of rounds places the name. */
  ghost predicate Unplaceable(g: Graph, v: string) {
    v in g && forall k :: v !in Placed(g, k)
  }

  lemma RemainingIsUnplaceable(entries: seq<Package>, remaining: seq<Package>, round: nat, v: string)
    requires DistinctShorts(entries)
    requires forall p :: p in remaining <==> p in entries && p.short !in Placed(Deps(entries), round)
    requires forall p :: p in remaining ==> Unplaceable(Deps(entries), p.short)
    ensures v in Shorts(remaining) <==> Unplaceable(Deps(entries), v)
  {
    if v in Shorts(remaining) {
      var i :| 0 <= i < |remaining| && remaining[i].short == v;
      assert remaining[i] in remaining;
    }
    if Unplaceable(Deps(entries), v) {
      var p :| p in entries && p.short == v;
      var i := Position(remaining, p);
      assert Shorts(remaining)[i] == v;
    }
  }

  lemma RemainingAreUnplaceable(entries: seq<Package>, o: Ordering, round: nat, remaining: seq<Package>, placed: set<string>,
                                out: seq<Package>)
    requires DistinctShorts(entries) && Rounds(entries, o, round, remaining, placed, out)
    requires forall p, k :: p in remaining ==> p.short !in Placed(Deps(entries), k)
    ensures forall v :: v in Shorts(remaining) <==> Unplaceable(Deps(entries), v)
  {
    forall p | p in remaining ensures Unplaceable(Deps(entries), p.short) {
    }
    forall v ensures v in Shorts(remaining) <==> Unplaceable(Deps(entries), v) {
      RemainingIsUnplaceable(entries, remaining, round, v);
    }
  }

  /** A complete layered order witnesses that dependencies are known and acyclic. */
  lemma PlacedAllIsAcyclic(entries: seq<Package>, o: Ordering, round: nat, out: seq<Package>)
    requires DistinctShorts(entries) && LayeredOrder(entries, o, out) && Collates(o)
    requires forall p :: p in entries ==> p.short in Placed(Deps(entries), round)
    ensures AllKnown(Deps(entries)) && Acyclic(Deps(entries)) && TopologicalOrder(Deps(entries), Shorts(out))
  {
    var g, order := Deps(entries), Shorts(out);
    forall v, u | Edge(g, v, u) ensures u in g {
      assert v in Placed(g, round) && u in Placed(g, round - 1);
    }
    BelowIsAsymmetric(g, o);
    assert Distinct(order) by {
      forall i, j | 0 <= i < j < |order| ensures order[i] != order[j] {
        assert out[i] in entries && out[j] in entries;
        assert BelowIn(g, o)(out[i], out[j]);
      }
    }
    forall i, u | 0 <= i < |order| && Edge(g, order[i], u) && u in g ensures u in order[..i] {
      DependencyComesFirst(entries, o, round, out, i, u);
    }
    forall v ensures v in g <==> v in order {
      if v in g {
        var p :| p in entries && p.short == v;
        var k := Position(out, p);
        assert order[k] == v;
      }
    }
    OrderedIsAcyclic(g, order);
  }

  /** Every package follows its dependencies. */
  lemma DependencyComesFirst(entries: seq<Package>, o: Ordering, round: nat, out: seq<Package>, i: nat, u: string)
    requires DistinctShorts(entries) && LayeredOrder(entries, o, out) && Collates(o)
    requires forall p :: p in entries ==> p.short in Placed(Deps(entries), round)
    requires i < |out| && Edge(Deps(entries), out[i].short, u) && u in Deps(entries)
    ensures u in Shorts(out)[..i]
  {
    var g := Deps(entries);
    var q :| q in entries && q.short == u;
    var j := Position(out, q);
    assert out[i] in entries;
    var d := DepthWithin(g, out[i].short, round);
    var e := DepthWithin(g, u, round);
    DependencyIsShallower(g, out[i].short, d, u, e);
    assert Below(g, o, q, out[i]);
    BelowIsAsymmetric(g, o);
    assert !BelowIn(g, o)(out[i], out[j]);
    assert j < i;
    assert Shorts(out)[j] == u;
  }

  /** The map and the placed names after one round's packages have moved to the output. */
  ghost predicate Moved(remaining: seq<Package>, placed: set<string>, ready: seq<Package>,
                        remaining': seq<Package>, placed': set<string>) {
    && DistinctShorts(remaining')
    && (forall v :: v in placed' <==> v in placed || exists p :: p in ready && p.short == v)
    && (forall p :: p in remaining' <==> p in remaining && forall q :: q in ready ==> q.short != p.short)
  }

  method Place(remaining: seq<Package>, placed: set<string>, out: seq<Package>, ready: seq<Package>)
    returns (remaining': seq<Package>, placed': set<string>, out': seq<Package>)
    requires DistinctShorts(remaining) && forall p :: p in ready ==> p in remaining
    ensures out' == out + ready && Moved(remaining, placed, ready, remaining', placed')
    ensures ready != [] ==> |remaining'| < |remaining|
  {
    remaining', placed', out' := remaining, placed, out;
    for k := 0 to |ready|
      invariant out' == out + ready[..k] && Moved(remaining, placed, ready[..k], remaining', placed')
      invariant |remaining'| <= |remaining| && (k > 0 ==> |remaining'| < |remaining|)
    {
      assert ready[..k + 1] == ready[..k] + [ready[k]];
      assert ready[k] in ready && (k == 0 ==> ready[k] in remaining');
      out' := out' + [ready[k]];
      placed' := placed' + {ready[k].short};
      remaining' := Without(remaining', ready[k].short);
    }
    assert ready[..|ready|] == ready;
  }

  lemma SameShort(entries: seq<Package>, p: Package, q: Package)
    requires DistinctShorts(entries) && p in entries && q in entries && p.short == q.short
    ensures p == q
  {
  }

  lemma NextRound(entries: seq<Package>, o: Ordering, round: nat, remaining: seq<Package>, placed: set<string>,
                  out: seq<Package>, ready: seq<Package>, remaining': seq<Package>, placed': set<string>)
    requires DistinctShorts(entries) && Rounds(entries, o, round, remaining, placed, out)
    requires ReadyForRound(entries, round, ready) && Ascending(ready, BelowIn(Deps(entries), o))
    requires Moved(remaining, placed, ready, remaining', placed')
    ensures Rounds(entries, o, round + 1, remaining', placed', out + ready)
  {
    AppendAscends(entries, o, round, out, ready);
    RoundComplete(entries, round, ready, placed');
    forall p | p in entries ensures p in out + ready <==> p.short in placed' {
      if p.short in placed' && p !in out {
        var q :| q in ready && q.short == p.short;
        assert q in entries;
        SameShort(entries, p, q);
      }
    }
  }

  /** The packages of the next round, in the caller's order. */
  method ReadySorted(o: Ordering, remaining: seq<Package>, placed: set<string>, out: seq<Package>,
                     ghost entries: seq<Package>, ghost round: nat) returns (ready: seq<Package>)
    requires Collates(o) && DistinctShorts(entries) && Rounds(entries, o, round, remaining, placed, out)
    ensures ReadyForRound(entries, round, ready) && Ascending(ready, BelowIn(Deps(entries), o))
    ensures forall p :: p in ready ==> p in remaining
    ensures ready == [] <==> ReadyOf(remaining, placed) == []
  {
    ready := Sort(ReadyOf(remaining, placed), PrecedesIn(o));
    ReadyHaveDepth(entries, o, round, remaining, placed, out);
    SortedReadyAscends(entries, o, round, ReadyOf(remaining, placed));
    SortHas(ReadyOf(remaining, placed), PrecedesIn(o));
  }

  /** Layers of ready packages, each sorted by the caller's order. */
  method TopoSort(packages: seq<Package>, o: Ordering) returns (r: Result<seq<Package>, seq<string>>)
    requires Collates(o)
    ensures r.Ok? <==> AllKnown(Deps(Entries(packages))) && Acyclic(Deps(Entries(packages)))
    ensures r.Ok? ==> LayeredOrder(Entries(packages), o, r.value) && TopologicalOrder(Deps(Entries(packages)), Shorts(r.value))
    ensures r.Err? ==> forall v :: v in r.error <==> Unplaceable(Deps(Entries(packages)), v)
    ensures DistinctShorts(packages) ==> Deps(Entries(packages)) == Deps(packages)
    ensures DistinctShorts(packages) && r.Ok? ==>
              multiset(r.value) == multiset(packages) && LayeredOrder(packages, o, r.value)
  {
    if DistinctShorts(packages) {
      EntriesOfDistinct(packages);
      SameDeps(Entries(packages), packages);
    }
    ghost var entries := Entries(packages);
    var remaining := Entries(packages);
    var placed: set<string> := {};
    var out: seq<Package> := [];
    ghost var round := 0;
    while remaining != []
      invariant Rounds(entries, o, round, remaining, placed, out)
      decreases |remaining|
    {
      var ready := ReadySorted(o, remaining, placed, out, entries, round);
      if ready == [] {
        StuckIsCyclic(entries, o, round, remaining, placed, out);
        RemainingAreUnplaceable(entries, o, round, remaining, placed, out);
        return Err(Shorts(remaining));
      }
      var remaining', placed', out' := Place(remaining, placed, out, ready);
      NextRound(entries, o, round, remaining, placed, out, ready, remaining', placed');
      remaining, placed, out, round := remaining', placed', out', round + 1;
    }
    AllPlaced(entries, o, round, placed, out);
    PlacedAllIsAcyclic(entries, o, round, out);
    if DistinctShorts(packages) {
      OrderIsPermutation(packages, o, out);
    }
    return Ok(out);
  }

  lemma AllPlaced(entries: seq<Package>, o: Ordering, round: nat, placed: set<string>, out: seq<Package>)
    requires DistinctShorts(entries) && Rounds(entries, o, round, [], placed, out)
    ensures LayeredOrder(entries, o, out)
    ensures forall p :: p in entries ==> p.short in Placed(Deps(entries), round)
  {
    var none: seq<Package> := [];
    assert forall p :: p !in none;
  }
}
