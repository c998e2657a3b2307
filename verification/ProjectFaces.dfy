/** Host/Client isolation across Project Reference graphs (scripts/project-reference-faces.ts).
  * Paths are absolute component lists; references and `extends` are already resolved. */
module ProjectFaces {
  import opened Wrappers
  import opened Sorting

  type Path = seq<string>

  datatype Face = Host | Client

  datatype Config = Config(parent: Option<Path>, references: seq<Path>)

  /** The configs that exist, and the directories declaring both leaf configs, innermost first. */
  datatype Workspace = Workspace(root: Path, configs: map<Path, Config>, splitRoots: seq<Path>)

  datatype Violation = Violation(config: Path, reference: Path, splitRoot: Path, face: Option<Face>)

  // ---- split roots ----

  /** The length of the path as text: each component and the separator before it. */
  function TextLength(p: Path): nat {
    if p == [] then 0 else TextLength(p[..|p| - 1]) + 1 + |p[|p| - 1]|
  }

  function Longer(): (Path, Path) -> bool {
    (a: Path, b: Path) => TextLength(a) > TextLength(b)
  }

  lemma {:induction false} InnerIsLonger(a: Path, b: Path)
    requires a < b
    ensures TextLength(a) < TextLength(b)
  {
    if |a| < |b| - 1 {
      InnerIsLonger(a, b[..|b| - 1]);
    } else {
      assert a == b[..|b| - 1];
    }
  }

  predicate Declares(w: Workspace, dir: Path, leaf: string) {
    dir + [leaf] in w.configs
  }

  function Filtered(w: Workspace, dirs: seq<Path>): (r: seq<Path>)
    ensures forall d :: d in r <==> d in dirs && Declares(w, d, "tsconfig.host.json") && Declares(w, d, "tsconfig.client.json")
  {
    if dirs == [] then []
    else
      (if Declares(w, dirs[0], "tsconfig.host.json") && Declares(w, dirs[0], "tsconfig.client.json") then [dirs[0]] else [])
      + Filtered(w, dirs[1..])
  }

  /** The workspace directories with both leaves, longest path first. */
  function SplitProjectRoots(w: Workspace, dirs: seq<Path>): seq<Path> {
    Sort(Filtered(w, dirs), Longer())
  }

  function ContainingSplitRoot(splitRoots: seq<Path>, target: Path): (r: Option<Path>)
    ensures r.Some? ==> r.value in splitRoots && r.value <= target
    ensures r.None? ==> forall d :: d in splitRoots ==> !(d <= target)
  {
    if splitRoots == [] then None
    else
      assert forall d :: d in splitRoots <==> d == splitRoots[0] || d in splitRoots[1..];
      if splitRoots[0] <= target then Some(splitRoots[0])
      else ContainingSplitRoot(splitRoots[1..], target)
  }

  lemma {:induction false} FirstIsInnermost(roots: seq<Path>, target: Path)
    requires Ordered(roots, Longer())
    ensures var r := ContainingSplitRoot(roots, target);
            r.Some? ==> forall d :: d in roots && d <= target ==> d <= r.value
  {
    if roots != [] {
      if roots[0] <= target {
        forall d | d in roots && d <= target ensures d <= roots[0] {
          var k := Position(roots, d);
          assert k > 0 ==> !Longer()(roots[k], roots[0]);
          if roots[0] < d {
            InnerIsLonger(roots[0], d);
          }
        }
      } else {
        FirstIsInnermost(roots[1..], target);
        assert forall d :: d in roots <==> d == roots[0] || d in roots[1..];
      }
    }
  }

  /** A target inside nested split projects belongs to the innermost one. */
  lemma InnermostSplitRoot(w: Workspace, dirs: seq<Path>, target: Path)
    ensures var r := ContainingSplitRoot(SplitProjectRoots(w, dirs), target);
            r.Some? ==> forall d :: d in Filtered(w, dirs) && d <= target ==> d <= r.value
  {
    SortOrders(Filtered(w, dirs), Longer());
    SortHas(Filtered(w, dirs), Longer());
    FirstIsInnermost(SplitProjectRoots(w, dirs), target);
  }

  // ---- faces ----

  /** A leaf or base config's own face. */
  function DirectFace(w: Workspace, path: Path): Option<Face> {
    if path != [] && path[|path| - 1] == "tsconfig.host.json" then Some(Host)
    else if path != [] && path[|path| - 1] == "tsconfig.client.json" then Some(Client)
    else if path == w.root + ["tsconfig.base.json"] then Some(Host)
    else if path == w.root + ["tsconfig.base.client.json"] then Some(Client)
    else None
  }

  function ExistingParent(w: Workspace, path: Path): (r: Option<Path>)
    ensures r.Some? ==> r.value in w.configs
  {
    if path in w.configs && w.configs[path].parent.Some? && w.configs[path].parent.value in w.configs
    then w.configs[path].parent else None
  }

  /** Follow `extends` to the first face; a cycle has none. */
  function ProjectFace(w: Workspace, path: Path, seen: set<Path>): Option<Face>
    requires path in w.configs
    decreases w.configs.Keys - seen
  {
    if DirectFace(w, path).Some? then DirectFace(w, path)
    else if path in seen then None
    else
      assert path in w.configs.Keys - seen && path !in w.configs.Keys - (seen + {path});
      var parent := ExistingParent(w, path);
      if parent.None? then None else ProjectFace(w, parent.value, seen + {path})
  }

  /** The first face among a config and its first n ancestors. */
  function FaceWithin(w: Workspace, path: Path, n: nat): Option<Face>
    decreases n
  {
    if DirectFace(w, path).Some? then DirectFace(w, path)
    else if n == 0 || ExistingParent(w, path).None? then None
    else FaceWithin(w, ExistingParent(w, path).value, n - 1)
  }

  /** Faceless configs whose parents stay among them. */
  ghost predicate FacelessLoop(w: Workspace, s: set<Path>) {
    forall p :: p in s ==> DirectFace(w, p).None? && (ExistingParent(w, p).Some? ==> ExistingParent(w, p).value in s)
  }

  lemma {:induction false} LoopHasNoFace(w: Workspace, s: set<Path>, path: Path, n: nat)
    requires FacelessLoop(w, s) && path in s
    ensures FaceWithin(w, path, n).None?
    decreases n
  {
    if n > 0 && ExistingParent(w, path).Some? {
      LoopHasNoFace(w, s, ExistingParent(w, path).value, n - 1);
    }
  }

  /** The visited chain: faceless, and every parent is on it or is the current config. */
  ghost predicate Chain(w: Workspace, seen: set<Path>, path: Path) {
    forall p :: p in seen ==>
      && DirectFace(w, p).None?
      && (ExistingParent(w, p).Some? ==> ExistingParent(w, p).value in seen || ExistingParent(w, p).value == path)
  }

  lemma {:induction false} FaceIsFirstAlongChain(w: Workspace, path: Path, seen: set<Path>, n: nat)
    requires path in w.configs && Chain(w, seen, path)
    ensures FaceWithin(w, path, n).Some? ==> ProjectFace(w, path, seen) == FaceWithin(w, path, n)
    decreases w.configs.Keys - seen
  {
    if DirectFace(w, path).None? {
      if path in seen {
        LoopHasNoFace(w, seen, path, n);
      } else if ExistingParent(w, path).Some? && n > 0 {
        assert path in w.configs.Keys - seen && path !in w.configs.Keys - (seen + {path});
        FaceIsFirstAlongChain(w, ExistingParent(w, path).value, seen + {path}, n - 1);
      }
    }
  }

  lemma {:induction false} FaceIsFound(w: Workspace, path: Path, seen: set<Path>) returns (n: nat)
    requires path in w.configs && ProjectFace(w, path, seen).Some?
    ensures FaceWithin(w, path, n) == ProjectFace(w, path, seen)
    decreases w.configs.Keys - seen
  {
    if DirectFace(w, path).Some? {
      n := 0;
    } else {
      assert path in w.configs.Keys - seen && path !in w.configs.Keys - (seen + {path});
      n := FaceIsFound(w, ExistingParent(w, path).value, seen + {path});
      n := n + 1;
    }
  }

  /** A config's face is that of the first faced config along its `extends` chain, if there is one. */
  lemma ProjectFaceExact(w: Workspace, path: Path, face: Face)
    requires path in w.configs
    ensures ProjectFace(w, path, {}) == Some(face) <==> exists n :: FaceWithin(w, path, n) == Some(face)
  {
    if ProjectFace(w, path, {}) == Some(face) {
      var n := FaceIsFound(w, path, {});
    }
    if n :| FaceWithin(w, path, n) == Some(face) {
      FaceIsFirstAlongChain(w, path, {}, n);
    }
  }

  // ---- reference edges ----

  function LeafName(face: Face): string {
    match face case Host => "tsconfig.host.json" case Client => "tsconfig.client.json"
  }

  /** The violation of one reference, if it enters a split project other than by its own face's leaf. */
  function Check(w: Workspace, config: Path, target: Path): (r: Option<Violation>)
    requires config in w.configs
    ensures r.Some? ==> r.value.config == config && r.value.reference == target
  {
    var splitRoot := ContainingSplitRoot(w.splitRoots, target);
    if splitRoot.None? then None
    else
      var face := ProjectFace(w, config, {});
      if face.Some? && target == splitRoot.value + [LeafName(face.value)] then None
      else Some(Violation(config, target, splitRoot.value, face))
  }

  function Aggregates(w: Workspace): seq<Path> {
    [w.root + ["tsconfig.host.json"], w.root + ["tsconfig.client.json"]]
  }

  ghost predicate Refers(w: Workspace, a: Path, b: Path) {
    a in w.configs && b in w.configs[a].references
  }

  /** A mismatched reference of an existing config, reported as the checker reports it. */
  ghost predicate Genuine(w: Workspace, v: Violation) {
    Refers(w, v.config, v.reference) && Check(w, v.config, v.reference) == Some(v)
  }

  /** How often a violation is due: once for each time its config makes the reference. */
  ghost function Due(w: Workspace, v: Violation): nat {
    if Genuine(w, v) then multiset(w.configs[v.config].references)[v.reference] else 0
  }

  lemma GenuineIsDue(w: Workspace, v: Violation)
    ensures Due(w, v) > 0 <==> Genuine(w, v)
  {
  }

  lemma MismatchIsGenuine(w: Workspace, c: Path, t: Path)
    requires Refers(w, c, t)
    ensures Check(w, c, t).Some? ==> Genuine(w, Check(w, c, t).value)
  {
  }

  /** A route of references through existing configs from an aggregate; a strict one only
    * takes references that conform. */
  ghost predicate Route(w: Workspace, r: seq<Path>, strict: bool) {
    && r != [] && r[0] in Aggregates(w)
    && (forall i :: 0 <= i < |r| ==> r[i] in w.configs)
    && (forall i, j :: 0 <= i < j < |r| && j == i + 1 ==>
          Refers(w, r[i], r[j]) && (strict ==> Check(w, r[i], r[j]).None?))
  }

  ghost predicate Reachable(w: Workspace, c: Path, strict: bool) {
    exists r :: Route(w, r, strict) && r[|r| - 1] == c
  }

  // ---- the traversal ----

  /** A pending config is an aggregate or the target of a conforming reference of a visited config. */
  ghost predicate Justified(w: Workspace, visited: set<Path>, p: Path) {
    p in Aggregates(w) || exists c :: c in visited && Refers(w, c, p) && Check(w, c, p).None?
  }

  /** Conforming targets of visited configs, and the aggregates, are visited, pending or missing. */
  ghost predicate Covers(w: Workspace, visited: set<Path>, pending: seq<Path>, p: Path) {
    p in visited || p in pending || p !in w.configs
  }

  ghost predicate Traversal(w: Workspace, visited: set<Path>, pending: seq<Path>, violations: seq<Violation>) {
    && (forall c :: c in visited ==> Reachable(w, c, true))
    && (forall p :: p in pending ==> Justified(w, visited, p))
    && (forall p :: p in Aggregates(w) ==> Covers(w, visited, pending, p))
    && (forall c, t :: c in visited && Refers(w, c, t) && Check(w, c, t).None? ==> Covers(w, visited, pending, t))
    && (forall v :: multiset(violations)[v] == if v.config in visited then Due(w, v) else 0)
  }

  lemma RouteExtends(w: Workspace, r: seq<Path>, p: Path)
    requires Route(w, r, true) && p in w.configs && Refers(w, r[|r| - 1], p) && Check(w, r[|r| - 1], p).None?
    ensures Route(w, r + [p], true)
  {
    var longer := r + [p];
    assert longer[0] == r[0];
  }

  lemma JustifiedIsReachable(w: Workspace, visited: set<Path>, p: Path)
    requires (forall c :: c in visited ==> Reachable(w, c, true)) && Justified(w, visited, p) && p in w.configs
    ensures Reachable(w, p, true)
  {
    if p in Aggregates(w) {
      assert Route(w, [p], true);
    } else {
      var c :| c in visited && Refers(w, c, p) && Check(w, c, p).None?;
      var r :| Route(w, r, true) && r[|r| - 1] == c;
      RouteExtends(w, r, p);
      assert (r + [p])[|r|] == p;
    }
  }

  /** Once nothing is pending, everything strictly reachable was visited. */
  lemma {:induction false} ReachableIsVisited(w: Workspace, visited: set<Path>, violations: seq<Violation>, r: seq<Path>, k: nat)
    requires Traversal(w, visited, [], violations) && Route(w, r, true) && k < |r|
    ensures r[k] in visited
  {
    if k > 0 {
      ReachableIsVisited(w, visited, violations, r, k - 1);
      assert Refers(w, r[k - 1], r[k]);
    }
    assert Covers(w, visited, [], r[k]);
  }

  lemma SkipKeepsTraversal(w: Workspace, visited: set<Path>, pending: seq<Path>, c: Path, violations: seq<Violation>)
    requires Traversal(w, visited, pending + [c], violations) && (c in visited || c !in w.configs)
    ensures Traversal(w, visited, pending, violations)
  {
    forall p | Covers(w, visited, pending + [c], p) ensures Covers(w, visited, pending, p) {
    }
    forall p | p in pending ensures Justified(w, visited, p) {
      assert p in pending + [c];
    }
  }

  lemma JustifiedStays(w: Workspace, visited: set<Path>, c: Path, p: Path)
    requires Justified(w, visited, p)
    ensures Justified(w, visited + {c}, p)
  {
  }

  /** What visiting a config's references yields. */
  ghost predicate Yields(w: Workspace, c: Path, targets: seq<Path>, found: seq<Violation>)
    requires c in w.configs
  {
    && (forall t :: t in targets <==> Refers(w, c, t) && Check(w, c, t).None?)
    && (forall v :: multiset(found)[v] == if v.config == c then Due(w, v) else 0)
  }

  lemma VisitJustifies(w: Workspace, visited: set<Path>, pending: seq<Path>, c: Path, targets: seq<Path>)
    requires c in w.configs && (forall p :: p in pending + [c] ==> Justified(w, visited, p))
    requires forall t :: t in targets <==> Refers(w, c, t) && Check(w, c, t).None?
    ensures forall p :: p in pending + targets ==> Justified(w, visited + {c}, p)
  {
    forall p | p in pending + targets ensures Justified(w, visited + {c}, p) {
      if p in pending {
        assert p in pending + [c];
        JustifiedStays(w, visited, c, p);
      }
    }
  }

  lemma VisitCovers(w: Workspace, visited: set<Path>, pending: seq<Path>, c: Path, targets: seq<Path>, p: Path)
    requires Covers(w, visited, pending + [c], p)
    ensures Covers(w, visited + {c}, pending + targets, p)
  {
  }

  lemma VisitCounts(w: Workspace, visited: set<Path>, c: Path, violations: seq<Violation>, found: seq<Violation>)
    requires c !in visited
    requires forall v :: multiset(violations)[v] == if v.config in visited then Due(w, v) else 0
    requires forall v :: multiset(found)[v] == if v.config == c then Due(w, v) else 0
    ensures forall v :: multiset(violations + found)[v] == if v.config in visited + {c} then Due(w, v) else 0
  {
  }

  lemma VisitKeepsTraversal(w: Workspace, visited: set<Path>, pending: seq<Path>, c: Path, violations: seq<Violation>,
                            targets: seq<Path>, found: seq<Violation>)
    requires Traversal(w, visited, pending + [c], violations) && c in w.configs && c !in visited && Yields(w, c, targets, found)
    ensures Traversal(w, visited + {c}, pending + targets, violations + found)
  {
    assert c in pending + [c];
    JustifiedIsReachable(w, visited, c);
    VisitJustifies(w, visited, pending, c, targets);
    VisitCounts(w, visited, c, violations, found);
    forall p | Covers(w, visited, pending + [c], p) ensures Covers(w, visited + {c}, pending + targets, p) {
      VisitCovers(w, visited, pending, c, targets, p);
    }
    forall t | Refers(w, c, t) && Check(w, c, t).None? ensures Covers(w, visited + {c}, pending + targets, t) {
      assert t in targets;
    }
  }

  /** The inner loop: report a mismatched reference, or schedule its target. */
  method VisitReferences(w: Workspace, c: Path) returns (targets: seq<Path>, found: seq<Violation>)
    requires c in w.configs
    ensures Yields(w, c, targets, found)
  {
    targets, found := [], [];
    var references := w.configs[c].references;
    var face := ProjectFace(w, c, {});
    for k := 0 to |references|
      invariant forall t :: t in targets <==> t in references[..k] && Check(w, c, t).None?
      invariant forall v :: multiset(found)[v] ==
                  if v.config == c && Check(w, c, v.reference) == Some(v) then multiset(references[..k])[v.reference] else 0
    {
      var target := references[k];
      assert references[..k + 1] == references[..k] + [target];
      var splitRoot := ContainingSplitRoot(w.splitRoots, target);
      if splitRoot.Some? && (face.None? || target != splitRoot.value + [LeafName(face.value)]) {
        found := found + [Violation(c, target, splitRoot.value, face)];
      } else {
        targets := targets + [target];
      }
    }
    assert references[..|references|] == references;
  }

  lemma StartIsTraversal(w: Workspace)
    ensures Traversal(w, {}, Aggregates(w), [])
  {
  }

  /** The worklist traversal from the two aggregates. It reports exactly the mismatched
    * references of configs reachable over conforming references, and reports nothing
    * exactly when every reference of every reachable config conforms. */
  method CollectViolations(w: Workspace, before: (Violation, Violation) -> bool) returns (violations: seq<Violation>)
    ensures forall v :: multiset(violations)[v] == if Reachable(w, v.config, true) then Due(w, v) else 0
    ensures forall v :: v in violations <==> Reachable(w, v.config, true) && Genuine(w, v)
    ensures violations == [] <==>
              forall c, t :: Reachable(w, c, false) && Refers(w, c, t) ==> Check(w, c, t).None?
    ensures StrictOrder(before) ==> Ordered(violations, before)
  {
    violations := [];
    var pending := Aggregates(w);
    var visited: set<Path> := {};
    StartIsTraversal(w);
    while pending != []
      invariant Traversal(w, visited, pending, violations)
      decreases w.configs.Keys - visited, |pending|
    {
      var c, rest := pending[|pending| - 1], pending[..|pending| - 1];
      assert pending == rest + [c];
      pending := rest;
      if c in visited || c !in w.configs {
        SkipKeepsTraversal(w, visited, rest, c, violations);
        continue;
      }
      var targets, found := VisitReferences(w, c);
      VisitKeepsTraversal(w, visited, rest, c, violations, targets, found);
      assert c in w.configs.Keys - visited;
      visited := visited + {c};
      violations := violations + found;
      pending := rest + targets;
    }
    SortedIsExact(w, visited, violations, before);
    violations := Sort(violations, before);
  }

  lemma SortedIsExact(w: Workspace, visited: set<Path>, violations: seq<Violation>, before: (Violation, Violation) -> bool)
    requires Traversal(w, visited, [], violations)
    ensures var sorted := Sort(violations, before);
            && (forall v :: multiset(sorted)[v] == if Reachable(w, v.config, true) then Due(w, v) else 0)
            && (forall v :: v in sorted <==> Reachable(w, v.config, true) && Genuine(w, v))
            && (sorted == [] <==> forall c, t :: Reachable(w, c, false) && Refers(w, c, t) ==> Check(w, c, t).None?)
            && (StrictOrder(before) ==> Ordered(sorted, before))
  {
    TraversalIsExact(w, visited, violations);
    SortHas(violations, before);
    if StrictOrder(before) {
      SortOrders(violations, before);
    }
  }

  lemma TraversalIsExact(w: Workspace, visited: set<Path>, violations: seq<Violation>)
    requires Traversal(w, visited, [], violations)
    ensures forall v :: multiset(violations)[v] == if Reachable(w, v.config, true) then Due(w, v) else 0
    ensures forall v :: v in violations <==> Reachable(w, v.config, true) && Genuine(w, v)
    ensures violations == [] <==>
              forall c, t :: Reachable(w, c, false) && Refers(w, c, t) ==> Check(w, c, t).None?
  {
    forall v ensures v in violations <==> v.config in visited && Genuine(w, v) {
      GenuineIsDue(w, v);
    }
    forall c | Reachable(w, c, true) ensures c in visited {
      var r :| Route(w, r, true) && r[|r| - 1] == c;
      ReachableIsVisited(w, visited, violations, r, |r| - 1);
    }
    assert forall c :: c in visited <==> Reachable(w, c, true);
    if violations == [] {
      forall c, t | Reachable(w, c, false) && Refers(w, c, t) ensures Check(w, c, t).None? {
        var r :| Route(w, r, false) && r[|r| - 1] == c;
        CleanRouteIsStrict(w, visited, r);
        MismatchIsGenuine(w, c, t);
      }
    } else {
      var v := violations[0];
      assert v in violations;
      var r :| Route(w, r, true) && r[|r| - 1] == v.config;
      assert Route(w, r, false) && Reachable(w, v.config, false);
    }
  }

  lemma RouteShortens(w: Workspace, r: seq<Path>, strict: bool)
    requires Route(w, r, strict) && |r| > 1
    ensures Route(w, r[..|r| - 1], strict) && Refers(w, r[|r| - 2], r[|r| - 1]) && r[|r| - 1] in w.configs
  {
  }

  /** Where no visited config has a mismatch, every route is strict. */
  lemma {:induction false} CleanRouteIsStrict(w: Workspace, visited: set<Path>, r: seq<Path>)
    requires forall c :: c in visited <==> Reachable(w, c, true)
    requires forall c, t :: c in visited && Refers(w, c, t) ==> Check(w, c, t).None?
    requires Route(w, r, false)
    ensures Route(w, r, true)
  {
    if |r| > 1 {
      var shorter := r[..|r| - 1];
      RouteShortens(w, r, false);
      CleanRouteIsStrict(w, visited, shorter);
      assert Reachable(w, shorter[|shorter| - 1], true);
      RouteExtends(w, shorter, r[|r| - 1]);
      assert shorter + [r[|r| - 1]] == r;
    }
  }
}
