/** What the face checker enforces (scripts/project-reference-faces.ts): every reference into a
  * split project goes to the leaf of the referring config's own face. */
module ProjectIsolation {
  import opened Wrappers
  import opened Sorting
  import opened ProjectFaces

  ghost predicate SplitProject(w: Workspace, dir: Path) {
    dir + ["tsconfig.host.json"] in w.configs && dir + ["tsconfig.client.json"] in w.configs
  }

  /** The target lies in no split project. */
  ghost predicate Neutral(w: Workspace, dirs: seq<Path>, target: Path) {
    forall d :: d in dirs && SplitProject(w, d) ==> !(d <= target)
  }

  /** The split project that the target lies in, and in no inner one. */
  ghost predicate Innermost(w: Workspace, dirs: seq<Path>, target: Path, dir: Path) {
    && dir in dirs && SplitProject(w, dir) && dir <= target
    && forall d :: d in dirs && SplitProject(w, d) && d <= target ==> d <= dir
  }

  /** A reference from a config of this face conforms: it stays out of split projects, or names
    * the leaf of that face in the innermost one. */
  ghost predicate Conforms(w: Workspace, dirs: seq<Path>, face: Option<Face>, target: Path) {
    || Neutral(w, dirs, target)
    || exists dir :: Innermost(w, dirs, target, dir) &&
         ((face == Some(Host) && target == dir + ["tsconfig.host.json"]) || (face == Some(Client) && target == dir + ["tsconfig.client.json"]))
  }

  /** The workspace's split roots are those found among these directories. */
  ghost predicate Gathered(w: Workspace, dirs: seq<Path>) {
    w.splitRoots == SplitProjectRoots(w, dirs)
  }

  lemma RootsAreSplit(w: Workspace, dirs: seq<Path>)
    requires Gathered(w, dirs)
    ensures forall d :: d in w.splitRoots <==> d in dirs && SplitProject(w, d)
  {
    SortHas(Filtered(w, dirs), Longer());
  }

  lemma FoundIsInnermost(w: Workspace, dirs: seq<Path>, target: Path)
    requires Gathered(w, dirs)
    ensures var found := ContainingSplitRoot(w.splitRoots, target);
            if found.None? then Neutral(w, dirs, target) else Innermost(w, dirs, target, found.value)
  {
    RootsAreSplit(w, dirs);
    InnermostSplitRoot(w, dirs, target);
  }

  lemma InnermostIsUnique(w: Workspace, dirs: seq<Path>, target: Path, a: Path, b: Path)
    requires Innermost(w, dirs, target, a) && Innermost(w, dirs, target, b)
    ensures a == b
  {
  }

  lemma ConformsInside(w: Workspace, dirs: seq<Path>, face: Option<Face>, target: Path, dir: Path)
    requires Innermost(w, dirs, target, dir)
    ensures Conforms(w, dirs, face, target) <==> face.Some? && target == dir + [LeafName(face.value)]
  {
    if Conforms(w, dirs, face, target) {
      var other :| Innermost(w, dirs, target, other) &&
        ((face == Some(Host) && target == other + ["tsconfig.host.json"]) || (face == Some(Client) && target == other + ["tsconfig.client.json"]));
      InnermostIsUnique(w, dirs, target, dir, other);
    }
  }

  /** A reference is let through exactly when it conforms; a violation names the innermost split
    * project and the referring config's face. */
  lemma LetThroughIffConforms(w: Workspace, dirs: seq<Path>, config: Path, target: Path)
    requires Gathered(w, dirs) && config in w.configs
    ensures Check(w, config, target).None? <==> Conforms(w, dirs, ProjectFace(w, config, {}), target)
    ensures Check(w, config, target).Some? ==>
              Innermost(w, dirs, target, Check(w, config, target).value.splitRoot)
              && Check(w, config, target).value.face == ProjectFace(w, config, {})
  {
    FoundIsInnermost(w, dirs, target);
    var found := ContainingSplitRoot(w.splitRoots, target);
    if found.None? {
      assert Check(w, config, target).None?;
    } else {
      ConformsInside(w, dirs, ProjectFace(w, config, {}), target, found.value);
    }
  }

  /** The configs that carry their own face. */
  lemma OwnFaces(w: Workspace, dir: Path)
    ensures DirectFace(w, dir + ["tsconfig.host.json"]) == Some(Host)
    ensures DirectFace(w, dir + ["tsconfig.client.json"]) == Some(Client)
    ensures DirectFace(w, w.root + ["tsconfig.base.json"]) == Some(Host)
    ensures DirectFace(w, w.root + ["tsconfig.base.client.json"]) == Some(Client)
  {
    assert (dir + ["tsconfig.host.json"])[|dir|] == "tsconfig.host.json";
    assert (dir + ["tsconfig.client.json"])[|dir|] == "tsconfig.client.json";
    assert |"tsconfig.base.json"| == 18 && |"tsconfig.host.json"| == 18 && "tsconfig.base.json"[9] == 'b' != "tsconfig.host.json"[9];
    assert |"tsconfig.client.json"| == 20 && |"tsconfig.base.client.json"| == 25;
    assert (w.root + ["tsconfig.base.json"])[|w.root|] == "tsconfig.base.json";
    assert (w.root + ["tsconfig.base.client.json"])[|w.root|] == "tsconfig.base.client.json";
  }

  /** A conforming reference into a split project keeps the face. */
  lemma ConformingKeepsFace(w: Workspace, dirs: seq<Path>, face: Option<Face>, target: Path)
    requires Conforms(w, dirs, face, target) && !Neutral(w, dirs, target)
    ensures face.Some? && DirectFace(w, target) == face
  {
    var dir :| Innermost(w, dirs, target, dir) &&
      ((face == Some(Host) && target == dir + ["tsconfig.host.json"]) || (face == Some(Client) && target == dir + ["tsconfig.client.json"]));
    OwnFaces(w, dir);
  }

  lemma {:induction false} SameFiltered(w: Workspace, v: Workspace, dirs: seq<Path>)
    requires w.configs == v.configs
    ensures Filtered(w, dirs) == Filtered(v, dirs)
  {
    if dirs != [] {
      SameFiltered(w, v, dirs[1..]);
    }
  }

  /** No reference of a config reachable from the aggregates crosses into the other face. */
  ghost predicate Isolated(w: Workspace, dirs: seq<Path>) {
    forall c, t :: Reachable(w, c, false) && Refers(w, c, t) ==>
      Conforms(w, dirs, ProjectFace(w, c, {}), t)
      && (!Neutral(w, dirs, t) ==> ProjectFace(w, c, {}).Some? && DirectFace(w, t) == ProjectFace(w, c, {}))
  }

  lemma RouteGoesOn(w: Workspace, r: seq<Path>, p: Path)
    requires Route(w, r, false) && p in w.configs && Refers(w, r[|r| - 1], p)
    ensures Route(w, r + [p], false)
  {
    assert (r + [p])[|r| - 1] == r[|r| - 1] && (r + [p])[|r|] == p;
  }

  /** The configs reached are the two aggregates and whatever a reached one refers to. */
  lemma ReachedFromAggregates(w: Workspace, c: Path)
    ensures Reachable(w, c, false) <==>
            && c in w.configs
            && (c == w.root + ["tsconfig.host.json"] || c == w.root + ["tsconfig.client.json"]
                || exists b :: Reachable(w, b, false) && Refers(w, b, c))
  {
    if Reachable(w, c, false) {
      var r :| Route(w, r, false) && r[|r| - 1] == c;
      if |r| > 1 {
        RouteShortens(w, r, false);
        assert Reachable(w, r[..|r| - 1][|r| - 2], false);
      }
    }
    if c in w.configs && c in Aggregates(w) {
      assert Route(w, [c], false);
      assert [c][0] == c;
    }
    if b :| c in w.configs && Reachable(w, b, false) && Refers(w, b, c) {
      var r :| Route(w, r, false) && r[|r| - 1] == b;
      RouteGoesOn(w, r, c);
      assert (r + [c])[|r + [c]| - 1] == c;
    }
  }

  /** The whole check: split projects found among the workspace directories, then the traversal.
    * It is clean exactly when the faces are isolated, and else reports references that do not
    * conform, in order. */
  method CollectProjectReferenceFaceViolations(root: Path, configs: map<Path, Config>, dirs: seq<Path>,
                                               before: (Violation, Violation) -> bool)
    returns (violations: seq<Violation>, w: Workspace)
    requires StrictOrder(before)
    ensures w.root == root && w.configs == configs && Gathered(w, dirs)
    ensures violations == [] <==> Isolated(w, dirs)
    ensures forall v :: v in violations ==>
              Refers(w, v.config, v.reference) && !Conforms(w, dirs, ProjectFace(w, v.config, {}), v.reference)
              && Innermost(w, dirs, v.reference, v.splitRoot) && v.face == ProjectFace(w, v.config, {})
    ensures Ordered(violations, before)
  {
    var bare := Workspace(root, configs, []);
    w := bare.(splitRoots := SplitProjectRoots(bare, dirs));
    SameFiltered(bare, w, dirs);
    violations := CollectViolations(w, before);
    forall c, t | Refers(w, c, t)
      ensures Check(w, c, t).None? <==> Conforms(w, dirs, ProjectFace(w, c, {}), t)
      ensures Check(w, c, t).Some? ==> Innermost(w, dirs, t, Check(w, c, t).value.splitRoot)
                                       && Check(w, c, t).value.face == ProjectFace(w, c, {})
    {
      LetThroughIffConforms(w, dirs, c, t);
    }
    CleanIffIsolated(w, dirs, violations);
  }

  lemma CleanIffIsolated(w: Workspace, dirs: seq<Path>, violations: seq<Violation>)
    requires Gathered(w, dirs)
    requires violations == [] <==> forall c, t :: Reachable(w, c, false) && Refers(w, c, t) ==> Check(w, c, t).None?
    ensures violations == [] <==> Isolated(w, dirs)
  {
    forall c, t | Refers(w, c, t)
      ensures Check(w, c, t).None? <==>
              Conforms(w, dirs, ProjectFace(w, c, {}), t)
              && (!Neutral(w, dirs, t) ==> ProjectFace(w, c, {}).Some? && DirectFace(w, t) == ProjectFace(w, c, {}))
    {
      LetThroughIffConforms(w, dirs, c, t);
      if Check(w, c, t).None? && !Neutral(w, dirs, t) {
        ConformingKeepsFace(w, dirs, ProjectFace(w, c, {}), t);
      }
    }
  }
}
