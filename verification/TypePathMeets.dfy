/** What a lookup examines, said of the types alone: the declarations met from a node, each at a
  * position among the questions asked. The walk bails out exactly when a declaration is met twice
  * with paths of one length, and where none is its answer is exact (scripts/gen-config-catalog.ts). */
module TypePathMeets {
  import opened Wrappers
  import opened TypePaths
  import opened TypePathProofs

  // ---- the questions a question leads to ----

  /** The i-th question about a property: its type with the rest of the path. */
  function PropertyQuestion(file: File, members: seq<Element>, path: Path, i: nat): Option<(Node, Path)>
    requires path != []
  {
    if path[0].Array? then None
    else match FindProperty(members, path[0].name)
      case Some(k) =>
        if i == 0 && |path| > 1 && members[k].annotation.Some?
        then Some((TypeNodeAt(file, members[k].annotation.value), path[1..])) else None
      case None => None
  }

  function NameQuestion(w: World, file: File, name: string, path: Path): Option<(Node, Path)> {
    if (file, name) in w.resolve then Some((DeclNode(w.resolve[(file, name)]), path)) else None
  }

  /** The i-th question that a question leads to. */
  function Question(w: World, n: Node, path: Path, i: nat): Option<(Node, Path)> {
    if path == [] then None
    else match n
      case DeclNode(d) =>
        if d !in w.decls then None
        else (match w.decls[d]
          case Enum => None
          case Alias(t) => if i == 0 then Some((TypeNodeAt(d.file, t), path)) else None
          case Interface(members, bases) =>
            if path[0].Member? && FindProperty(members, path[0].name).None? then
              if i < |bases| && bases[i].Some? then NameQuestion(w, d.file, bases[i].value, path) else None
            else PropertyQuestion(d.file, members, path, i))
      case TypeNodeAt(file, t) =>
        match t
        case LiteralType(members) => PropertyQuestion(file, members, path, i)
        case Intersection(parts) => if i < |parts| then Some((TypeNodeAt(file, parts[i]), path)) else None
        case Union(parts) => if i < |parts| then Some((TypeNodeAt(file, parts[i]), path)) else None
        case _ => if i == 0 then OnlyQuestion(w, file, t, path) else None
  }

  /** The question that a type of one part leads to. */
  function OnlyQuestion(w: World, file: File, t: TypeNode, path: Path): Option<(Node, Path)>
    requires path != []
  {
    match t
    case Parenthesized(inner) => Some((TypeNodeAt(file, inner), path))
    case ArrayType(element) => if path[0].Array? then Some((TypeNodeAt(file, element), path[1..])) else None
    case OperatorType(_, inner) => Some((TypeNodeAt(file, inner), path))
    case IndexedAccess(object_, index) =>
      if index.Some? then Some((TypeNodeAt(file, object_), [Member(index.value)] + path)) else None
    case Reference(head, binding, args) =>
      if head in PASSTHROUGH_WRAPPERS && args != [] then Some((TypeNodeAt(file, args[0]), path))
      else if head in ARRAY_NAMES && args != [] then
        if path[0].Array? then Some((TypeNodeAt(file, args[0]), path[1..])) else None
      else if binding.Qualified? then None
      else NameQuestion(w, file, head, path)
    case _ => None
  }

  /** The declaration is asked about at this position, with a path of this length. */
  predicate Meets(w: World, n: Node, path: Path, at: seq<nat>, v: Visit)
    decreases |at|
  {
    if at == [] then n == DeclNode(v.id) && v.id in w.decls && !w.decls[v.id].Enum? && path != [] && v.length == |path|
    else
      var q := Question(w, n, path, at[0]);
      q.Some? && Meets(w, q.value.0, q.value.1, at[1..], v)
  }

  ghost predicate MeetsFrom(w: World, n: Node, path: Path, k: nat, at: seq<nat>, v: Visit) {
    at != [] && at[0] >= k && Meets(w, n, path, at, v)
  }

  /** A declaration is met at two positions with paths of one length. */
  ghost predicate MetTwice(w: World, n: Node, path: Path) {
    exists p, q, v :: p != q && Meets(w, n, path, p, v) && Meets(w, n, path, q, v)
  }

  /** One of the visits is met. */
  ghost predicate SomeMet(w: World, n: Node, path: Path, seen: set<Visit>) {
    exists at, v :: v in seen && Meets(w, n, path, at, v)
  }

  ghost predicate MetTwiceFrom(w: World, n: Node, path: Path, k: nat) {
    exists p, q, v :: p != q && MeetsFrom(w, n, path, k, p, v) && MeetsFrom(w, n, path, k, q, v)
  }

  // ---- a completed walk follows the questions ----

  /** From `seen` to `after`: what is added was met; a bail-out has a declaration met before or
    * twice; and without one, all that is met was new and is added, each met once. */
  ghost predicate Tracks(w: World, n: Node, path: Path, seen: set<Visit>, after: set<Visit>, bailed: bool) {
    && seen <= after
    && (forall v :: v in after && v !in seen ==> exists at :: Meets(w, n, path, at, v))
    && (bailed ==> SomeMet(w, n, path, seen) || MetTwice(w, n, path))
    && (!bailed ==> forall at, v :: Meets(w, n, path, at, v) ==> v in after && v !in seen)
    && (!bailed ==> !MetTwice(w, n, path))
  }

  /** The same for the questions from the k-th on. */
  ghost predicate TracksFrom(w: World, n: Node, path: Path, k: nat, seen: set<Visit>, after: set<Visit>, bailed: bool) {
    && seen <= after
    && (forall v :: v in after && v !in seen ==> exists at :: MeetsFrom(w, n, path, k, at, v))
    && (bailed ==> (exists at, v :: v in seen && MeetsFrom(w, n, path, k, at, v)) || MetTwiceFrom(w, n, path, k))
    && (!bailed ==> forall at, v :: MeetsFrom(w, n, path, k, at, v) ==> v in after && v !in seen)
    && (!bailed ==> !MetTwiceFrom(w, n, path, k))
  }

  lemma BelowMeets(w: World, n: Node, path: Path, k: nat, at: seq<nat>, v: Visit)
    requires Question(w, n, path, k).Some?
    ensures MeetsFrom(w, n, path, k, [k] + at, v) <==>
            Meets(w, Question(w, n, path, k).value.0, Question(w, n, path, k).value.1, at, v)
  {
    assert ([k] + at)[1..] == at;
  }

  lemma AtOrAfter(w: World, n: Node, path: Path, k: nat, at: seq<nat>, v: Visit)
    requires MeetsFrom(w, n, path, k, at, v)
    ensures at[0] == k ==> Question(w, n, path, k).Some? && at == [k] + at[1..]
                           && Meets(w, Question(w, n, path, k).value.0, Question(w, n, path, k).value.1, at[1..], v)
    ensures at[0] != k ==> MeetsFrom(w, n, path, k + 1, at, v)
  {
  }

  lemma NoMoreQuestions(w: World, n: Node, path: Path, k: nat, seen: set<Visit>)
    requires forall i: nat :: i >= k ==> Question(w, n, path, i).None?
    ensures TracksFrom(w, n, path, k, seen, seen, false)
  {
  }

  lemma SameFrom(w: World, n: Node, path: Path, k: nat, next: nat)
    requires Question(w, n, path, k).None? && next == k + 1
    ensures forall at, v :: MeetsFrom(w, n, path, k, at, v) <==> MeetsFrom(w, n, path, next, at, v)
  {
    forall at, v ensures MeetsFrom(w, n, path, k, at, v) <==> MeetsFrom(w, n, path, next, at, v) {
      if MeetsFrom(w, n, path, k, at, v) {
        AtOrAfter(w, n, path, k, at, v);
      }
    }
  }

  /** No question at k: nothing is examined there. */
  lemma NoQuestionAt(w: World, n: Node, path: Path, k: nat, seen: set<Visit>, after: set<Visit>, bailed: bool)
    requires Question(w, n, path, k).None? && TracksFrom(w, n, path, k + 1, seen, after, bailed)
    ensures TracksFrom(w, n, path, k, seen, after, bailed)
  {
    var next: nat := k + 1;
    SameFrom(w, n, path, k, next);
    forall v | v in after && v !in seen ensures exists at :: MeetsFrom(w, n, path, k, at, v) {
      var at :| MeetsFrom(w, n, path, next, at, v);
    }
    if bailed {
      if at, v :| v in seen && MeetsFrom(w, n, path, next, at, v) {
        assert MeetsFrom(w, n, path, k, at, v);
      } else {
        var p, q, v :| p != q && MeetsFrom(w, n, path, next, p, v) && MeetsFrom(w, n, path, next, q, v);
        assert MeetsFrom(w, n, path, k, p, v) && MeetsFrom(w, n, path, k, q, v);
      }
    }
  }

  /** The k-th question's walk, then the walk of the later questions. */
  ghost predicate InTurn(w: World, n: Node, path: Path, k: nat, seen: set<Visit>, mid: set<Visit>, first: bool, after: set<Visit>, rest: bool) {
    && Question(w, n, path, k).Some?
    && Tracks(w, Question(w, n, path, k).value.0, Question(w, n, path, k).value.1, seen, mid, first)
    && TracksFrom(w, n, path, k + 1, mid, after, rest)
  }

  lemma MetInTurn(w: World, n: Node, path: Path, k: nat, seen: set<Visit>, mid: set<Visit>, first: bool, after: set<Visit>, rest: bool, v: Visit)
    requires InTurn(w, n, path, k, seen, mid, first, after, rest) && v in after && v !in seen
    ensures exists at :: MeetsFrom(w, n, path, k, at, v)
  {
    if v in mid {
      var at :| Meets(w, Question(w, n, path, k).value.0, Question(w, n, path, k).value.1, at, v);
      BelowMeets(w, n, path, k, at, v);
    } else {
      var at :| MeetsFrom(w, n, path, k + 1, at, v);
      assert MeetsFrom(w, n, path, k, at, v);
    }
  }

  ghost predicate MetBefore(w: World, n: Node, path: Path, k: nat, seen: set<Visit>) {
    (exists at, v :: v in seen && MeetsFrom(w, n, path, k, at, v)) || MetTwiceFrom(w, n, path, k)
  }

  lemma FirstBails(w: World, n: Node, path: Path, k: nat, seen: set<Visit>, mid: set<Visit>, after: set<Visit>, rest: bool)
    requires InTurn(w, n, path, k, seen, mid, true, after, rest)
    ensures MetBefore(w, n, path, k, seen)
  {
    var (child, below) := Question(w, n, path, k).value;
    if at, v :| v in seen && Meets(w, child, below, at, v) {
      BelowMeets(w, n, path, k, at, v);
    } else {
      var p, q, v :| p != q && Meets(w, child, below, p, v) && Meets(w, child, below, q, v);
      BelowMeets(w, n, path, k, p, v);
      BelowMeets(w, n, path, k, q, v);
      assert ([k] + p)[1..] == p && ([k] + q)[1..] == q;
    }
  }

  lemma RestBails(w: World, n: Node, path: Path, k: nat, seen: set<Visit>, mid: set<Visit>, first: bool, after: set<Visit>)
    requires InTurn(w, n, path, k, seen, mid, first, after, true)
    ensures MetBefore(w, n, path, k, seen)
  {
    var next: nat := k + 1;
    if at, v :| v in mid && MeetsFrom(w, n, path, next, at, v) {
      assert MeetsFrom(w, n, path, k, at, v);
      if v !in seen {
        var p :| Meets(w, Question(w, n, path, k).value.0, Question(w, n, path, k).value.1, p, v);
        BelowMeets(w, n, path, k, p, v);
        assert ([k] + p)[0] == k != at[0];
      }
    } else {
      var p, q, v :| p != q && MeetsFrom(w, n, path, next, p, v) && MeetsFrom(w, n, path, next, q, v);
      assert MeetsFrom(w, n, path, k, p, v) && MeetsFrom(w, n, path, k, q, v);
    }
  }

  lemma NewInTurn(w: World, n: Node, path: Path, k: nat, seen: set<Visit>, mid: set<Visit>, after: set<Visit>, at: seq<nat>, v: Visit)
    requires InTurn(w, n, path, k, seen, mid, false, after, false) && MeetsFrom(w, n, path, k, at, v)
    ensures v in after && v !in seen && (v in mid <==> at[0] == k)
  {
    AtOrAfter(w, n, path, k, at, v);
  }

  lemma OnceInTurn(w: World, n: Node, path: Path, k: nat, seen: set<Visit>, mid: set<Visit>, after: set<Visit>, p: seq<nat>, q: seq<nat>, v: Visit)
    requires InTurn(w, n, path, k, seen, mid, false, after, false)
    requires MeetsFrom(w, n, path, k, p, v) && MeetsFrom(w, n, path, k, q, v)
    ensures p == q
  {
    NewInTurn(w, n, path, k, seen, mid, after, p, v);
    NewInTurn(w, n, path, k, seen, mid, after, q, v);
    AtOrAfter(w, n, path, k, p, v);
    AtOrAfter(w, n, path, k, q, v);
  }

  lemma TracksInTurn(w: World, n: Node, path: Path, k: nat, seen: set<Visit>, mid: set<Visit>, first: bool, after: set<Visit>, rest: bool)
    requires InTurn(w, n, path, k, seen, mid, first, after, rest)
    ensures TracksFrom(w, n, path, k, seen, after, first || rest)
  {
    forall v | v in after && v !in seen ensures exists at :: MeetsFrom(w, n, path, k, at, v) {
      MetInTurn(w, n, path, k, seen, mid, first, after, rest, v);
    }
    if first {
      FirstBails(w, n, path, k, seen, mid, after, rest);
    } else if rest {
      RestBails(w, n, path, k, seen, mid, first, after);
    } else {
      forall at, v | MeetsFrom(w, n, path, k, at, v) ensures v in after && v !in seen {
        NewInTurn(w, n, path, k, seen, mid, after, at, v);
      }
      forall p, q, v | MeetsFrom(w, n, path, k, p, v) && MeetsFrom(w, n, path, k, q, v) ensures p == q {
        OnceInTurn(w, n, path, k, seen, mid, after, p, q, v);
      }
    }
  }

  // ---- every walk tracks ----

  lemma TypeTracks(w: World, file: File, t: TypeNode, path: Path, seen: set<Visit>, after: set<Visit>, bailed: bool)
    requires TracksFrom(w, TypeNodeAt(file, t), path, 0, seen, after, bailed)
    ensures Tracks(w, TypeNodeAt(file, t), path, seen, after, bailed)
  {
    var n, zero: nat := TypeNodeAt(file, t), 0;
    forall at, v ensures Meets(w, n, path, at, v) <==> MeetsFrom(w, n, path, zero, at, v) {
    }
    forall v | v in after && v !in seen ensures exists at :: Meets(w, n, path, at, v) {
      var at :| MeetsFrom(w, n, path, zero, at, v);
    }
    if bailed {
      if at, v :| v in seen && MeetsFrom(w, n, path, zero, at, v) {
        assert Meets(w, n, path, at, v);
      } else {
        var p, q, v :| p != q && MeetsFrom(w, n, path, zero, p, v) && MeetsFrom(w, n, path, zero, q, v);
        assert Meets(w, n, path, p, v) && Meets(w, n, path, q, v);
      }
    }
  }

  lemma NothingMet(w: World, n: Node, path: Path, seen: set<Visit>)
    requires forall i: nat :: Question(w, n, path, i).None?
    requires path == [] || (n.DeclNode? && (n.id !in w.decls || w.decls[n.id].Enum?))
    ensures Tracks(w, n, path, seen, seen, false)
  {
    forall at, v ensures !Meets(w, n, path, at, v) {
    }
  }

  lemma MetAgain(w: World, d: DeclId, path: Path, seen: set<Visit>)
    requires d in w.decls && !w.decls[d].Enum? && path != [] && Visit(d, |path|) in seen
    ensures Tracks(w, DeclNode(d), path, seen, seen, true)
  {
    assert Meets(w, DeclNode(d), path, [], Visit(d, |path|));
  }

  lemma MetHereOrBelow(w: World, d: DeclId, path: Path, at: seq<nat>, v: Visit)
    requires Meets(w, DeclNode(d), path, at, v)
    ensures at == [] ==> v == Visit(d, |path|)
    ensures at != [] ==> MeetsFrom(w, DeclNode(d), path, 0, at, v)
  {
  }

  lemma MetHereAndBelow(w: World, d: DeclId, path: Path, at: seq<nat>)
    requires d in w.decls && !w.decls[d].Enum? && path != [] && MeetsFrom(w, DeclNode(d), path, 0, at, Visit(d, |path|))
    ensures MetTwice(w, DeclNode(d), path)
  {
    assert Meets(w, DeclNode(d), path, [], Visit(d, |path|)) && Meets(w, DeclNode(d), path, at, Visit(d, |path|));
  }

  lemma TwiceBelow(w: World, n: Node, path: Path)
    requires MetTwiceFrom(w, n, path, 0)
    ensures MetTwice(w, n, path)
  {
    var p, q, v :| p != q && MeetsFrom(w, n, path, 0, p, v) && MeetsFrom(w, n, path, 0, q, v);
    assert Meets(w, n, path, p, v) && Meets(w, n, path, q, v);
  }

  lemma BelowOrTwice(w: World, d: DeclId, path: Path, seen: set<Visit>, at: seq<nat>, v: Visit)
    requires d in w.decls && !w.decls[d].Enum? && path != []
    requires v in seen + {Visit(d, |path|)} && MeetsFrom(w, DeclNode(d), path, 0, at, v)
    ensures SomeMet(w, DeclNode(d), path, seen) || MetTwice(w, DeclNode(d), path)
  {
    if v !in seen {
      MetHereAndBelow(w, d, path, at);
    } else {
      assert Meets(w, DeclNode(d), path, at, v);
    }
  }

  lemma EnterBails(w: World, d: DeclId, path: Path, seen: set<Visit>)
    requires d in w.decls && !w.decls[d].Enum? && path != []
    requires MetBefore(w, DeclNode(d), path, 0, seen + {Visit(d, |path|)})
    ensures SomeMet(w, DeclNode(d), path, seen) || MetTwice(w, DeclNode(d), path)
  {
    if MetTwiceFrom(w, DeclNode(d), path, 0) {
      TwiceBelow(w, DeclNode(d), path);
    } else {
      var at, v :| v in seen + {Visit(d, |path|)} && MeetsFrom(w, DeclNode(d), path, 0, at, v);
      BelowOrTwice(w, d, path, seen, at, v);
    }
  }

  lemma EnterOnce(w: World, d: DeclId, path: Path, seen: set<Visit>, after: set<Visit>)
    requires d in w.decls && !w.decls[d].Enum? && path != [] && Visit(d, |path|) !in seen
    requires TracksFrom(w, DeclNode(d), path, 0, seen + {Visit(d, |path|)}, after, false)
    ensures forall at, v :: Meets(w, DeclNode(d), path, at, v) ==> v in after && v !in seen
    ensures !MetTwice(w, DeclNode(d), path)
  {
    var n := DeclNode(d);
    forall at, v | Meets(w, n, path, at, v) ensures v in after && v !in seen {
      MetHereOrBelow(w, d, path, at, v);
    }
    forall p, q, v | Meets(w, n, path, p, v) && Meets(w, n, path, q, v) ensures p == q {
      MetHereOrBelow(w, d, path, p, v);
      MetHereOrBelow(w, d, path, q, v);
    }
  }

  lemma EnterTracks(w: World, d: DeclId, path: Path, seen: set<Visit>, after: set<Visit>, bailed: bool)
    requires d in w.decls && !w.decls[d].Enum? && path != [] && Visit(d, |path|) !in seen
    requires TracksFrom(w, DeclNode(d), path, 0, seen + {Visit(d, |path|)}, after, bailed)
    ensures Tracks(w, DeclNode(d), path, seen, after, bailed)
  {
    var n, here := DeclNode(d), Visit(d, |path|);
    forall v | v in after && v !in seen ensures exists at :: Meets(w, n, path, at, v) {
      if v == here {
        assert Meets(w, n, path, [], here);
      } else {
        var at :| MeetsFrom(w, n, path, 0, at, v);
        assert Meets(w, n, path, at, v);
      }
    }
    if bailed {
      EnterBails(w, d, path, seen);
    } else {
      EnterOnce(w, d, path, seen, after);
    }
  }

  ghost predicate TracksWalk(w: World, n: Node, path: Path, seen: set<Visit>, r: Walked) {
    r.answer.Some? ==> Tracks(w, n, path, seen, r.seen, r.bailed)
  }

  ghost predicate TracksWalkFrom(w: World, n: Node, path: Path, k: nat, seen: set<Visit>, r: Walked) {
    r.answer.Some? ==> TracksFrom(w, n, path, k, seen, r.seen, r.bailed)
  }

  /** A node with one question, walked by answering it. */
  lemma OneQuestion(w: World, n: Node, path: Path, seen: set<Visit>, r: Walked)
    requires Question(w, n, path, 0).Some? && forall i: nat :: i > 0 ==> Question(w, n, path, i).None?
    requires TracksWalk(w, Question(w, n, path, 0).value.0, Question(w, n, path, 0).value.1, seen, r)
    ensures TracksWalkFrom(w, n, path, 0, seen, r)
  {
    if r.answer.Some? {
      NoMoreQuestions(w, n, path, 1, r.seen);
      TracksInTurn(w, n, path, 0, seen, r.seen, r.bailed, r.seen, false);
    }
  }

  lemma AsOneQuestion(w: World, n: Node, path: Path, seen: set<Visit>, r: Walked, m: Node, rest: Path)
    requires Question(w, n, path, 0) == Some((m, rest)) && forall i: nat :: i > 0 ==> Question(w, n, path, i).None?
    requires TracksWalk(w, m, rest, seen, r)
    ensures TracksWalkFrom(w, n, path, 0, seen, r)
  {
    OneQuestion(w, n, path, seen, r);
  }

  lemma {:induction false} TrackProperty(w: World, n: Node, file: File, members: seq<Element>, k: nat, path: Path, seen: set<Visit>, limit: nat)
    requires Parsed(w) && path != [] && path[0].Member? && |path| <= limit && FindProperty(members, path[0].name) == Some(k)
    requires forall i: nat :: Question(w, n, path, i) == PropertyQuestion(file, members, path, i)
    ensures TracksWalkFrom(w, n, path, 0, seen, WalkProperty(w, file, members, k, path, seen, limit))
    decreases Universe(w, limit) - seen, 1, members, 0
  {
    if |path| > 1 && members[k].annotation.Some? {
      TrackType(w, file, members[k].annotation.value, path[1..], seen, limit);
      OneQuestion(w, n, path, seen, WalkProperty(w, file, members, k, path, seen, limit));
    } else {
      NoMoreQuestions(w, n, path, 0, seen);
    }
  }

  lemma {:induction false} TrackInterface(w: World, d: DeclId, path: Path, entered: set<Visit>, limit: nat)
    requires Parsed(w) && d in w.decls && w.decls[d].Interface? && path != [] && path[0].Member? && |path| <= limit
    ensures var members := w.decls[d].members;
            var r := match FindProperty(members, path[0].name)
                     case Some(k) => WalkProperty(w, d.file, members, k, path, entered, limit)
                     case None => Folded(WalkBases(w, d.file, w.decls[d].bases, path, entered, limit), Combine);
            TracksWalkFrom(w, DeclNode(d), path, 0, entered, r)
    decreases Universe(w, limit) - entered, 2
  {
    match FindProperty(w.decls[d].members, path[0].name)
    case Some(k) => TrackProperty(w, DeclNode(d), d.file, w.decls[d].members, k, path, entered, limit);
    case None => TrackBases(w, d, 0, w.decls[d].bases, path, entered, limit);
  }

  lemma {:induction false} TrackDecl(w: World, d: DeclId, path: Path, seen: set<Visit>, limit: nat)
    requires Parsed(w) && d in w.decls && |path| <= limit
    ensures TracksWalk(w, DeclNode(d), path, seen, WalkDecl(w, d, path, seen, limit))
    decreases Universe(w, limit) - seen, 0, 0
  {
    if path == [] || w.decls[d].Enum? {
      NothingMet(w, DeclNode(d), path, seen);
    } else if Visit(d, |path|) in seen {
      MetAgain(w, d, path, seen);
    } else {
      var entered := seen + {Visit(d, |path|)};
      assert Visit(d, |path|) in Universe(w, limit) - seen && Visit(d, |path|) !in Universe(w, limit) - entered;
      var r := WalkDecl(w, d, path, seen, limit);
      if w.decls[d].Alias? {
        TrackType(w, d.file, w.decls[d].aliased, path, entered, limit);
        OneQuestion(w, DeclNode(d), path, entered, r);
      } else if path[0].Member? {
        TrackInterface(w, d, path, entered, limit);
      } else {
        NoMoreQuestions(w, DeclNode(d), path, 0, entered);
      }
      if r.answer.Some? {
        EnterTracks(w, d, path, seen, r.seen, r.bailed);
      }
    }
  }

  lemma {:induction false} TrackBases(w: World, d: DeclId, k: nat, bases: seq<Option<string>>, path: Path, seen: set<Visit>, limit: nat)
    requires Parsed(w) && d in w.decls && w.decls[d].Interface? && path != [] && path[0].Member? && |path| <= limit
    requires FindProperty(w.decls[d].members, path[0].name).None?
    requires k <= |w.decls[d].bases| && bases == w.decls[d].bases[k..]
    ensures var r := WalkBases(w, d.file, bases, path, seen, limit);
            r.answers.Some? ==> TracksFrom(w, DeclNode(d), path, k, seen, r.seen, r.bailed)
    decreases Universe(w, limit) - seen, 1, bases
  {
    var n := DeclNode(d);
    if bases == [] {
      NoMoreQuestions(w, n, path, k, seen);
    } else {
      var first := if bases[0].None? then Walked(Some(Unknown), seen, false) else WalkName(w, d.file, bases[0].value, path, seen, limit);
      if first.answer.Some? {
        var rest := WalkBases(w, d.file, bases[1..], path, first.seen, limit);
        TrackBases(w, d, k + 1, bases[1..], path, first.seen, limit);
        if rest.answers.Some? {
          if Question(w, n, path, k).None? {
            NoQuestionAt(w, n, path, k, seen, rest.seen, rest.bailed);
          } else {
            TrackDecl(w, w.resolve[(d.file, bases[0].value)], path, seen, limit);
            TracksInTurn(w, n, path, k, seen, first.seen, first.bailed, rest.seen, rest.bailed);
          }
        }
      }
    }
  }

  lemma {:induction false} TrackParts(w: World, n: Node, file: File, k: nat, parts: seq<TypeNode>, path: Path, seen: set<Visit>, limit: nat)
    requires Parsed(w) && path != [] && |path| <= limit
    requires forall i: nat :: i < |parts| ==> Question(w, n, path, k + i) == Some((TypeNodeAt(file, parts[i]), path))
    requires forall i: nat :: i >= k + |parts| ==> Question(w, n, path, i).None?
    ensures var r := WalkParts(w, file, parts, path, seen, limit);
            r.answers.Some? ==> TracksFrom(w, n, path, k, seen, r.seen, r.bailed)
    decreases Universe(w, limit) - seen, 1, parts
  {
    if parts == [] {
      NoMoreQuestions(w, n, path, k, seen);
    } else {
      TrackType(w, file, parts[0], path, seen, limit);
      var first := WalkType(w, file, parts[0], path, seen, limit);
      if first.answer.Some? {
        var rest := WalkParts(w, file, parts[1..], path, first.seen, limit);
        forall i: nat | i < |parts[1..]| ensures Question(w, n, path, k + 1 + i) == Some((TypeNodeAt(file, parts[1..][i]), path)) {
          assert k + 1 + i == k + (i + 1);
        }
        TrackParts(w, n, file, k + 1, parts[1..], path, first.seen, limit);
        if rest.answers.Some? {
          assert Question(w, n, path, k + 0) == Some((TypeNodeAt(file, parts[0]), path));
          TracksInTurn(w, n, path, k, seen, first.seen, first.bailed, rest.seen, rest.bailed);
        }
      }
    }
  }

  lemma {:induction false} TrackOnly(w: World, file: File, t: TypeNode, path: Path, seen: set<Visit>, limit: nat)
    requires Parsed(w) && path != [] && |path| <= limit && !t.LiteralType? && !t.Intersection? && !t.Union?
    ensures TracksWalkFrom(w, TypeNodeAt(file, t), path, 0, seen, WalkType(w, file, t, path, seen, limit))
    decreases Universe(w, limit) - seen, 1, t, 1
  {
    var n, r := TypeNodeAt(file, t), WalkType(w, file, t, path, seen, limit);
    if OnlyQuestion(w, file, t, path).None? {
      NoMoreQuestions(w, n, path, 0, seen);
    } else if t.IndexedAccess? {
      if |path| < limit {
        TrackType(w, file, t.object_, [Member(t.index.value)] + path, seen, limit);
        OneQuestion(w, n, path, seen, r);
      }
    } else if t.Reference? {
      TrackReference(w, file, t, path, seen, limit);
    } else {
      match t {
        case Parenthesized(inner) =>
          TrackType(w, file, inner, path, seen, limit);
          AsOneQuestion(w, n, path, seen, r, TypeNodeAt(file, inner), path);
        case ArrayType(element) =>
          TrackType(w, file, element, path[1..], seen, limit);
          assert WalkElement(w, file, element, path, seen, limit) == WalkType(w, file, element, path[1..], seen, limit);
          AsOneQuestion(w, n, path, seen, r, TypeNodeAt(file, element), path[1..]);
        case OperatorType(_, inner) =>
          TrackType(w, file, inner, path, seen, limit);
          AsOneQuestion(w, n, path, seen, r, TypeNodeAt(file, inner), path);
      }
    }
  }

  lemma {:induction false} TrackReference(w: World, file: File, t: TypeNode, path: Path, seen: set<Visit>, limit: nat)
    requires Parsed(w) && path != [] && |path| <= limit && t.Reference? && OnlyQuestion(w, file, t, path).Some?
    ensures TracksWalkFrom(w, TypeNodeAt(file, t), path, 0, seen, WalkType(w, file, t, path, seen, limit))
    decreases Universe(w, limit) - seen, 1, t, 0
  {
    var n, r := TypeNodeAt(file, t), WalkType(w, file, t, path, seen, limit);
    if t.head in PASSTHROUGH_WRAPPERS && t.args != [] {
      TrackType(w, file, t.args[0], path, seen, limit);
      AsOneQuestion(w, n, path, seen, r, TypeNodeAt(file, t.args[0]), path);
    } else if t.head in ARRAY_NAMES && t.args != [] {
      TrackType(w, file, t.args[0], path[1..], seen, limit);
      assert WalkElement(w, file, t.args[0], path, seen, limit) == WalkType(w, file, t.args[0], path[1..], seen, limit);
      AsOneQuestion(w, n, path, seen, r, TypeNodeAt(file, t.args[0]), path[1..]);
    } else {
      var d := w.resolve[(file, t.head)];
      assert r == WalkName(w, file, t.head, path, seen, limit);
      TrackDecl(w, d, path, seen, limit);
      AsOneQuestion(w, n, path, seen, r, DeclNode(d), path);
    }
  }

  lemma {:induction false} TrackType(w: World, file: File, t: TypeNode, path: Path, seen: set<Visit>, limit: nat)
    requires Parsed(w) && |path| <= limit
    ensures TracksWalk(w, TypeNodeAt(file, t), path, seen, WalkType(w, file, t, path, seen, limit))
    decreases Universe(w, limit) - seen, 1, t, 2
  {
    var n, r := TypeNodeAt(file, t), WalkType(w, file, t, path, seen, limit);
    if path == [] {
      NothingMet(w, n, path, seen);
    } else {
      match t {
        case LiteralType(members) =>
          if path[0].Member? && FindProperty(members, path[0].name).Some? {
            TrackProperty(w, n, file, members, FindProperty(members, path[0].name).value, path, seen, limit);
          } else {
            NoMoreQuestions(w, n, path, 0, seen);
          }
        case Intersection(parts) => TrackParts(w, n, file, 0, parts, path, seen, limit);
        case Union(parts) => TrackParts(w, n, file, 0, parts, path, seen, limit);
        case _ => TrackOnly(w, file, t, path, seen, limit);
      }
      if r.answer.Some? {
        TypeTracks(w, file, t, path, seen, r.seen, r.bailed);
      }
    }
  }

  // ---- exactness, said of the types alone ----

  /** Starting afresh, a completed walk bails out exactly when a declaration is met twice. */
  lemma BailsIffMetTwice(w: World, n: Node, path: Path, limit: nat)
    requires Parsed(w) && ParsedNode(w, n) && |path| <= limit && Walk(w, n, path, {}, limit).answer.Some?
    ensures Walk(w, n, path, {}, limit).bailed <==> MetTwice(w, n, path)
  {
    match n
    case DeclNode(d) => TrackDecl(w, d, path, {}, limit);
    case TypeNodeAt(file, t) => TrackType(w, file, t, path, {}, limit);
  }

  ghost predicate ExactAt(w: World, n: Node, path: Path, answer: Presence) {
    && (answer == Found <==> Must(w, n, path))
    && (answer == Missing <==> !May(w, n, path))
  }

  /** Where no declaration is met twice with paths of one length, a completed walk of a world
    * without misread constructs answers found exactly when the path must be there, and missing
    * exactly when it cannot be. */
  lemma ExactUnlessMetTwice(w: World, n: Node, path: Path, limit: nat)
    requires Parsed(w) && ParsedNode(w, n) && WorldWithin(w, {}) && NodeWithin(w, n, {}) && |path| <= limit
    requires !MetTwice(w, n, path) && Walk(w, n, path, {}, limit).answer.Some?
    ensures ExactAt(w, n, path, Walk(w, n, path, {}, limit).answer.value)
  {
    BailsIffMetTwice(w, n, path, limit);
    WalkIsSound(w, n, path, {}, limit);
  }

  /** A type whose names cannot be resolved. */
  predicate NamesUnresolved(w: World, file: File, t: TypeNode) {
    match t
    case LiteralType(members) =>
      forall i :: 0 <= i < |members| && members[i].Property? && members[i].annotation.Some? ==>
        NamesUnresolved(w, file, members[i].annotation.value)
    case Parenthesized(inner) => NamesUnresolved(w, file, inner)
    case Intersection(parts) => forall i :: 0 <= i < |parts| ==> NamesUnresolved(w, file, parts[i])
    case Union(parts) => forall i :: 0 <= i < |parts| ==> NamesUnresolved(w, file, parts[i])
    case ArrayType(element) => NamesUnresolved(w, file, element)
    case OperatorType(_, inner) => NamesUnresolved(w, file, inner)
    case IndexedAccess(object_, _) => NamesUnresolved(w, file, object_)
    case Reference(head, _, args) =>
      (file, head) !in w.resolve && forall i :: 0 <= i < |args| ==> NamesUnresolved(w, file, args[i])
    case OtherType => true
  }

  lemma UnresolvedQuestion(w: World, file: File, t: TypeNode, path: Path, i: nat)
    requires NamesUnresolved(w, file, t) && Question(w, TypeNodeAt(file, t), path, i).Some?
    ensures var (n, below) := Question(w, TypeNodeAt(file, t), path, i).value;
            n.TypeNodeAt? && n.file == file && NamesUnresolved(w, file, n.node)
  {
  }

  lemma {:induction false} UnresolvedMeetsNothing(w: World, file: File, t: TypeNode, path: Path, at: seq<nat>, v: Visit)
    requires NamesUnresolved(w, file, t)
    ensures !Meets(w, TypeNodeAt(file, t), path, at, v)
    decreases |at|
  {
    if at != [] && Question(w, TypeNodeAt(file, t), path, at[0]).Some? {
      UnresolvedQuestion(w, file, t, path, at[0]);
      var (n, below) := Question(w, TypeNodeAt(file, t), path, at[0]).value;
      UnresolvedMeetsNothing(w, file, n.node, below, at[1..], v);
    }
  }

  /** Of a type whose names cannot be resolved the answer is exact. */
  lemma ExactWithoutNames(w: World, file: File, t: TypeNode, path: Path, limit: nat)
    requires Parsed(w) && WorldWithin(w, {}) && UnionsNonEmpty(t) && Within(w, file, t, {}) && NamesUnresolved(w, file, t)
    requires |path| <= limit && WalkType(w, file, t, path, {}, limit).answer.Some?
    ensures ExactAt(w, TypeNodeAt(file, t), path, WalkType(w, file, t, path, {}, limit).answer.value)
  {
    forall at, v ensures !Meets(w, TypeNodeAt(file, t), path, at, v) {
      UnresolvedMeetsNothing(w, file, t, path, at, v);
    }
    ExactUnlessMetTwice(w, TypeNodeAt(file, t), path, limit);
  }
}
