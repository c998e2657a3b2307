/** When the walk of `lookupPath` does not end: aliases that lead to one another past an indexed
  * access, without taking a step of the path, are walked with ever longer paths
  * (scripts/gen-config-catalog.ts). */
module TypePathLoops {
  import opened Wrappers
  import opened TypePaths
  import opened TypePathEnding

  /** The type leads back to the declaration past `depth` indexed accesses, and past nothing
    * that takes a step of the path. */
  predicate LeadsBack(w: World, d: DeclId, file: File, t: TypeNode, depth: nat) {
    match t
    case Parenthesized(inner) => LeadsBack(w, d, file, inner, depth)
    case Intersection(parts) => exists i :: 0 <= i < |parts| && LeadsBack(w, d, file, parts[i], depth)
    case Union(parts) => exists i :: 0 <= i < |parts| && LeadsBack(w, d, file, parts[i], depth)
    case OperatorType(_, inner) => LeadsBack(w, d, file, inner, depth)
    case IndexedAccess(object_, index) => index.Some? && depth > 0 && LeadsBack(w, d, file, object_, depth - 1)
    case Reference(head, binding, args) =>
      if head in PASSTHROUGH_WRAPPERS && args != [] then LeadsBack(w, d, file, args[0], depth)
      else if head in ARRAY_NAMES && args != [] then false
      else !binding.Qualified? && (file, head) in w.resolve && w.resolve[(file, head)] == d && depth == 0
    case _ => false
  }

  function Times(a: nat, n: nat): nat {
    if n == 0 then 0 else Times(a, n - 1) + a
  }

  lemma {:induction false} TimesAdds(a: nat, m: nat, n: nat)
    ensures Times(a, m + n) == Times(a, m) + Times(a, n)
  {
    if n > 0 {
      TimesAdds(a, m, n - 1);
    }
  }

  /** Which declaration an alias leads to next, past how many indexed accesses; and the alias's rank. */
  datatype Turn = Turn(next: DeclId, depth: nat, rank: nat)

  /** Declarations that lead to one another. */
  datatype Loop = Loop(turns: map<DeclId, Turn>, scale: nat)
  {
    /** How far the loop has come at a declaration with a path of some length. */
    function At(d: DeclId, length: nat): nat
      requires d in turns
    {
      Times(scale, length) + turns[d].rank
    }
  }

  /** The alias leads to the next one, which is further along: each turn of the loop goes past
    * at least one indexed access. */
  ghost predicate Advances(w: World, l: Loop, d: DeclId)
    requires d in l.turns
  {
    && d in w.decls && w.decls[d].Alias?
    && l.turns[d].next in l.turns && l.At(l.turns[d].next, l.turns[d].depth) > l.turns[d].rank
    && LeadsBack(w, l.turns[d].next, d.file, w.decls[d].aliased, l.turns[d].depth)
  }

  ghost predicate Looping(w: World, l: Loop, top: nat) {
    forall d :: d in l.turns ==> Advances(w, l, d) && l.turns[d].rank <= top
  }

  /** No declaration of the loop was visited further than n. */
  ghost predicate NoneAbove(seen: set<Visit>, l: Loop, n: int) {
    forall v :: v in seen && v.id in l.turns ==> l.At(v.id, v.length) <= n
  }

  /** Walked for the first time further than n, a declaration of the loop outgrows the limit. */
  ghost predicate OutgrowsAbove(w: World, l: Loop, n: int, limit: nat)
    requires Parsed(w)
  {
    forall d, path, seen :: d in l.turns && d in w.decls && |path| <= limit && n < l.At(d, |path|)
                            && path != [] && NoneAbove(seen, l, l.At(d, |path|) - 1) ==>
      WalkDecl(w, d, path, seen, limit).answer.None?
  }

  ghost predicate Quiet(l: Loop, n: int, r: Walked) {
    r.answer.Some? ==> NoneAbove(r.seen, l, n)
  }

  ghost predicate AllQuiet(l: Loop, n: int, r: WalkedAll) {
    r.answers.Some? ==> NoneAbove(r.seen, l, n)
  }

  // ---- a completed walk never came further along the loop ----

  lemma {:induction false} QuietDecl(w: World, l: Loop, n: int, e: DeclId, path: Path, seen: set<Visit>, limit: nat)
    requires Parsed(w) && OutgrowsAbove(w, l, n, limit) && NoneAbove(seen, l, n)
    requires e in w.decls && |path| <= limit
    ensures Quiet(l, n, WalkDecl(w, e, path, seen, limit))
    decreases Universe(w, limit) - seen, 0, 0
  {
    if path != [] && !w.decls[e].Enum? && Visit(e, |path|) !in seen && !(e in l.turns && l.At(e, |path|) > n) {
      var entered := seen + {Visit(e, |path|)};
      assert Visit(e, |path|) in Universe(w, limit) - seen && Visit(e, |path|) !in Universe(w, limit) - entered;
      match w.decls[e]
      case Alias(t) => QuietType(w, l, n, e.file, t, path, entered, limit);
      case Interface(members, bases) =>
        if path[0].Member? {
          match FindProperty(members, path[0].name)
          case Some(k) => QuietProperty(w, l, n, e.file, members, k, path, entered, limit);
          case None => QuietBases(w, l, n, e.file, bases, path, entered, limit);
        }
    }
  }

  lemma {:induction false} QuietProperty(w: World, l: Loop, n: int, file: File, members: seq<Element>, k: nat,
                                         path: Path, seen: set<Visit>, limit: nat)
    requires Parsed(w) && OutgrowsAbove(w, l, n, limit) && NoneAbove(seen, l, n)
    requires path != [] && |path| <= limit && k < |members| && members[k].Property?
    ensures Quiet(l, n, WalkProperty(w, file, members, k, path, seen, limit))
    decreases Universe(w, limit) - seen, 1, members, 0
  {
    if |path| > 1 && members[k].annotation.Some? {
      QuietType(w, l, n, file, members[k].annotation.value, path[1..], seen, limit);
    }
  }

  lemma {:induction false} QuietName(w: World, l: Loop, n: int, file: File, name: string,
                                     path: Path, seen: set<Visit>, limit: nat)
    requires Parsed(w) && OutgrowsAbove(w, l, n, limit) && NoneAbove(seen, l, n)
    requires path != [] && |path| <= limit
    ensures Quiet(l, n, WalkName(w, file, name, path, seen, limit))
    decreases Universe(w, limit) - seen, 0, 1
  {
    if (file, name) in w.resolve {
      QuietDecl(w, l, n, w.resolve[(file, name)], path, seen, limit);
    }
  }

  lemma {:induction false} QuietBases(w: World, l: Loop, n: int, file: File, bases: seq<Option<string>>,
                                      path: Path, seen: set<Visit>, limit: nat)
    requires Parsed(w) && OutgrowsAbove(w, l, n, limit) && NoneAbove(seen, l, n)
    requires path != [] && |path| <= limit
    ensures AllQuiet(l, n, WalkBases(w, file, bases, path, seen, limit))
    decreases Universe(w, limit) - seen, 1, bases
  {
    if bases != [] {
      if bases[0].Some? {
        QuietName(w, l, n, file, bases[0].value, path, seen, limit);
      }
      var first := if bases[0].None? then Walked(Some(Unknown), seen, false)
                   else WalkName(w, file, bases[0].value, path, seen, limit);
      if first.answer.Some? {
        QuietBases(w, l, n, file, bases[1..], path, first.seen, limit);
      }
    }
  }

  lemma {:induction false} QuietParts(w: World, l: Loop, n: int, file: File, parts: seq<TypeNode>,
                                      path: Path, seen: set<Visit>, limit: nat)
    requires Parsed(w) && OutgrowsAbove(w, l, n, limit) && NoneAbove(seen, l, n)
    requires path != [] && |path| <= limit
    ensures AllQuiet(l, n, WalkParts(w, file, parts, path, seen, limit))
    decreases Universe(w, limit) - seen, 1, parts
  {
    if parts != [] {
      QuietType(w, l, n, file, parts[0], path, seen, limit);
      var first := WalkType(w, file, parts[0], path, seen, limit);
      if first.answer.Some? {
        QuietParts(w, l, n, file, parts[1..], path, first.seen, limit);
      }
    }
  }

  lemma {:induction false} QuietElement(w: World, l: Loop, n: int, file: File, element: TypeNode,
                                        path: Path, seen: set<Visit>, limit: nat)
    requires Parsed(w) && OutgrowsAbove(w, l, n, limit) && NoneAbove(seen, l, n)
    requires path != [] && |path| <= limit
    ensures Quiet(l, n, WalkElement(w, file, element, path, seen, limit))
    decreases Universe(w, limit) - seen, 1, element, 1
  {
    if path[0].Array? {
      QuietType(w, l, n, file, element, path[1..], seen, limit);
    }
  }

  lemma {:induction false} QuietType(w: World, l: Loop, n: int, file: File, t: TypeNode,
                                     path: Path, seen: set<Visit>, limit: nat)
    requires Parsed(w) && OutgrowsAbove(w, l, n, limit) && NoneAbove(seen, l, n)
    requires |path| <= limit
    ensures Quiet(l, n, WalkType(w, file, t, path, seen, limit))
    decreases Universe(w, limit) - seen, 1, t, 0
  {
    if path != [] {
      match t
      case LiteralType(members) =>
        if path[0].Member? {
          match FindProperty(members, path[0].name)
          case Some(k) => QuietProperty(w, l, n, file, members, k, path, seen, limit);
          case None =>
        }
      case Parenthesized(inner) => QuietType(w, l, n, file, inner, path, seen, limit);
      case Intersection(parts) => QuietParts(w, l, n, file, parts, path, seen, limit);
      case Union(parts) => QuietParts(w, l, n, file, parts, path, seen, limit);
      case ArrayType(element) => QuietElement(w, l, n, file, element, path, seen, limit);
      case OperatorType(_, inner) => QuietType(w, l, n, file, inner, path, seen, limit);
      case IndexedAccess(object_, index) =>
        if index.Some? && |path| < limit {
          QuietType(w, l, n, file, object_, [Member(index.value)] + path, seen, limit);
        }
      case Reference(head, binding, args) =>
        if head in PASSTHROUGH_WRAPPERS && args != [] {
          QuietType(w, l, n, file, args[0], path, seen, limit);
        } else if head in ARRAY_NAMES && args != [] {
          QuietElement(w, l, n, file, args[0], path, seen, limit);
        } else if !binding.Qualified? {
          QuietName(w, l, n, file, head, path, seen, limit);
        }
      case OtherType =>
    }
  }

  // ---- and a type that leads back meets it ----

  lemma {:induction false} PartOutgrows(w: World, l: Loop, n: int, file: File, parts: seq<TypeNode>, i: nat, d: DeclId, depth: nat,
                                        path: Path, seen: set<Visit>, limit: nat)
    requires Parsed(w) && OutgrowsAbove(w, l, n, limit) && NoneAbove(seen, l, n)
    requires d in l.turns && d in w.decls && path != [] && |path| <= limit && l.At(d, |path| + depth) > n
    requires i < |parts| && LeadsBack(w, d, file, parts[i], depth)
    ensures WalkParts(w, file, parts, path, seen, limit).answers.None?
    decreases parts
  {
    var first := WalkType(w, file, parts[0], path, seen, limit);
    if i == 0 {
      TypeOutgrows(w, l, n, file, parts[0], d, depth, path, seen, limit);
    } else if first.answer.Some? {
      QuietType(w, l, n, file, parts[0], path, seen, limit);
      assert parts[1..][i - 1] == parts[i];
      PartOutgrows(w, l, n, file, parts[1..], i - 1, d, depth, path, first.seen, limit);
    }
  }

  lemma {:induction false} TypeOutgrows(w: World, l: Loop, n: int, file: File, t: TypeNode, d: DeclId, depth: nat,
                                        path: Path, seen: set<Visit>, limit: nat)
    requires Parsed(w) && OutgrowsAbove(w, l, n, limit) && NoneAbove(seen, l, n)
    requires d in l.turns && d in w.decls && path != [] && |path| <= limit && l.At(d, |path| + depth) > n
    requires LeadsBack(w, d, file, t, depth)
    ensures WalkType(w, file, t, path, seen, limit).answer.None?
    decreases t
  {
    match t
    case Parenthesized(inner) => TypeOutgrows(w, l, n, file, inner, d, depth, path, seen, limit);
    case Intersection(parts) =>
      var i :| 0 <= i < |parts| && LeadsBack(w, d, file, parts[i], depth);
      PartOutgrows(w, l, n, file, parts, i, d, depth, path, seen, limit);
    case Union(parts) =>
      var i :| 0 <= i < |parts| && LeadsBack(w, d, file, parts[i], depth);
      PartOutgrows(w, l, n, file, parts, i, d, depth, path, seen, limit);
    case OperatorType(_, inner) => TypeOutgrows(w, l, n, file, inner, d, depth, path, seen, limit);
    case IndexedAccess(object_, index) =>
      if |path| < limit {
        TypeOutgrows(w, l, n, file, object_, d, depth - 1, [Member(index.value)] + path, seen, limit);
      }
    case Reference(head, binding, args) =>
      if head in PASSTHROUGH_WRAPPERS && args != [] {
        TypeOutgrows(w, l, n, file, args[0], d, depth, path, seen, limit);
      } else {
        assert NoneAbove(seen, l, l.At(d, |path|) - 1);
        assert WalkName(w, file, head, path, seen, limit) == WalkDecl(w, d, path, seen, limit);
      }
  }

  lemma Further(l: Loop, d: DeclId, e: DeclId, depth: nat, length: nat)
    requires d in l.turns && e in l.turns && l.At(e, depth) > l.turns[d].rank
    ensures l.At(e, length + depth) > l.At(d, length)
  {
    TimesAdds(l.scale, length, depth);
  }

  lemma NeverPast(l: Loop, d: DeclId, length: nat, limit: nat, top: nat)
    requires d in l.turns && l.turns[d].rank <= top && length <= limit
    ensures l.At(d, length) <= Times(l.scale, limit) + top
  {
    TimesAdds(l.scale, length, limit - length);
  }

  lemma FreshAlias(w: World, d: DeclId, path: Path, seen: set<Visit>, limit: nat)
    requires Parsed(w) && d in w.decls && w.decls[d].Alias? && path != [] && |path| <= limit && Visit(d, |path|) !in seen
    ensures WalkDecl(w, d, path, seen, limit) == WalkType(w, d.file, w.decls[d].aliased, path, seen + {Visit(d, |path|)}, limit)
  {
  }

  lemma Entered(l: Loop, d: DeclId, length: nat, seen: set<Visit>)
    requires d in l.turns && NoneAbove(seen, l, l.At(d, length) - 1)
    ensures Visit(d, length) !in seen && NoneAbove(seen + {Visit(d, length)}, l, l.At(d, length))
  {
  }

  lemma BodyOutgrows(w: World, l: Loop, d: DeclId, path: Path, seen: set<Visit>, limit: nat)
    requires Parsed(w) && path != [] && |path| <= limit
    requires d in l.turns && Advances(w, l, d) && l.turns[d].next in w.decls
    requires NoneAbove(seen, l, l.At(d, |path|) - 1) && OutgrowsAbove(w, l, l.At(d, |path|), limit)
    ensures WalkDecl(w, d, path, seen, limit).answer.None?
  {
    var Turn(e, depth, _) := l.turns[d];
    Further(l, d, e, depth, |path|);
    Entered(l, d, |path|, seen);
    FreshAlias(w, d, path, seen, limit);
    TypeOutgrows(w, l, l.At(d, |path|), d.file, w.decls[d].aliased, e, depth, path, seen + {Visit(d, |path|)}, limit);
  }

  lemma {:induction false} AllOutgrow(w: World, l: Loop, top: nat, n: nat, limit: nat)
    requires Parsed(w) && Looping(w, l, top)
    ensures OutgrowsAbove(w, l, n, limit)
    decreases Times(l.scale, limit) + top - n, 0
  {
    forall d, path, seen | d in l.turns && d in w.decls && |path| <= limit && n < l.At(d, |path|)
                           && path != [] && NoneAbove(seen, l, l.At(d, |path|) - 1)
      ensures WalkDecl(w, d, path, seen, limit).answer.None?
    {
      NeverPast(l, d, |path|, limit, top);
      LoopNeverEnds(w, l, top, d, path, seen, limit);
    }
  }

  /** Aliases that lead to one another so, wherever in their bodies and whatever stands beside,
    * outgrow every limit on every path that is not empty. */
  lemma {:induction false} LoopNeverEnds(w: World, l: Loop, top: nat, d: DeclId, path: Path, seen: set<Visit>, limit: nat)
    requires Parsed(w) && Looping(w, l, top) && d in l.turns
    requires path != [] && |path| <= limit && NoneAbove(seen, l, l.At(d, |path|) - 1)
    ensures WalkDecl(w, d, path, seen, limit).answer.None?
    decreases Times(l.scale, limit) + top - l.At(d, |path|), 1
  {
    AllOutgrow(w, l, top, l.At(d, |path|), limit);
    assert Advances(w, l, d) && Advances(w, l, l.turns[d].next);
    BodyOutgrows(w, l, d, path, seen, limit);
  }

  lemma LoopIsDeclared(w: World, l: Loop, top: nat, d: DeclId)
    requires Looping(w, l, top) && d in l.turns
    ensures d in w.decls
  {
    assert Advances(w, l, d);
  }

  lemma OutgrowsIsUnlevelled(w: World, level: Levels, d: DeclId, path: Path, limit: nat)
    requires Parsed(w) && d in w.decls && |path| <= limit && WalkDecl(w, d, path, {}, limit).answer.None?
    ensures Levelled(w, level) ==> |path| + level[d] > limit
  {
    if Levelled(w, level) && |path| + level[d] <= limit {
      LevelledWalkEnds(w, level, d, path, {}, limit);
    }
  }

  /** Declarations that lead to one another so have no levels. */
  lemma LoopHasNoLevel(w: World, l: Loop, top: nat, d: DeclId, level: Levels)
    requires Parsed(w) && Looping(w, l, top) && d in l.turns
    ensures !Levelled(w, level)
  {
    LoopIsDeclared(w, l, top, d);
    var path := [Array];
    var limit := if d in level then 1 + level[d] else 1;
    LoopNeverEnds(w, l, top, d, path, {}, limit);
    OutgrowsIsUnlevelled(w, level, d, path, limit);
  }

  /** `type A = A["x"]`. */
  function SelfIndexing(): World {
    World(map[DeclId("f", 0) := Alias(IndexedAccess(Reference("A", Own, []), Some("x")))], map[("f", "A") := DeclId("f", 0)],
          map[], map[])
  }

  lemma SelfIndexingNeverEnds(path: Path, limit: nat)
    requires path != [] && |path| <= limit
    ensures WalkDecl(SelfIndexing(), DeclId("f", 0), path, {}, limit).answer.None?
  {
    var w, d := SelfIndexing(), DeclId("f", 0);
    var l := Loop(map[d := Turn(d, 1, 0)], 1);
    assert LeadsBack(w, d, "f", Reference("A", Own, []), 0);
    assert LeadsBack(w, d, "f", w.decls[d].aliased, 1) && l.At(d, 1) == 1;
    assert Advances(w, l, d);
    LoopNeverEnds(w, l, 0, d, path, {}, limit);
  }

  /** `interface A { x: A["x"] }`: each turn takes a step and gives one back. */
  function MemberIndexing(): World {
    var t := IndexedAccess(Reference("A", Own, []), Some("x"));
    World(map[DeclId("f", 0) := Interface([Property("x", Some("x"), Some(t))], [])], map[("f", "A") := DeclId("f", 0)], map[], map[])
  }

  /** Recursion through a member is bounded by the path itself. */
  lemma MemberIndexingEnds(path: Path, seen: set<Visit>)
    ensures WalkDecl(MemberIndexing(), DeclId("f", 0), path, seen, |path|).answer.Some?
  {
    var w, d := MemberIndexing(), DeclId("f", 0);
    var level := map[d := 0];
    assert Fits(w, level, "f", Reference("A", Own, []), 0);
    assert Fits(w, level, "f", LiteralType(w.decls[d].members), 0);
    LevelledWalkEnds(w, level, d, path, seen, |path|);
  }
}
