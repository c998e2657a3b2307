/** When the walk of `lookupPath` ends: a completed walk does not depend on the limit, and every
  * world whose indexed accesses can only prepend boundedly many steps is walked to the end
  * (scripts/gen-config-catalog.ts). */
module TypePathEnding {
  import opened Wrappers
  import opened TypePaths

  type Levels = map<DeclId, nat>

  predicate NameFits(w: World, level: Levels, file: File, name: string, room: nat) {
    (file, name) in w.resolve ==> w.resolve[(file, name)] in level && level[w.resolve[(file, name)]] <= room
  }

  /** Walking the type makes its path at most `room` steps longer, given that bound for each
    * declaration; a property or an array hop takes a step first, so it leaves one more. */
  predicate Fits(w: World, level: Levels, file: File, t: TypeNode, room: nat) {
    match t
    case LiteralType(members) =>
      forall i :: 0 <= i < |members| && members[i].Property? && members[i].annotation.Some? ==>
        Fits(w, level, file, members[i].annotation.value, room + 1)
    case Parenthesized(inner) => Fits(w, level, file, inner, room)
    case Intersection(parts) => forall i :: 0 <= i < |parts| ==> Fits(w, level, file, parts[i], room)
    case Union(parts) => forall i :: 0 <= i < |parts| ==> Fits(w, level, file, parts[i], room)
    case ArrayType(element) => Fits(w, level, file, element, room + 1)
    case OperatorType(_, inner) => Fits(w, level, file, inner, room)
    case IndexedAccess(object_, index) => index.Some? ==> room > 0 && Fits(w, level, file, object_, room - 1)
    case Reference(head, _, args) =>
      if head in PASSTHROUGH_WRAPPERS && args != [] then Fits(w, level, file, args[0], room)
      else if head in ARRAY_NAMES && args != [] then Fits(w, level, file, args[0], room + 1)
      else NameFits(w, level, file, head, room)
    case OtherType => true
  }

  predicate BasesFit(w: World, level: Levels, file: File, bases: seq<Option<string>>, room: nat) {
    forall i :: 0 <= i < |bases| && bases[i].Some? ==> NameFits(w, level, file, bases[i].value, room)
  }

  predicate DeclFits(w: World, level: Levels, file: File, decl: Declaration, room: nat) {
    match decl
    case Interface(members, bases) =>
      Fits(w, level, file, LiteralType(members), room) && BasesFit(w, level, file, bases, room)
    case Alias(t) => Fits(w, level, file, t, room)
    case Enum => true
  }

  /** Each declaration's level bounds the steps its indexed accesses can prepend. */
  ghost predicate Levelled(w: World, level: Levels) {
    forall d :: d in w.decls ==> d in level && DeclFits(w, level, d.file, w.decls[d], level[d])
  }

  /** The walk completes within its limit if its path fits, and a completed walk is the same
    * under every larger limit. */
  ghost predicate Settles(fits: bool, r: Walked, wider: Walked) {
    (fits ==> r.answer.Some?) && (r.answer.Some? ==> wider == r)
  }

  ghost predicate AllSettle(fits: bool, r: WalkedAll, wider: WalkedAll) {
    (fits ==> r.answers.Some?) && (r.answers.Some? ==> wider == r)
  }

  lemma {:induction false} SettleProperty(w: World, level: Levels, room: nat, file: File, members: seq<Element>, k: nat,
                                          path: Path, seen: set<Visit>, limit: nat, more: nat)
    requires Parsed(w) && path != [] && |path| <= limit <= more && k < |members| && members[k].Property?
    ensures Settles(Levelled(w, level) && Fits(w, level, file, LiteralType(members), room) && |path| + room <= limit,
                    WalkProperty(w, file, members, k, path, seen, limit),
                    WalkProperty(w, file, members, k, path, seen, more))
    decreases Universe(w, limit) - seen, 1, members, 0
  {
    if |path| > 1 && members[k].annotation.Some? {
      SettleType(w, level, room + 1, file, members[k].annotation.value, path[1..], seen, limit, more);
    }
  }

  lemma {:induction false} SettleDecl(w: World, level: Levels, d: DeclId, path: Path, seen: set<Visit>, limit: nat, more: nat)
    requires Parsed(w) && d in w.decls && |path| <= limit <= more
    ensures Settles(Levelled(w, level) && d in level && |path| + level[d] <= limit,
                    WalkDecl(w, d, path, seen, limit), WalkDecl(w, d, path, seen, more))
    decreases Universe(w, limit) - seen, 0, 0
  {
    if path != [] && !w.decls[d].Enum? && Visit(d, |path|) !in seen {
      var entered := seen + {Visit(d, |path|)};
      assert Visit(d, |path|) in Universe(w, limit) - seen && Visit(d, |path|) !in Universe(w, limit) - entered;
      var room := if d in level then level[d] else 0;
      match w.decls[d]
      case Alias(t) => SettleType(w, level, room, d.file, t, path, entered, limit, more);
      case Interface(members, bases) =>
        if path[0].Member? {
          match FindProperty(members, path[0].name)
          case Some(k) => SettleProperty(w, level, room, d.file, members, k, path, entered, limit, more);
          case None => SettleBases(w, level, room, d.file, bases, path, entered, limit, more);
        }
    }
  }

  lemma {:induction false} SettleName(w: World, level: Levels, room: nat, file: File, name: string,
                                      path: Path, seen: set<Visit>, limit: nat, more: nat)
    requires Parsed(w) && path != [] && |path| <= limit <= more
    ensures Settles(Levelled(w, level) && NameFits(w, level, file, name, room) && |path| + room <= limit,
                    WalkName(w, file, name, path, seen, limit), WalkName(w, file, name, path, seen, more))
    decreases Universe(w, limit) - seen, 0, 1
  {
    if (file, name) in w.resolve {
      SettleDecl(w, level, w.resolve[(file, name)], path, seen, limit, more);
    }
  }

  lemma {:induction false} SettleBases(w: World, level: Levels, room: nat, file: File, bases: seq<Option<string>>,
                                       path: Path, seen: set<Visit>, limit: nat, more: nat)
    requires Parsed(w) && path != [] && |path| <= limit <= more
    ensures AllSettle(Levelled(w, level) && BasesFit(w, level, file, bases, room) && |path| + room <= limit,
                      WalkBases(w, file, bases, path, seen, limit), WalkBases(w, file, bases, path, seen, more))
    decreases Universe(w, limit) - seen, 1, bases
  {
    if bases != [] {
      var first := if bases[0].None? then Walked(Some(Unknown), seen, false)
                   else WalkName(w, file, bases[0].value, path, seen, limit);
      if bases[0].Some? {
        SettleName(w, level, room, file, bases[0].value, path, seen, limit, more);
      }
      if first.answer.Some? {
        SettleBases(w, level, room, file, bases[1..], path, first.seen, limit, more);
      }
    }
  }

  lemma {:induction false} SettleParts(w: World, level: Levels, room: nat, file: File, parts: seq<TypeNode>,
                                       path: Path, seen: set<Visit>, limit: nat, more: nat)
    requires Parsed(w) && path != [] && |path| <= limit <= more
    ensures AllSettle(Levelled(w, level) && (forall i :: 0 <= i < |parts| ==> Fits(w, level, file, parts[i], room))
                      && |path| + room <= limit,
                      WalkParts(w, file, parts, path, seen, limit), WalkParts(w, file, parts, path, seen, more))
    decreases Universe(w, limit) - seen, 1, parts
  {
    if parts != [] {
      SettleType(w, level, room, file, parts[0], path, seen, limit, more);
      var first := WalkType(w, file, parts[0], path, seen, limit);
      if first.answer.Some? {
        SettleParts(w, level, room, file, parts[1..], path, first.seen, limit, more);
      }
    }
  }

  lemma {:induction false} SettleElement(w: World, level: Levels, room: nat, file: File, element: TypeNode,
                                         path: Path, seen: set<Visit>, limit: nat, more: nat)
    requires Parsed(w) && path != [] && |path| <= limit <= more
    ensures Settles(Levelled(w, level) && Fits(w, level, file, element, room + 1) && |path| + room <= limit,
                    WalkElement(w, file, element, path, seen, limit), WalkElement(w, file, element, path, seen, more))
    decreases Universe(w, limit) - seen, 1, element, 1
  {
    if path[0].Array? {
      SettleType(w, level, room + 1, file, element, path[1..], seen, limit, more);
    }
  }

  lemma {:induction false} SettleType(w: World, level: Levels, room: nat, file: File, t: TypeNode,
                                      path: Path, seen: set<Visit>, limit: nat, more: nat)
    requires Parsed(w) && |path| <= limit <= more
    ensures Settles(Levelled(w, level) && Fits(w, level, file, t, room) && |path| + room <= limit,
                    WalkType(w, file, t, path, seen, limit), WalkType(w, file, t, path, seen, more))
    decreases Universe(w, limit) - seen, 1, t, 0
  {
    if path != [] {
      match t
      case LiteralType(members) =>
        if path[0].Member? {
          match FindProperty(members, path[0].name)
          case Some(k) => SettleProperty(w, level, room, file, members, k, path, seen, limit, more);
          case None =>
        }
      case Parenthesized(inner) => SettleType(w, level, room, file, inner, path, seen, limit, more);
      case Intersection(parts) => SettleParts(w, level, room, file, parts, path, seen, limit, more);
      case Union(parts) => SettleParts(w, level, room, file, parts, path, seen, limit, more);
      case ArrayType(element) => SettleElement(w, level, room, file, element, path, seen, limit, more);
      case OperatorType(_, inner) => SettleType(w, level, room, file, inner, path, seen, limit, more);
      case IndexedAccess(object_, index) =>
        if index.Some? && |path| < limit {
          SettleType(w, level, if room > 0 then room - 1 else 0, file, object_, [Member(index.value)] + path, seen, limit, more);
        }
      case Reference(head, binding, args) =>
        if head in PASSTHROUGH_WRAPPERS && args != [] {
          SettleType(w, level, room, file, args[0], path, seen, limit, more);
        } else if head in ARRAY_NAMES && args != [] {
          SettleElement(w, level, room, file, args[0], path, seen, limit, more);
        } else if !binding.Qualified? {
          SettleName(w, level, room, file, head, path, seen, limit, more);
        }
      case OtherType =>
    }
  }

  /** With a bound on what indexed accesses prepend, the walk ends without reaching a limit
    * of the path's length plus that bound. */
  lemma LevelledWalkEnds(w: World, level: Levels, d: DeclId, path: Path, seen: set<Visit>, limit: nat)
    requires Parsed(w) && d in w.decls && Levelled(w, level) && |path| + level[d] <= limit
    ensures WalkDecl(w, d, path, seen, limit).answer.Some?
  {
    SettleDecl(w, level, d, path, seen, limit, limit);
  }

  /** A completed walk has its answer under every limit that lets it complete. */
  lemma CompletedWalkIsLimitFree(w: World, d: DeclId, path: Path, seen: set<Visit>, limit: nat, more: nat)
    requires Parsed(w) && d in w.decls && |path| <= limit <= more && WalkDecl(w, d, path, seen, limit).answer.Some?
    ensures WalkDecl(w, d, path, seen, more) == WalkDecl(w, d, path, seen, limit)
  {
    SettleDecl(w, map[], d, path, seen, limit, more);
  }

  predicate IndexFree(t: TypeNode) {
    match t
    case LiteralType(members) =>
      forall i :: 0 <= i < |members| && members[i].Property? && members[i].annotation.Some? ==>
        IndexFree(members[i].annotation.value)
    case Parenthesized(inner) => IndexFree(inner)
    case Intersection(parts) => forall i :: 0 <= i < |parts| ==> IndexFree(parts[i])
    case Union(parts) => forall i :: 0 <= i < |parts| ==> IndexFree(parts[i])
    case ArrayType(element) => IndexFree(element)
    case OperatorType(_, inner) => IndexFree(inner)
    case IndexedAccess(_, _) => false
    case Reference(_, _, args) => forall i :: 0 <= i < |args| ==> IndexFree(args[i])
    case OtherType => true
  }

  predicate IndexFreeDecl(decl: Declaration) {
    match decl
    case Interface(members, _) => IndexFree(LiteralType(members))
    case Alias(t) => IndexFree(t)
    case Enum => true
  }

  lemma {:induction false} IndexFreeFits(w: World, level: Levels, file: File, t: TypeNode, room: nat)
    requires Parsed(w) && IndexFree(t) && forall d :: d in w.decls ==> d in level && level[d] == 0
    ensures Fits(w, level, file, t, room)
  {
    match t
    case LiteralType(members) =>
      forall i | 0 <= i < |members| && members[i].Property? && members[i].annotation.Some?
        ensures Fits(w, level, file, members[i].annotation.value, room + 1)
      {
        IndexFreeFits(w, level, file, members[i].annotation.value, room + 1);
      }
    case Parenthesized(inner) => IndexFreeFits(w, level, file, inner, room);
    case Intersection(parts) =>
      forall i | 0 <= i < |parts| ensures Fits(w, level, file, parts[i], room) { IndexFreeFits(w, level, file, parts[i], room); }
    case Union(parts) =>
      forall i | 0 <= i < |parts| ensures Fits(w, level, file, parts[i], room) { IndexFreeFits(w, level, file, parts[i], room); }
    case ArrayType(element) => IndexFreeFits(w, level, file, element, room + 1);
    case OperatorType(_, inner) => IndexFreeFits(w, level, file, inner, room);
    case Reference(_, _, args) =>
      if args != [] {
        IndexFreeFits(w, level, file, args[0], room);
        IndexFreeFits(w, level, file, args[0], room + 1);
      }
    case OtherType =>
  }

  /** Free of indexed access, every walk ends, with no room beyond the path itself. */
  lemma IndexFreeWalkEnds(w: World, d: DeclId, path: Path, seen: set<Visit>)
    requires Parsed(w) && d in w.decls && forall e :: e in w.decls ==> IndexFreeDecl(w.decls[e])
    ensures WalkDecl(w, d, path, seen, |path|).answer.Some?
  {
    var level := map e | e in w.decls :: 0;
    forall e | e in w.decls ensures DeclFits(w, level, e.file, w.decls[e], 0) {
      match w.decls[e]
      case Interface(members, _) => IndexFreeFits(w, level, e.file, LiteralType(members), 0);
      case Alias(t) => IndexFreeFits(w, level, e.file, t, 0);
      case Enum =>
    }
    LevelledWalkEnds(w, level, d, path, seen, |path|);
  }
}
