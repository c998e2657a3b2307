/** The walk against the meaning of types: sound and, where no declaration is met twice,
  * exact on every type graph without the constructs it misreads (scripts/gen-config-catalog.ts). */
module TypePathProofs {
  import opened Wrappers
  import opened TypePaths

  // ---- constructs the walk reads differently from their meaning ----

  /** `keyof` and `unique` are walked through like `readonly`; a literal or interface whose
    * methods or index signatures could supply a name still answers "missing"; a property is
    * looked for by the text its name is written in; only one of the declarations that the
    * language merges is walked; and a name is taken for a utility or for what a search of the
    * files finds, although it is qualified, bound by an inner scope, declared or imported by the
    * file itself, or bound to something else. */
  datatype Feature =
    | TransparentOperator
    | NonPropertyElement
    | RewrittenName
    | MergedDeclaration
    | QualifiedUtility
    | InnerName
    | ShadowedUtility
    | MisresolvedName

  /** The reference is walked as a utility or an array. */
  predicate ReadAsUtility(head: string, args: seq<TypeNode>) {
    args != [] && (head in PASSTHROUGH_WRAPPERS || head in ARRAY_NAMES)
  }

  predicate BindingWithin(w: World, file: File, head: string, binding: Binding, args: seq<TypeNode>, features: set<Feature>) {
    match binding
    case Global => true
    case Own => ReadAsUtility(head, args) ==> ShadowedUtility in features
    case Inner => ReadAsUtility(head, args) || (file, head) in w.resolve ==> InnerName in features
    case Qualified => ReadAsUtility(head, args) ==> QualifiedUtility in features
  }

  predicate ElementWithin(m: Element, features: set<Feature>) {
    match m
    case Property(text, name, _) => name != Some(text) ==> RewrittenName in features
    case OtherElement => NonPropertyElement in features
  }

  /** The type uses none of the misread constructs except those listed. */
  predicate Within(w: World, file: File, t: TypeNode, features: set<Feature>) {
    match t
    case LiteralType(members) =>
      && (forall i :: 0 <= i < |members| ==> ElementWithin(members[i], features))
      && forall i :: 0 <= i < |members| && members[i].Property? && members[i].annotation.Some? ==>
           Within(w, file, members[i].annotation.value, features)
    case Parenthesized(inner) => Within(w, file, inner, features)
    case Intersection(parts) => forall i :: 0 <= i < |parts| ==> Within(w, file, parts[i], features)
    case Union(parts) => forall i :: 0 <= i < |parts| ==> Within(w, file, parts[i], features)
    case ArrayType(element) => Within(w, file, element, features)
    case OperatorType(op, inner) => (op != Readonly ==> TransparentOperator in features) && Within(w, file, inner, features)
    case IndexedAccess(object_, _) => Within(w, file, object_, features)
    case Reference(head, binding, args) =>
      && BindingWithin(w, file, head, binding, args, features)
      && forall i :: 0 <= i < |args| ==> Within(w, file, args[i], features)
    case OtherType => true
  }

  predicate ElementsWithin(w: World, file: File, members: seq<Element>, features: set<Feature>) {
    Within(w, file, LiteralType(members), features)
  }

  ghost predicate WorldWithin(w: World, features: set<Feature>) {
    && (forall d :: d in w.decls ==>
          match w.decls[d]
          case Interface(members, _) => ElementsWithin(w, d.file, members, features)
          case Alias(t) => Within(w, d.file, t, features)
          case Enum => true)
    && (forall d :: d in w.merged && w.merged[d] > {} ==> w.merged[d] == {d} || MergedDeclaration in features)
    && (forall k :: k in w.rebound && k in w.resolve && w.rebound[k] != Some(w.resolve[k]) ==> MisresolvedName in features)
  }

  ghost predicate NodeWithin(w: World, n: Node, features: set<Feature>) {
    n.TypeNodeAt? ==> Within(w, n.file, n.node, features)
  }

  /** Walk any node. */
  function Walk(w: World, n: Node, path: Path, seen: set<Visit>, limit: nat): Walked
    requires Parsed(w) && |path| <= limit
    requires n.DeclNode? ==> n.id in w.decls
  {
    match n
    case DeclNode(d) => WalkDecl(w, d, path, seen, limit)
    case TypeNodeAt(file, t) => WalkType(w, file, t, path, seen, limit)
  }

  // ---- the meaning of a world without misread constructs ----

  ghost predicate PropertyMust(w: World, file: File, p: Element, path: Path)
    requires path != [] && p.Property?
  {
    |path| == 1 || (p.annotation.Some? && Must(w, TypeNodeAt(file, p.annotation.value), path[1..]))
  }

  ghost predicate PropertyMay(w: World, file: File, p: Element, path: Path)
    requires path != [] && p.Property?
  {
    |path| == 1 || p.annotation.None? || May(w, TypeNodeAt(file, p.annotation.value), path[1..])
  }

  ghost predicate NameMust(w: World, file: File, name: string, path: Path) {
    Denoted(w, file, name).Some? && Must(w, DeclNode(Denoted(w, file, name).value), path)
  }

  ghost predicate NameMay(w: World, file: File, name: string, path: Path) {
    Denoted(w, file, name).None? || May(w, DeclNode(Denoted(w, file, name).value), path)
  }

  ghost predicate BaseMust(w: World, file: File, base: Option<string>, path: Path) {
    base.Some? && NameMust(w, file, base.value, path)
  }

  ghost predicate BaseMay(w: World, file: File, base: Option<string>, path: Path) {
    base.None? || NameMay(w, file, base.value, path)
  }

  lemma DenotedIsResolved(w: World, file: File, name: string)
    requires WorldWithin(w, {})
    ensures Denoted(w, file, name) == if (file, name) in w.resolve then Some(w.resolve[(file, name)]) else None
  {
  }

  lemma {:induction false} NamedAsWritten(members: seq<Element>, name: string)
    requires forall i :: 0 <= i < |members| ==> ElementWithin(members[i], {})
    ensures FindNamed(members, name) == FindProperty(members, name) && !Opaque(members)
  {
    if members != [] {
      assert ElementWithin(members[0], {});
      NamedAsWritten(members[1..], name);
    }
  }

  lemma OwnGroup(w: World, d: DeclId)
    requires WorldWithin(w, {})
    ensures Group(w, d) == {d}
  {
    if d in w.merged && w.merged[d] > {} {
      assert w.merged[d] == {d};
    }
  }

  /** An interface stands alone, and its properties are named as written. */
  lemma PlainInterface(w: World, d: DeclId, name: string)
    requires WorldWithin(w, {}) && d in w.decls && w.decls[d].Interface?
    ensures Group(w, d) == {d} && MembersOf(w, d) == w.decls[d].members && BasesOf(w, d) == w.decls[d].bases
    ensures FindNamed(w.decls[d].members, name) == FindProperty(w.decls[d].members, name) && !Opaque(w.decls[d].members)
  {
    OwnGroup(w, d);
    assert ElementsWithin(w, d.file, w.decls[d].members, {});
    NamedAsWritten(w.decls[d].members, name);
  }

  lemma OwnPropertyMust(w: World, d: DeclId, path: Path, k: nat)
    requires WorldWithin(w, {}) && d in w.decls && w.decls[d].Interface? && path != [] && path[0].Member?
    requires FindProperty(w.decls[d].members, path[0].name) == Some(k)
    ensures Must(w, DeclNode(d), path) <==> PropertyMust(w, d.file, w.decls[d].members[k], path)
  {
    PlainInterface(w, d, path[0].name);
    assert d in Group(w, d) && FindNamed(MembersOf(w, d), path[0].name) == Some(k);
  }

  lemma OwnPropertyMay(w: World, d: DeclId, path: Path, k: nat)
    requires WorldWithin(w, {}) && d in w.decls && w.decls[d].Interface? && path != [] && path[0].Member?
    requires FindProperty(w.decls[d].members, path[0].name) == Some(k)
    ensures May(w, DeclNode(d), path) <==> PropertyMay(w, d.file, w.decls[d].members[k], path)
  {
    PlainInterface(w, d, path[0].name);
    assert d in Group(w, d) && FindNamed(MembersOf(w, d), path[0].name) == Some(k);
  }

  lemma InheritedMust(w: World, d: DeclId, path: Path)
    requires WorldWithin(w, {}) && d in w.decls && w.decls[d].Interface? && path != [] && path[0].Member?
    requires FindProperty(w.decls[d].members, path[0].name).None?
    ensures var bases := w.decls[d].bases;
            Must(w, DeclNode(d), path) <==> exists i :: 0 <= i < |bases| && BaseMust(w, d.file, bases[i], path)
  {
    PlainInterface(w, d, path[0].name);
    assert d in Group(w, d) && NoneNames(w, d, path[0].name);
  }

  lemma InheritedMay(w: World, d: DeclId, path: Path)
    requires WorldWithin(w, {}) && d in w.decls && w.decls[d].Interface? && path != [] && path[0].Member?
    requires FindProperty(w.decls[d].members, path[0].name).None?
    ensures var bases := w.decls[d].bases;
            May(w, DeclNode(d), path) <==> exists i :: 0 <= i < |bases| && BaseMay(w, d.file, bases[i], path)
  {
    PlainInterface(w, d, path[0].name);
    assert d in Group(w, d) && NoneNames(w, d, path[0].name);
  }

  // ---- soundness and exactness ----

  /** An answer judged against the truth: definite answers are right, and unless the walk
    * bailed out of a repeated declaration the three answers are exactly the three truths. */
  ghost predicate Judged(answer: Presence, bailed: bool, must: bool, may: bool) {
    && (answer == Found ==> must)
    && (answer == Missing ==> !may)
    && (!bailed ==> (must <==> answer == Found) && (may <==> answer != Missing))
  }

  ghost predicate JudgedAt(w: World, n: Node, path: Path, r: Walked) {
    r.answer.Some? ==> Judged(r.answer.value, r.bailed, Must(w, n, path), May(w, n, path))
  }

  lemma {:induction false} JudgeProperty(w: World, file: File, members: seq<Element>, k: nat, path: Path, seen: set<Visit>, limit: nat)
    requires Parsed(w) && WorldWithin(w, {}) && ElementsNonEmpty(members) && ElementsWithin(w, file, members, {})
    requires path != [] && |path| <= limit && k < |members| && members[k].Property?
    ensures var r := WalkProperty(w, file, members, k, path, seen, limit);
            r.answer.Some? ==> Judged(r.answer.value, r.bailed, PropertyMust(w, file, members[k], path),
                                      PropertyMay(w, file, members[k], path))
    decreases Universe(w, limit) - seen, 1, members, 0
  {
    if |path| > 1 && members[k].annotation.Some? {
      JudgeType(w, file, members[k].annotation.value, path[1..], seen, limit);
    }
  }

  lemma {:induction false} JudgeInterface(w: World, d: DeclId, path: Path, entered: set<Visit>, limit: nat)
    requires Parsed(w) && WorldWithin(w, {}) && d in w.decls && w.decls[d].Interface?
    requires path != [] && path[0].Member? && |path| <= limit
    ensures var r := match FindProperty(w.decls[d].members, path[0].name)
                     case Some(k) => WalkProperty(w, d.file, w.decls[d].members, k, path, entered, limit)
                     case None => Folded(WalkBases(w, d.file, w.decls[d].bases, path, entered, limit), Combine);
            JudgedAt(w, DeclNode(d), path, r)
    decreases Universe(w, limit) - entered, 2
  {
    assert ElementsWithin(w, d.file, w.decls[d].members, {}) && ElementsNonEmpty(w.decls[d].members);
    match FindProperty(w.decls[d].members, path[0].name)
    case Some(k) =>
      OwnPropertyMust(w, d, path, k);
      OwnPropertyMay(w, d, path, k);
      JudgeProperty(w, d.file, w.decls[d].members, k, path, entered, limit);
    case None =>
      InheritedMust(w, d, path);
      InheritedMay(w, d, path);
      JudgeBases(w, d.file, w.decls[d].bases, path, entered, limit);
  }

  lemma {:induction false} JudgeDecl(w: World, d: DeclId, path: Path, seen: set<Visit>, limit: nat)
    requires Parsed(w) && WorldWithin(w, {}) && d in w.decls && |path| <= limit
    ensures JudgedAt(w, DeclNode(d), path, WalkDecl(w, d, path, seen, limit))
    decreases Universe(w, limit) - seen, 0, 0
  {
    if path != [] && !w.decls[d].Enum? && Visit(d, |path|) !in seen {
      var entered := seen + {Visit(d, |path|)};
      assert Visit(d, |path|) in Universe(w, limit) - seen && Visit(d, |path|) !in Universe(w, limit) - entered;
      match w.decls[d]
      case Alias(t) => JudgeType(w, d.file, t, path, entered, limit);
      case Interface(members, bases) =>
        if path[0].Member? {
          JudgeInterface(w, d, path, entered, limit);
        }
    }
  }

  lemma {:induction false} JudgeName(w: World, file: File, name: string, path: Path, seen: set<Visit>, limit: nat)
    requires Parsed(w) && WorldWithin(w, {}) && path != [] && |path| <= limit
    ensures var r := WalkName(w, file, name, path, seen, limit);
            r.answer.Some? ==> Judged(r.answer.value, r.bailed, NameMust(w, file, name, path), NameMay(w, file, name, path))
    decreases Universe(w, limit) - seen, 0, 1
  {
    DenotedIsResolved(w, file, name);
    if (file, name) in w.resolve {
      JudgeDecl(w, w.resolve[(file, name)], path, seen, limit);
    }
  }

  lemma {:induction false} JudgeBase(w: World, file: File, base: Option<string>, path: Path, seen: set<Visit>, limit: nat)
    requires Parsed(w) && WorldWithin(w, {}) && path != [] && |path| <= limit
    ensures var r := if base.None? then Walked(Some(Unknown), seen, false) else WalkName(w, file, base.value, path, seen, limit);
            r.answer.Some? ==> Judged(r.answer.value, r.bailed, BaseMust(w, file, base, path), BaseMay(w, file, base, path))
    decreases Universe(w, limit) - seen, 0, 2
  {
    if base.Some? {
      JudgeName(w, file, base.value, path, seen, limit);
    }
  }

  lemma {:induction false} JudgeBases(w: World, file: File, bases: seq<Option<string>>, path: Path, seen: set<Visit>, limit: nat)
    requires Parsed(w) && WorldWithin(w, {}) && path != [] && |path| <= limit
    ensures var r := WalkBases(w, file, bases, path, seen, limit);
            r.answers.Some? ==> forall i :: 0 <= i < |bases| ==>
              Judged(r.answers.value[i], r.bailed, BaseMust(w, file, bases[i], path), BaseMay(w, file, bases[i], path))
    decreases Universe(w, limit) - seen, 1, bases
  {
    if bases != [] {
      JudgeBase(w, file, bases[0], path, seen, limit);
      var first := if bases[0].None? then Walked(Some(Unknown), seen, false)
                   else WalkName(w, file, bases[0].value, path, seen, limit);
      if first.answer.Some? {
        JudgeBases(w, file, bases[1..], path, first.seen, limit);
      }
    }
  }

  ghost predicate PartJudged(w: World, file: File, part: TypeNode, path: Path, answer: Presence, bailed: bool) {
    Judged(answer, bailed, Must(w, TypeNodeAt(file, part), path), May(w, TypeNodeAt(file, part), path))
  }

  ghost predicate PartsJudged(w: World, file: File, parts: seq<TypeNode>, path: Path, answers: seq<Presence>, bailed: bool) {
    |answers| == |parts| && forall i :: 0 <= i < |parts| ==> PartJudged(w, file, parts[i], path, answers[i], bailed)
  }

  lemma PrependPart(w: World, file: File, parts: seq<TypeNode>, path: Path, answer: Presence, answers: seq<Presence>, first: bool, rest: bool)
    requires parts != [] && PartJudged(w, file, parts[0], path, answer, first)
    requires PartsJudged(w, file, parts[1..], path, answers, rest)
    ensures PartsJudged(w, file, parts, path, [answer] + answers, first || rest)
  {
  }

  lemma {:induction false} JudgeParts(w: World, file: File, parts: seq<TypeNode>, path: Path, seen: set<Visit>, limit: nat)
    requires Parsed(w) && WorldWithin(w, {}) && path != [] && |path| <= limit
    requires forall i :: 0 <= i < |parts| ==> UnionsNonEmpty(parts[i]) && Within(w, file, parts[i], {})
    ensures var r := WalkParts(w, file, parts, path, seen, limit);
            r.answers.Some? ==> PartsJudged(w, file, parts, path, r.answers.value, r.bailed)
    decreases Universe(w, limit) - seen, 1, parts
  {
    if parts != [] {
      JudgeType(w, file, parts[0], path, seen, limit);
      var first := WalkType(w, file, parts[0], path, seen, limit);
      if first.answer.Some? {
        JudgeParts(w, file, parts[1..], path, first.seen, limit);
        var rest := WalkParts(w, file, parts[1..], path, first.seen, limit);
        if rest.answers.Some? {
          PrependPart(w, file, parts, path, first.answer.value, rest.answers.value, first.bailed, rest.bailed);
        }
      }
    }
  }

  lemma IntersectionJudged(w: World, file: File, parts: seq<TypeNode>, path: Path, answers: seq<Presence>, bailed: bool)
    requires path != [] && PartsJudged(w, file, parts, path, answers, bailed)
    ensures PartJudged(w, file, Intersection(parts), path, Combine(answers), bailed)
  {
  }

  lemma UnionJudged(w: World, file: File, parts: seq<TypeNode>, path: Path, answers: seq<Presence>, bailed: bool)
    requires path != [] && parts != [] && PartsJudged(w, file, parts, path, answers, bailed)
    ensures PartJudged(w, file, Union(parts), path, Agree(answers), bailed)
  {
    assert PartJudged(w, file, parts[0], path, answers[0], bailed);
    if i :| 0 <= i < |parts| && answers[i] != Missing {
      assert PartJudged(w, file, parts[i], path, answers[i], bailed);
    }
  }

  lemma {:induction false} JudgeElement(w: World, file: File, element: TypeNode, path: Path, seen: set<Visit>, limit: nat)
    requires Parsed(w) && WorldWithin(w, {}) && UnionsNonEmpty(element) && Within(w, file, element, {})
    requires path != [] && |path| <= limit
    ensures var r := WalkElement(w, file, element, path, seen, limit);
            r.answer.Some? ==>
              Judged(r.answer.value, r.bailed,
                     path[0].Array? && Must(w, TypeNodeAt(file, element), path[1..]),
                     path[0].Member? || May(w, TypeNodeAt(file, element), path[1..]))
    decreases Universe(w, limit) - seen, 1, element, 2
  {
    if path[0].Array? {
      JudgeType(w, file, element, path[1..], seen, limit);
    }
  }

  lemma {:induction false} JudgeLiteral(w: World, file: File, members: seq<Element>, path: Path, seen: set<Visit>, limit: nat)
    requires Parsed(w) && WorldWithin(w, {}) && ElementsNonEmpty(members) && ElementsWithin(w, file, members, {})
    requires path != [] && |path| <= limit
    ensures JudgedAt(w, TypeNodeAt(file, LiteralType(members)), path, WalkType(w, file, LiteralType(members), path, seen, limit))
    decreases Universe(w, limit) - seen, 1, members, 1
  {
    if path[0].Member? {
      NamedAsWritten(members, path[0].name);
      match FindProperty(members, path[0].name)
      case Some(k) => JudgeProperty(w, file, members, k, path, seen, limit);
      case None =>
    }
  }

  lemma {:induction false} JudgeReference(w: World, file: File, t: TypeNode, path: Path, seen: set<Visit>, limit: nat)
    requires Parsed(w) && WorldWithin(w, {}) && t.Reference? && UnionsNonEmpty(t) && Within(w, file, t, {})
    requires path != [] && |path| <= limit
    ensures JudgedAt(w, TypeNodeAt(file, t), path, WalkType(w, file, t, path, seen, limit))
    decreases Universe(w, limit) - seen, 1, t, 0
  {
    var Reference(head, binding, args) := t;
    DenotedIsResolved(w, file, head);
    if head in PASSTHROUGH_WRAPPERS && args != [] {
      JudgeType(w, file, args[0], path, seen, limit);
    } else if head in ARRAY_NAMES && args != [] {
      JudgeElement(w, file, args[0], path, seen, limit);
    } else if !binding.Qualified? {
      JudgeName(w, file, head, path, seen, limit);
    }
  }

  lemma {:induction false} JudgeType(w: World, file: File, t: TypeNode, path: Path, seen: set<Visit>, limit: nat)
    requires Parsed(w) && WorldWithin(w, {}) && UnionsNonEmpty(t) && Within(w, file, t, {}) && |path| <= limit
    ensures JudgedAt(w, TypeNodeAt(file, t), path, WalkType(w, file, t, path, seen, limit))
    decreases Universe(w, limit) - seen, 1, t, 1
  {
    if path != [] {
      match t
      case LiteralType(members) => JudgeLiteral(w, file, members, path, seen, limit);
      case Parenthesized(inner) => JudgeType(w, file, inner, path, seen, limit);
      case Intersection(parts) =>
        JudgeParts(w, file, parts, path, seen, limit);
        var r := WalkParts(w, file, parts, path, seen, limit);
        if r.answers.Some? {
          IntersectionJudged(w, file, parts, path, r.answers.value, r.bailed);
        }
      case Union(parts) =>
        JudgeParts(w, file, parts, path, seen, limit);
        var r := WalkParts(w, file, parts, path, seen, limit);
        if r.answers.Some? {
          UnionJudged(w, file, parts, path, r.answers.value, r.bailed);
        }
      case ArrayType(element) => JudgeElement(w, file, element, path, seen, limit);
      case OperatorType(_, inner) => JudgeType(w, file, inner, path, seen, limit);
      case IndexedAccess(object_, index) =>
        if index.Some? && |path| < limit {
          JudgeType(w, file, object_, [Member(index.value)] + path, seen, limit);
        }
      case Reference(_, _, _) => JudgeReference(w, file, t, path, seen, limit);
      case OtherType =>
    }
  }

  /** Every completed walk of a world without misread constructs answers soundly, and
    * exactly unless it met a declaration twice at one path length. */
  lemma WalkIsSound(w: World, n: Node, path: Path, seen: set<Visit>, limit: nat)
    requires Parsed(w) && ParsedNode(w, n) && WorldWithin(w, {}) && NodeWithin(w, n, {}) && |path| <= limit
    ensures JudgedAt(w, n, path, Walk(w, n, path, seen, limit))
  {
    match n
    case DeclNode(d) => JudgeDecl(w, d, path, seen, limit);
    case TypeNodeAt(file, t) => JudgeType(w, file, t, path, seen, limit);
  }

  // ---- the misread constructs ----

  ghost predicate SoundAt(w: World, n: Node, path: Path, r: Walked) {
    && (r.answer == Some(Found) ==> Must(w, n, path))
    && (r.answer == Some(Missing) ==> !May(w, n, path))
  }

  /** Every completed walk over worlds and nodes within the features is sound. */
  ghost predicate SoundWithin(features: set<Feature>) {
    forall w: World, n: Node, path: Path, seen: set<Visit>, limit: nat ::
      Parsed(w) && ParsedNode(w, n) && WorldWithin(w, features) && NodeWithin(w, n, features) && |path| <= limit ==>
        SoundAt(w, n, path, Walk(w, n, path, seen, limit))
  }

  const X := LiteralType([Property("x", Some("x"), None)])

  /** The name A of file f is resolved to an interface without members. */
  function MisreadWorld(feature: Feature): World {
    var d, e := DeclId("f", 0), DeclId("f", 1);
    var empty := Interface([], []);
    if feature.MergedDeclaration? then
      World(map[d := empty, e := Interface(X.members, [])], map[("f", "A") := d], map[d := {e}], map[])
    else
      World(map[d := empty], map[("f", "A") := d], map[], if feature.MisresolvedName? then map[("f", "A") := None] else map[])
  }

  /** A type on which each misread construct makes the walk of the member `x` unsound. */
  function Misread(feature: Feature): TypeNode {
    match feature
    case TransparentOperator => OperatorType(KeyOf, X)
    case NonPropertyElement => LiteralType([OtherElement])
    case RewrittenName => LiteralType([Property("'x'", Some("x"), None)])
    case MergedDeclaration => Reference("A", Own, [])
    case QualifiedUtility => Reference("Partial", Qualified, [X])
    case InnerName => Reference("A", Inner, [])
    case ShadowedUtility => Reference("Partial", Own, [X])
    case MisresolvedName => Reference("A", Own, [])
  }

  lemma MisreadIsWithin(feature: Feature)
    ensures var w, n := MisreadWorld(feature), TypeNodeAt("f", Misread(feature));
            Parsed(w) && ParsedNode(w, n) && WorldWithin(w, {feature}) && NodeWithin(w, n, {feature})
  {
    var w := MisreadWorld(feature);
    assert UnionsNonEmpty(X) && Within(w, "f", X, {feature});
    assert ElementsNonEmpty([]) && ElementsWithin(w, "f", [], {feature});
  }

  lemma XIsFound(w: World)
    requires Parsed(w)
    ensures WalkType(w, "f", X, [Member("x")], {}, 1).answer == Some(Found)
  {
    assert FindProperty(X.members, "x") == Some(0);
  }

  /** The utilities pass a member on to their argument, and the arrays an element. */
  lemma UtilitiesPass(w: World, head: string)
    requires Parsed(w)
    ensures head == "Partial" || head == "Required" || head == "Readonly" || head == "NonNullable" ==>
              WalkType(w, "f", Reference(head, Global, [X]), [Member("x")], {}, 1).answer == Some(Found)
    ensures head == "Array" || head == "ReadonlyArray" ==>
              WalkType(w, "f", Reference(head, Global, [X]), [Array, Member("x")], {}, 2).answer == Some(Found)
  {
    assert FindProperty(X.members, "x") == Some(0);
    assert WalkType(w, "f", X, [Member("x")], {}, 1).answer == Some(Found);
    assert WalkType(w, "f", X, [Member("x")], {}, 2).answer == Some(Found);
    if head in PASSTHROUGH_WRAPPERS {
      assert WalkType(w, "f", Reference(head, Global, [X]), [Member("x")], {}, 1) == WalkType(w, "f", X, [Member("x")], {}, 1);
    } else if head in ARRAY_NAMES {
      var path := [Array, Member("x")];
      assert path[1..] == [Member("x")];
      assert WalkType(w, "f", Reference(head, Global, [X]), path, {}, 2) == WalkType(w, "f", X, [Member("x")], {}, 2);
    }
  }

  lemma AIsMissing(feature: Feature)
    requires Parsed(MisreadWorld(feature))
    ensures WalkName(MisreadWorld(feature), "f", "A", [Member("x")], {}, 1).answer == Some(Missing)
  {
    var w, d, path := MisreadWorld(feature), DeclId("f", 0), [Member("x")];
    var entered := {Visit(d, 1)};
    assert FindProperty([], "x").None?;
    assert WalkBases(w, "f", [], path, entered, 1).answers == Some([]);
    assert WalkDecl(w, d, path, {}, 1).answer == Some(Combine([]));
  }

  lemma LiteralMisread(w: World, m: Element, path: Path)
    requires Parsed(w) && path == [Member("x")] && (m.OtherElement? || (m.text != "x" && m.name == Some("x") && m.annotation.None?))
    ensures WalkType(w, "f", LiteralType([m]), path, {}, 1).answer == Some(Missing)
    ensures May(w, TypeNodeAt("f", LiteralType([m])), path)
  {
    assert FindProperty([m], "x").None?;
    if m.OtherElement? {
      assert FindNamed([m], "x").None?;
      assert [m][0].OtherElement?;
    } else {
      assert FindNamed([m], "x") == Some(0);
    }
  }

  lemma MergedMisread()
    ensures May(MisreadWorld(MergedDeclaration), TypeNodeAt("f", Reference("A", Own, [])), [Member("x")])
  {
    var w, path := MisreadWorld(MergedDeclaration), [Member("x")];
    var d, e := DeclId("f", 0), DeclId("f", 1);
    assert e in Group(w, d) && FindNamed(MembersOf(w, e), "x") == Some(0);
    assert May(w, DeclNode(d), path);
  }

  lemma NameMisread(feature: Feature)
    requires feature.MergedDeclaration? || feature.InnerName? || feature.MisresolvedName?
    ensures Parsed(MisreadWorld(feature))
    ensures Walk(MisreadWorld(feature), TypeNodeAt("f", Misread(feature)), [Member("x")], {}, 1).answer == Some(Missing)
    ensures May(MisreadWorld(feature), TypeNodeAt("f", Misread(feature)), [Member("x")])
  {
    MisreadIsWithin(feature);
    AIsMissing(feature);
    if feature.MergedDeclaration? {
      MergedMisread();
    }
  }

  lemma UtilityMisread(feature: Feature)
    requires feature.TransparentOperator? || feature.QualifiedUtility? || feature.ShadowedUtility?
    ensures Parsed(MisreadWorld(feature))
    ensures Walk(MisreadWorld(feature), TypeNodeAt("f", Misread(feature)), [Member("x")], {}, 1).answer == Some(Found)
    ensures !Must(MisreadWorld(feature), TypeNodeAt("f", Misread(feature)), [Member("x")])
  {
    MisreadIsWithin(feature);
    XIsFound(MisreadWorld(feature));
  }

  /** For each construct, a type on which a definite answer is wrong. */
  lemma MisreadIsUnsound(feature: Feature)
    ensures var w, n := MisreadWorld(feature), TypeNodeAt("f", Misread(feature));
            Parsed(w) && !SoundAt(w, n, [Member("x")], Walk(w, n, [Member("x")], {}, 1))
  {
    MisreadIsWithin(feature);
    match feature
    case NonPropertyElement => LiteralMisread(MisreadWorld(feature), OtherElement, [Member("x")]);
    case RewrittenName => LiteralMisread(MisreadWorld(feature), Property("'x'", Some("x"), None), [Member("x")]);
    case MergedDeclaration => NameMisread(feature);
    case InnerName => NameMisread(feature);
    case MisresolvedName => NameMisread(feature);
    case _ => UtilityMisread(feature);
  }

  lemma WithinMore(w: World, file: File, t: TypeNode, fewer: set<Feature>, more: set<Feature>)
    requires fewer <= more && Within(w, file, t, fewer)
    ensures Within(w, file, t, more)
  {
  }

  lemma WorldWithinMore(w: World, fewer: set<Feature>, more: set<Feature>)
    requires fewer <= more && WorldWithin(w, fewer)
    ensures WorldWithin(w, more)
  {
    forall d | d in w.decls
      ensures match w.decls[d]
              case Interface(members, _) => ElementsWithin(w, d.file, members, more)
              case Alias(t) => Within(w, d.file, t, more)
              case Enum => true
    {
      match w.decls[d]
      case Interface(members, _) => WithinMore(w, d.file, LiteralType(members), fewer, more);
      case Alias(t) => WithinMore(w, d.file, t, fewer, more);
      case Enum =>
    }
  }

  /** The walk is sound on all type graphs built with some features exactly when none of
    * the misread constructs is among them. */
  lemma SoundExactlyWithoutMisreads(features: set<Feature>)
    ensures SoundWithin(features) <==> features == {}
  {
    if features == {} {
      forall w: World, n: Node, path: Path, seen: set<Visit>, limit: nat |
        Parsed(w) && ParsedNode(w, n) && WorldWithin(w, features) && NodeWithin(w, n, features) && |path| <= limit
        ensures SoundAt(w, n, path, Walk(w, n, path, seen, limit))
      {
        WalkIsSound(w, n, path, seen, limit);
      }
    } else {
      var feature :| feature in features;
      var w, t := MisreadWorld(feature), Misread(feature);
      MisreadIsUnsound(feature);
      MisreadIsWithin(feature);
      WorldWithinMore(w, {feature}, features);
      WithinMore(w, "f", t, {feature}, features);
      var n := TypeNodeAt("f", t);
      assert !SoundAt(w, n, [Member("x")], Walk(w, n, [Member("x")], {}, 1));
    }
  }
}
