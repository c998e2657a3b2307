/** Parsed type declarations, the paths they must and may have, and the walk that
  * answers whether a path is present (scripts/gen-config-catalog.ts, `lookupPath`). */
module TypePaths {
  import opened Wrappers

  type File = string

  /** One step of a schema key path: a named member or an array-element hop. */
  datatype Step = Member(name: string) | Array

  type Path = seq<Step>

  datatype Operator = Readonly | KeyOf | Unique

  /** What a name in a type refers to: something of the global scope, a declaration or import of
    * its file, a name of an inner scope such as a type parameter, or a namespace's member. */
  datatype Binding = Global | Own | Inner | Qualified

  datatype TypeNode =
    | LiteralType(members: seq<Element>)
    | Parenthesized(inner: TypeNode)
    | Intersection(parts: seq<TypeNode>)
    | Union(parts: seq<TypeNode>)
    | ArrayType(element: TypeNode)
    | OperatorType(operator: Operator, inner: TypeNode)
    | IndexedAccess(object_: TypeNode, index: Option<string>)
    | Reference(head: string, binding: Binding, args: seq<TypeNode>)
    | OtherType

  /** A property signature as it is written, the name it declares (None for a computed name that
    * is no literal) and its annotation; or any other element (method, index signature). */
  datatype Element = Property(text: string, name: Option<string>, annotation: Option<TypeNode>) | OtherElement

  /** A base that is not a plain identifier is None. */
  datatype Declaration =
    | Interface(members: seq<Element>, bases: seq<Option<string>>)
    | Alias(aliased: TypeNode)
    | Enum

  datatype DeclId = DeclId(file: File, pos: nat)

  /** Declarations by position, and what each name is resolved to in each file; an unresolvable
    * or external name is outside the domain. The walk does not see the last two parts: the
    * declarations that the language merges with one, and the resolved names that the language
    * binds otherwise (None: to something that is no declaration of the world). */
  datatype World = World(decls: map<DeclId, Declaration>, resolve: map<(File, string), DeclId>,
                         merged: map<DeclId, set<DeclId>>, rebound: map<(File, string), Option<DeclId>>)

  datatype Node = DeclNode(id: DeclId) | TypeNodeAt(file: File, node: TypeNode)

  const PASSTHROUGH_WRAPPERS: set<string> := {"Partial", "Required", "Readonly", "NonNullable"}

  const ARRAY_NAMES: set<string> := {"Array", "ReadonlyArray"}

  predicate UnionsNonEmpty(t: TypeNode) {
    match t
    case LiteralType(members) =>
      forall i :: 0 <= i < |members| && members[i].Property? && members[i].annotation.Some? ==>
        UnionsNonEmpty(members[i].annotation.value)
    case Parenthesized(inner) => UnionsNonEmpty(inner)
    case Intersection(parts) => forall i :: 0 <= i < |parts| ==> UnionsNonEmpty(parts[i])
    case Union(parts) => parts != [] && forall i :: 0 <= i < |parts| ==> UnionsNonEmpty(parts[i])
    case ArrayType(element) => UnionsNonEmpty(element)
    case OperatorType(_, inner) => UnionsNonEmpty(inner)
    case IndexedAccess(object_, _) => UnionsNonEmpty(object_)
    case Reference(_, _, args) => forall i :: 0 <= i < |args| ==> UnionsNonEmpty(args[i])
    case OtherType => true
  }

  predicate ElementsNonEmpty(members: seq<Element>) {
    UnionsNonEmpty(LiteralType(members))
  }

  /** What parsing guarantees: names resolve to declarations, and unions have branches. */
  ghost predicate Parsed(w: World) {
    && (forall k :: k in w.resolve ==> w.resolve[k] in w.decls)
    && (forall d :: d in w.decls ==>
          match w.decls[d]
          case Interface(members, _) => ElementsNonEmpty(members)
          case Alias(t) => UnionsNonEmpty(t)
          case Enum => true)
  }

  ghost predicate ParsedNode(w: World, n: Node) {
    match n
    case DeclNode(d) => d in w.decls
    case TypeNodeAt(_, t) => UnionsNonEmpty(t)
  }

  /** The position of the first property signature written as the name. */
  function FindProperty(members: seq<Element>, name: string): (r: Option<nat>)
    ensures r.Some? ==> r.value < |members| && members[r.value].Property? && members[r.value].text == name
    ensures r.Some? ==> forall i :: 0 <= i < r.value ==> !(members[i].Property? && members[i].text == name)
    ensures r.None? ==> forall i :: 0 <= i < |members| ==> !(members[i].Property? && members[i].text == name)
  {
    if members == [] then None
    else if members[0].Property? && members[0].text == name then Some(0)
    else match FindProperty(members[1..], name)
      case None => None
      case Some(k) => Some(k + 1)
  }

  /** The position of the first property signature that declares the name. */
  function FindNamed(members: seq<Element>, name: string): (r: Option<nat>)
    ensures r.Some? ==> r.value < |members| && members[r.value].Property?
  {
    if members == [] then None
    else if members[0].Property? && members[0].name == Some(name) then Some(0)
    else match FindNamed(members[1..], name)
      case None => None
      case Some(k) => Some(k + 1)
  }

  /** Some element may supply a name that no property signature spells out. */
  predicate Opaque(members: seq<Element>) {
    exists i :: 0 <= i < |members| && (members[i].OtherElement? || members[i].name.None?)
  }

  /** The declarations that make up one type. */
  function Group(w: World, d: DeclId): set<DeclId> {
    {d} + (if d in w.merged then w.merged[d] else {})
  }

  function MembersOf(w: World, d: DeclId): seq<Element> {
    if d in w.decls && w.decls[d].Interface? then w.decls[d].members else []
  }

  function BasesOf(w: World, d: DeclId): seq<Option<string>> {
    if d in w.decls && w.decls[d].Interface? then w.decls[d].bases else []
  }

  /** What the language binds a file's own name to, as far as it can be resolved. */
  function Denoted(w: World, file: File, name: string): Option<DeclId> {
    if (file, name) !in w.resolve then None
    else if (file, name) in w.rebound then w.rebound[(file, name)]
    else Some(w.resolve[(file, name)])
  }

  /** No declaration of the type spells out the name. */
  predicate NoneNames(w: World, d: DeclId, name: string) {
    forall e :: e in Group(w, d) ==> FindNamed(MembersOf(w, e), name).None?
  }

  // ---- what a type means: the paths it must and may have ----

  /** The path is certainly present: least relation closed under the type constructors. */
  least predicate Must(w: World, n: Node, path: Path) {
    path == [] ||
    match n
    case DeclNode(d) => d in w.decls && (
      match w.decls[d]
      case Interface(_, _) =>
        path[0].Member? && (
          || (exists e, k :: e in Group(w, d) && FindNamed(MembersOf(w, e), path[0].name) == Some(k)
                && (|path| == 1 || (MembersOf(w, e)[k].annotation.Some?
                                    && Must(w, TypeNodeAt(e.file, MembersOf(w, e)[k].annotation.value), path[1..]))))
          || (NoneNames(w, d, path[0].name)
              && exists e, i :: e in Group(w, d) && 0 <= i < |BasesOf(w, e)| && BasesOf(w, e)[i].Some?
                   && Denoted(w, e.file, BasesOf(w, e)[i].value).Some?
                   && Must(w, DeclNode(Denoted(w, e.file, BasesOf(w, e)[i].value).value), path)))
      case Alias(t) => Must(w, TypeNodeAt(d.file, t), path)
      case Enum => false)
    case TypeNodeAt(file, t) =>
      match t
      case LiteralType(members) =>
        path[0].Member? && (
          match FindNamed(members, path[0].name)
          case Some(k) => |path| == 1 ||
            (members[k].annotation.Some? && Must(w, TypeNodeAt(file, members[k].annotation.value), path[1..]))
          case None => false)
      case Parenthesized(inner) => Must(w, TypeNodeAt(file, inner), path)
      case Intersection(parts) => exists i :: 0 <= i < |parts| && Must(w, TypeNodeAt(file, parts[i]), path)
      case Union(parts) => forall i :: 0 <= i < |parts| ==> Must(w, TypeNodeAt(file, parts[i]), path)
      case ArrayType(element) => path[0].Array? && Must(w, TypeNodeAt(file, element), path[1..])
      case OperatorType(op, inner) => op == Readonly && Must(w, TypeNodeAt(file, inner), path)
      case IndexedAccess(object_, index) =>
        index.Some? && Must(w, TypeNodeAt(file, object_), [Member(index.value)] + path)
      case Reference(head, binding, args) => (
        match binding
        case Global =>
          if head in PASSTHROUGH_WRAPPERS && args != [] then Must(w, TypeNodeAt(file, args[0]), path)
          else if head in ARRAY_NAMES && args != [] then path[0].Array? && Must(w, TypeNodeAt(file, args[0]), path[1..])
          else Denoted(w, file, head).Some? && Must(w, DeclNode(Denoted(w, file, head).value), path)
        case Own => Denoted(w, file, head).Some? && Must(w, DeclNode(Denoted(w, file, head).value), path)
        case Inner => false
        case Qualified => false)
      case OtherType => false
  }

  /** The path is possibly present: like Must, but everything that cannot be enumerated may have it. */
  least predicate May(w: World, n: Node, path: Path) {
    path == [] ||
    match n
    case DeclNode(d) => d !in w.decls || (
      match w.decls[d]
      case Interface(_, _) =>
        path[0].Array?
        || (exists e, k :: e in Group(w, d) && FindNamed(MembersOf(w, e), path[0].name) == Some(k)
              && (|path| == 1 || MembersOf(w, e)[k].annotation.None?
                  || May(w, TypeNodeAt(e.file, MembersOf(w, e)[k].annotation.value), path[1..])))
        || (NoneNames(w, d, path[0].name)
            && ((exists e :: e in Group(w, d) && Opaque(MembersOf(w, e)))
                || (exists e, i :: e in Group(w, d) && 0 <= i < |BasesOf(w, e)|
                      && (BasesOf(w, e)[i].None? || Denoted(w, e.file, BasesOf(w, e)[i].value).None?
                          || May(w, DeclNode(Denoted(w, e.file, BasesOf(w, e)[i].value).value), path)))))
      case Alias(t) => May(w, TypeNodeAt(d.file, t), path)
      case Enum => true)
    case TypeNodeAt(file, t) =>
      match t
      case LiteralType(members) =>
        path[0].Array? || (
          match FindNamed(members, path[0].name)
          case Some(k) => |path| == 1 || members[k].annotation.None? ||
            May(w, TypeNodeAt(file, members[k].annotation.value), path[1..])
          case None => Opaque(members))
      case Parenthesized(inner) => May(w, TypeNodeAt(file, inner), path)
      case Intersection(parts) => exists i :: 0 <= i < |parts| && May(w, TypeNodeAt(file, parts[i]), path)
      case Union(parts) => exists i :: 0 <= i < |parts| && May(w, TypeNodeAt(file, parts[i]), path)
      case ArrayType(element) => path[0].Member? || May(w, TypeNodeAt(file, element), path[1..])
      case OperatorType(op, inner) => op != Readonly || May(w, TypeNodeAt(file, inner), path)
      case IndexedAccess(object_, index) =>
        index.None? || May(w, TypeNodeAt(file, object_), [Member(index.value)] + path)
      case Reference(head, binding, args) => (
        match binding
        case Global =>
          if head in PASSTHROUGH_WRAPPERS && args != [] then May(w, TypeNodeAt(file, args[0]), path)
          else if head in ARRAY_NAMES && args != [] then path[0].Member? || May(w, TypeNodeAt(file, args[0]), path[1..])
          else Denoted(w, file, head).None? || May(w, DeclNode(Denoted(w, file, head).value), path)
        case Own => Denoted(w, file, head).None? || May(w, DeclNode(Denoted(w, file, head).value), path)
        case Inner => true
        case Qualified => true)
      case OtherType => true
  }

  // ---- the walk ----

  datatype Presence = Found | Missing | Unknown

  /** A declaration visited with a path of some length. */
  datatype Visit = Visit(id: DeclId, length: nat)

  /** The answer (None: the path outgrew the limit and the walk was abandoned), the visits
    * so far, and whether some declaration was met again with the same length. */
  datatype Walked = Walked(answer: Option<Presence>, seen: set<Visit>, bailed: bool)

  datatype WalkedAll = WalkedAll(answers: Option<seq<Presence>>, seen: set<Visit>, bailed: bool)

  /** Any found wins, else any unknown taints, else missing. */
  function Combine(answers: seq<Presence>): Presence {
    if Found in answers then Found
    else if Unknown in answers then Unknown
    else Missing
  }

  /** Presence on a union is only definite when every branch agrees. */
  function Agree(answers: seq<Presence>): Presence {
    if forall i :: 0 <= i < |answers| ==> answers[i] == Found then Found
    else if forall i :: 0 <= i < |answers| ==> answers[i] == Missing then Missing
    else Unknown
  }

  function Folded(all: WalkedAll, fold: seq<Presence> -> Presence): Walked {
    Walked(if all.answers.Some? then Some(fold(all.answers.value)) else None, all.seen, all.bailed)
  }

  function Universe(w: World, limit: nat): set<Visit> {
    set d, n | d in w.decls && 0 <= n <= limit :: Visit(d, n)
  }

  /** Look one property up; `seen` has the declaration this is a member of, if any. */
  function WalkProperty(w: World, file: File, members: seq<Element>, k: nat, path: Path, seen: set<Visit>, limit: nat): (r: Walked)
    requires Parsed(w) && path != [] && |path| <= limit && k < |members| && members[k].Property?
    ensures seen <= r.seen
    decreases Universe(w, limit) - seen, 1, members, 0
  {
    if |path| == 1 then Walked(Some(Found), seen, false)
    else if members[k].annotation.None? then Walked(Some(Unknown), seen, false)
    else WalkType(w, file, members[k].annotation.value, path[1..], seen, limit)
  }

  function WalkDecl(w: World, d: DeclId, path: Path, seen: set<Visit>, limit: nat): (r: Walked)
    requires Parsed(w) && d in w.decls && |path| <= limit
    ensures seen <= r.seen
    decreases Universe(w, limit) - seen, 0, 0
  {
    if path == [] then Walked(Some(Found), seen, false)
    else if w.decls[d].Enum? then Walked(Some(Unknown), seen, false)
    else if Visit(d, |path|) in seen then Walked(Some(Unknown), seen, true)
    else
      var entered := seen + {Visit(d, |path|)};
      assert Visit(d, |path|) in Universe(w, limit) - seen && Visit(d, |path|) !in Universe(w, limit) - entered;
      match w.decls[d]
      case Interface(members, bases) =>
        if path[0].Array? then Walked(Some(Unknown), entered, false)
        else (match FindProperty(members, path[0].name)
          case Some(k) => WalkProperty(w, d.file, members, k, path, entered, limit)
          case None => Folded(WalkBases(w, d.file, bases, path, entered, limit), Combine))
      case Alias(t) => WalkType(w, d.file, t, path, entered, limit)
  }

  function WalkName(w: World, file: File, name: string, path: Path, seen: set<Visit>, limit: nat): (r: Walked)
    requires Parsed(w) && path != [] && |path| <= limit
    ensures seen <= r.seen
    decreases Universe(w, limit) - seen, 0, 1
  {
    if (file, name) !in w.resolve then Walked(Some(Unknown), seen, false)
    else WalkDecl(w, w.resolve[(file, name)], path, seen, limit)
  }

  function WalkBases(w: World, file: File, bases: seq<Option<string>>, path: Path, seen: set<Visit>, limit: nat): (r: WalkedAll)
    requires Parsed(w) && path != [] && |path| <= limit
    ensures seen <= r.seen
    ensures r.answers.Some? ==> |r.answers.value| == |bases|
    decreases Universe(w, limit) - seen, 1, bases
  {
    if bases == [] then WalkedAll(Some([]), seen, false)
    else
      var first := if bases[0].None? then Walked(Some(Unknown), seen, false)
                   else WalkName(w, file, bases[0].value, path, seen, limit);
      if first.answer.None? then WalkedAll(None, first.seen, first.bailed)
      else
        var rest := WalkBases(w, file, bases[1..], path, first.seen, limit);
        WalkedAll(if rest.answers.Some? then Some([first.answer.value] + rest.answers.value) else None,
                  rest.seen, first.bailed || rest.bailed)
  }

  function WalkParts(w: World, file: File, parts: seq<TypeNode>, path: Path, seen: set<Visit>, limit: nat): (r: WalkedAll)
    requires Parsed(w) && path != [] && |path| <= limit
    ensures seen <= r.seen
    ensures r.answers.Some? ==> |r.answers.value| == |parts|
    decreases Universe(w, limit) - seen, 1, parts
  {
    if parts == [] then WalkedAll(Some([]), seen, false)
    else
      var first := WalkType(w, file, parts[0], path, seen, limit);
      if first.answer.None? then WalkedAll(None, first.seen, first.bailed)
      else
        var rest := WalkParts(w, file, parts[1..], path, first.seen, limit);
        WalkedAll(if rest.answers.Some? then Some([first.answer.value] + rest.answers.value) else None,
                  rest.seen, first.bailed || rest.bailed)
  }

  function WalkElement(w: World, file: File, element: TypeNode, path: Path, seen: set<Visit>, limit: nat): (r: Walked)
    requires Parsed(w) && path != [] && |path| <= limit
    ensures seen <= r.seen
    decreases Universe(w, limit) - seen, 1, element, 1
  {
    if path[0].Array? then WalkType(w, file, element, path[1..], seen, limit)
    else Walked(Some(Unknown), seen, false)
  }

  function WalkType(w: World, file: File, t: TypeNode, path: Path, seen: set<Visit>, limit: nat): (r: Walked)
    requires Parsed(w) && |path| <= limit
    ensures seen <= r.seen
    decreases Universe(w, limit) - seen, 1, t, 0
  {
    if path == [] then Walked(Some(Found), seen, false)
    else match t
      case LiteralType(members) =>
        if path[0].Array? then Walked(Some(Unknown), seen, false)
        else (match FindProperty(members, path[0].name)
          case Some(k) => WalkProperty(w, file, members, k, path, seen, limit)
          case None => Walked(Some(Missing), seen, false))
      case Parenthesized(inner) => WalkType(w, file, inner, path, seen, limit)
      case Intersection(parts) => Folded(WalkParts(w, file, parts, path, seen, limit), Combine)
      case Union(parts) => Folded(WalkParts(w, file, parts, path, seen, limit), Agree)
      case ArrayType(element) => WalkElement(w, file, element, path, seen, limit)
      case OperatorType(_, inner) => WalkType(w, file, inner, path, seen, limit)
      case IndexedAccess(object_, index) =>
        if index.None? then Walked(Some(Unknown), seen, false)
        else if |path| == limit then Walked(None, seen, false)
        else WalkType(w, file, object_, [Member(index.value)] + path, seen, limit)
      case Reference(head, binding, args) =>
        if head in PASSTHROUGH_WRAPPERS && args != [] then WalkType(w, file, args[0], path, seen, limit)
        else if head in ARRAY_NAMES && args != [] then WalkElement(w, file, args[0], path, seen, limit)
        else if binding.Qualified? then Walked(Some(Unknown), seen, false)
        else WalkName(w, file, head, path, seen, limit)
      case OtherType => Walked(Some(Unknown), seen, false)
  }
}
