/** `lookupPath` as written: one recursion over nodes that adds to a shared set of visits
  * (scripts/gen-config-catalog.ts). None is the stack overflow of a path past the limit. */
module TypePathLookup {
  import opened Wrappers
  import opened TypePaths
  import opened TypePathProofs
  import opened TypePathMeets

  /** The mutable `seen` set every call of one lookup shares. */
  class SeenVisits {
    var visits: set<Visit>

    constructor ()
      ensures visits == {}
    {
      visits := {};
    }
  }

  /** A walked step's answer is returned and its visits are the new contents of `seen`. */
  ghost predicate Does(r: Option<Presence>, visits: set<Visit>, walked: Walked) {
    r == walked.answer && visits == walked.seen
  }

  /** Part of a list is answered, and the rest of the walk is still to come. */
  ghost predicate Continues(all: WalkedAll, done: seq<Presence>, rest: WalkedAll) {
    && all.seen == rest.seen
    && (all.answers.Some? <==> rest.answers.Some?)
    && (all.answers.Some? ==> all.answers.value == done + rest.answers.value)
  }

  lemma ContinuesPast(all: WalkedAll, done: seq<Presence>, answer: Presence, rest: WalkedAll, next: WalkedAll)
    requires Continues(all, done, rest) && rest.seen == next.seen
    requires rest.answers == if next.answers.Some? then Some([answer] + next.answers.value) else None
    ensures Continues(all, done + [answer], next)
  {
    if next.answers.Some? {
      assert done + ([answer] + next.answers.value) == done + [answer] + next.answers.value;
    }
  }

  method LookupDecl(w: World, d: DeclId, path: Path, seen: SeenVisits, limit: nat) returns (r: Option<Presence>)
    requires Parsed(w) && d in w.decls && |path| <= limit
    modifies seen
    ensures Does(r, seen.visits, WalkDecl(w, d, path, old(seen.visits), limit))
    decreases Universe(w, limit) - seen.visits, 0, 0
  {
    if path == [] {
      return Some(Found);
    }
    var decl := w.decls[d];
    if !decl.Enum? {
      if Visit(d, |path|) in seen.visits {
        return Some(Unknown);
      }
      seen.visits := seen.visits + {Visit(d, |path|)};
      assert Visit(d, |path|) in Universe(w, limit) - old(seen.visits) && Visit(d, |path|) !in Universe(w, limit) - seen.visits;
    }
    match decl {
      case Enum => return Some(Unknown);
      case Alias(t) => r := LookupType(w, d.file, t, path, seen, limit);
      case Interface(members, bases) =>
        if path[0].Array? {
          return Some(Unknown);
        }
        match FindProperty(members, path[0].name) {
          case Some(k) => r := LookupProperty(w, d.file, members, k, path, seen, limit);
          case None =>
            var answers := LookupBases(w, d.file, bases, path, seen, limit);
            r := if answers.None? then None else Some(Combine(answers.value));
        }
    }
  }

  method LookupProperty(w: World, file: File, members: seq<Element>, k: nat, path: Path, seen: SeenVisits, limit: nat)
    returns (r: Option<Presence>)
    requires Parsed(w) && path != [] && |path| <= limit && k < |members| && members[k].Property?
    modifies seen
    ensures Does(r, seen.visits, WalkProperty(w, file, members, k, path, old(seen.visits), limit))
    decreases Universe(w, limit) - seen.visits, 1, members, 0
  {
    if |path| == 1 {
      return Some(Found);
    }
    if members[k].annotation.None? {
      return Some(Unknown);
    }
    r := LookupType(w, file, members[k].annotation.value, path[1..], seen, limit);
  }

  method LookupName(w: World, file: File, name: string, path: Path, seen: SeenVisits, limit: nat)
    returns (r: Option<Presence>)
    requires Parsed(w) && path != [] && |path| <= limit
    modifies seen
    ensures Does(r, seen.visits, WalkName(w, file, name, path, old(seen.visits), limit))
    decreases Universe(w, limit) - seen.visits, 0, 1
  {
    if (file, name) !in w.resolve {
      return Some(Unknown);
    }
    r := LookupDecl(w, w.resolve[(file, name)], path, seen, limit);
  }

  method LookupBases(w: World, file: File, bases: seq<Option<string>>, path: Path, seen: SeenVisits, limit: nat)
    returns (answers: Option<seq<Presence>>)
    requires Parsed(w) && path != [] && |path| <= limit
    modifies seen
    ensures var walked := WalkBases(w, file, bases, path, old(seen.visits), limit);
            answers == walked.answers && seen.visits == walked.seen
    decreases Universe(w, limit) - seen.visits, 1, bases
  {
    ghost var all := WalkBases(w, file, bases, path, seen.visits, limit);
    var pushed: seq<Presence> := [];
    for k := 0 to |bases|
      invariant old(seen.visits) <= seen.visits
      invariant Continues(all, pushed, WalkBases(w, file, bases[k..], path, seen.visits, limit))
    {
      assert bases[k..][1..] == bases[k + 1..];
      ghost var rest := WalkBases(w, file, bases[k..], path, seen.visits, limit);
      var answer := Some(Unknown);
      if bases[k].Some? {
        assert Universe(w, limit) - seen.visits <= Universe(w, limit) - old(seen.visits);
        answer := LookupName(w, file, bases[k].value, path, seen, limit);
      }
      if answer.None? {
        return None;
      }
      ContinuesPast(all, pushed, answer.value, rest, WalkBases(w, file, bases[k + 1..], path, seen.visits, limit));
      pushed := pushed + [answer.value];
    }
    assert bases[|bases|..] == [] && pushed + [] == pushed;
    return Some(pushed);
  }

  method LookupParts(w: World, file: File, parts: seq<TypeNode>, path: Path, seen: SeenVisits, limit: nat)
    returns (answers: Option<seq<Presence>>)
    requires Parsed(w) && path != [] && |path| <= limit
    modifies seen
    ensures var walked := WalkParts(w, file, parts, path, old(seen.visits), limit);
            answers == walked.answers && seen.visits == walked.seen
    decreases Universe(w, limit) - seen.visits, 1, parts
  {
    ghost var all := WalkParts(w, file, parts, path, seen.visits, limit);
    var mapped: seq<Presence> := [];
    for k := 0 to |parts|
      invariant old(seen.visits) <= seen.visits
      invariant Continues(all, mapped, WalkParts(w, file, parts[k..], path, seen.visits, limit))
    {
      assert parts[k..][1..] == parts[k + 1..];
      ghost var rest := WalkParts(w, file, parts[k..], path, seen.visits, limit);
      assert Universe(w, limit) - seen.visits <= Universe(w, limit) - old(seen.visits);
      var answer := LookupType(w, file, parts[k], path, seen, limit);
      if answer.None? {
        return None;
      }
      ContinuesPast(all, mapped, answer.value, rest, WalkParts(w, file, parts[k + 1..], path, seen.visits, limit));
      mapped := mapped + [answer.value];
    }
    assert parts[|parts|..] == [] && mapped + [] == mapped;
    return Some(mapped);
  }

  method LookupElement(w: World, file: File, element: TypeNode, path: Path, seen: SeenVisits, limit: nat)
    returns (r: Option<Presence>)
    requires Parsed(w) && path != [] && |path| <= limit
    modifies seen
    ensures Does(r, seen.visits, WalkElement(w, file, element, path, old(seen.visits), limit))
    decreases Universe(w, limit) - seen.visits, 1, element, 1
  {
    if path[0].Member? {
      return Some(Unknown);
    }
    r := LookupType(w, file, element, path[1..], seen, limit);
  }

  method LookupType(w: World, file: File, t: TypeNode, path: Path, seen: SeenVisits, limit: nat)
    returns (r: Option<Presence>)
    requires Parsed(w) && |path| <= limit
    modifies seen
    ensures Does(r, seen.visits, WalkType(w, file, t, path, old(seen.visits), limit))
    decreases Universe(w, limit) - seen.visits, 1, t, 0
  {
    if path == [] {
      return Some(Found);
    }
    match t {
      case LiteralType(members) =>
        if path[0].Array? {
          return Some(Unknown);
        }
        match FindProperty(members, path[0].name) {
          case Some(k) => r := LookupProperty(w, file, members, k, path, seen, limit);
          case None => return Some(Missing);
        }
      case Parenthesized(inner) => r := LookupType(w, file, inner, path, seen, limit);
      case Intersection(parts) =>
        var answers := LookupParts(w, file, parts, path, seen, limit);
        r := if answers.None? then None else Some(Combine(answers.value));
      case Union(parts) =>
        var answers := LookupParts(w, file, parts, path, seen, limit);
        r := if answers.None? then None else Some(Agree(answers.value));
      case ArrayType(element) => r := LookupElement(w, file, element, path, seen, limit);
      case OperatorType(_, inner) => r := LookupType(w, file, inner, path, seen, limit);
      case IndexedAccess(object_, index) =>
        if index.None? {
          return Some(Unknown);
        }
        if |path| == limit {
          return None;
        }
        r := LookupType(w, file, object_, [Member(index.value)] + path, seen, limit);
      case Reference(head, binding, args) =>
        if head in PASSTHROUGH_WRAPPERS && args != [] {
          r := LookupType(w, file, args[0], path, seen, limit);
        } else if head in ARRAY_NAMES && args != [] {
          r := LookupElement(w, file, args[0], path, seen, limit);
        } else if binding.Qualified? {
          return Some(Unknown);
        } else {
          r := LookupName(w, file, head, path, seen, limit);
        }
      case OtherType => return Some(Unknown);
    }
  }

  /** One schema-path check: a fresh `seen`, starting at the config declaration. A definite
    * answer is right for every world without misread constructs, and where no declaration is met
    * twice with paths of one length the answer is exact. */
  method LookupPath(w: World, d: DeclId, path: Path, limit: nat) returns (r: Option<Presence>)
    requires Parsed(w) && d in w.decls && |path| <= limit
    ensures r == WalkDecl(w, d, path, {}, limit).answer
    ensures WorldWithin(w, {}) ==> (r == Some(Found) ==> Must(w, DeclNode(d), path))
    ensures WorldWithin(w, {}) ==> (r == Some(Missing) ==> !May(w, DeclNode(d), path))
    ensures WorldWithin(w, {}) && !MetTwice(w, DeclNode(d), path) && r.Some? ==> ExactAt(w, DeclNode(d), path, r.value)
  {
    var seen := new SeenVisits();
    r := LookupDecl(w, d, path, seen, limit);
    if WorldWithin(w, {}) {
      WalkIsSound(w, DeclNode(d), path, {}, limit);
      if !MetTwice(w, DeclNode(d), path) && r.Some? {
        ExactUnlessMetTwice(w, DeclNode(d), path, limit);
      }
    }
  }
}
