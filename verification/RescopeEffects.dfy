/** What one run does to a line and to a file (scripts/rescope-vendor.ts): which lines change, what
  * a quoted name and a `name:` scalar become, what is left, and which lines of a file are kept. */
module RescopeEffects {
  import opened Wrappers
  import opened Text
  import opened RescopeTokens
  import opened RescopePasses
  import opened RescopeScalars
  import opened RescopeLine
  import opened RescopeLaws
  import opened RescopeFile
  import opened RescopeFileLaws

  // ---- which lines change ----

  /** The line names a source, as a token or as a scalar. */
  ghost predicate NamesSource(s: string, ps: Patterns) {
    exists m :: 0 <= m < |ps| && (HasToken(s, ps[m].from) || HasScalar(s, ps[m].from))
  }

  ghost predicate PieceNamesSource(head: string, segs: Segments, ps: Patterns) {
    exists m :: 0 <= m < |ps| && ((exists i :: 0 <= i < |segs| && IsToken(segs, ps[m].from, i)) || IsScalar(head, ps[m].from, segs == []))
  }

  lemma TokenInPiece(head: string, segs: Segments, name: string)
    requires Unquoted(head) && WellCut(segs)
    ensures HasToken(head + Glue(segs), name) <==> exists i :: 0 <= i < |segs| && IsToken(segs, name, i)
  {
    var s := head + Glue(segs);
    if i :| 0 <= i < |segs| && IsToken(segs, name, i) {
      PieceHasToken(head, segs, name, i);
    }
    if i :| 0 <= i < |s| && TokenEnd(s[i..], name).Some? {
      assert s[i..][0] == s[i];
      var j := QuotePosition(head, segs, i);
      TokenAtSegment(segs, name, j);
    }
  }

  lemma SourcesOfPiece(head: string, segs: Segments, ps: Patterns)
    requires Compatible(ps) && Unquoted(head) && WellCut(segs) && OneLine(head + Glue(segs))
    ensures NamesSource(head + Glue(segs), ps) <==> PieceNamesSource(head, segs, ps)
  {
    var s := head + Glue(segs);
    GlueStarts(segs);
    forall m | 0 <= m < |ps|
      ensures HasToken(s, ps[m].from) <==> exists i :: 0 <= i < |segs| && IsToken(segs, ps[m].from, i)
      ensures HasScalar(s, ps[m].from) <==> IsScalar(head, ps[m].from, segs == [])
    {
      TokenInPiece(head, segs, ps[m].from);
      ScalarInHead(head, Glue(segs), ps[m].from);
      assert HasScalar(s, ps[m].from) == IsScalar(s, ps[m].from, true);
    }
  }

  lemma SelectedChanges(segs: Segments, ps: Patterns, m: nat, i: nat)
    requires Compatible(ps) && m < |ps| && i < |segs| && Selected(segs, ps[m].from, i)
    ensures PassAll(segs, ps)[i] != segs[i]
  {
    SelectedDecides(segs, ps, m, i);
    RenamedIsNamed(segs[i].text, ps[m]);
    assert Apart(ps[m].from, ps[m].to);
  }

  lemma TokenChanges(segs: Segments, ps: Patterns, m: nat, i: nat)
    requires Compatible(ps) && m < |ps| && i < |segs| && IsToken(segs, ps[m].from, i)
    ensures PassAll(segs, ps) != segs
  {
    if Selected(segs, ps[m].from, i) {
      SelectedChanges(segs, ps, m, i);
    } else {
      SelectedChanges(segs, ps, m, i - 1);
    }
  }

  lemma NoTokenStays(segs: Segments, ps: Patterns)
    requires Compatible(ps) && forall m, i :: 0 <= m < |ps| && 0 <= i < |segs| ==> !IsToken(segs, ps[m].from, i)
    ensures PassAll(segs, ps) == segs
  {
    forall i | 0 <= i < |segs| ensures PassAll(segs, ps)[i] == segs[i] {
      UnselectedStays(segs, ps, i);
    }
  }

  lemma PassedIffToken(segs: Segments, ps: Patterns)
    requires Compatible(ps)
    ensures PassAll(segs, ps) == segs <==> forall m, i :: 0 <= m < |ps| && 0 <= i < |segs| ==> !IsToken(segs, ps[m].from, i)
  {
    if m, i :| 0 <= m < |ps| && 0 <= i < |segs| && IsToken(segs, ps[m].from, i) {
      TokenChanges(segs, ps, m, i);
    } else {
      NoTokenStays(segs, ps);
    }
  }

  lemma ScalarChanges(head: string, p: Pattern, last: bool)
    requires Name(p.from) && Name(p.to) && Apart(p.from, p.to) && IsScalar(head, p.from, last)
    ensures ReplaceScalar(head, p, last) != head
  {
    ReplacedScalar(head, p, last);
    if ReplaceScalar(head, p, last) == head {
      ScalarHasOneName(head, p.from, p.to, last);
    }
  }

  lemma ReplacedIffScalar(head: string, ps: Patterns, last: bool)
    requires Compatible(ps)
    ensures ScalarAll(head, ps, last) == head <==> NoScalars(head, ps, last)
  {
    if m :| 0 <= m < |ps| && IsScalar(head, ps[m].from, last) {
      ScalarDecides(head, ps, m, last);
      ScalarChanges(head, ps[m], last);
    } else {
      NoScalarStays(head, ps, last);
    }
  }

  lemma PieceChangesIff(head: string, segs: Segments, ps: Patterns)
    requires Compatible(ps) && Unquoted(head) && WellCut(segs) && OneLine(head + Glue(segs))
    ensures RewriteLine(head + Glue(segs), ps) != head + Glue(segs) <==> PieceNamesSource(head, segs, ps)
  {
    RewritePiece(head, segs, ps);
    PassedIffToken(segs, ps);
    ReplacedIffScalar(head, ps, segs == []);
    var h, after := ScalarAll(head, ps, segs == []), PassAll(segs, ps);
    ScalarAllIsUnquoted(head, ps, segs == []);
    PassAllIsWellCut(segs, ps);
    GlueStarts(segs);
    GlueStarts(after);
    if h + Glue(after) == head + Glue(segs) {
      SameUnquotedPrefix(h, Glue(after), head, Glue(segs));
      GlueIsInjective(after, segs);
    }
  }

  lemma PieceUnchangedIff(s: string, ps: Patterns)
    requires Compatible(ps) && OneLine(s)
    ensures RewriteLine(s, ps) != s <==> NamesSource(s, ps)
  {
    var head, segs := Head(s), Body(s);
    PieceParts(s);
    SourcesOfPiece(head, segs, ps);
    PieceChangesIff(head, segs, ps);
  }

  lemma TokenSplits(a: string, t: char, b: string, name: string)
    requires IsSpace(t) && !Quote(t)
    ensures HasToken(a + [t] + b, name) <==> HasToken(a, name) || HasToken(b, name)
  {
    var s := a + [t] + b;
    HasTokenSplits(a, t, b, name);
    if i :| 0 <= i < |s| && TokenEnd(s[i..], name).Some? {
      assert s[i..][0] == s[i] && s[|a|] == t;
      if i < |a| {
        DropInto(a, t, b, i);
        TokenEndBefore(a[i..], t, b, name);
      } else {
        assert s[i..] == b[i - |a| - 1..];
      }
    }
  }

  lemma SourcesSplit(a: string, t: char, b: string, ps: Patterns)
    requires OneLine(a) && Terminator(t)
    ensures NamesSource(a + [t] + b, ps) <==> NamesSource(a, ps) || NamesSource(b, ps)
  {
    TerminatorIsSpace(t);
    FirstTerminatorIs(a, t, b);
    assert (a + [t] + b)[..|a|] == a && (a + [t] + b)[|a| + 1..] == b;
    forall m | 0 <= m < |ps|
      ensures HasToken(a + [t] + b, ps[m].from) <==> HasToken(a, ps[m].from) || HasToken(b, ps[m].from)
      ensures HasScalar(a + [t] + b, ps[m].from) <==> HasScalar(a, ps[m].from) || HasScalar(b, ps[m].from)
    {
      TokenSplits(a, t, b, ps[m].from);
      assert HasScalar(a, ps[m].from) == IsScalar(a, ps[m].from, true);
    }
  }

  /** A line changes exactly when it names a source: a delimited token or a scalar. */
  lemma {:induction false} LineChangesIff(s: string, ps: Patterns)
    requires Compatible(ps)
    ensures RewriteLine(s, ps) != s <==> NamesSource(s, ps)
    decreases |s|
  {
    match FirstTerminator(s)
    case None => PieceUnchangedIff(s, ps);
    case Some(e) =>
      var a, t, b := s[..e], s[e], s[e + 1..];
      SplitAtTerminator(s, e);
      PieceUnchangedIff(a, ps);
      LineChangesIff(b, ps);
      RewriteSplits(a, t, b, ps);
      SourcesSplit(a, t, b, ps);
      SameAroundTerminator(RewriteLine(a, ps), t, RewriteLine(b, ps), a, b);
  }

  /** A run leaves no source name behind exactly when no two tokens of one name share a quote. */
  lemma NothingLeftIff(s: string, ps: Patterns)
    requires Compatible(ps)
    ensures !NamesSource(RewriteLine(s, ps), ps) <==> NoSharedQuote(s, ps)
  {
    LineChangesIff(RewriteLine(s, ps), ps);
    LineIdempotentIff(s, ps);
  }

  /** The quotes and the line terminators, by their codes. */
  lemma QuotesAndTerminators(c: char)
    ensures Quote(c) <==> c as int == 34 || c as int == 39 || c as int == 96
    ensures Terminator(c) <==> c as int == 10 || c as int == 13 || c as int == 8232 || c as int == 8233
  {
  }

  // ---- what a quoted name becomes ----

  predicate Subpath(sub: string) {
    sub != "" ==> sub[0] == '/' && Unquoted(sub) && Unspaced(sub)
  }

  lemma TwoSegments(a: string, q: char, text: string, b: string)
    ensures a + Glue([Segment(q, text), Segment(q, b)]) == a + [q] + text + [q] + b
  {
    var segs := [Segment(q, text), Segment(q, b)];
    assert segs[1..] == [Segment(q, b)] && segs[1..][1..] == [];
    assert Glue(segs[1..]) == [q] + b;
    assert Glue(segs) == [q] + text + ([q] + b);
  }

  lemma SubpathIsNamed(name: string, sub: string)
    requires Name(name) && Subpath(sub)
    ensures IsNamed(name + sub, name) && Unspaced(name + sub) && Unquoted(name + sub) && (name + sub)[|name|..] == sub
  {
    if sub != "" {
      assert name + "/" == (name + sub)[..|name| + 1];
    }
  }

  lemma {:induction false} OneToken(q: char, text: string, b: string, ps: Patterns, m: nat)
    requires Compatible(ps) && m < |ps| && Quote(q) && Unquoted(text) && Unspaced(text) && Unquoted(b)
    requires IsNamed(text, ps[m].from)
    ensures PassAll([Segment(q, text), Segment(q, b)], ps) == [Segment(q, Renamed(text, ps[m])), Segment(q, b)]
  {
    var segs := [Segment(q, text), Segment(q, b)];
    assert Selected(segs, ps[m].from, 0);
    SelectedDecides(segs, ps, m, 0);
    UnselectedStays(segs, ps, 1);
  }

  lemma {:induction false} HeadWithoutScalar(a: string, segs: Segments, ps: Patterns)
    requires Compatible(ps) && Unquoted(a) && WellCut(segs) && segs != [] && OneLine(a + Glue(segs))
    requires forall k :: 0 <= k < |ps| ==> !HasScalar(a + Glue(segs), ps[k].from)
    ensures ScalarAll(a, ps, false) == a
  {
    GlueStarts(segs);
    forall k | 0 <= k < |ps| ensures !IsScalar(a, ps[k].from, false) {
      ScalarInHead(a, Glue(segs), ps[k].from);
      assert HasScalar(a + Glue(segs), ps[k].from) == IsScalar(a + Glue(segs), ps[k].from, true);
    }
    NoScalarStays(a, ps, false);
  }

  lemma {:induction false} TokenIsRenamed(a: string, q: char, text: string, b: string, ps: Patterns, m: nat)
    requires Compatible(ps) && m < |ps| && Quote(q) && Unquoted(a) && Unquoted(text) && Unspaced(text) && Unquoted(b)
    requires IsNamed(text, ps[m].from)
    requires var line := a + [q] + text + [q] + b; OneLine(line) && forall k :: 0 <= k < |ps| ==> !HasScalar(line, ps[k].from)
    ensures RewriteLine(a + [q] + text + [q] + b, ps) == a + [q] + Renamed(text, ps[m]) + [q] + b
  {
    var segs := [Segment(q, text), Segment(q, b)];
    assert WellCut(segs);
    TwoSegments(a, q, text, b);
    HeadWithoutScalar(a, segs, ps);
    RewritePiece(a, segs, ps);
    OneToken(q, text, b, ps, m);
    TwoSegments(a, q, Renamed(text, ps[m]), b);
  }

  /** Between quotes, a source name becomes its target; quotes, subpath and surroundings stay. */
  lemma {:induction false} QuotedNameIsRenamed(a: string, q: char, sub: string, b: string, ps: Patterns, m: nat)
    requires Compatible(ps) && m < |ps| && Quote(q) && Subpath(sub) && Unquoted(a) && Unquoted(b)
    requires var line := a + [q] + (ps[m].from + sub) + [q] + b;
             OneLine(line) && forall k :: 0 <= k < |ps| ==> !HasScalar(line, ps[k].from)
    ensures RewriteLine(a + [q] + (ps[m].from + sub) + [q] + b, ps) == a + [q] + (ps[m].to + sub) + [q] + b
  {
    SubpathIsNamed(ps[m].from, sub);
    TokenIsRenamed(a, q, ps[m].from + sub, b, ps, m);
  }

  // ---- what a scalar becomes ----

  predicate AllBlank(s: string) {
    forall i :: 0 <= i < |s| ==> s[i] == ' ' || s[i] == '\t'
  }

  ghost predicate KeyParts(prefix: string, indent: string, dash: string, blanks: string) {
    && prefix == indent + dash + "name:" + blanks && AllSpace(indent) && blanks != "" && AllBlank(blanks)
    && (dash == "" || (dash[0] == '-' && AllSpace(dash[1..])))
  }

  /** White space, perhaps a list dash and white space again, `name:`, and at least one blank. */
  ghost predicate KeyPattern(prefix: string) {
    exists indent, dash, blanks :: KeyParts(prefix, indent, dash, blanks)
  }

  /** Blanks, then nothing or a comment. */
  ghost predicate TrailPattern(suffix: string) {
    exists blanks, comment :: suffix == blanks + comment && AllBlank(blanks) && (comment == "" || comment[0] == '#')
  }

  lemma TrailsMatch(suffix: string)
    ensures Trails(suffix, true) <==> TrailPattern(suffix)
  {
    var i := SkipBlank(suffix, 0);
    if Trails(suffix, true) {
      assert suffix == suffix[..i] + suffix[i..];
    }
    if TrailPattern(suffix) {
      var blanks, comment :| suffix == blanks + comment && AllBlank(blanks) && (comment == "" || comment[0] == '#');
      assert forall j :: 0 <= j < |blanks| ==> suffix[j] == blanks[j];
      assert comment != "" ==> suffix[|blanks|] == comment[0];
      SkipBlankIs(suffix, 0, |blanks|);
    }
  }

  lemma KeyFoundAt(s: string, i: nat, j: nat, k: nat)
    requires i <= j && j + 5 < k < |s| && s[j..j + 5] == KEY
    requires (forall x :: 0 <= x < i ==> IsSpace(s[x])) && (forall x :: j + 5 <= x < k ==> RescopeScalars.Blank(s[x]))
    requires i == j || (s[i] == '-' && forall x :: i < x < j ==> IsSpace(s[x]))
    requires !IsSpace(s[k])
    ensures KeyEnd(s) == Some(k)
  {
    assert s[j] == s[j..j + 5][0] == 'n';
    SkipSpaceIs(s, 0, i);
    if i < j {
      SkipSpaceIs(s, i + 1, j);
    }
    BlankIsSpace(s[k]);
    SkipBlankIs(s, j + 5, k);
  }

  lemma Middle(a: string, b: string, c: string)
    ensures forall x :: 0 <= x < |b| ==> (a + b + c)[|a| + x] == b[x]
    ensures (a + b + c)[|a|..|a| + |b|] == b
  {
  }

  lemma SpacesAt(s: string, at: nat, part: string)
    requires at + |part| <= |s| && s[at..at + |part|] == part && AllSpace(part)
    ensures forall x :: at <= x < at + |part| ==> IsSpace(s[x])
  {
    forall x | at <= x < at + |part| ensures IsSpace(s[x]) {
      assert s[x] == s[at..at + |part|][x - at];
    }
  }

  lemma BlanksAt(s: string, at: nat, part: string)
    requires at + |part| <= |s| && s[at..at + |part|] == part && AllBlank(part)
    ensures forall x :: at <= x < at + |part| ==> RescopeScalars.Blank(s[x])
  {
    forall x | at <= x < at + |part| ensures RescopeScalars.Blank(s[x]) {
      assert s[x] == s[at..at + |part|][x - at];
    }
  }

  lemma Regrouped(a: string, b: string, c: string, d: string, e: string)
    ensures a + b + c + d + e == a + b + (c + d + e)
    ensures a + b + c + d + e == (a + b) + c + (d + e)
  {
  }

  lemma KeyPlaces(indent: string, dash: string, key: string, blanks: string, rest: string)
    ensures var s := indent + dash + key + blanks + rest;
            && s[..|indent|] == indent
            && s[|indent|..|indent| + |dash|] == dash
            && s[|indent| + |dash|..|indent| + |dash| + |key|] == key
            && s[|indent| + |dash| + |key|..|indent| + |dash| + |key| + |blanks|] == blanks
            && s[|indent| + |dash| + |key| + |blanks|..] == rest
  {
    Regrouped(indent, dash, key, blanks, rest);
    Middle(indent, dash, key + blanks + rest);
    Middle(indent + dash, key, blanks + rest);
    Middle(indent + dash + key, blanks, rest);
  }

  lemma DashAt(s: string, i: nat, dash: string)
    requires i + |dash| <= |s| && s[i..i + |dash|] == dash && dash != "" && dash[0] == '-' && AllSpace(dash[1..])
    ensures s[i] == '-' && forall x :: i < x < i + |dash| ==> IsSpace(s[x])
  {
    assert s[i + 1..i + |dash|] == dash[1..];
    SpacesAt(s, i + 1, dash[1..]);
    assert s[i] == s[i..i + |dash|][0];
  }

  lemma KeyFoundIn(s: string, i: nat, j: nat, k: nat, dash: string)
    requires i <= j && j + 5 < k < |s| && AllSpace(s[..i]) && s[i..j] == dash && s[j..j + 5] == KEY
    requires dash == "" || (dash[0] == '-' && AllSpace(dash[1..]))
    requires AllBlank(s[j + 5..k]) && !IsSpace(s[k])
    ensures KeyEnd(s) == Some(k)
  {
    SpacesAt(s, 0, s[..i]);
    BlanksAt(s, j + 5, s[j + 5..k]);
    if dash != "" {
      DashAt(s, i, dash);
    }
    KeyFoundAt(s, i, j, k);
  }

  /** The key's end is found behind every key pattern that a name follows. */
  lemma KeyFound(s: string, indent: string, dash: string, blanks: string, rest: string)
    requires s == indent + dash + KEY + blanks + rest
    requires AllSpace(indent) && blanks != "" && AllBlank(blanks)
    requires dash == "" || (dash[0] == '-' && AllSpace(dash[1..]))
    requires rest != "" && !IsSpace(rest[0])
    ensures var k := |indent| + |dash| + 5 + |blanks|; KeyEnd(s) == Some(k) && k <= |s| && s[k..] == rest
  {
    var i, j := |indent|, |indent| + |dash|;
    var k := j + 5 + |blanks|;
    KeyPlacesIn(s, i, j, k, indent, dash, blanks, rest);
    KeyFoundIn(s, i, j, k, dash);
  }

  lemma KeyPlacesIn(s: string, i: nat, j: nat, k: nat, indent: string, dash: string, blanks: string, rest: string)
    requires s == indent + dash + KEY + blanks + rest && rest != ""
    requires i == |indent| && j == i + |dash| && k == j + 5 + |blanks|
    ensures k < |s| && s[..i] == indent && s[i..j] == dash && s[j..j + 5] == KEY && s[j + 5..k] == blanks
    ensures s[k..] == rest && s[k] == rest[0]
  {
    assert |KEY| == 5;
    KeyPlaces(indent, dash, KEY, blanks, rest);
  }

  lemma CutInFour(s: string, i: nat, j: nat, k: nat)
    requires i <= j && j + 5 <= k <= |s|
    ensures s[..k] == s[..i] + s[i..j] + s[j..j + 5] + s[j + 5..k]
  {
  }

  /** A key that is found has the key's pattern before it. */
  lemma FoundKey(s: string)
    requires KeyEnd(s).Some?
    ensures KeyPattern(s[..KeyEnd(s).value])
  {
    var i, j, k := SkipSpace(s, 0), KeyStart(s), KeyEnd(s).value;
    CutInFour(s, i, j, k);
    var dash, blanks := s[i..j], s[j + 5..k];
    if i < j {
      assert dash[0] == s[i] == '-' && dash[1..] == s[i + 1..j];
      assert AllSpace(s[i + 1..j]);
    } else {
      assert dash == "";
    }
    assert blanks != "" && blanks[0] == s[j + 5];
    assert KeyParts(s[..k], s[..i], dash, blanks);
  }

  /** A line is a `name:` scalar exactly when it has the scalar's pattern. */
  ghost predicate ScalarPattern(s: string, name: string) {
    exists prefix, suffix :: s == prefix + name + suffix && KeyPattern(prefix) && TrailPattern(suffix)
  }

  lemma ScalarMatchesPattern(s: string, name: string)
    requires Name(name)
    ensures IsScalar(s, name, true) <==> ScalarPattern(s, name)
  {
    if IsScalar(s, name, true) {
      ScalarHasPattern(s, name);
    }
    if ScalarPattern(s, name) {
      var prefix, suffix :| s == prefix + name + suffix && KeyPattern(prefix) && TrailPattern(suffix);
      PatternIsScalar(prefix, name, suffix);
    }
  }

  lemma SplitAround(s: string, k: nat, name: string, suffix: string)
    requires k <= |s| && s[k..] == name + suffix
    ensures s == s[..k] + name + suffix
  {
    assert s == s[..k] + s[k..];
    assert s[..k] + (name + suffix) == s[..k] + name + suffix;
  }

  lemma ScalarHasPattern(s: string, name: string)
    requires IsScalar(s, name, true)
    ensures ScalarPattern(s, name)
  {
    var k := KeyEnd(s).value;
    var suffix := s[k..][|name|..];
    FoundKey(s);
    TrailsMatch(suffix);
    assert s[k..] == name + suffix;
    SplitAround(s, k, name, suffix);
  }

  lemma ScalarFrom(s: string, k: nat, name: string, suffix: string)
    requires KeyEnd(s) == Some(k) && k <= |s| && s[k..] == name + suffix && TrailPattern(suffix)
    ensures IsScalar(s, name, true)
  {
    TrailsMatch(suffix);
    assert (name + suffix)[|name|..] == suffix;
  }

  lemma KeyFoundBefore(prefix: string, rest: string)
    requires KeyPattern(prefix) && rest != "" && !IsSpace(rest[0])
    ensures KeyEnd(prefix + rest) == Some(|prefix|)
  {
    var indent, dash, blanks :| KeyParts(prefix, indent, dash, blanks);
    PartsLength(prefix, indent, dash, blanks);
    KeyFound(prefix + rest, indent, dash, blanks, rest);
  }

  lemma PartsLength(prefix: string, indent: string, dash: string, blanks: string)
    requires prefix == indent + dash + KEY + blanks
    ensures |prefix| == |indent| + |dash| + 5 + |blanks|
  {
  }

  lemma PatternIsScalar(prefix: string, name: string, suffix: string)
    requires Name(name) && KeyPattern(prefix) && TrailPattern(suffix)
    ensures KeyEnd(prefix + name + suffix) == Some(|prefix|) && IsScalar(prefix + name + suffix, name, true)
    ensures (prefix + name + suffix)[|prefix|..] == name + suffix
  {
    FollowedByName(prefix, name, suffix);
    KeyFoundBefore(prefix, name + suffix);
    ScalarFrom(prefix + name + suffix, |prefix|, name, suffix);
  }

  lemma FollowedByName(prefix: string, name: string, suffix: string)
    ensures prefix + name + suffix == prefix + (name + suffix)
  {
  }

  lemma ReplacedPattern(prefix: string, suffix: string, p: Pattern)
    requires Name(p.from) && KeyPattern(prefix) && TrailPattern(suffix)
    ensures ReplaceScalar(prefix + p.from + suffix, p, true) == prefix + p.to + suffix
  {
    var s := prefix + p.from + suffix;
    PatternIsScalar(prefix, p.from, suffix);
    assert s[..|prefix|] == prefix && s[|prefix|..] == p.from + suffix && (p.from + suffix)[|p.from|..] == suffix;
    assert prefix + (p.to + suffix) == prefix + p.to + suffix;
  }

  lemma {:induction false} NoSegments(ps: Patterns)
    ensures PassAll([], ps) == [] && Glue([]) == "" && WellCut([])
  {
    var none: Segments := [];
    assert |PassAll(none, ps)| == 0;
  }

  /** A scalar's name becomes its target; what stands before and behind it stays. */
  lemma {:induction false} ScalarIsRenamed(prefix: string, suffix: string, ps: Patterns, m: nat)
    requires Compatible(ps) && m < |ps| && KeyPattern(prefix) && TrailPattern(suffix)
    requires OneLine(prefix + ps[m].from + suffix) && Unquoted(prefix + ps[m].from + suffix)
    ensures RewriteLine(prefix + ps[m].from + suffix, ps) == prefix + ps[m].to + suffix
  {
    var s := prefix + ps[m].from + suffix;
    PatternIsScalar(prefix, ps[m].from, suffix);
    ScalarDecides(s, ps, m, true);
    ReplacedPattern(prefix, suffix, ps[m]);
    NoSegments(ps);
    assert s + Glue([]) == s;
    RewritePiece(s, [], ps);
  }

  // ---- which lines of a file are kept ----

  lemma SpaceAhead(line: string, k: nat)
    requires 0 < k <= |line| && AllSpace(line[..k])
    ensures IsSpace(line[0])
  {
    assert line[..k][0] == line[0];
  }

  /** A fence is three backticks after nothing but white space. */
  lemma {:induction false} FenceIsTicks(line: string)
    ensures IsFence(line) <==> exists k :: 0 <= k <= |line| - 3 && AllSpace(line[..k]) && line[k..k + 3] == "```"
  {
    if line != "" {
      if IsSpace(line[0]) {
        FenceIsTicks(line[1..]);
        if k :| 0 <= k <= |line[1..]| - 3 && AllSpace(line[1..][..k]) && line[1..][k..k + 3] == "```" {
          assert line[..k + 1] == [line[0]] + line[1..][..k] && line[k + 1..k + 4] == "```";
        }
        if k :| 0 <= k <= |line| - 3 && AllSpace(line[..k]) && line[k..k + 3] == "```" {
          assert k > 0 by { assert line[k] == "```"[0]; }
          assert line[1..][..k - 1] == line[..k][1..] && line[1..][k - 1..k + 2] == "```";
        }
      } else {
        if IsFence(line) {
          assert line[..0] == "" && line[0..3] == "```";
        }
        if k :| 0 <= k <= |line| - 3 && AllSpace(line[..k]) && line[k..k + 3] == "```" {
          if k > 0 {
            SpaceAhead(line, k);
          }
        }
      }
    }
  }

  ghost function FencesBefore(lines: seq<string>, n: nat): set<nat>
    requires n <= |lines|
  {
    set j: nat | j < n && IsFence(lines[j])
  }

  lemma NextFence(lines: seq<string>, n: nat)
    requires 0 < n <= |lines|
    ensures |FencesBefore(lines, n)| == |FencesBefore(lines, n - 1)| + (if IsFence(lines[n - 1]) then 1 else 0)
  {
    var before: set<nat>, last: nat := FencesBefore(lines, n - 1), n - 1;
    if IsFence(lines[last]) {
      assert FencesBefore(lines, n) == before + {last};
    } else {
      assert FencesBefore(lines, n) == before;
    }
  }

  /** Inside a fence means after an odd number of fence lines. */
  lemma {:induction false} InsideIsOdd(lines: seq<string>, n: nat)
    requires n <= |lines|
    ensures Inside(lines, n) <==> |FencesBefore(lines, n)| % 2 == 1
  {
    if n > 0 {
      InsideIsOdd(lines, n - 1);
      NextFence(lines, n);
    }
  }

  ghost predicate EndsWith(file: string, suffix: string) {
    exists stem :: file == stem + suffix
  }

  lemma KindIs(file: string)
    ensures KindOf(file).markdown <==> EndsWith(file, ".md")
    ensures KindOf(file).prose <==> EndsWith(file, ".md") && "docs/" <= file
  {
    if KindOf(file).markdown {
      assert file == file[..|file| - 3] + ".md";
    }
    if stem :| file == stem + ".md" {
      assert file[|file| - 3..] == ".md";
    }
  }

  /** In a file that is not Markdown every line is rewritten. In Markdown fence lines are kept;
    * the others are rewritten under docs/, and elsewhere only after an odd number of fence lines. */
  lemma LinesOfFile(text: string, file: string, ps: Patterns, n: nat)
    requires Compatible(ps) && n < |Split(text, '\n')|
    ensures var lines, after := Split(text, '\n'), Split(RewriteText(text, file, ps), '\n');
            && |after| == |lines|
            && after[n] == if !EndsWith(file, ".md") then RewriteLine(lines[n], ps)
                           else if IsFence(lines[n]) then lines[n]
                           else if "docs/" <= file || |FencesBefore(lines, n)| % 2 == 1 then RewriteLine(lines[n], ps)
                           else lines[n]
  {
    LinesOfRewritten(text, file, ps);
    KindIs(file);
    InsideIsOdd(Split(text, '\n'), n);
  }

  /** A run leaves no source name on an eligible line of a file exactly without shared quotes. */
  lemma FileResidueIff(text: string, file: string, ps: Patterns)
    requires Compatible(ps)
    ensures var after := Split(RewriteText(text, file, ps), '\n');
            (forall n :: 0 <= n < |after| && Eligible(after, KindOf(file), n) ==> !NamesSource(after[n], ps))
            <==> NoSharedQuotesIn(text, file, ps)
  {
    LinesOfRewritten(text, file, ps);
    var lines, kind := Split(text, '\n'), KindOf(file);
    var after := RewriteLines(lines, kind, ps);
    forall n | 0 <= n < |lines|
      ensures Eligible(after, kind, n) <==> Eligible(lines, kind, n)
      ensures Eligible(lines, kind, n) ==> (!NamesSource(after[n], ps) <==> NoSharedQuote(lines[n], ps))
    {
      EligibleStays(lines, kind, ps, n);
      NothingLeftIff(lines[n], ps);
    }
  }
}
