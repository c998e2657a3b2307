/** Rewriting one line with all patterns in turn (scripts/rescope-vendor.ts, `rewriteLine`):
  * the reverse direction undoes it, and when it is idempotent. A line has no newline but may
  * hold other line terminators, at which a `name:` scalar can start and end. */
module RescopeLine {
  import opened Wrappers
  import opened Text
  import opened RescopeTokens
  import opened RescopePasses
  import opened RescopeScalars

  predicate Terminator(c: char) {
    c == '\n' || c == '\r' || c == '\U{2028}' || c == '\U{2029}'
  }

  predicate OneLine(s: string) {
    forall i :: 0 <= i < |s| ==> !Terminator(s[i])
  }

  function FirstTerminator(s: string): (r: Option<nat>)
    ensures r.Some? ==> r.value < |s| && Terminator(s[r.value]) && OneLine(s[..r.value])
    ensures r.Some? ==> forall i :: 0 <= i < r.value ==> !Terminator(s[i])
    ensures r.None? ==> OneLine(s)
  {
    if s == "" then None
    else if Terminator(s[0]) then Some(0)
    else match FirstTerminator(s[1..])
      case None =>
        assert forall i :: 0 < i < |s| ==> s[i] == s[1..][i - 1];
        None
      case Some(k) =>
        assert s[..k + 1] == [s[0]] + s[1..][..k];
        Some(k + 1)
  }

  /** The scalar pattern's replacement: `^` and `$` also match at inner line terminators. */
  function ReplaceScalars(s: string, p: Pattern): string
    decreases |s|
  {
    match FirstTerminator(s)
    case None => ReplaceScalar(s, p, true)
    case Some(e) => ReplaceScalar(s[..e], p, true) + [s[e]] + ReplaceScalars(s[e + 1..], p)
  }

  function RewriteLine(line: string, ps: Patterns): string
    decreases |ps|
  {
    if ps == [] then line else RewriteLine(ReplaceScalars(ReplaceTokens(line, ps[0]), ps[0]), ps[1..])
  }

  // ---- a line is rewritten piece by piece between terminators ----

  lemma FirstTerminatorIs(a: string, t: char, b: string)
    requires OneLine(a) && Terminator(t)
    ensures FirstTerminator(a + [t] + b) == Some(|a|)
  {
    var s := a + [t] + b;
    assert s[|a|] == t;
    assert forall m :: 0 <= m < |a| ==> s[m] == a[m];
  }

  lemma TerminatorIsSpace(t: char)
    ensures Terminator(t) ==> IsSpace(t) && !Quote(t)
  {
  }

  lemma {:induction false} ContentEndBefore(a: string, t: char, b: string, i: nat)
    requires i <= |a| && IsSpace(t)
    ensures ContentEnd(a + [t] + b, i) == ContentEnd(a, i)
    decreases |a| - i
  {
    var s := a + [t] + b;
    if i < |a| {
      assert s[i] == a[i];
      if !(Quote(a[i]) || IsSpace(a[i])) {
        ContentEndBefore(a, t, b, i + 1);
      }
    } else {
      assert s[|a|] == t;
    }
  }

  lemma TokenEndBefore(a: string, t: char, b: string, name: string)
    requires a != "" && IsSpace(t) && !Quote(t)
    ensures TokenEnd(a + [t] + b, name) == TokenEnd(a, name)
  {
    var s := a + [t] + b;
    if Quote(a[0]) {
      ContentEndBefore(a, t, b, 1);
      var k := ContentEnd(a, 1);
      assert s[1..k] == a[1..k];
      assert k == |a| ==> s[k] == t;
    }
  }

  lemma DropInto(a: string, t: char, b: string, k: nat)
    requires k <= |a|
    ensures (a + [t] + b)[k..] == a[k..] + [t] + b
  {
  }

  lemma {:induction false} ReplaceTokensSplits(a: string, t: char, b: string, p: Pattern)
    requires IsSpace(t) && !Quote(t)
    ensures ReplaceTokens(a + [t] + b, p) == ReplaceTokens(a, p) + [t] + ReplaceTokens(b, p)
    decreases |a|
  {
    var s := a + [t] + b;
    if a == "" {
      assert s == [t] + b && s[1..] == b;
      ReplaceNoMatch(s, p);
    } else {
      TokenEndBefore(a, t, b, p.from);
      match TokenEnd(a, p.from) {
        case Some(k) =>
          DropInto(a, t, b, k + 1);
          ReplaceTokensSplits(a[k + 1..], t, b, p);
          assert s[1..k] == a[1..k];
          ReplaceMatch(s, p, k);
          ReplaceMatch(a, p, k);
          Regroup3([s[0]] + Renamed(s[1..k], p) + [s[k]], ReplaceTokens(a[k + 1..], p), [t], ReplaceTokens(b, p));
        case None =>
          DropInto(a, t, b, 1);
          ReplaceTokensSplits(a[1..], t, b, p);
          ReplaceNoMatch(s, p);
          ReplaceNoMatch(a, p);
          Regroup3([a[0]], ReplaceTokens(a[1..], p), [t], ReplaceTokens(b, p));
      }
    }
  }

  lemma Regroup3(x: string, a: string, t: string, b: string)
    ensures x + (a + t + b) == (x + a) + t + b
  {
  }

  lemma NameIsOneLine(name: string)
    requires Name(name)
    ensures OneLine(name)
  {
  }

  lemma ConcatOneLine(a: string, b: string)
    ensures OneLine(a + b) <==> OneLine(a) && OneLine(b)
  {
    forall i | 0 <= i < |a| ensures (a + b)[i] == a[i] {
    }
    forall i | 0 <= i < |b| ensures (a + b)[|a| + i] == b[i] {
    }
    if OneLine(a + b) {
      forall i | 0 <= i < |b| ensures !Terminator(b[i]) {
        assert (a + b)[|a| + i] == b[i];
      }
    }
  }

  lemma {:induction false} ReplaceTokensOneLine(s: string, p: Pattern)
    requires OneLine(s) && Name(p.to)
    ensures OneLine(ReplaceTokens(s, p))
    decreases |s|
  {
    if s != "" {
      match TokenEnd(s, p.from) {
        case Some(k) =>
          ReplaceTokensOneLine(s[k + 1..], p);
          NameIsOneLine(p.to);
          ReplaceMatch(s, p, k);
          var sub := s[1..k][|p.from|..];
          assert forall i :: 0 <= i < |sub| ==> sub[i] == s[1 + |p.from| + i];
        case None =>
          ReplaceTokensOneLine(s[1..], p);
          ReplaceNoMatch(s, p);
      }
    }
  }

  lemma ReplaceScalarOneLine(s: string, p: Pattern)
    requires OneLine(s) && Name(p.to)
    ensures OneLine(ReplaceScalar(s, p, true))
  {
    if IsScalar(s, p.from, true) {
      var k := KeyEnd(s).value;
      NameIsOneLine(p.to);
      ConcatOneLine(s[..k], p.to + s[k..][|p.from|..]);
      ConcatOneLine(p.to, s[k..][|p.from|..]);
    }
  }

  lemma ReplaceScalarsSplits(a: string, t: char, b: string, p: Pattern)
    requires OneLine(a) && Terminator(t)
    ensures ReplaceScalars(a + [t] + b, p) == ReplaceScalar(a, p, true) + [t] + ReplaceScalars(b, p)
  {
    var s := a + [t] + b;
    FirstTerminatorIs(a, t, b);
    assert s[..|a|] == a && s[|a|] == t && s[|a| + 1..] == b;
  }

  lemma ReplaceScalarsOneLine(s: string, p: Pattern)
    requires OneLine(s)
    ensures ReplaceScalars(s, p) == ReplaceScalar(s, p, true)
  {
  }

  lemma {:induction false} RewriteSplits(a: string, t: char, b: string, ps: Patterns)
    requires OneLine(a) && Terminator(t) && Compatible(ps)
    ensures RewriteLine(a + [t] + b, ps) == RewriteLine(a, ps) + [t] + RewriteLine(b, ps)
    ensures OneLine(RewriteLine(a, ps))
    decreases |ps|
  {
    if ps != [] {
      var p := ps[0];
      CompatibleTail(ps);
      TerminatorIsSpace(t);
      ReplaceTokensSplits(a, t, b, p);
      ReplaceTokensOneLine(a, p);
      var a', b' := ReplaceTokens(a, p), ReplaceTokens(b, p);
      ReplaceScalarsSplits(a', t, b', p);
      ReplaceScalarOneLine(a', p);
      ReplaceScalarsOneLine(a', p);
      RewriteSplits(ReplaceScalar(a', p, true), t, ReplaceScalars(b', p), ps[1..]);
    }
  }

  // ---- one piece: a head and segments ----

  lemma {:induction false} RewritePiece(head: string, segs: Segments, ps: Patterns)
    requires Compatible(ps) && Unquoted(head) && WellCut(segs) && OneLine(head + Glue(segs))
    ensures RewriteLine(head + Glue(segs), ps) == ScalarAll(head, ps, segs == []) + Glue(PassAll(segs, ps))
    decreases |ps|
  {
    if ps != [] {
      var p := ps[0];
      CompatibleTail(ps);
      ReplaceIsPass(head, segs, p);
      ReplaceTokensOneLine(head + Glue(segs), p);
      var segs' := Pass(segs, p);
      PassIsWellCut(segs, p);
      GlueStarts(segs');
      ReplaceScalarsOneLine(head + Glue(segs'), p);
      ReplaceInHead(head, Glue(segs'), p);
      ReplaceScalarOneLine(head + Glue(segs'), p);
      ReplacedIsUnquoted(head, p, segs == []);
      RewritePiece(ReplaceScalar(head, p, segs == []), segs', ps[1..]);
    }
  }

  lemma {:induction false} RewriteOneLine(s: string, ps: Patterns)
    requires OneLine(s) && Compatible(ps)
    ensures OneLine(RewriteLine(s, ps))
    decreases |ps|
  {
    if ps != [] {
      CompatibleTail(ps);
      ReplaceTokensOneLine(s, ps[0]);
      ReplaceScalarsOneLine(ReplaceTokens(s, ps[0]), ps[0]);
      ReplaceScalarOneLine(ReplaceTokens(s, ps[0]), ps[0]);
      RewriteOneLine(ReplaceScalars(ReplaceTokens(s, ps[0]), ps[0]), ps[1..]);
    }
  }

  /** Rewriting a piece twice, in its head and in its segments. */
  lemma RewritePieceTwice(head: string, segs: Segments, ps: Patterns, qs: Patterns)
    requires Compatible(ps) && Compatible(qs) && Unquoted(head) && WellCut(segs) && OneLine(head + Glue(segs))
    ensures RewriteLine(RewriteLine(head + Glue(segs), ps), qs)
         == ScalarAll(ScalarAll(head, ps, segs == []), qs, segs == []) + Glue(PassAll(PassAll(segs, ps), qs))
  {
    RewritePiece(head, segs, ps);
    RewriteOneLine(head + Glue(segs), ps);
    ScalarAllIsUnquoted(head, ps, segs == []);
    PassAllIsWellCut(segs, ps);
    RewritePiece(ScalarAll(head, ps, segs == []), PassAll(segs, ps), qs);
  }

  function Head(s: string): string {
    s[..UnquotedLength(s)]
  }

  function Body(s: string): Segments {
    Cut(s[UnquotedLength(s)..])
  }

  lemma SplitAt(s: string, u: nat)
    requires u <= |s|
    ensures s == s[..u] + s[u..]
  {
  }

  lemma PieceParts(s: string)
    ensures s == Head(s) + Glue(Body(s)) && Unquoted(Head(s)) && WellCut(Body(s))
  {
    var u := UnquotedLength(s);
    CutGlues(s[u..]);
    SplitAt(s, u);
  }

  // ---- what a line mentions ----

  /** A token of the name stands somewhere on the line. */
  ghost predicate HasToken(s: string, name: string) {
    exists i :: 0 <= i < |s| && TokenEnd(s[i..], name).Some?
  }

  /** Some piece of the line is a `name:` scalar of the name. */
  predicate HasScalar(s: string, name: string)
    decreases |s|
  {
    match FirstTerminator(s)
    case None => IsScalar(s, name, true)
    case Some(e) => IsScalar(s[..e], name, true) || HasScalar(s[e + 1..], name)
  }

  ghost predicate TargetFree(s: string, ps: Patterns) {
    forall m :: 0 <= m < |ps| ==> !HasToken(s, ps[m].to) && !HasScalar(s, ps[m].to)
  }

  /** Two tokens of the name share a quote. */
  ghost predicate SharesQuoteAt(s: string, name: string, i: nat)
    requires i < |s|
  {
    && TokenEnd(s[i..], name).Some?
    && TokenEnd(s[i + TokenEnd(s[i..], name).value..], name).Some?
  }

  ghost predicate HasSharedQuote(s: string, name: string) {
    exists i :: 0 <= i < |s| && SharesQuoteAt(s, name, i)
  }

  // ---- from text positions to segments and back ----

  lemma {:induction false} SegmentPosition(head: string, segs: Segments, j: nat) returns (i: nat)
    requires j < |segs|
    ensures i < |head + Glue(segs)| && (head + Glue(segs))[i..] == Glue(segs[j..])
    ensures i >= |head|
    decreases j
  {
    if j == 0 {
      i := |head|;
      GlueOne(segs);
      assert (head + Glue(segs))[|head|..] == Glue(segs) && segs[0..] == segs;
    } else {
      var longer := head + ([segs[0].quote] + segs[0].text);
      GlueOne(segs);
      i := SegmentPosition(longer, segs[1..], j - 1);
      assert longer + Glue(segs[1..]) == head + Glue(segs);
      assert segs[1..][j - 1..] == segs[j..];
    }
  }

  lemma AfterText(s: string, text: string, at: nat, i: nat)
    requires at + |text| <= |s| && (forall m :: 0 <= m < |text| ==> s[at + m] == text[m])
    requires Unquoted(text) && at <= i < |s| && Quote(s[i])
    ensures i >= at + |text|
  {
    forall m | at <= m < at + |text| ensures !Quote(s[m]) {
      assert s[at + (m - at)] == text[m - at];
    }
  }

  lemma {:induction false} QuotePosition(head: string, segs: Segments, i: nat) returns (j: nat)
    requires Unquoted(head) && WellCut(segs) && i < |head + Glue(segs)| && Quote((head + Glue(segs))[i])
    ensures j < |segs| && (head + Glue(segs))[i..] == Glue(segs[j..])
    decreases |segs|
  {
    var s := head + Glue(segs);
    assert forall m :: 0 <= m < |head| ==> s[m] == head[m];
    assert i >= |head|;
    GlueStarts(segs);
    if i == |head| {
      j := 0;
      assert s[|head|..] == Glue(segs) && segs[0..] == segs;
    } else {
      GlueOne(segs);
      var text := segs[0].text;
      assert s == (head + [segs[0].quote]) + (text + Glue(segs[1..]));
      assert forall m :: 0 <= m < |text| ==> s[|head| + 1 + m] == text[m];
      AfterText(s, text, |head| + 1, i);
      var rest := text + Glue(segs[1..]);
      var at := i - |head| - 1;
      assert rest[at] == s[i] && rest[at..] == s[i..];
      j := QuotePosition(text, segs[1..], at);
      assert segs[1..][j..] == segs[j + 1..];
      j := j + 1;
    }
  }

  lemma TokenAtSegment(segs: Segments, name: string, j: nat)
    requires WellCut(segs) && j < |segs|
    ensures TokenEnd(Glue(segs[j..]), name) == if IsToken(segs, name, j) then Some(1 + |segs[j].text|) else None
  {
    TokenEndOfSegments(segs[j..], name);
  }

  lemma PieceHasToken(head: string, segs: Segments, name: string, j: nat)
    requires WellCut(segs) && j < |segs| && IsToken(segs, name, j)
    ensures HasToken(head + Glue(segs), name)
  {
    var i := SegmentPosition(head, segs, j);
    TokenAtSegment(segs, name, j);
  }

  lemma GlueDropOne(segs: Segments, j: nat)
    requires j < |segs|
    ensures 1 + |segs[j].text| <= |Glue(segs[j..])| && Glue(segs[j..])[1 + |segs[j].text|..] == Glue(segs[j + 1..])
  {
    GlueFrom(segs, j);
  }

  lemma SharesAt(s: string, name: string, i: nat, k: nat)
    requires i < |s| && TokenEnd(s[i..], name) == Some(k) && TokenEnd(s[i..][k..], name).Some?
    ensures HasSharedQuote(s, name)
  {
    assert s[i..][k..] == s[i + k..];
    assert SharesQuoteAt(s, name, i);
  }

  lemma AdjacentTokensShare(head: string, segs: Segments, name: string, j: nat)
    requires WellCut(segs) && SharesQuote(segs, name, j)
    ensures HasSharedQuote(head + Glue(segs), name)
  {
    var i := SegmentPosition(head, segs, j);
    TokenAtSegment(segs, name, j);
    TokenAtSegment(segs, name, j + 1);
    GlueDropOne(segs, j);
    SharesAt(head + Glue(segs), name, i, 1 + |segs[j].text|);
  }

  lemma SharedParts(s: string, name: string, i: nat) returns (k: nat)
    requires i < |s| && SharesQuoteAt(s, name, i)
    ensures Quote(s[i]) && TokenEnd(s[i..], name) == Some(k)
    ensures TokenEnd(s[i..][k..], name).Some?
  {
    k := TokenEnd(s[i..], name).value;
    assert s[i..][k..] == s[i + k..];
    assert s[i..][0] == s[i];
  }

  lemma SharedAreAdjacent(head: string, segs: Segments, name: string, i: nat) returns (j: nat)
    requires Unquoted(head) && WellCut(segs)
    requires i < |head + Glue(segs)| && SharesQuoteAt(head + Glue(segs), name, i)
    ensures SharesQuote(segs, name, j)
  {
    var k := SharedParts(head + Glue(segs), name, i);
    j := QuotePosition(head, segs, i);
    TokenAtSegment(segs, name, j);
    GlueDropOne(segs, j);
    TokenAtSegment(segs, name, j + 1);
  }

  /** On one piece, shared quotes in the text are adjacent tokens among the segments. */
  lemma PieceSharesQuote(head: string, segs: Segments, name: string)
    requires Unquoted(head) && WellCut(segs)
    ensures HasSharedQuote(head + Glue(segs), name) <==> exists j: nat :: SharesQuote(segs, name, j)
  {
    if j: nat :| SharesQuote(segs, name, j) {
      AdjacentTokensShare(head, segs, name, j);
    }
    if HasSharedQuote(head + Glue(segs), name) {
      var i :| 0 <= i < |head + Glue(segs)| && SharesQuoteAt(head + Glue(segs), name, i);
      var j := SharedAreAdjacent(head, segs, name, i);
    }
  }
}
