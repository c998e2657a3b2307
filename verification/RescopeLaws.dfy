/** The two laws of rewriting a line: the reverse direction undoes it, and it is idempotent
  * exactly when no two tokens of one name share a quote (scripts/rescope-vendor.ts). */
module RescopeLaws {
  import opened Wrappers
  import opened Text
  import opened RescopeTokens
  import opened RescopePasses
  import opened RescopeScalars
  import opened RescopeLine

  lemma SplitAtTerminator(s: string, e: nat)
    requires FirstTerminator(s) == Some(e)
    ensures s == s[..e] + [s[e]] + s[e + 1..]
  {
  }

  // ---- the round trip ----

  lemma TargetFreeParts(s: string, e: nat, ps: Patterns)
    requires FirstTerminator(s) == Some(e) && TargetFree(s, ps)
    ensures TargetFree(s[..e], ps) && TargetFree(s[e + 1..], ps)
  {
    var a, b := s[..e], s[e + 1..];
    SplitAtTerminator(s, e);
    TerminatorIsSpace(s[e]);
    forall m | 0 <= m < |ps| ensures !HasToken(a, ps[m].to) && !HasToken(b, ps[m].to) {
      HasTokenSplits(a, s[e], b, ps[m].to);
    }
    forall m | 0 <= m < |ps| ensures !HasScalar(a, ps[m].to) && !HasScalar(b, ps[m].to) {
      assert !HasScalar(s, ps[m].to);
      assert HasScalar(a, ps[m].to) == IsScalar(a, ps[m].to, true);
    }
  }

  lemma HasTokenSplits(a: string, t: char, b: string, name: string)
    requires IsSpace(t) && !Quote(t)
    ensures HasToken(a, name) || HasToken(b, name) ==> HasToken(a + [t] + b, name)
  {
    var s := a + [t] + b;
    if i :| 0 <= i < |a| && TokenEnd(a[i..], name).Some? {
      DropInto(a, t, b, i);
      TokenEndBefore(a[i..], t, b, name);
    } else if i :| 0 <= i < |b| && TokenEnd(b[i..], name).Some? {
      assert s[|a| + 1 + i..] == b[i..];
    }
  }

  lemma PieceRoundTrip(s: string, ps: Patterns, qs: Patterns)
    requires Compatible(ps) && Compatible(qs) && Flipped(ps, qs) && OneLine(s) && TargetFree(s, ps)
    ensures RewriteLine(RewriteLine(s, ps), qs) == s
  {
    var head, segs := Head(s), Body(s);
    PieceParts(s);
    GlueStarts(segs);
    forall m, i | 0 <= m < |ps| && 0 <= i < |segs| ensures !IsToken(segs, ps[m].to, i) {
      if IsToken(segs, ps[m].to, i) {
        PieceHasToken(head, segs, ps[m].to, i);
      }
    }
    forall m | 0 <= m < |ps| ensures !IsScalar(head, ps[m].to, segs == []) {
      ScalarInHead(head, Glue(segs), ps[m].to);
      assert HasScalar(s, ps[m].to) == IsScalar(s, ps[m].to, true);
    }
    RewritePieceTwice(head, segs, ps, qs);
    PassesRoundTrip(segs, ps, qs);
    ScalarsRoundTrip(head, ps, qs, segs == []);
  }

  /** Rewriting back restores every line that held no target token and no target scalar,
    * through shared quotes, subpaths and inner line terminators. */
  lemma {:induction false} LineRoundTrip(s: string, ps: Patterns, qs: Patterns)
    requires Compatible(ps) && Compatible(qs) && Flipped(ps, qs) && TargetFree(s, ps)
    ensures RewriteLine(RewriteLine(s, ps), qs) == s
    decreases |s|
  {
    match FirstTerminator(s)
    case None => PieceRoundTrip(s, ps, qs);
    case Some(e) =>
      var a, t, b := s[..e], s[e], s[e + 1..];
      SplitAtTerminator(s, e);
      TargetFreeParts(s, e, ps);
      PieceRoundTrip(a, ps, qs);
      LineRoundTrip(b, ps, qs);
      RewriteSplits(a, t, b, ps);
      RewriteSplits(RewriteLine(a, ps), t, RewriteLine(b, ps), qs);
  }

  // ---- idempotence ----

  lemma {:induction false} GlueIsInjective(a: Segments, b: Segments)
    requires WellCut(a) && WellCut(b) && Glue(a) == Glue(b)
    ensures a == b
    decreases |a|
  {
    GlueStarts(a);
    GlueStarts(b);
    if a != [] {
      GlueOne(a);
      GlueOne(b);
      GlueStarts(a[1..]);
      GlueStarts(b[1..]);
      SameUnquotedPrefix(a[0].text, Glue(a[1..]), b[0].text, Glue(b[1..]));
      GlueIsInjective(a[1..], b[1..]);
      assert a == [a[0]] + a[1..] && b == [b[0]] + b[1..];
    }
  }

  lemma {:induction false} UnquotedUpToHead(x: string, y: string)
    requires Unquoted(x) && AfterHead(y)
    ensures UnquotedLength(x + y) == |x|
  {
    if x == "" {
      assert x + y == y;
    } else {
      assert (x + y)[1..] == x[1..] + y && (x + y)[0] == x[0];
      UnquotedUpToHead(x[1..], y);
    }
  }

  lemma SameUnquotedPrefix(x: string, y: string, u: string, v: string)
    requires Unquoted(x) && Unquoted(u) && AfterHead(y) && AfterHead(v) && x + y == u + v
    ensures x == u && y == v
  {
    UnquotedUpToHead(x, y);
    UnquotedUpToHead(u, v);
    assert x == (x + y)[..|x|] && u == (u + v)[..|u|];
    assert y == (x + y)[|x|..] && v == (u + v)[|u|..];
  }

  ghost predicate NoSharedQuote(s: string, ps: Patterns) {
    forall m :: 0 <= m < |ps| ==> !HasSharedQuote(s, ps[m].from)
  }

  lemma PieceNoSharedQuote(head: string, segs: Segments, ps: Patterns)
    requires Unquoted(head) && WellCut(segs)
    ensures NoSharedQuote(head + Glue(segs), ps) <==> NoSharedQuotes(segs, ps)
  {
    forall m | 0 <= m < |ps|
      ensures HasSharedQuote(head + Glue(segs), ps[m].from) <==> exists j: nat :: SharesQuote(segs, ps[m].from, j)
    {
      PieceSharesQuote(head, segs, ps[m].from);
    }
  }

  lemma PieceIdempotentIff(s: string, ps: Patterns)
    requires Compatible(ps) && OneLine(s)
    ensures RewriteLine(RewriteLine(s, ps), ps) == RewriteLine(s, ps) <==> NoSharedQuote(s, ps)
  {
    var head, segs := Head(s), Body(s);
    PieceParts(s);
    PieceNoSharedQuote(head, segs, ps);
    RewritePiece(head, segs, ps);
    RewritePieceTwice(head, segs, ps, ps);
    ScalarsIdempotent(head, ps, segs == []);
    PassesIdempotentIff(segs, ps);
    var once := PassAll(segs, ps);
    PassAllIsWellCut(segs, ps);
    PassAllIsWellCut(once, ps);
    var h := ScalarAll(head, ps, segs == []);
    if h + Glue(PassAll(once, ps)) == h + Glue(once) {
      assert Glue(PassAll(once, ps)) == (h + Glue(once))[|h|..] == Glue(once);
      GlueIsInjective(PassAll(once, ps), once);
    }
  }

  lemma SharedQuoteExtends(a: string, t: char, b: string, name: string)
    requires IsSpace(t) && !Quote(t)
    ensures HasSharedQuote(a, name) ==> HasSharedQuote(a + [t] + b, name)
    ensures HasSharedQuote(b, name) ==> HasSharedQuote(a + [t] + b, name)
  {
    if i :| 0 <= i < |a| && SharesQuoteAt(a, name, i) {
      SharedInFirst(a, t, b, name, i);
    }
    if i :| 0 <= i < |b| && SharesQuoteAt(b, name, i) {
      SharedInSecond(a, t, b, name, i);
    }
  }

  lemma SharedQuoteInOne(a: string, t: char, b: string, name: string, i: nat)
    requires IsSpace(t) && !Quote(t) && i < |a + [t] + b| && SharesQuoteAt(a + [t] + b, name, i)
    ensures HasSharedQuote(a, name) || HasSharedQuote(b, name)
  {
    SharedStartsAtQuote(a + [t] + b, name, i);
    SharedInWhich(a, t, b, name, i);
  }

  lemma SharedStartsAtQuote(s: string, name: string, i: nat)
    requires i < |s| && SharesQuoteAt(s, name, i)
    ensures Quote(s[i])
  {
    var k := SharedParts(s, name, i);
  }

  lemma SharedInWhich(a: string, t: char, b: string, name: string, i: nat)
    requires IsSpace(t) && !Quote(t) && i < |a + [t] + b| && SharesQuoteAt(a + [t] + b, name, i)
    requires Quote((a + [t] + b)[i])
    ensures HasSharedQuote(a, name) || HasSharedQuote(b, name)
  {
    assert (a + [t] + b)[|a|] == t;
    if i < |a| {
      SharedInFirst(a, t, b, name, i);
    } else {
      SharedInSecond(a, t, b, name, i - |a| - 1);
    }
  }

  lemma SharedQuoteSplits(a: string, t: char, b: string, name: string)
    requires IsSpace(t) && !Quote(t)
    ensures HasSharedQuote(a + [t] + b, name) <==> HasSharedQuote(a, name) || HasSharedQuote(b, name)
  {
    SharedQuoteExtends(a, t, b, name);
    if i :| 0 <= i < |a + [t] + b| && SharesQuoteAt(a + [t] + b, name, i) {
      SharedQuoteInOne(a, t, b, name, i);
    }
  }

  lemma SharedInFirst(a: string, t: char, b: string, name: string, i: nat)
    requires IsSpace(t) && !Quote(t) && i < |a|
    ensures SharesQuoteAt(a + [t] + b, name, i) <==> SharesQuoteAt(a, name, i)
  {
    var s := a + [t] + b;
    DropInto(a, t, b, i);
    TokenEndBefore(a[i..], t, b, name);
    if TokenEnd(a[i..], name).Some? {
      var k := TokenEnd(a[i..], name).value;
      DropInto(a, t, b, i + k);
      TokenEndBefore(a[i + k..], t, b, name);
    }
  }

  lemma SharedInSecond(a: string, t: char, b: string, name: string, i: nat)
    requires i < |b|
    ensures SharesQuoteAt(a + [t] + b, name, |a| + 1 + i) <==> SharesQuoteAt(b, name, i)
  {
    var s := a + [t] + b;
    assert forall k :: 0 <= k <= |b| ==> s[|a| + 1 + k..] == b[k..];
  }

  lemma NoSharedQuoteSplits(a: string, t: char, b: string, ps: Patterns)
    requires IsSpace(t) && !Quote(t)
    ensures NoSharedQuote(a + [t] + b, ps) <==> NoSharedQuote(a, ps) && NoSharedQuote(b, ps)
  {
    forall m | 0 <= m < |ps|
      ensures HasSharedQuote(a + [t] + b, ps[m].from) <==> HasSharedQuote(a, ps[m].from) || HasSharedQuote(b, ps[m].from)
    {
      SharedQuoteSplits(a, t, b, ps[m].from);
    }
  }

  lemma SameAroundTerminator(a: string, t: char, b: string, x: string, y: string)
    requires OneLine(a) && OneLine(x) && Terminator(t)
    ensures a + [t] + b == x + [t] + y <==> a == x && b == y
  {
    FirstTerminatorIs(a, t, b);
    FirstTerminatorIs(x, t, y);
    assert (a + [t] + b)[..|a|] == a && (a + [t] + b)[|a| + 1..] == b;
    assert (x + [t] + y)[..|x|] == x && (x + [t] + y)[|x| + 1..] == y;
  }

  /** A second run changes nothing exactly on the lines where no two tokens of one name share
    * a quote; the exception is a run of quoted names such as 'cordis'cordis'. */
  lemma {:induction false} LineIdempotentIff(s: string, ps: Patterns)
    requires Compatible(ps)
    ensures RewriteLine(RewriteLine(s, ps), ps) == RewriteLine(s, ps) <==> NoSharedQuote(s, ps)
    decreases |s|
  {
    match FirstTerminator(s)
    case None => PieceIdempotentIff(s, ps);
    case Some(e) =>
      var a, t, b := s[..e], s[e], s[e + 1..];
      SplitAtTerminator(s, e);
      TerminatorIsSpace(t);
      PieceIdempotentIff(a, ps);
      LineIdempotentIff(b, ps);
      NoSharedQuoteSplits(a, t, b, ps);
      var a1, b1 := RewriteLine(a, ps), RewriteLine(b, ps);
      RewriteSplits(a, t, b, ps);
      RewriteSplits(a1, t, b1, ps);
      SameAroundTerminator(RewriteLine(a1, ps), t, RewriteLine(b1, ps), a1, b1);
  }
}
