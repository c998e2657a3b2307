/** The laws of rewriting a file (scripts/rescope-vendor.ts, `rewrite`): rewriting keeps every
  * line and every fence where it is, the reverse direction undoes it, and when it is idempotent. */
module RescopeFileLaws {
  import opened Text
  import opened RescopeTokens
  import opened RescopePasses
  import opened RescopeScalars
  import opened RescopeLine
  import opened RescopeLaws
  import opened RescopeFile

  // ---- rewriting moves no fence and breaks no line ----

  lemma {:induction false} TicksStay(t: string, p: Pattern, ticks: string)
    requires Name(p.to) && ticks <= ReplaceTokens(t, p) && forall i :: 0 <= i < |ticks| ==> ticks[i] == '`'
    ensures ticks <= t
    decreases |t|
  {
    if t != "" && ticks != "" {
      match TokenEnd(t, p.from) {
        case Some(k) =>
          ReplaceMatch(t, p, k);
          assert ReplaceTokens(t, p)[1] == p.to[0] != '`';
          assert |ticks| <= 1;
        case None =>
          ReplaceNoMatch(t, p);
          assert ReplaceTokens(t, p)[1..] == ReplaceTokens(t[1..], p);
          TicksStay(t[1..], p, ticks[1..]);
          assert t == [t[0]] + t[1..] && ticks == [t[0]] + ticks[1..];
      }
    }
  }

  lemma {:induction false} TokensMakeNoFence(s: string, p: Pattern)
    requires Name(p.to)
    ensures IsFence(ReplaceTokens(s, p)) ==> IsFence(s)
  {
    if s != "" {
      if IsSpace(s[0]) {
        TokensMakeNoFence(s[1..], p);
        BlankIsNoQuote(s[0]);
        ReplaceNoMatch(s, p);
        assert ReplaceTokens(s, p)[1..] == ReplaceTokens(s[1..], p);
      } else if IsFence(ReplaceTokens(s, p)) {
        FirstStays(s, p);
        TicksStay(s, p, "```");
      }
    }
  }

  lemma FirstStays(s: string, p: Pattern)
    requires s != ""
    ensures ReplaceTokens(s, p) != "" && ReplaceTokens(s, p)[0] == s[0]
  {
  }

  lemma BlankIsNoQuote(c: char)
    requires IsSpace(c)
    ensures !Quote(c)
  {
  }

  predicate AllSpace(s: string) {
    forall i :: 0 <= i < |s| ==> IsSpace(s[i])
  }

  lemma {:induction false} FenceInPieces(a: string, t: char, b: string)
    requires IsSpace(t)
    ensures IsFence(a + [t] + b) == if AllSpace(a) then IsFence(b) else IsFence(a)
  {
    var s := a + [t] + b;
    if a == "" {
      assert s[1..] == b;
    } else if IsSpace(a[0]) {
      assert s[1..] == a[1..] + [t] + b;
      FenceInPieces(a[1..], t, b);
      assert AllSpace(a[1..]) ==> AllSpace(a);
    } else {
      BlankIsNoQuote(t);
      assert forall i :: 0 <= i < |a| ==> s[i] == a[i];
      assert s[|a|] == t;
    }
  }

  lemma {:induction false} NoFenceAt(s: string, i: nat)
    requires i < |s| && !IsSpace(s[i]) && s[i] != '`' && forall j :: 0 <= j < i ==> IsSpace(s[j])
    ensures !IsFence(s)
  {
    if i > 0 {
      NoFenceAt(s[1..], i - 1);
    }
  }

  /** A scalar's line starts, after white space, with its dash or its key. */
  lemma ScalarStart(s: string, name: string) returns (i: nat)
    requires IsScalar(s, name, true)
    ensures KeyEnd(s).Some? && i < KeyEnd(s).value && !IsSpace(s[i]) && s[i] != '`' && forall j :: 0 <= j < i ==> IsSpace(s[j])
  {
    i := SkipSpace(s, 0);
    var j := KeyStart(s);
    assert s[j] == s[j..j + 5][0] == 'n';
  }

  lemma ScalarIsNoFence(s: string, p: Pattern)
    requires IsScalar(s, p.from, true)
    ensures !IsFence(s) && !IsFence(ReplaceScalar(s, p, true))
    ensures !AllSpace(s) && !AllSpace(ReplaceScalar(s, p, true))
  {
    var i := ScalarStart(s, p.from);
    var k := KeyEnd(s).value;
    var r := ReplaceScalar(s, p, true);
    assert forall j :: 0 <= j < k ==> r[j] == s[j];
    NoFenceAt(s, i);
    NoFenceAt(r, i);
  }

  lemma {:induction false} ScalarsMakeNoFence(s: string, p: Pattern)
    ensures IsFence(ReplaceScalars(s, p)) ==> IsFence(s)
    decreases |s|
  {
    match FirstTerminator(s)
    case None =>
      if IsScalar(s, p.from, true) {
        ScalarIsNoFence(s, p);
      }
    case Some(e) =>
      var a, t, b := s[..e], s[e], s[e + 1..];
      SplitAtTerminator(s, e);
      TerminatorIsSpace(t);
      ScalarsMakeNoFence(b, p);
      FenceInPieces(a, t, b);
      FenceInPieces(ReplaceScalar(a, p, true), t, ReplaceScalars(b, p));
      if IsScalar(a, p.from, true) {
        ScalarIsNoFence(a, p);
      }
  }

  lemma {:induction false} LineMakesNoFence(s: string, ps: Patterns)
    requires Compatible(ps)
    ensures IsFence(RewriteLine(s, ps)) ==> IsFence(s)
    decreases |ps|
  {
    if ps != [] {
      CompatibleTail(ps);
      TokensMakeNoFence(s, ps[0]);
      ScalarsMakeNoFence(ReplaceTokens(s, ps[0]), ps[0]);
      LineMakesNoFence(ReplaceScalars(ReplaceTokens(s, ps[0]), ps[0]), ps[1..]);
    }
  }

  lemma {:induction false} TokensBreakNoLine(s: string, p: Pattern)
    requires Name(p.to) && '\n' !in s
    ensures '\n' !in ReplaceTokens(s, p)
    decreases |s|
  {
    if s != "" {
      match TokenEnd(s, p.from) {
        case Some(k) =>
          TokensBreakNoLine(s[k + 1..], p);
          ReplaceMatch(s, p, k);
          NameBreaksNoLine(p.to);
        case None =>
          TokensBreakNoLine(s[1..], p);
          ReplaceNoMatch(s, p);
      }
    }
  }

  lemma NameBreaksNoLine(name: string)
    requires Name(name)
    ensures '\n' !in name
  {
    assert IsSpace('\n');
  }

  lemma ScalarBreaksNoLine(s: string, p: Pattern)
    requires Name(p.to) && '\n' !in s
    ensures '\n' !in ReplaceScalar(s, p, true)
  {
    NameBreaksNoLine(p.to);
  }

  lemma {:induction false} ScalarsBreakNoLine(s: string, p: Pattern)
    requires Name(p.to) && '\n' !in s
    ensures '\n' !in ReplaceScalars(s, p)
    decreases |s|
  {
    match FirstTerminator(s)
    case None => ScalarBreaksNoLine(s, p);
    case Some(e) =>
      ScalarBreaksNoLine(s[..e], p);
      ScalarsBreakNoLine(s[e + 1..], p);
      assert s[e] in s;
  }

  lemma {:induction false} RewriteBreaksNoLine(s: string, ps: Patterns)
    requires Compatible(ps) && '\n' !in s
    ensures '\n' !in RewriteLine(s, ps)
    decreases |ps|
  {
    if ps != [] {
      CompatibleTail(ps);
      TokensBreakNoLine(s, ps[0]);
      ScalarsBreakNoLine(ReplaceTokens(s, ps[0]), ps[0]);
      RewriteBreaksNoLine(ReplaceScalars(ReplaceTokens(s, ps[0]), ps[0]), ps[1..]);
    }
  }

  /** The rewritten text's lines are the rewritten lines. */
  lemma LinesOfRewritten(text: string, file: string, ps: Patterns)
    requires Compatible(ps)
    ensures Split(RewriteText(text, file, ps), '\n') == RewriteLines(Split(text, '\n'), KindOf(file), ps)
  {
    var lines := Split(text, '\n');
    var after := RewriteLines(lines, KindOf(file), ps);
    forall n | 0 <= n < |after| ensures '\n' !in after[n] {
      RewriteBreaksNoLine(lines[n], ps);
    }
    SplitOfJoin(after, '\n');
  }

  lemma FenceStays(lines: seq<string>, kind: Kind, ps: Patterns, n: nat)
    requires Compatible(ps) && kind.markdown && n < |lines|
    ensures IsFence(RewriteLines(lines, kind, ps)[n]) == IsFence(lines[n])
  {
    LineMakesNoFence(lines[n], ps);
  }

  lemma {:induction false} InsideStays(lines: seq<string>, kind: Kind, ps: Patterns, n: nat)
    requires Compatible(ps) && kind.markdown && n <= |lines|
    ensures Inside(RewriteLines(lines, kind, ps), n) == Inside(lines, n)
  {
    if n > 0 {
      FenceStays(lines, kind, ps, n - 1);
      InsideStays(lines, kind, ps, n - 1);
    }
  }

  /** Rewriting opens and closes no fence: a second run rewrites the same lines. */
  lemma EligibleStays(lines: seq<string>, kind: Kind, ps: Patterns, n: nat)
    requires Compatible(ps) && n < |lines|
    ensures Eligible(RewriteLines(lines, kind, ps), kind, n) == Eligible(lines, kind, n)
  {
    if kind.markdown {
      FenceStays(lines, kind, ps, n);
      InsideStays(lines, kind, ps, n);
    }
  }

  // ---- the two laws of a file ----

  /** No eligible line holds a target name, as a token or as a scalar. */
  ghost predicate NothingRenamedYet(text: string, file: string, ps: Patterns) {
    var lines := Split(text, '\n');
    forall n :: 0 <= n < |lines| && Eligible(lines, KindOf(file), n) ==> TargetFree(lines[n], ps)
  }

  lemma TextRoundTrip(text: string, file: string, ps: Patterns, qs: Patterns)
    requires Compatible(ps) && Compatible(qs) && Flipped(ps, qs) && NothingRenamedYet(text, file, ps)
    ensures RewriteText(RewriteText(text, file, ps), file, qs) == text
  {
    var lines, kind := Split(text, '\n'), KindOf(file);
    var after := RewriteLines(lines, kind, ps);
    LinesOfRewritten(text, file, ps);
    forall n | 0 <= n < |lines| ensures LineAfter(after, kind, qs, n) == lines[n] {
      EligibleStays(lines, kind, ps, n);
      if Eligible(lines, kind, n) {
        LineRoundTrip(lines[n], ps, qs);
      }
    }
    assert RewriteLines(after, kind, qs) == lines;
    JoinOfSplit(text, '\n');
  }

  /** Either direction undoes the other on every file whose eligible lines held none of the
    * names it writes, for every table of unambiguous names and all per-file skips. */
  lemma ReverseUndoesRewrite(text: string, file: string, renames: seq<Rename>, skips: Skips, reverse: bool)
    requires Unambiguous(renames) && NothingRenamedYet(text, file, PatternsFor(renames, reverse, file, skips))
    ensures var once := RewriteText(text, file, PatternsFor(renames, reverse, file, skips));
            RewriteText(once, file, PatternsFor(renames, !reverse, file, skips)) == text
  {
    PatternsAreCompatible(renames, reverse, file, skips);
    PatternsAreCompatible(renames, !reverse, file, skips);
    DirectionsFlip(renames, reverse, file, skips);
    TextRoundTrip(text, file, PatternsFor(renames, reverse, file, skips), PatternsFor(renames, !reverse, file, skips));
  }

  lemma {:induction false} JoinIsInjective(a: seq<string>, b: seq<string>)
    requires |a| == |b| && a != [] && (forall n :: 0 <= n < |a| ==> '\n' !in a[n] && '\n' !in b[n])
    ensures Join(a, '\n') == Join(b, '\n') <==> a == b
  {
    SplitOfJoin(a, '\n');
    SplitOfJoin(b, '\n');
  }

  ghost predicate NoSharedQuotesIn(text: string, file: string, ps: Patterns) {
    var lines := Split(text, '\n');
    forall n :: 0 <= n < |lines| && Eligible(lines, KindOf(file), n) ==> NoSharedQuote(lines[n], ps)
  }

  lemma SecondRunOnLine(lines: seq<string>, kind: Kind, ps: Patterns, n: nat)
    requires Compatible(ps) && n < |lines|
    ensures var after := RewriteLines(lines, kind, ps);
            LineAfter(after, kind, ps, n) == after[n] <==> (Eligible(lines, kind, n) ==> NoSharedQuote(lines[n], ps))
  {
    EligibleStays(lines, kind, ps, n);
    LineIdempotentIff(lines[n], ps);
  }

  /** A second run changes nothing exactly when no eligible line has two tokens of one name
    * sharing a quote. */
  lemma TextIdempotentIff(text: string, file: string, ps: Patterns)
    requires Compatible(ps)
    ensures var once := RewriteText(text, file, ps);
            RewriteText(once, file, ps) == once <==> NoSharedQuotesIn(text, file, ps)
  {
    var lines, kind := Split(text, '\n'), KindOf(file);
    var after := RewriteLines(lines, kind, ps);
    var again := RewriteLines(after, kind, ps);
    LinesOfRewritten(text, file, ps);
    LinesOfRewritten(RewriteText(text, file, ps), file, ps);
    JoinIsInjective(again, after);
    forall n | 0 <= n < |lines|
      ensures again[n] == after[n] <==> (Eligible(lines, kind, n) ==> NoSharedQuote(lines[n], ps))
    {
      SecondRunOnLine(lines, kind, ps, n);
    }
    assert again == after <==> forall n :: 0 <= n < |lines| ==> again[n] == after[n];
  }

  /** A file counts changed lines exactly when its text changes. */
  lemma NoneChangedIffSame(text: string, file: string, ps: Patterns)
    requires Compatible(ps)
    ensures var lines := Split(text, '\n');
            |ChangedLines(RewriteLines(lines, KindOf(file), ps), lines)| == 0 <==> RewriteText(text, file, ps) == text
  {
    var lines := Split(text, '\n');
    var after := RewriteLines(lines, KindOf(file), ps);
    JoinOfSplit(text, '\n');
    LinesOfRewritten(text, file, ps);
    SameIffNoneChanged(after, lines);
  }

  lemma SameIffNoneChanged(out: seq<string>, lines: seq<string>)
    requires |out| == |lines|
    ensures |ChangedLines(out, lines)| == 0 <==> out == lines
  {
    if out != lines {
      var n :| 0 <= n < |lines| && out[n] != lines[n];
      assert n in ChangedLines(out, lines);
    }
  }
}
