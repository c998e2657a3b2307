/** All patterns' passes over one line's segments: what they do together, how the reverse
  * passes undo them, and when a second run changes nothing (scripts/rescope-vendor.ts). */
module RescopePasses {
  import opened Wrappers
  import opened Text
  import opened RescopeTokens

  type Patterns = seq<Pattern>

  /** Neither name is the other or lies under it. */
  predicate Apart(a: string, b: string) {
    !IsNamed(a, b) && !IsNamed(b, a)
  }

  /** Names that no rewrite can confuse with one another. */
  ghost predicate Compatible(ps: Patterns) {
    && (forall i :: 0 <= i < |ps| ==> Name(ps[i].from) && Name(ps[i].to))
    && (forall i, j :: 0 <= i < |ps| && 0 <= j < |ps| && i != j ==> Apart(ps[i].from, ps[j].from) && Apart(ps[i].to, ps[j].to))
    && (forall i, j :: 0 <= i < |ps| && 0 <= j < |ps| ==> Apart(ps[i].from, ps[j].to))
  }

  lemma NamesMeet(text: string, a: string, b: string)
    requires IsNamed(text, a) && IsNamed(text, b)
    ensures !Apart(a, b)
  {
    assert a == text[..|a|] && b == text[..|b|];
    if |a| < |b| {
      assert text[..|b|][..|a| + 1] == text[..|a| + 1] == a + "/";
    } else if |b| < |a| {
      assert text[..|a|][..|b| + 1] == text[..|b| + 1] == b + "/";
    }
  }

  lemma NotNamedTwice(text: string, a: string, b: string)
    requires Apart(a, b) && IsNamed(text, a)
    ensures !IsNamed(text, b)
  {
    if IsNamed(text, b) {
      NamesMeet(text, a, b);
    }
  }

  lemma RenamedIsNamed(text: string, p: Pattern)
    requires IsNamed(text, p.from)
    ensures IsNamed(Renamed(text, p), p.to)
    ensures IsNamed(Renamed(text, p), p.to) && Renamed(Renamed(text, p), Pattern(p.to, p.from)) == text
    ensures p.from != p.to ==> Renamed(text, p) != text
  {
    var sub := text[|p.from|..];
    assert text == p.from + sub;
    assert Renamed(text, p)[|p.to|..] == sub;
    if sub != "" {
      assert text[|p.from|] == '/';
      assert Renamed(text, p)[..|p.to| + 1] == p.to + "/";
    }
    if Renamed(text, p) == text {
      assert |p.to| == |p.from|;
      assert p.to == text[..|p.from|] == p.from;
    }
  }

  lemma RenamedIsUnspaced(text: string, p: Pattern)
    requires IsNamed(text, p.from) && Unspaced(text) && Name(p.to)
    ensures Unspaced(Renamed(text, p))
  {
    forall i | 0 <= i < |Renamed(text, p)| ensures !IsSpace(Renamed(text, p)[i]) {
      if i >= |p.to| {
        assert Renamed(text, p)[i] == text[i - |p.to| + |p.from|];
      }
    }
  }

  lemma PassIsWellCut(segs: Segments, p: Pattern)
    requires WellCut(segs) && Name(p.to)
    ensures WellCut(Pass(segs, p))
  {
    forall i | 0 <= i < |segs| ensures Unquoted(Pass(segs, p)[i].text) {
      if Selected(segs, p.from, i) {
        var text := segs[i].text;
        forall k | 0 <= k < |Renamed(text, p)| ensures !Quote(Renamed(text, p)[k]) {
          if k >= |p.to| {
            assert Renamed(text, p)[k] == text[k - |p.to| + |p.from|];
          }
        }
      }
    }
  }

  // ---- one pattern's pass leaves the other patterns' tokens alone ----

  lemma PassKeepsOtherTokens(segs: Segments, p: Pattern, name: string, i: nat)
    requires Apart(p.from, name) && Apart(p.to, name)
    ensures IsToken(Pass(segs, p), name, i) == IsToken(segs, name, i)
  {
    if i + 1 < |segs| && Selected(segs, p.from, i) {
      NotNamedTwice(segs[i].text, p.from, name);
      RenamedIsNamed(segs[i].text, p);
      NotNamedTwice(Renamed(segs[i].text, p), p.to, name);
    }
  }

  lemma {:induction false} PassKeepsOtherSelections(segs: Segments, p: Pattern, name: string, i: nat)
    requires Apart(p.from, name) && Apart(p.to, name)
    ensures Selected(Pass(segs, p), name, i) == Selected(segs, name, i)
  {
    PassKeepsOtherTokens(segs, p, name, i);
    if i > 0 {
      PassKeepsOtherSelections(segs, p, name, i - 1);
    }
  }

  // ---- all patterns ----

  function PassAll(segs: Segments, ps: Patterns): (r: Segments)
    ensures |r| == |segs|
    decreases |ps|
  {
    if ps == [] then segs else PassAll(Pass(segs, ps[0]), ps[1..])
  }

  /** What becomes of segment i: the first pattern that selects it renames it. */
  function SegmentAfterAll(segs: Segments, ps: Patterns, i: nat): Segment
    requires i < |segs|
  {
    if ps == [] then segs[i]
    else if Selected(segs, ps[0].from, i) then SegmentAfter(segs, ps[0], i)
    else SegmentAfterAll(segs, ps[1..], i)
  }

  lemma CompatibleTail(ps: Patterns)
    requires Compatible(ps) && ps != []
    ensures Compatible(ps[1..])
    ensures forall j :: 0 < j < |ps| ==> Apart(ps[0].from, ps[j].from) && Apart(ps[0].to, ps[j].from) && ps[j] == ps[1..][j - 1]
  {
    forall j | 0 < j < |ps| ensures Apart(ps[0].to, ps[j].from) {
      assert Apart(ps[j].from, ps[0].to);
    }
  }

  /** A segment that a pass renamed is no token of the patterns after it. */
  lemma {:induction false} NoOtherSelects(segs: Segments, p: Pattern, ps: Patterns, i: nat)
    requires i < |segs|
    requires forall j :: 0 <= j < |ps| ==> Apart(p.from, ps[j].from) && Apart(p.to, ps[j].from)
    ensures Selected(segs, p.from, i) ==> SegmentAfterAll(Pass(segs, p), ps, i) == SegmentAfter(segs, p, i)
    ensures !Selected(segs, p.from, i) ==> SegmentAfterAll(Pass(segs, p), ps, i) == SegmentAfterAll(segs, ps, i)
  {
    if ps != [] {
      NoOtherSelects(segs, p, ps[1..], i);
      PassKeepsOtherSelections(segs, p, ps[0].from, i);
      if Selected(segs, p.from, i) {
        NotNamedTwice(segs[i].text, p.from, ps[0].from);
      }
    }
  }

  lemma {:induction false} PassAllAt(segs: Segments, ps: Patterns, i: nat)
    requires Compatible(ps) && i < |segs|
    ensures PassAll(segs, ps)[i] == SegmentAfterAll(segs, ps, i)
    decreases |ps|
  {
    if ps != [] {
      CompatibleTail(ps);
      PassAllAt(Pass(segs, ps[0]), ps[1..], i);
      NoOtherSelects(segs, ps[0], ps[1..], i);
    }
  }

  lemma {:induction false} PassAllIsWellCut(segs: Segments, ps: Patterns)
    requires WellCut(segs) && Compatible(ps)
    ensures WellCut(PassAll(segs, ps))
    decreases |ps|
  {
    if ps != [] {
      CompatibleTail(ps);
      PassIsWellCut(segs, ps[0]);
      PassAllIsWellCut(Pass(segs, ps[0]), ps[1..]);
    }
  }

  lemma {:induction false} SelectorRenames(segs: Segments, ps: Patterns, m: nat, i: nat)
    requires m < |ps| && i < |segs| && Selected(segs, ps[m].from, i)
    requires forall j :: 0 <= j < m ==> Apart(ps[m].from, ps[j].from)
    ensures SegmentAfterAll(segs, ps, i) == SegmentAfter(segs, ps[m], i)
    decreases m
  {
    if m > 0 {
      NotNamedTwice(segs[i].text, ps[m].from, ps[0].from);
      SelectorRenames(segs, ps[1..], m - 1, i);
    }
  }

  /** The one pattern that selects a segment decides it. */
  lemma SelectedDecides(segs: Segments, ps: Patterns, m: nat, i: nat)
    requires Compatible(ps) && m < |ps| && i < |segs| && Selected(segs, ps[m].from, i)
    ensures PassAll(segs, ps)[i] == SegmentAfter(segs, ps[m], i)
  {
    PassAllAt(segs, ps, i);
    SelectorRenames(segs, ps, m, i);
  }

  lemma {:induction false} UnselectedStays(segs: Segments, ps: Patterns, i: nat)
    requires Compatible(ps) && i < |segs| && forall m :: 0 <= m < |ps| ==> !Selected(segs, ps[m].from, i)
    ensures PassAll(segs, ps)[i] == segs[i]
  {
    PassAllAt(segs, ps, i);
    if ps != [] {
      CompatibleTail(ps);
      UnselectedStays(segs, ps[1..], i);
      PassAllAt(segs, ps[1..], i);
    }
  }

  /** Either no pattern selects a segment and it stays, or exactly one does and renames it. */
  lemma SelectedOrStays(segs: Segments, ps: Patterns, i: nat) returns (m: Option<nat>)
    requires Compatible(ps) && i < |segs|
    ensures m.None? ==> PassAll(segs, ps)[i] == segs[i] && forall k :: 0 <= k < |ps| ==> !Selected(segs, ps[k].from, i)
    ensures m.Some? ==> m.value < |ps| && Selected(segs, ps[m.value].from, i)
                        && PassAll(segs, ps)[i] == SegmentAfter(segs, ps[m.value], i)
  {
    if k :| 0 <= k < |ps| && Selected(segs, ps[k].from, i) {
      SelectedDecides(segs, ps, k, i);
      m := Some(k);
    } else {
      UnselectedStays(segs, ps, i);
      m := None;
    }
  }

  // ---- the reverse passes ----

  function Flip(p: Pattern): Pattern {
    Pattern(p.to, p.from)
  }

  ghost predicate Flipped(ps: Patterns, qs: Patterns) {
    && (forall m :: 0 <= m < |ps| ==> Flip(ps[m]) in qs)
    && (forall n :: 0 <= n < |qs| ==> Flip(qs[n]) in ps)
  }

  ghost predicate NoTargetTokens(segs: Segments, ps: Patterns) {
    forall m, i :: 0 <= m < |ps| && 0 <= i < |segs| ==> !IsToken(segs, ps[m].to, i)
  }

  lemma QuotesStay(segs: Segments, ps: Patterns, i: nat)
    requires Compatible(ps) && i < |segs|
    ensures PassAll(segs, ps)[i].quote == segs[i].quote
  {
    var m := SelectedOrStays(segs, ps, i);
  }

  /** After the passes, the target tokens are exactly the renamed segments. */
  lemma TargetTokensAreRenamed(segs: Segments, ps: Patterns, m: nat, i: nat)
    requires Compatible(ps) && NoTargetTokens(segs, ps) && m < |ps| && i < |segs|
    ensures IsToken(PassAll(segs, ps), ps[m].to, i) <==> Selected(segs, ps[m].from, i)
  {
    assert !IsToken(segs, ps[m].to, i);
    var k := SelectedOrStays(segs, ps, i);
    QuotesStay(segs, ps, i);
    if i + 1 < |segs| {
      QuotesStay(segs, ps, i + 1);
    }
    if k.Some? {
      RenamedIsNamed(segs[i].text, ps[k.value]);
      RenamedIsUnspaced(segs[i].text, ps[k.value]);
      assert PassAll(segs, ps)[i].text == Renamed(segs[i].text, ps[k.value]);
      if k.value != m {
        NotNamedTwice(Renamed(segs[i].text, ps[k.value]), ps[k.value].to, ps[m].to);
        NotNamedTwice(segs[i].text, ps[k.value].from, ps[m].from);
      }
    }
  }

  lemma RenamedAreSelectedBack(segs: Segments, ps: Patterns, m: nat, i: nat)
    requires Compatible(ps) && NoTargetTokens(segs, ps) && m < |ps| && i < |segs|
    ensures Selected(PassAll(segs, ps), ps[m].to, i) <==> Selected(segs, ps[m].from, i)
  {
    TargetTokensAreRenamed(segs, ps, m, i);
    if i > 0 {
      TargetTokensAreRenamed(segs, ps, m, i - 1);
    }
  }

  lemma RenamedReturns(segs: Segments, ps: Patterns, qs: Patterns, m: nat, i: nat)
    requires Compatible(ps) && Compatible(qs) && Flipped(ps, qs) && NoTargetTokens(segs, ps)
    requires m < |ps| && i < |segs| && Selected(segs, ps[m].from, i)
    ensures PassAll(PassAll(segs, ps), qs)[i] == segs[i]
  {
    SelectedDecides(segs, ps, m, i);
    RenamedAreSelectedBack(segs, ps, m, i);
    var k := FlipPosition(ps, qs, m);
    SelectedDecides(PassAll(segs, ps), qs, k, i);
    RenamedIsNamed(segs[i].text, ps[m]);
  }

  lemma FlipPosition(ps: Patterns, qs: Patterns, m: nat) returns (k: nat)
    requires Flipped(ps, qs) && m < |ps|
    ensures k < |qs| && qs[k] == Flip(ps[m])
  {
    assert Flip(ps[m]) in qs;
    k :| 0 <= k < |qs| && qs[k] == Flip(ps[m]);
  }

  lemma OthersStayBack(segs: Segments, ps: Patterns, qs: Patterns, i: nat)
    requires Compatible(ps) && Compatible(qs) && Flipped(ps, qs) && NoTargetTokens(segs, ps) && i < |segs|
    requires forall m :: 0 <= m < |ps| ==> !Selected(segs, ps[m].from, i)
    ensures PassAll(PassAll(segs, ps), qs)[i] == segs[i]
  {
    UnselectedStays(segs, ps, i);
    forall n | 0 <= n < |qs| ensures !Selected(PassAll(segs, ps), qs[n].from, i) {
      assert Flip(qs[n]) in ps;
      var m :| 0 <= m < |ps| && ps[m] == Flip(qs[n]);
      RenamedAreSelectedBack(segs, ps, m, i);
    }
    UnselectedStays(PassAll(segs, ps), qs, i);
  }

  lemma SegmentReturns(segs: Segments, ps: Patterns, qs: Patterns, i: nat)
    requires Compatible(ps) && Compatible(qs) && Flipped(ps, qs) && NoTargetTokens(segs, ps) && i < |segs|
    ensures PassAll(PassAll(segs, ps), qs)[i] == segs[i]
  {
    if m :| 0 <= m < |ps| && Selected(segs, ps[m].from, i) {
      RenamedReturns(segs, ps, qs, m, i);
    } else {
      OthersStayBack(segs, ps, qs, i);
    }
  }

  /** The reverse passes restore every segment list that held no target token. */
  lemma PassesRoundTrip(segs: Segments, ps: Patterns, qs: Patterns)
    requires Compatible(ps) && Compatible(qs) && Flipped(ps, qs) && NoTargetTokens(segs, ps)
    ensures PassAll(PassAll(segs, ps), qs) == segs
  {
    forall i | 0 <= i < |segs| ensures PassAll(PassAll(segs, ps), qs)[i] == segs[i] {
      SegmentReturns(segs, ps, qs, i);
    }
  }

  // ---- idempotence ----

  /** Two adjacent tokens of one pattern share the quote between them. */
  ghost predicate SharesQuote(segs: Segments, name: string, i: nat) {
    IsToken(segs, name, i) && IsToken(segs, name, i + 1)
  }

  ghost predicate NoSharedQuotes(segs: Segments, ps: Patterns) {
    forall m, i: nat :: 0 <= m < |ps| ==> !SharesQuote(segs, ps[m].from, i)
  }

  /** The source tokens left after the passes are the ones that were not selected. */
  lemma SourceTokensLeft(segs: Segments, ps: Patterns, m: nat, i: nat)
    requires Compatible(ps) && m < |ps| && i < |segs|
    ensures IsToken(PassAll(segs, ps), ps[m].from, i) <==>
            IsToken(segs, ps[m].from, i) && !Selected(segs, ps[m].from, i)
  {
    var k := SelectedOrStays(segs, ps, i);
    QuotesStay(segs, ps, i);
    if i + 1 < |segs| {
      QuotesStay(segs, ps, i + 1);
    }
    if k.Some? {
      RenamedIsNamed(segs[i].text, ps[k.value]);
      NotNamedTwice(Renamed(segs[i].text, ps[k.value]), ps[k.value].to, ps[m].from);
      if k.value != m {
        NotNamedTwice(segs[i].text, ps[k.value].from, ps[m].from);
      }
    }
  }

  lemma EveryTokenSelected(segs: Segments, ps: Patterns, m: nat, i: nat)
    requires NoSharedQuotes(segs, ps) && m < |ps|
    ensures IsToken(segs, ps[m].from, i) ==> Selected(segs, ps[m].from, i)
  {
    assert i > 0 ==> !SharesQuote(segs, ps[m].from, i - 1);
  }

  /** The passes are idempotent on a line exactly when no two tokens of one pattern share a quote. */
  lemma PassesIdempotentIff(segs: Segments, ps: Patterns)
    requires Compatible(ps)
    ensures PassAll(PassAll(segs, ps), ps) == PassAll(segs, ps) <==> NoSharedQuotes(segs, ps)
  {
    var once := PassAll(segs, ps);
    if NoSharedQuotes(segs, ps) {
      forall i | 0 <= i < |segs| ensures PassAll(once, ps)[i] == once[i] {
        var m := SelectedOrStays(once, ps, i);
        if m.Some? {
          SourceTokensLeft(segs, ps, m.value, i);
          EveryTokenSelected(segs, ps, m.value, i);
        }
      }
    } else {
      var m, i: nat :| 0 <= m < |ps| && SharesQuote(segs, ps[m].from, i);
      var j := if Selected(segs, ps[m].from, i) then i + 1 else i;
      LeftoverChanges(segs, ps, m, j);
    }
  }

  /** A token left over by the first run is rewritten by the second. */
  lemma LeftoverChanges(segs: Segments, ps: Patterns, m: nat, j: nat)
    requires Compatible(ps) && m < |ps| && j < |segs|
    requires IsToken(segs, ps[m].from, j) && !Selected(segs, ps[m].from, j)
    ensures PassAll(PassAll(segs, ps), ps)[j] != PassAll(segs, ps)[j]
  {
    var once := PassAll(segs, ps);
    SourceTokensLeft(segs, ps, m, j);
    SourceTokensLeft(segs, ps, m, j - 1);
    assert Selected(once, ps[m].from, j);
    SelectedDecides(once, ps, m, j);
    assert Apart(ps[m].from, ps[m].to);
    RenamedIsNamed(once[j].text, ps[m]);
  }
}
