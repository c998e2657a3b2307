/** Rewriting delimited package-name tokens (scripts/rescope-vendor.ts, the `token` pattern of
  * `patterns` and its use in `rewriteLine`). Text between consecutive quote characters is a
  * segment; a token is one whole segment between equal quotes. */
module RescopeTokens {
  import opened Wrappers
  import opened Text

  /** One name's rewrite. */
  datatype Pattern = Pattern(from: string, to: string)

  predicate Quote(c: char) {
    c == '\'' || c == '"' || c == '`'
  }

  predicate Unquoted(s: string) {
    forall i :: 0 <= i < |s| ==> !Quote(s[i])
  }

  predicate Unspaced(s: string) {
    forall i :: 0 <= i < |s| ==> !IsSpace(s[i])
  }

  /** Package names hold no quotes, no white space and no comment sign. */
  predicate Name(s: string) {
    s != "" && Unquoted(s) && Unspaced(s) && '#' !in s
  }

  predicate IsNamed(content: string, name: string) {
    content == name || name + "/" <= content
  }

  // ---- the scanner ----

  /** The first quote or white space from a position on. */
  function ContentEnd(s: string, i: nat): (k: nat)
    requires i <= |s|
    ensures i <= k <= |s|
    ensures forall j :: i <= j < k ==> !Quote(s[j]) && !IsSpace(s[j])
    ensures k < |s| ==> Quote(s[k]) || IsSpace(s[k])
    decreases |s| - i
  {
    if i == |s| || Quote(s[i]) || IsSpace(s[i]) then i else ContentEnd(s, i + 1)
  }

  /** Where the token opened by the first character closes, if it opens one. */
  function TokenEnd(s: string, name: string): (r: Option<nat>)
    ensures r.Some? ==> 0 < r.value < |s| && Quote(s[0]) && s[r.value] == s[0] && IsNamed(s[1..r.value], name)
  {
    if s == "" || !Quote(s[0]) then None
    else
      var k := ContentEnd(s, 1);
      if k < |s| && s[k] == s[0] && IsNamed(s[1..k], name) then Some(k) else None
  }

  /** The pattern itself: a quote, the name, optionally a slash and a run without quotes and
    * white space, and the same quote again. */
  predicate TokenPattern(s: string, name: string, k: nat) {
    && 1 + |name| <= k < |s| && Quote(s[0]) && s[k] == s[0]
    && s[1..1 + |name|] == name
    && var subpath := s[1 + |name|..k];
       subpath == "" || (subpath[0] == '/' && Unquoted(subpath) && Unspaced(subpath))
  }

  /** The scanner finds the pattern's one match at a position. */
  lemma TokenEndMatchesPattern(s: string, name: string, k: nat)
    requires Name(name)
    ensures TokenEnd(s, name) == Some(k) <==> TokenPattern(s, name, k)
  {
    if TokenPattern(s, name, k) {
      forall j | 1 <= j < k ensures !Quote(s[j]) && !IsSpace(s[j]) {
        if j <= |name| {
          assert s[1..1 + |name|][j - 1] == name[j - 1];
        } else {
          assert s[1 + |name|..k][j - 1 - |name|] == s[j];
        }
      }
      assert ContentEnd(s, 1) == k;
      assert s[1..k] == name + s[1 + |name|..k];
    }
    if TokenEnd(s, name) == Some(k) {
      assert s[1..k][..|name|] == s[1..1 + |name|];
      assert s[1 + |name|..k] == s[1..k][|name|..];
    }
  }

  /** Leftmost, non-overlapping replacement over a whole line. */
  function ReplaceTokens(s: string, p: Pattern): string
    decreases |s|
  {
    if s == "" then ""
    else match TokenEnd(s, p.from)
      case Some(k) => [s[0]] + (p.to + s[1..k][|p.from|..]) + [s[k]] + ReplaceTokens(s[k + 1..], p)
      case None => [s[0]] + ReplaceTokens(s[1..], p)
  }

  lemma {:induction false} ReplaceSkipsUnquoted(a: string, b: string, p: Pattern)
    requires Unquoted(a)
    ensures ReplaceTokens(a + b, p) == a + ReplaceTokens(b, p)
  {
    if a == "" {
      assert a + b == b;
    } else {
      assert (a + b)[1..] == a[1..] + b && (a + b)[0] == a[0];
      assert Unquoted(a[1..]);
      ReplaceSkipsUnquoted(a[1..], b, p);
      assert [a[0]] + (a[1..] + ReplaceTokens(b, p)) == a + ReplaceTokens(b, p);
    }
  }

  // ---- segments ----

  /** A quote and the text up to the next quote. */
  datatype Segment = Segment(quote: char, text: string)

  type Segments = seq<Segment>

  ghost predicate WellCut(segs: Segments) {
    forall i :: 0 <= i < |segs| ==> Quote(segs[i].quote) && Unquoted(segs[i].text)
  }

  function Glue(segs: Segments): string {
    if segs == [] then "" else [segs[0].quote] + segs[0].text + Glue(segs[1..])
  }

  function UnquotedLength(s: string): (k: nat)
    ensures k <= |s| && Unquoted(s[..k]) && (k < |s| ==> Quote(s[k]))
  {
    if s == "" || Quote(s[0]) then 0
    else
      var k := UnquotedLength(s[1..]);
      assert s[..k + 1] == [s[0]] + s[1..][..k];
      k + 1
  }

  /** A text that is empty or begins with a quote, cut into its segments. */
  function Cut(s: string): Segments
    requires s != "" ==> Quote(s[0])
    decreases |s|
  {
    if s == "" then []
    else
      var tail := s[1..];
      var k := UnquotedLength(tail);
      [Segment(s[0], tail[..k])] + Cut(tail[k..])
  }

  lemma GlueCons(first: Segment, rest: Segments)
    ensures Glue([first] + rest) == [first.quote] + first.text + Glue(rest)
  {
    assert ([first] + rest)[1..] == rest;
  }

  lemma SplitAtTail(s: string, k: nat)
    requires s != "" && k <= |s[1..]|
    ensures [s[0]] + s[1..][..k] + s[1..][k..] == s
  {
  }

  lemma {:induction false} CutGlues(s: string)
    requires s != "" ==> Quote(s[0])
    ensures WellCut(Cut(s)) && Glue(Cut(s)) == s
    decreases |s|
  {
    if s != "" {
      var tail := s[1..];
      var k := UnquotedLength(tail);
      CutGlues(tail[k..]);
      GlueCons(Segment(s[0], tail[..k]), Cut(tail[k..]));
      SplitAtTail(s, k);
    }
  }

  /** Segment i is a token of the name. */
  predicate IsToken(segs: Segments, name: string, i: nat) {
    && i + 1 < |segs| && segs[i].quote == segs[i + 1].quote
    && IsNamed(segs[i].text, name) && Unspaced(segs[i].text)
  }

  /** Leftmost matches, each consuming both its quotes: a token right after a selected one is not selected. */
  predicate Selected(segs: Segments, name: string, i: nat) {
    IsToken(segs, name, i) && !(i > 0 && Selected(segs, name, i - 1))
  }

  function Renamed(text: string, p: Pattern): string
    requires IsNamed(text, p.from)
  {
    p.to + text[|p.from|..]
  }

  function SegmentAfter(segs: Segments, p: Pattern, i: nat): Segment
    requires i < |segs|
  {
    if Selected(segs, p.from, i) then Segment(segs[i].quote, Renamed(segs[i].text, p)) else segs[i]
  }

  /** One pattern's replacement, segment by segment. */
  function Pass(segs: Segments, p: Pattern): (r: Segments)
    ensures |r| == |segs| && forall i :: 0 <= i < |segs| ==> r[i] == SegmentAfter(segs, p, i)
  {
    seq(|segs|, i requires 0 <= i < |segs| => SegmentAfter(segs, p, i))
  }

  lemma GlueOne(segs: Segments)
    requires segs != []
    ensures Glue(segs) == [segs[0].quote] + segs[0].text + Glue(segs[1..])
    ensures Glue(segs) == [segs[0].quote] + (segs[0].text + Glue(segs[1..]))
    ensures Glue(segs)[1..] == segs[0].text + Glue(segs[1..])
  {
    Regroup([segs[0].quote], segs[0].text, Glue(segs[1..]));
  }

  lemma GlueStarts(segs: Segments)
    ensures Glue(segs) == "" <==> segs == []
    ensures segs != [] ==> Glue(segs)[0] == segs[0].quote
  {
  }

  /** The scanner standing on a segment's quote matches exactly when the segment is a token. */
  lemma TokenEndOfSegments(segs: Segments, name: string)
    requires WellCut(segs) && segs != []
    ensures TokenEnd(Glue(segs), name) == if IsToken(segs, name, 0) then Some(1 + |segs[0].text|) else None
  {
    var s, text, rest := Glue(segs), segs[0].text, Glue(segs[1..]);
    GlueOne(segs);
    GlueStarts(segs[1..]);
    assert forall j :: 0 <= j < |text| ==> s[1 + j] == text[j];
    assert s[1 + |text|..] == rest;
    assert s[1..1 + |text|] == text;
    var k := ContentEnd(s, 1);
    if Unspaced(text) {
      assert k == 1 + |text|;
    } else {
      var j :| 0 <= j < |text| && IsSpace(text[j]);
      assert k <= 1 + j;
      assert IsSpace(s[k]) by { assert s[k] == text[k - 1] && !Quote(text[k - 1]); }
    }
  }

  lemma Regroup(a: string, b: string, c: string)
    ensures a + (b + c) == a + b + c
  {
  }

  lemma ReplaceNoMatch(s: string, p: Pattern)
    requires s != "" && TokenEnd(s, p.from).None?
    ensures ReplaceTokens(s, p) == [s[0]] + ReplaceTokens(s[1..], p)
  {
  }

  lemma ReplaceAtPlain(segs: Segments, p: Pattern)
    requires WellCut(segs) && segs != [] && !IsToken(segs, p.from, 0)
    ensures ReplaceTokens(Glue(segs), p) == [segs[0].quote] + segs[0].text + ReplaceTokens(Glue(segs[1..]), p)
  {
    GlueStarts(segs);
    GlueOne(segs);
    TokenEndOfSegments(segs, p.from);
    ReplaceNoMatch(Glue(segs), p);
    ReplaceSkipsUnquoted(segs[0].text, Glue(segs[1..]), p);
    Regroup([segs[0].quote], segs[0].text, ReplaceTokens(Glue(segs[1..]), p));
  }

  lemma GluePieces(segs: Segments)
    requires |segs| >= 2
    ensures var s, k := Glue(segs), 1 + |segs[0].text|;
            k < |s| && s[0] == segs[0].quote && s[1..k] == segs[0].text && s[k] == segs[1].quote
            && s[k + 1..] == segs[1].text + Glue(segs[2..])
  {
    GlueOne(segs);
    GlueOne(segs[1..]);
    assert segs[1..][1..] == segs[2..];
    var s, k := Glue(segs), 1 + |segs[0].text|;
    assert s == [segs[0].quote] + segs[0].text + Glue(segs[1..]);
    assert s[k..] == Glue(segs[1..]);
    assert s[k + 1..] == Glue(segs[1..])[1..];
  }

  lemma ReplaceMatch(s: string, p: Pattern, k: nat)
    requires TokenEnd(s, p.from) == Some(k)
    ensures ReplaceTokens(s, p) == [s[0]] + Renamed(s[1..k], p) + [s[k]] + ReplaceTokens(s[k + 1..], p)
  {
  }

  lemma ReplaceAtToken(segs: Segments, p: Pattern)
    requires WellCut(segs) && IsToken(segs, p.from, 0)
    ensures ReplaceTokens(Glue(segs), p) == [segs[0].quote] + Renamed(segs[0].text, p) + [segs[1].quote]
                                            + (segs[1].text + ReplaceTokens(Glue(segs[2..]), p))
  {
    TokenEndOfSegments(segs, p.from);
    GluePieces(segs);
    ReplaceMatch(Glue(segs), p, 1 + |segs[0].text|);
    ReplaceSkipsUnquoted(segs[1].text, Glue(segs[2..]), p);
  }

  lemma GlueFrom(segs: Segments, k: nat)
    requires k < |segs|
    ensures Glue(segs[k..]) == [segs[k].quote] + segs[k].text + Glue(segs[k + 1..])
  {
    assert segs[k..][1..] == segs[k + 1..];
  }

  lemma GlueTwo(segs: Segments, k: nat)
    requires k + 1 < |segs|
    ensures Glue(segs[k..]) == [segs[k].quote] + segs[k].text + [segs[k + 1].quote] + (segs[k + 1].text + Glue(segs[k + 2..]))
  {
    GlueFrom(segs, k);
    GlueFrom(segs, k + 1);
    var a, b := [segs[k].quote] + segs[k].text, segs[k + 1].text + Glue(segs[k + 2..]);
    assert Glue(segs[k + 1..]) == [segs[k + 1].quote] + b;
    assert a + ([segs[k + 1].quote] + b) == a + [segs[k + 1].quote] + b;
  }

  /** From any segment whose quote is not consumed, scanning is passing. */
  lemma {:induction false} ScanIsPass(segs: Segments, p: Pattern, k: nat)
    requires WellCut(segs) && k <= |segs| && (k > 0 ==> !Selected(segs, p.from, k - 1))
    ensures ReplaceTokens(Glue(segs[k..]), p) == Glue(Pass(segs, p)[k..])
    decreases |segs| - k
  {
    if k < |segs| {
      var after, suffix := Pass(segs, p), segs[k..];
      assert IsToken(suffix, p.from, 0) == IsToken(segs, p.from, k);
      if Selected(segs, p.from, k) {
        assert suffix[2..] == segs[k + 2..] && suffix[1] == segs[k + 1];
        ReplaceAtToken(suffix, p);
        GlueTwo(after, k);
        ScanIsPass(segs, p, k + 2);
        assert after[k + 1] == segs[k + 1];
      } else {
        assert suffix[1..] == segs[k + 1..];
        ReplaceAtPlain(suffix, p);
        GlueFrom(after, k);
        ScanIsPass(segs, p, k + 1);
      }
    }
  }

  /** Replacing in an unquoted head followed by segments is one pass over the segments. */
  lemma ReplaceIsPass(head: string, segs: Segments, p: Pattern)
    requires Unquoted(head) && WellCut(segs)
    ensures ReplaceTokens(head + Glue(segs), p) == head + Glue(Pass(segs, p))
  {
    ReplaceSkipsUnquoted(head, Glue(segs), p);
    ScanIsPass(segs, p, 0);
    assert segs[0..] == segs && Pass(segs, p)[0..] == Pass(segs, p);
  }
}
