/** Locating the destination inside the raw text of a Markdown link, image or definition
  * (scripts/project-doc-site.ts, `labelEnd`, `skipWhitespace`, `destinationRange`). */
module Destinations {
  import opened Wrappers
  import opened Text

  datatype Kind = Link | Image | Definition

  datatype Range = Range(start: nat, end: nat)

  datatype ScanError = NoLabelEnd | NoSeparator | NoInlineDestination | NoAngleEnd

  // ---- scanning under backslash escapes ----

  /** A backslash takes the character after it along. */
  function After(s: string, i: nat): nat
    requires i < |s|
  {
    if s[i] == '\\' then i + 2 else i + 1
  }

  /** Scanning from i arrives at j: no character before j escapes past it. */
  predicate Live(s: string, i: nat, j: nat)
    decreases j - i
  {
    i == j || (i < j && i < |s| && Live(s, After(s, i), j))
  }

  /** Unescaped openings minus unescaped closings between i and j. */
  function Net(s: string, i: nat, j: nat, open: char, close: char): int
    decreases j - i
  {
    if i >= j || i >= |s| then 0
    else (if s[i] == '\\' then 0 else if s[i] == open then 1 else if s[i] == close then -1 else 0)
         + Net(s, After(s, i), j, open, close)
  }

  /** Unescaped brackets match: never more closings than openings, and as many at the end. */
  ghost predicate Balanced(s: string, i: nat, j: nat, open: char, close: char) {
    && Net(s, i, j, open, close) == 0
    && forall k :: i <= k <= j && Live(s, i, k) ==> Net(s, i, k, open, close) >= 0
  }

  lemma {:induction false} LiveStep(s: string, i: nat, k: nat, open: char, close: char)
    requires Live(s, i, k) && k < |s|
    ensures Live(s, i, After(s, k))
    ensures Net(s, i, After(s, k), open, close)
         == Net(s, i, k, open, close) + Net(s, k, After(s, k), open, close)
    decreases k - i
  {
    if i < k {
      LiveStep(s, After(s, i), k, open, close);
    }
  }

  lemma {:induction false} NothingLiveBetween(s: string, i: nat, k: nat, j: nat)
    requires Live(s, i, k) && k < |s| && k < j < After(s, k)
    ensures !Live(s, i, j)
    decreases k - i
  {
    if i < k {
      NothingLiveBetween(s, After(s, i), k, j);
    }
  }

  function IndexOf(s: string, c: char, from: nat): (r: Option<nat>)
    ensures r.Some? ==> from <= r.value < |s| && s[r.value] == c && forall k :: from <= k < r.value ==> s[k] != c
    ensures r.None? ==> forall k :: from <= k < |s| ==> s[k] != c
    decreases |s| - from
  {
    if from >= |s| then None
    else if s[from] == c then Some(from)
    else IndexOf(s, c, from + 1)
  }

  method SkipWhitespace(s: string, start: nat) returns (index: nat)
    requires start <= |s|
    ensures start <= index <= |s|
    ensures forall k :: start <= k < index ==> IsSpace(s[k])
    ensures index < |s| ==> !IsSpace(s[index])
  {
    index := start;
    while index < |s| && IsSpace(s[index])
      invariant start <= index <= |s|
      invariant forall k :: start <= k < index ==> IsSpace(s[k])
    {
      index := index + 1;
    }
  }

  // ---- the label ----

  /** The label opened at `first` is still open at every live position up to k. */
  ghost predicate OpenThrough(s: string, first: nat, k: nat) {
    forall m :: first < m <= k && Live(s, first, m) ==> Net(s, first, m, '[', ']') > 0
  }

  /** The label's closing bracket: the first place where the bracket opened first is matched. */
  ghost predicate LabelClosesAt(s: string, end: nat) {
    && end < |s| && s[end] == ']'
    && var first := IndexOf(s, '[', 0);
       && first.Some? && Live(s, first.value, end) && OpenThrough(s, first.value, end)
       && Balanced(s, first.value, end + 1, '[', ']')
  }

  method LabelEnd(s: string) returns (r: Option<nat>)
    ensures r.Some? ==> LabelClosesAt(s, r.value)
    ensures r.None? ==> forall e :: !LabelClosesAt(s, e)
  {
    var found := IndexOf(s, '[', 0);
    if found.None? {
      return None;
    }
    var first := found.value;
    var depth, index := 0, first;
    while index < |s|
      invariant first <= index && Live(s, first, index)
      invariant depth == Net(s, first, index, '[', ']') && depth >= 0
      invariant OpenThrough(s, first, index)
      decreases |s| - index
    {
      LiveStep(s, first, index, '[', ']');
      ghost var next := After(s, index);
      assert next == index + 2 ==> !Live(s, first, index + 1) by {
        if next == index + 2 { NothingLiveBetween(s, first, index, index + 1); }
      }
      var char_ := s[index];
      if char_ == '\\' {
        index := index + 1;
      } else if char_ == '[' {
        depth := depth + 1;
      } else if char_ == ']' {
        depth := depth - 1;
        if depth == 0 {
          return Some(index);
        }
      }
      index := index + 1;
    }
    forall e ensures !LabelClosesAt(s, e) {
      if LabelClosesAt(s, e) {
        LiveStep(s, first, e, '[', ']');
      }
    }
    return None;
  }

  // ---- the destination ----

  /** Where an angle-bracket destination ends: at its first unescaped '>'. */
  ghost predicate AngleEndsAt(s: string, start: nat, end: nat) {
    && start <= end < |s| && s[end] == '>' && Live(s, start, end)
    && forall k :: start <= k < end && Live(s, start, k) ==> s[k] != '>'
  }

  predicate Stops(c: char) {
    c == ')' || IsSpace(c)
  }

  /** A plain destination goes on at k: inside parentheses, or at a character that does not stop it. */
  ghost predicate GoesOn(s: string, start: nat, k: nat) {
    k < |s| && (Net(s, start, k, '(', ')') > 0 || (Net(s, start, k, '(', ')') == 0 && !Stops(s[k])))
  }

  ghost predicate GoesOnTo(s: string, start: nat, end: nat) {
    forall k :: start <= k < end && Live(s, start, k) ==> GoesOn(s, start, k)
  }

  /** Where a plain destination ends: at the first unescaped stop outside its parentheses,
    * which are balanced there, or with the text. */
  ghost predicate PlainEndsAt(s: string, start: nat, end: nat) {
    && start <= end <= |s|
    && GoesOnTo(s, start, end)
    && (end < |s| ==> Live(s, start, end) && Stops(s[end]) && Balanced(s, start, end, '(', ')'))
  }

  method AngleEnd(s: string, start: nat) returns (r: Result<Range, ScanError>)
    requires start <= |s|
    ensures r.Ok? ==> r.value.start == start && AngleEndsAt(s, start, r.value.end)
    ensures r.Err? ==> r.error == NoAngleEnd && forall e :: !AngleEndsAt(s, start, e)
  {
    var index := start;
    while index < |s|
      invariant start <= index && Live(s, start, index)
      invariant forall k :: start <= k < index && k < |s| && Live(s, start, k) ==> s[k] != '>'
      decreases |s| - index
    {
      LiveStep(s, start, index, '(', ')');
      if s[index] == '\\' {
        NothingLiveBetween(s, start, index, index + 1);
        index := index + 1;
      } else if s[index] == '>' {
        return Ok(Range(start, index));
      }
      index := index + 1;
    }
    return Err(NoAngleEnd);
  }

  lemma OnlyOpenOrClosed(s: string, start: nat, end: nat)
    requires GoesOnTo(s, start, end) && Live(s, start, end) && Net(s, start, end, '(', ')') == 0
    ensures Balanced(s, start, end, '(', ')')
  {
  }

  method PlainEnd(s: string, start: nat) returns (r: Range)
    requires start <= |s|
    ensures r.start == start && PlainEndsAt(s, start, r.end)
  {
    var depth, index := 0, start;
    while index < |s|
      invariant start <= index && Live(s, start, index)
      invariant depth == Net(s, start, index, '(', ')') && depth >= 0
      invariant GoesOnTo(s, start, index)
      decreases |s| - index
    {
      LiveStep(s, start, index, '(', ')');
      if depth == 0 {
        OnlyOpenOrClosed(s, start, index);
      }
      var char_ := s[index];
      if char_ == '\\' {
        NothingLiveBetween(s, start, index, index + 1);
        index := index + 1;
      } else if char_ == '(' {
        depth := depth + 1;
      } else if char_ == ')' {
        if depth == 0 {
          return Range(start, index);
        }
        depth := depth - 1;
      } else if IsSpace(char_) && depth == 0 {
        return Range(start, index);
      }
      index := index + 1;
    }
    return Range(start, |s|);
  }

  /** The first character of the destination, once label and separator are passed. */
  ghost predicate BeginsAt(s: string, kind: Kind, closing: nat, start: nat) {
    && closing < start <= |s|
    && var from := if kind.Definition? then IndexOf(s, ':', closing + 1) else if closing + 1 < |s| && s[closing + 1] == '(' then Some(closing + 1) else None;
       && from.Some? && from.value < start
       && (forall k :: from.value < k < start ==> IsSpace(s[k]))
       && (start < |s| ==> !IsSpace(s[start]))
  }

  ghost predicate NoAngleEndFrom(s: string, start: nat) {
    forall e :: !AngleEndsAt(s, start, e)
  }

  /** The destination beginning at a position: the inside of angle brackets, or a plain one. */
  ghost predicate DestinationAt(s: string, start: nat, r: Range) {
    if start < |s| && s[start] == '<' then r.start == start + 1 && AngleEndsAt(s, start + 1, r.end)
    else r.start == start && PlainEndsAt(s, start, r.end)
  }

  // ---- the specified places are unique ----

  lemma LabelEndIsUnique(s: string, d: nat, e: nat)
    requires LabelClosesAt(s, d) && LabelClosesAt(s, e)
    ensures d == e
  {
    var first := IndexOf(s, '[', 0).value;
    LiveStep(s, first, d, '[', ']');
    LiveStep(s, first, e, '[', ']');
  }

  lemma AngleEndIsUnique(s: string, start: nat, d: nat, e: nat)
    requires AngleEndsAt(s, start, d) && AngleEndsAt(s, start, e)
    ensures d == e
  {
    assert s[d] == '>' == s[e];
  }

  lemma PlainEndIsUnique(s: string, start: nat, d: nat, e: nat)
    requires PlainEndsAt(s, start, d) && PlainEndsAt(s, start, e)
    ensures d == e
  {
    assert d < e ==> GoesOn(s, start, d);
    assert e < d ==> GoesOn(s, start, e);
  }

  lemma OnlyLabel(s: string, closing: nat)
    requires LabelClosesAt(s, closing)
    ensures forall e :: LabelClosesAt(s, e) ==> e == closing
  {
    forall e | LabelClosesAt(s, e) ensures e == closing {
      LabelEndIsUnique(s, e, closing);
    }
  }

  lemma OnlyBeginning(s: string, kind: Kind, closing: nat, start: nat)
    requires BeginsAt(s, kind, closing, start)
    ensures forall b :: BeginsAt(s, kind, closing, b) ==> b == start
  {
  }

  lemma OnlyDestination(s: string, start: nat, r: Range)
    requires DestinationAt(s, start, r)
    ensures forall x :: DestinationAt(s, start, x) ==> x == r
  {
    forall x | DestinationAt(s, start, x) ensures x == r {
      if start < |s| && s[start] == '<' {
        AngleEndIsUnique(s, start + 1, x.end, r.end);
      } else {
        PlainEndIsUnique(s, start, x.end, r.end);
      }
    }
  }

  // ---- the scan ----

  /** The destination of a node: past its label and separator. */
  ghost predicate IsDestination(s: string, kind: Kind, r: Range) {
    exists e: nat, b: nat :: LabelClosesAt(s, e) && BeginsAt(s, kind, e, b) && DestinationAt(s, b, r)
  }

  /** A definition without a colon after its label. */
  ghost predicate LacksSeparator(s: string, kind: Kind) {
    exists e: nat :: LabelClosesAt(s, e) && kind.Definition? && IndexOf(s, ':', e + 1).None?
  }

  /** A link or image without a parenthesis right after its label. */
  ghost predicate LacksParenthesis(s: string, kind: Kind) {
    exists e: nat :: LabelClosesAt(s, e) && !kind.Definition? && (e + 1 == |s| || s[e + 1] != '(')
  }

  /** An angle-bracket destination that is never closed. */
  ghost predicate LacksAngleEnd(s: string, kind: Kind) {
    exists e: nat, b: nat :: LabelClosesAt(s, e) && BeginsAt(s, kind, e, b) && b < |s| && s[b] == '<' && NoAngleEndFrom(s, b + 1)
  }

  /** The one destination, or what is missing. */
  ghost predicate Scanned(s: string, kind: Kind, r: Result<Range, ScanError>) {
    && (r.Ok? ==> r.value.start <= r.value.end <= |s|)
    && (forall x :: r == Ok(x) <==> IsDestination(s, kind, x))
    && (r == Err(NoLabelEnd) <==> forall e :: !LabelClosesAt(s, e))
    && (r == Err(NoSeparator) <==> LacksSeparator(s, kind))
    && (r == Err(NoInlineDestination) <==> LacksParenthesis(s, kind))
    && (r == Err(NoAngleEnd) <==> LacksAngleEnd(s, kind))
  }

  /** What decides a scan once the label is closed. */
  lemma ScannedAt(s: string, kind: Kind, closing: nat)
    requires LabelClosesAt(s, closing)
    ensures LacksSeparator(s, kind) <==> kind.Definition? && IndexOf(s, ':', closing + 1).None?
    ensures LacksParenthesis(s, kind) <==> !kind.Definition? && (closing + 1 == |s| || s[closing + 1] != '(')
    ensures (LacksSeparator(s, kind) || LacksParenthesis(s, kind)) ==> forall b :: !BeginsAt(s, kind, closing, b)
    ensures forall x :: IsDestination(s, kind, x) ==> exists b :: BeginsAt(s, kind, closing, b) && DestinationAt(s, b, x)
    ensures LacksAngleEnd(s, kind) ==> exists b :: BeginsAt(s, kind, closing, b)
  {
    OnlyLabel(s, closing);
  }

  lemma ScannedFrom(s: string, kind: Kind, closing: nat, start: nat, r: Result<Range, ScanError>)
    requires LabelClosesAt(s, closing) && BeginsAt(s, kind, closing, start)
    requires r.Ok? ==> r.value.start <= r.value.end <= |s|
    requires forall x :: r == Ok(x) <==> DestinationAt(s, start, x)
    requires r.Err? ==> r.error == NoAngleEnd
    requires r == Err(NoAngleEnd) <==> start < |s| && s[start] == '<' && NoAngleEndFrom(s, start + 1)
    ensures Scanned(s, kind, r)
  {
    ScannedAt(s, kind, closing);
    OnlyLabel(s, closing);
    OnlyBeginning(s, kind, closing, start);
    forall x ensures r == Ok(x) <==> IsDestination(s, kind, x) {
      if r == Ok(x) {
        assert DestinationAt(s, start, x);
      }
    }
  }

  method DestinationRange(s: string, kind: Kind) returns (r: Result<Range, ScanError>)
    ensures Scanned(s, kind, r)
  {
    var endOfLabel := LabelEnd(s);
    if endOfLabel.None? {
      return Err(NoLabelEnd);
    }
    ScannedAt(s, kind, endOfLabel.value);
    var start;
    if kind.Definition? {
      var colon := IndexOf(s, ':', endOfLabel.value + 1);
      if colon.None? {
        return Err(NoSeparator);
      }
      start := SkipWhitespace(s, colon.value + 1);
    } else {
      if endOfLabel.value + 1 == |s| || s[endOfLabel.value + 1] != '(' {
        return Err(NoInlineDestination);
      }
      start := SkipWhitespace(s, endOfLabel.value + 2);
    }
    r := DestinationFrom(s, start);
    ScannedFrom(s, kind, endOfLabel.value, start, r);
  }

  /** The destination that begins at a position. */
  method DestinationFrom(s: string, start: nat) returns (r: Result<Range, ScanError>)
    requires start <= |s|
    ensures r.Ok? ==> r.value.start <= r.value.end <= |s|
    ensures forall x :: r == Ok(x) <==> DestinationAt(s, start, x)
    ensures r.Err? ==> r.error == NoAngleEnd
    ensures r == Err(NoAngleEnd) <==> start < |s| && s[start] == '<' && NoAngleEndFrom(s, start + 1)
  {
    if start < |s| && s[start] == '<' {
      r := AngleEnd(s, start + 1);
    } else {
      var range := PlainEnd(s, start);
      r := Ok(range);
    }
    if r.Ok? {
      OnlyDestination(s, start, r.value);
    }
  }
}
