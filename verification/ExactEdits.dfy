/** Exact edits (scripts/rescope-vendor.ts, `exactEditState` and the split-and-join that applies
  * an edit): an edit that has landed is never pending again, and what the reverse direction
  * sees and restores. */
module ExactEdits {

  // ---- substrings, splitting and joining ----

  predicate Includes(text: string, part: string) {
    part <= text || (text != "" && Includes(text[1..], part))
  }

  /** `split`: at the leftmost occurrences, none overlapping; an empty separator gives every
    * character, and of the empty text nothing at all. */
  function Cuts(text: string, sep: string): (parts: seq<string>)
    ensures sep != "" ==> parts != []
    decreases |text|
  {
    if sep == "" then seq(|text|, i requires 0 <= i < |text| => [text[i]])
    else if text == "" then [""]
    else if sep <= text then [""] + Cuts(text[|sep|..], sep)
    else Longer(text[0], Cuts(text[1..], sep))
  }

  /** The pieces with one more character in front. */
  function Longer(c: char, parts: seq<string>): (r: seq<string>)
    requires parts != []
    ensures |r| == |parts|
  {
    [[c] + parts[0]] + parts[1..]
  }

  function Joined(parts: seq<string>, sep: string): string {
    if parts == [] then ""
    else if |parts| == 1 then parts[0]
    else parts[0] + sep + Joined(parts[1..], sep)
  }

  /** How often the source counts a form in a text. */
  function Hits(text: string, form: string): int {
    |Cuts(text, form)| - 1
  }

  function ApplyEdit(text: string, find: string, replace: string): string {
    Joined(Cuts(text, find), replace)
  }

  datatype State = Pending | Applied | Invalid

  function EditState(text: string, find: string, replace: string, wanted: int): State {
    var hits, landed := Hits(text, find), Hits(text, replace);
    if Includes(replace, find) then
      if landed == wanted then Applied
      else if landed == 0 && hits == wanted then Pending
      else Invalid
    else if Includes(find, replace) then
      if hits == 0 then if landed == wanted then Applied else Invalid
      else if hits == wanted then Pending
      else Invalid
    else if hits == 0 && landed == wanted then Applied
    else if hits == wanted && landed == 0 then Pending
    else Invalid
  }

  // ---- splitting ----

  lemma CutsMatch(text: string, sep: string)
    requires sep != "" && text != "" && sep <= text
    ensures Cuts(text, sep) == [""] + Cuts(text[|sep|..], sep)
  {
  }

  lemma CutsNoMatch(text: string, sep: string)
    requires sep != "" && text != "" && !(sep <= text)
    ensures Cuts(text, sep) == Longer(text[0], Cuts(text[1..], sep))
  {
  }

  lemma JoinedCons(head: string, rest: seq<string>, sep: string)
    requires rest != []
    ensures Joined([head] + rest, sep) == head + sep + Joined(rest, sep)
  {
    assert ([head] + rest)[1..] == rest;
  }

  lemma JoinedLonger(c: char, rest: seq<string>, sep: string)
    requires rest != []
    ensures Joined(Longer(c, rest), sep) == [c] + Joined(rest, sep)
  {
    if |rest| == 1 {
      assert Longer(c, rest) == [[c] + rest[0]];
    } else {
      JoinedCons([c] + rest[0], rest[1..], sep);
      JoinedCons(rest[0], rest[1..], sep);
      assert [rest[0]] + rest[1..] == rest;
    }
  }

  lemma {:induction false} JoinedChars(text: string)
    ensures Joined(Cuts(text, ""), "") == text
  {
    if |text| > 1 {
      JoinedChars(text[1..]);
      assert Cuts(text, "")[1..] == Cuts(text[1..], "");
    }
  }

  lemma JoinedEmptyFirst(rest: seq<string>, sep: string)
    requires rest != []
    ensures Joined([""] + rest, sep) == sep + Joined(rest, sep)
  {
    JoinedCons("", rest, sep);
    assert "" + sep == sep;
  }

  lemma JoinedMatch(text: string, sep: string, rest: seq<string>)
    requires sep != "" && text != "" && sep <= text && rest == Cuts(text[|sep|..], sep)
    requires Joined(rest, sep) == text[|sep|..]
    ensures Joined(Cuts(text, sep), sep) == text
  {
    CutsMatch(text, sep);
    JoinedEmptyFirst(rest, sep);
    assert text == sep + text[|sep|..];
  }

  lemma JoinedNoMatch(text: string, sep: string, rest: seq<string>)
    requires sep != "" && text != "" && !(sep <= text) && rest == Cuts(text[1..], sep)
    requires Joined(rest, sep) == text[1..]
    ensures Joined(Cuts(text, sep), sep) == text
  {
    CutsNoMatch(text, sep);
    JoinedLonger(text[0], rest, sep);
    assert text == [text[0]] + text[1..];
  }

  /** Joining what was split with its own separator gives the text back. */
  lemma {:induction false} JoinedCuts(text: string, sep: string)
    ensures Joined(Cuts(text, sep), sep) == text
    decreases |text|
  {
    if sep == "" {
      JoinedChars(text);
    } else if text != "" {
      if sep <= text {
        JoinedCuts(text[|sep|..], sep);
        JoinedMatch(text, sep, Cuts(text[|sep|..], sep));
      } else {
        JoinedCuts(text[1..], sep);
        JoinedNoMatch(text, sep, Cuts(text[1..], sep));
      }
    }
  }

  /** The separator does not begin inside the piece it follows. */
  ghost predicate NoEarlier(piece: string, sep: string) {
    forall i :: 0 <= i < |piece| ==> !(sep <= (piece + sep)[i..])
  }

  lemma CutsAtOnce(sep: string, rest: string)
    requires sep != ""
    ensures Cuts(sep + rest, sep) == [""] + Cuts(rest, sep)
  {
    CutsMatch(sep + rest, sep);
    assert (sep + rest)[|sep|..] == rest;
  }

  lemma CutsLater(piece: string, sep: string, rest: string)
    requires sep != "" && piece != "" && NoEarlier(piece, sep)
    ensures Cuts(piece + sep + rest, sep) == Longer(piece[0], Cuts(piece[1..] + sep + rest, sep))
  {
    var text := piece + sep + rest;
    assert text[..|sep|] == (piece + sep)[0..][..|sep|];
    assert text[1..] == piece[1..] + sep + rest;
    CutsNoMatch(text, sep);
  }

  lemma LongerFirst(piece: string, rest: seq<string>)
    requires piece != ""
    ensures Longer(piece[0], [piece[1..]] + rest) == [piece] + rest
  {
    assert ([piece[1..]] + rest)[1..] == rest;
    assert [piece[0]] + piece[1..] == piece;
  }

  lemma CutsFirstStep(piece: string, sep: string, rest: string, cuts: seq<string>)
    requires sep != "" && piece != "" && NoEarlier(piece, sep)
    requires Cuts(piece[1..] + sep + rest, sep) == [piece[1..]] + cuts
    ensures Cuts(piece + sep + rest, sep) == [piece] + cuts
  {
    CutsLater(piece, sep, rest);
    LongerFirst(piece, cuts);
  }

  lemma {:induction false} CutsFirst(piece: string, sep: string, rest: string)
    requires sep != "" && NoEarlier(piece, sep)
    ensures Cuts(piece + sep + rest, sep) == [piece] + Cuts(rest, sep)
    decreases |piece|
  {
    if piece == "" {
      CutsAtOnce(sep, rest);
      assert piece + sep + rest == sep + rest;
    } else {
      NoEarlierLater(piece, sep);
      CutsFirst(piece[1..], sep, rest);
      CutsFirstStep(piece, sep, rest, Cuts(rest, sep));
    }
  }

  lemma NoEarlierLater(piece: string, sep: string)
    requires piece != "" && NoEarlier(piece, sep)
    ensures NoEarlier(piece[1..], sep)
  {
    forall i | 0 <= i < |piece[1..]| ensures !(sep <= (piece[1..] + sep)[i..]) {
      assert (piece[1..] + sep)[i..] == (piece + sep)[i + 1..];
    }
  }

  /** A text holds a form exactly when it is counted at least once. */
  lemma {:induction false} CountedIffIncluded(text: string, form: string)
    requires form != ""
    ensures Hits(text, form) >= 1 <==> Includes(text, form)
    ensures !Includes(text, form) ==> Cuts(text, form) == [text]
    decreases |text|
  {
    if text != "" && !(form <= text) {
      CountedIffIncluded(text[1..], form);
      assert [text[0]] + text[1..] == text;
    }
  }

  /** Joining these pieces creates no other occurrence of the separator before its own. */
  ghost predicate Clean(parts: seq<string>, sep: string)
    requires parts != []
  {
    && (forall n :: 0 <= n < |parts| - 1 ==> NoEarlier(parts[n], sep))
    && !Includes(parts[|parts| - 1], sep)
  }

  lemma {:induction false} CleanIsCutBack(parts: seq<string>, sep: string)
    requires sep != "" && parts != [] && Clean(parts, sep)
    ensures Cuts(Joined(parts, sep), sep) == parts
  {
    if |parts| == 1 {
      CountedIffIncluded(parts[0], sep);
    } else {
      assert Clean(parts[1..], sep);
      CleanIsCutBack(parts[1..], sep);
      CutsFirst(parts[0], sep, Joined(parts[1..], sep));
    }
  }

  lemma NoEarlierAfter(c: char, piece: string, sep: string)
    requires NoEarlier(piece, sep) && !(sep <= [c] + piece + sep)
    ensures NoEarlier([c] + piece, sep)
  {
    var longer := [c] + piece;
    forall i | 0 <= i < |longer| ensures !(sep <= (longer + sep)[i..]) {
      if i == 0 {
        assert (longer + sep)[0..] == [c] + piece + sep;
      } else {
        assert (longer + sep)[i..] == (piece + sep)[i - 1..];
      }
    }
  }

  lemma {:induction false} CutsAreClean(text: string, sep: string)
    requires sep != ""
    ensures Clean(Cuts(text, sep), sep)
    decreases |text|
  {
    if text != "" {
      if sep <= text {
        CutsAreClean(text[|sep|..], sep);
      } else {
        CutsAreClean(text[1..], sep);
        var rest := Cuts(text[1..], sep);
        FirstCutIsClean(text, rest, sep);
      }
    }
  }

  lemma OnlyCutIsClean(text: string, sep: string)
    requires sep != "" && text != "" && !(sep <= text) && !Includes(text[1..], sep)
    ensures Clean([text], sep)
  {
  }

  lemma FirstCutIsClean(text: string, rest: seq<string>, sep: string)
    requires sep != "" && text != "" && !(sep <= text)
    requires rest == Cuts(text[1..], sep) && Clean(rest, sep)
    ensures Clean(Longer(text[0], rest), sep)
  {
    var c := text[0];
    JoinedCuts(text[1..], sep);
    assert text == [c] + text[1..];
    if |rest| == 1 {
      OnlyCutIsClean(text, sep);
      assert Longer(c, rest) == [text];
    } else {
      LongerCutIsClean(c, rest, sep);
    }
  }

  lemma LongerCutIsClean(c: char, parts: seq<string>, sep: string)
    requires |parts| > 1 && Clean(parts, sep) && !(sep <= [c] + Joined(parts, sep))
    ensures Clean(Longer(c, parts), sep)
  {
    var tail := Joined(parts[1..], sep);
    assert [c] + Joined(parts, sep) == [c] + parts[0] + sep + tail;
    assert [c] + parts[0] + sep <= [c] + parts[0] + sep + tail;
    NoEarlierAfter(c, parts[0], sep);
  }

  /** Splitting what was joined gives the pieces back exactly when no piece, followed by the
    * separator, holds it any earlier and the last piece does not hold it. */
  lemma CutBackIffClean(parts: seq<string>, sep: string)
    requires sep != "" && parts != []
    ensures Cuts(Joined(parts, sep), sep) == parts <==> Clean(parts, sep)
  {
    if Clean(parts, sep) {
      CleanIsCutBack(parts, sep);
    }
    CutsAreClean(Joined(parts, sep), sep);
  }

  // ---- counting ----

  lemma DropTwice(text: string, n: nat, m: nat)
    requires n + m <= |text|
    ensures text[n..][m..] == text[n + m..]
  {
  }

  /** The leftmost, non-overlapping occurrences, counted. */
  function Count(text: string, form: string): nat
    requires form != ""
    decreases |text|
  {
    if text == "" then 0
    else if form <= text then 1 + Count(text[|form|..], form)
    else Count(text[1..], form)
  }

  lemma {:induction false} HitsIsCount(text: string, form: string)
    requires form != ""
    ensures Hits(text, form) == Count(text, form)
    decreases |text|
  {
    if text != "" {
      if form <= text {
        HitsIsCount(text[|form|..], form);
      } else {
        HitsIsCount(text[1..], form);
      }
    }
  }

  /** Counting from further on finds no more, and at most one less per form's length. */
  lemma {:induction false} LaterStart(text: string, form: string, n: nat)
    requires form != "" && n <= |text|
    ensures Count(text[n..], form) <= Count(text, form)
    ensures n <= |form| ==> Count(text, form) <= Count(text[n..], form) + 1
    decreases |text|
  {
    if n == 0 {
      assert text[0..] == text;
    } else if !(form <= text) {
      LaterStart(text[1..], form, n - 1);
      DropTwice(text, 1, n - 1);
    } else if n <= |form| {
      LaterStart(text[n..], form, |form| - n);
      DropTwice(text, n, |form| - n);
    } else {
      LaterStart(text[|form|..], form, n - |form|);
      DropTwice(text, |form|, n - |form|);
    }
  }

  /** The separators put in are all counted. */
  lemma {:induction false} JoinedHits(parts: seq<string>, sep: string)
    requires sep != "" && parts != []
    ensures Hits(Joined(parts, sep), sep) >= |parts| - 1
  {
    if |parts| > 1 {
      var rest := Joined(parts[1..], sep);
      JoinedHits(parts[1..], sep);
      LaterStart(parts[0] + sep + rest, sep, |parts[0]|);
      assert (parts[0] + sep + rest)[|parts[0]|..] == sep + rest;
      assert (sep + rest)[|sep|..] == rest;
      HitsIsCount(rest, sep);
    }
    HitsIsCount(Joined(parts, sep), sep);
  }

  // ---- edits ----

  lemma IncludesEmpty(text: string)
    ensures Includes(text, "")
  {
  }

  /** Applying a pending replacement or insertion lands it at least as often as expected, so it
    * is never pending again: it has been applied, or the site is invalid and stops the run. */
  lemma AppliedOnceOnly(text: string, find: string, replace: string, wanted: int)
    requires wanted >= 1 && EditState(text, find, replace, wanted) == Pending && !Includes(find, replace)
    ensures var after := ApplyEdit(text, find, replace);
            && Hits(after, replace) >= wanted
            && EditState(after, find, replace, wanted) != Pending
            && (EditState(after, find, replace, wanted) == Applied <==>
                Hits(after, replace) == wanted && (Includes(replace, find) || !Includes(after, find)))
  {
    IncludesEmpty(find);
    JoinedHits(Cuts(text, find), replace);
    var after := ApplyEdit(text, find, replace);
    if find == "" {
      IncludesEmpty(replace);
    } else {
      CountedIffIncluded(after, find);
    }
  }

  // ---- the states, by occurrences ----

  /** The text is n + 1 pieces with the form between them, which it holds nowhere else: no piece,
    * followed by the form, holds it earlier, and the last piece does not hold it. */
  ghost predicate Occurs(text: string, form: string, n: int) {
    exists parts :: parts != [] && |parts| == n + 1 && Clean(parts, form) && Joined(parts, form) == text
  }

  lemma HitsAreOccurrences(text: string, form: string, n: int)
    requires form != ""
    ensures Hits(text, form) == n <==> Occurs(text, form, n)
    ensures Hits(text, form) == 0 <==> !Includes(text, form)
  {
    CountedIffIncluded(text, form);
    JoinedCuts(text, form);
    CutsAreClean(text, form);
    if Occurs(text, form, n) {
      var parts :| parts != [] && |parts| == n + 1 && Clean(parts, form) && Joined(parts, form) == text;
      CleanIsCutBack(parts, form);
    }
  }

  /** An edit is pending exactly when its source form occurs as often as expected and, unless it
    * is a deletion, its target form does not occur. It has been applied exactly when its target
    * form occurs as often as expected and, unless it is an insertion, its source form does not. */
  lemma StateByOccurrences(text: string, find: string, replace: string, wanted: int)
    requires find != "" && replace != "" && wanted >= 1
    ensures var insertion := Includes(replace, find);
            var deletion := Includes(find, replace) && !insertion;
            && (EditState(text, find, replace, wanted) == Pending <==>
                Occurs(text, find, wanted) && (deletion || !Includes(text, replace)))
            && (EditState(text, find, replace, wanted) == Applied <==>
                Occurs(text, replace, wanted) && (insertion || !Includes(text, find)))
  {
    HitsAreOccurrences(text, find, wanted);
    HitsAreOccurrences(text, replace, wanted);
  }

  // ---- a deletion may bring the source form back, around the cut ----

  function Tail(s: string, n: nat): string {
    if n <= |s| then s[|s| - n..] else s
  }

  function Head(s: string, n: nat): string {
    if n <= |s| then s[..n] else s
  }

  /** What stands around a cut once the target form is put in, as far as the source form can reach. */
  function Window(before: string, find: string, replace: string, after: string): string
    requires find != ""
  {
    Tail(before, |find| - 1) + replace + Head(after, |find| - 1)
  }

  lemma {:induction false} IncludedAt(text: string, part: string, i: nat)
    requires i <= |text| && part <= text[i..]
    ensures Includes(text, part)
  {
    if i > 0 {
      assert text[1..][i - 1..] == text[i..];
      IncludedAt(text[1..], part, i - 1);
    } else {
      assert text[0..] == text;
    }
  }

  /** Where the form does not begin, nothing is counted. */
  lemma {:induction false} CountSkips(text: string, form: string, n: nat)
    requires form != "" && n <= |text| && forall i :: 0 <= i < n ==> !(form <= text[i..])
    ensures Count(text, form) == Count(text[n..], form)
  {
    if n > 0 {
      assert text[0..] == text;
      forall i | 0 <= i < n - 1 ensures !(form <= text[1..][i..]) {
        DropTwice(text, 1, i);
      }
      CountSkips(text[1..], form, n - 1);
      DropTwice(text, 1, n - 1);
    } else {
      assert text[0..] == text;
    }
  }

  /** Every occurrence of the form ends by position m. */
  ghost predicate EndsBy(text: string, form: string, m: nat) {
    forall i :: 0 <= i <= |text| && form <= text[i..] ==> i + |form| <= m
  }

  lemma EndsByLater(text: string, form: string, m: nat, n: nat)
    requires EndsBy(text, form, m) && n <= |text|
    ensures EndsBy(text[n..], form, if n <= m then m - n else 0)
  {
    forall i | 0 <= i <= |text[n..]| && form <= text[n..][i..] ensures n + i + |form| <= m {
      DropTwice(text, n, i);
    }
  }

  lemma PrefixDrop(text: string, m: nat, n: nat)
    requires n <= m <= |text|
    ensures text[..m][n..] == text[n..][..m - n]
  {
  }

  lemma PrefixStays(text: string, form: string, m: nat)
    requires m <= |text|
    ensures form <= text[..m] ==> form <= text
  {
  }

  /** What comes after the last occurrence does not enter the count. */
  lemma {:induction false} CountTrims(text: string, form: string, m: nat)
    requires form != "" && m <= |text| && EndsBy(text, form, m)
    ensures Count(text, form) == Count(text[..m], form)
    decreases |text|
  {
    if text != "" {
      assert text[0..] == text;
      if form <= text {
        EndsByLater(text, form, m, |form|);
        CountTrims(text[|form|..], form, m - |form|);
        PrefixDrop(text, m, |form|);
        assert form <= text[..m];
      } else {
        EndsByLater(text, form, m, 1);
        if m > 0 {
          CountTrims(text[1..], form, m - 1);
          PrefixDrop(text, m, 1);
          PrefixStays(text, form, m);
        } else {
          CountTrims(text[1..], form, 0);
        }
      }
    }
  }

  lemma NotBeforeWindow(before: string, find: string, rest: string, i: nat)
    requires find != "" && NoEarlier(before, find) && i + |find| <= |before|
    ensures !(find <= (before + rest)[i..])
  {
    assert (before + rest)[i..][..|find|] == before[i..][..|find|] == (before + find)[i..][..|find|];
  }

  /** Before the window nothing is counted. */
  lemma WindowStarts(before: string, find: string, rest: string)
    requires find != "" && NoEarlier(before, find)
    ensures Count(before + rest, find) == Count(Tail(before, |find| - 1) + rest, find)
  {
    var p := |before| - |Tail(before, |find| - 1)|;
    forall i | 0 <= i < p ensures !(find <= (before + rest)[i..]) {
      NotBeforeWindow(before, find, rest, i);
    }
    CountSkips(before + rest, find, p);
    assert (before + rest)[p..] == Tail(before, |find| - 1) + rest;
  }

  /** Behind the window nothing is counted. */
  lemma WindowEnds(front: string, find: string, after: string)
    requires find != "" && !Includes(after, find)
    ensures Count(front + after, find) == Count(front + Head(after, |find| - 1), find)
  {
    var text, m := front + after, |front + Head(after, |find| - 1)|;
    forall i | 0 <= i <= |text| && find <= text[i..] ensures i + |find| <= m {
      if i >= |front| {
        assert text[i..] == after[i - |front|..];
        IncludedAt(after, find, i - |front|);
      }
    }
    CountTrims(text, find, m);
    assert text[..m] == front + Head(after, |find| - 1);
  }

  lemma Associates(a: string, b: string, c: string)
    ensures a + (b + c) == a + b + c
  {
  }

  lemma WindowDecides(before: string, find: string, replace: string, after: string)
    requires find != "" && NoEarlier(before, find) && !Includes(after, find)
    ensures Hits(before + replace + after, find) == Hits(Window(before, find, replace, after), find)
  {
    var tail := Tail(before, |find| - 1);
    WindowStarts(before, find, replace + after);
    WindowEnds(tail + replace, find, after);
    Associates(before, replace, after);
    Associates(tail, replace, after);
    HitsIsCount(before + replace + after, find);
    HitsIsCount(Window(before, find, replace, after), find);
  }

  /** What a pending edit of one site cuts. */
  lemma OneSite(text: string, find: string, replace: string)
    requires find != "" && Hits(text, find) == 1
    ensures var cuts := Cuts(text, find);
            && |cuts| == 2 && text == cuts[0] + find + cuts[1] && ApplyEdit(text, find, replace) == cuts[0] + replace + cuts[1]
            && NoEarlier(cuts[0], find) && !Includes(cuts[1], find)
  {
    var cuts := Cuts(text, find);
    JoinedCuts(text, find);
    CutsAreClean(text, find);
    JoinedTwo(cuts[0], cuts[1], find);
    JoinedTwo(cuts[0], cuts[1], replace);
    assert cuts == [cuts[0], cuts[1]];
  }

  lemma JoinedTwo(a: string, b: string, sep: string)
    ensures Joined([a, b], sep) == a + sep + b
  {
    assert [a, b][1..] == [b];
  }

  /** A deletion brings the source form back as often as the window around its cut holds it: it
    * is pending again exactly when that is once, and it has been applied exactly when the window
    * does not hold it and the target form stands there once. */
  lemma DeletionRecursIff(text: string, find: string, replace: string)
    requires EditState(text, find, replace, 1) == Pending && Includes(find, replace) && !Includes(replace, find)
    ensures find != "" && |Cuts(text, find)| == 2 && text == Cuts(text, find)[0] + find + Cuts(text, find)[1]
    ensures var window := Window(Cuts(text, find)[0], find, replace, Cuts(text, find)[1]);
            var edited := ApplyEdit(text, find, replace);
            && Hits(edited, find) == Hits(window, find)
            && (EditState(edited, find, replace, 1) == Pending <==> Hits(window, find) == 1)
            && (EditState(edited, find, replace, 1) == Applied <==> !Includes(window, find) && Hits(edited, replace) == 1)
  {
    IncludesEmpty(replace);
    OneSite(text, find, replace);
    var before, after := Cuts(text, find)[0], Cuts(text, find)[1];
    WindowDecides(before, find, replace, after);
    CountedIffIncluded(Window(before, find, replace, after), find);
  }

  /** However often it is expected, a deletion that leaves no source form is not pending again. */
  lemma DeletionAppliedOnce(text: string, find: string, replace: string, wanted: int)
    requires wanted >= 1 && EditState(text, find, replace, wanted) == Pending
    requires Includes(find, replace) && !Includes(replace, find) && !Includes(ApplyEdit(text, find, replace), find)
    ensures EditState(ApplyEdit(text, find, replace), find, replace, wanted) != Pending
  {
    IncludesEmpty(replace);
    CountedIffIncluded(ApplyEdit(text, find, replace), find);
  }

  lemma {:induction false} IncludedIsShorter(text: string, part: string)
    requires Includes(text, part)
    ensures |part| <= |text| && (|part| == |text| ==> part == text)
  {
    if !(part <= text) {
      IncludedIsShorter(text[1..], part);
    }
  }

  /** The two directions agree: an edit has been applied exactly when its reverse is pending. */
  lemma AppliedIffReversePending(text: string, find: string, replace: string, wanted: int)
    requires wanted >= 1 && find != replace
    ensures EditState(text, find, replace, wanted) == Applied <==> EditState(text, replace, find, wanted) == Pending
  {
    if Includes(find, replace) && Includes(replace, find) {
      IncludedIsShorter(find, replace);
      IncludedIsShorter(replace, find);
    }
  }

  lemma FoundInFirst(pieces: seq<string>, sep: string, i: nat)
    requires sep != "" && pieces != [] && i < |pieces[0]| && sep <= Joined(pieces, sep)[i..]
    ensures !Clean(pieces, sep)
  {
    var first := pieces[0];
    if |pieces| == 1 {
      IncludedAt(first, sep, i);
    } else {
      var text := first + sep + Joined(pieces[1..], sep);
      assert text[i..][..|sep|] == (first + sep)[i..][..|sep|];
    }
  }

  lemma JoinedStarts(pieces: seq<string>, sep: string)
    requires pieces != []
    ensures pieces[0] <= Joined(pieces, sep)
    ensures |pieces| > 1 ==> pieces[0] + sep <= Joined(pieces, sep) && sep <= Joined(pieces, sep)[|pieces[0]|..]
    ensures |pieces| > 1 ==> Joined(pieces[1..], sep) == Joined(pieces, sep)[|pieces[0]| + |sep|..]
  {
  }

  lemma HeadNotShorter(p: seq<string>, q: seq<string>, f: string, r: string)
    requires r != "" && p != [] && q != [] && Clean(q, r)
    requires Joined(p, f) == Joined(q, f) && Joined(p, r) == Joined(q, r)
    ensures |p[0]| >= |q[0]|
  {
    if |p| > 1 {
      JoinedStarts(p, r);
      if |p[0]| < |q[0]| {
        FoundInFirst(q, r, |p[0]|);
      }
    } else {
      JoinedStarts(q, f);
    }
  }

  lemma FirstOf(p: seq<string>, q: seq<string>, f: string)
    requires p != [] && q != [] && |p[0]| == |q[0]| && Joined(p, f) == Joined(q, f)
    ensures p[0] == q[0]
  {
    JoinedStarts(p, f);
    JoinedStarts(q, f);
    assert p[0] == Joined(p, f)[..|p[0]|] == q[0];
  }

  lemma AloneIffShort(p: seq<string>, f: string)
    requires f != "" && p != []
    ensures |p| == 1 <==> |Joined(p, f)| == |p[0]|
  {
    JoinedStarts(p, f);
    assert |p| > 1 ==> |p[0] + f| > |p[0]|;
  }

  lemma SameHead(p: seq<string>, q: seq<string>, f: string, r: string)
    requires f != "" && r != "" && p != [] && q != [] && Clean(p, f) && Clean(q, r)
    requires Joined(p, f) == Joined(q, f) && Joined(p, r) == Joined(q, r)
    ensures p[0] == q[0] && (|p| == 1 <==> |q| == 1)
  {
    HeadNotShorter(p, q, f, r);
    HeadNotShorter(q, p, r, f);
    FirstOf(p, q, f);
    AloneIffShort(p, f);
    AloneIffShort(q, f);
  }

  lemma SameTail(p: seq<string>, q: seq<string>, sep: string)
    requires |p| > 1 && |q| > 1 && p[0] == q[0] && Joined(p, sep) == Joined(q, sep)
    ensures Joined(p[1..], sep) == Joined(q[1..], sep)
  {
    JoinedStarts(p, sep);
    JoinedStarts(q, sep);
  }

  lemma CleanTail(p: seq<string>, sep: string)
    requires |p| > 1 && Clean(p, sep)
    ensures Clean(p[1..], sep)
  {
  }

  /** Pieces cut at one separator and pieces cut at another that join alike with both are the same. */
  lemma {:induction false} SamePieces(p: seq<string>, q: seq<string>, f: string, r: string)
    requires f != "" && r != "" && p != [] && q != [] && Clean(p, f) && Clean(q, r)
    requires Joined(p, f) == Joined(q, f) && Joined(p, r) == Joined(q, r)
    ensures p == q
    decreases |p|
  {
    SameHead(p, q, f, r);
    if |p| > 1 {
      SameTail(p, q, f);
      SameTail(p, q, r);
      CleanTail(p, f);
      CleanTail(q, r);
      SamePieces(p[1..], q[1..], f, r);
      assert p == [p[0]] + p[1..] && q == [q[0]] + q[1..];
    }
  }

  /** The reverse edit restores the text exactly when the new form stands only where it was put:
    * no piece, followed by the new form, holds it earlier, and the last piece does not hold it. */
  lemma ReverseRestores(text: string, find: string, replace: string)
    requires find != "" && replace != ""
    ensures ApplyEdit(ApplyEdit(text, find, replace), replace, find) == text <==> Clean(Cuts(text, find), replace)
  {
    var p, q := Cuts(text, find), Cuts(ApplyEdit(text, find, replace), replace);
    JoinedCuts(text, find);
    JoinedCuts(ApplyEdit(text, find, replace), replace);
    CutsAreClean(text, find);
    CutsAreClean(ApplyEdit(text, find, replace), replace);
    if Clean(p, replace) {
      CleanIsCutBack(p, replace);
    }
    if Joined(q, find) == text {
      SamePieces(p, q, find, replace);
    }
  }

  // ---- where the two promises end ----

  lemma CutOnce(piece: string, sep: string, rest: string)
    requires sep != "" && NoEarlier(piece, sep) && !Includes(rest, sep)
    ensures Cuts(piece + sep + rest, sep) == [piece, rest]
  {
    CutsFirst(piece, sep, rest);
    CountedIffIncluded(rest, sep);
  }

  lemma ShorterIsNotIncluded(text: string, part: string)
    requires |text| < |part|
    ensures !Includes(text, part)
  {
    if Includes(text, part) {
      IncludedIsShorter(text, part);
    }
  }

  /** Deleting "ab" from "aabb" leaves "ab", and the deletion is pending again. */
  lemma DeletionCanRecur()
    ensures EditState("aabb", "ab", "", 1) == Pending
    ensures ApplyEdit("aabb", "ab", "") == "ab" && EditState("ab", "ab", "", 1) == Pending
  {
    assert "aabb" == "a" + "ab" + "b" && "ab" == "" + "ab" + "";
    assert ("a" + "ab")[0..][1] == 'a' != "ab"[1];
    ShorterIsNotIncluded("b", "ab");
    ShorterIsNotIncluded("", "ab");
    CutOnce("a", "ab", "b");
    CutOnce("", "ab", "");
    IncludesEmpty("ab");
  }

  /** Replacing "b" by "aa" in "ab" lands once, but undoing it finds the new form earlier. */
  lemma ReverseCanMisplace()
    ensures ApplyEdit("ab", "b", "aa") == "aaa" && EditState("aaa", "b", "aa", 1) == Applied
    ensures ApplyEdit("aaa", "aa", "b") == "ba" && !Clean(["a", ""], "aa")
  {
    assert "ab" == "a" + "b" + "" && "aaa" == "" + "aa" + "a";
    assert NoEarlier("a", "b") && !Includes("", "b") && !Includes("a", "aa");
    CutOnce("a", "b", "");
    CutOnce("", "aa", "a");
    assert !Includes("aaa", "b");
    CountedIffIncluded("aaa", "b");
    assert "aa" <= ("a" + "aa")[0..];
  }
}
