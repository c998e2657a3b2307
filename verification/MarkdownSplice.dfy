/** Replacing link destinations in Markdown text without reserializing it
  * (scripts/project-doc-site.ts, the replacement loop of `rewriteMarkdown`). */
module MarkdownSplice {
  import opened Sorting

  datatype Replacement = Replacement(start: nat, end: nat, value: string)

  predicate Earlier(a: Replacement, b: Replacement) {
    a.start < b.start
  }

  function EarlierFirst(): (Replacement, Replacement) -> bool {
    (a, b) => Earlier(a, b)
  }

  function LaterFirst(): (Replacement, Replacement) -> bool {
    (a, b) => Earlier(b, a)
  }

  /** `s.slice(0, n)` and `s.slice(n)`, clamped to the text. */
  function Take(s: string, n: nat): string {
    if n <= |s| then s[..n] else s
  }

  function Drop(s: string, n: nat): string {
    if n <= |s| then s[n..] else ""
  }

  /** In-range replacements with distinct starts, no two of which overlap. */
  ghost predicate Disjoint(source: string, reps: seq<Replacement>) {
    && (forall i :: 0 <= i < |reps| ==> reps[i].start <= reps[i].end <= |source|)
    && (forall i, j :: 0 <= i < |reps| && 0 <= j < |reps| && i != j ==>
          reps[i].start != reps[j].start && (reps[i].end <= reps[j].start || reps[j].end <= reps[i].start))
  }

  /** Replacements in text order from a position on, each ending before the next begins. */
  ghost predicate InTextOrder(source: string, reps: seq<Replacement>, from: nat) {
    if reps == [] then from <= |source|
    else from <= reps[0].start <= reps[0].end <= |source| && InTextOrder(source, reps[1..], reps[0].end)
  }

  /** One left-to-right pass: kept text up to each replacement, then its value. */
  function Merge(source: string, reps: seq<Replacement>, from: nat): string {
    if reps == [] then Drop(source, from)
    else (if from <= reps[0].start <= |source| then source[from..reps[0].start] else "")
         + (reps[0].value + Merge(source, reps[1..], reps[0].end))
  }

  lemma SliceThen(s: string, a: nat, b: nat, c: nat, tail: string)
    requires a <= b <= c <= |s|
    ensures s[a..c] + tail == s[a..b] + (s[b..c] + tail)
  {
  }

  lemma {:induction false} MergeFromLater(source: string, reps: seq<Replacement>, from: nat, q: nat)
    requires InTextOrder(source, reps, q) && from <= q
    ensures Merge(source, reps, from) == source[from..q] + Merge(source, reps, q)
  {
    if reps == [] {
      assert source[from..] == source[from..q] + source[q..];
    } else {
      SliceThen(source, from, q, reps[0].start, reps[0].value + Merge(source, reps[1..], reps[0].end));
    }
  }

  lemma MergeNothing(source: string)
    ensures Merge(source, [], 0) == source
  {
  }

  /** Splicing one earlier replacement into the merge of the later ones. */
  lemma SpliceOne(source: string, r: Replacement, later: seq<Replacement>)
    requires InTextOrder(source, [r] + later, 0)
    ensures var merged := Merge(source, later, 0);
            Take(merged, r.start) + r.value + Drop(merged, r.end) == Merge(source, [r] + later, 0)
  {
    var merged := Merge(source, later, 0);
    assert ([r] + later)[1..] == later;
    MergeFromLater(source, later, 0, r.end);
    assert merged[..r.start] == source[..r.start];
    assert merged[r.end..] == Merge(source, later, r.end);
  }

  lemma {:induction false} AscendingIsTextOrder(source: string, reps: seq<Replacement>, from: nat)
    requires Disjoint(source, reps) && Ascending(reps, EarlierFirst()) && from <= |source|
    requires reps != [] ==> from <= reps[0].start
    ensures InTextOrder(source, reps, from)
  {
    if reps != [] {
      assert |reps| > 1 ==> EarlierFirst()(reps[0], reps[1]);
      AscendingIsTextOrder(source, reps[1..], reps[0].end);
    }
  }

  function Reverse<T>(s: seq<T>): (r: seq<T>)
    ensures |r| == |s| && forall i :: 0 <= i < |s| ==> r[i] == s[|s| - 1 - i]
  {
    if s == [] then [] else Reverse(s[1..]) + [s[0]]
  }

  /** The replacements in text order. */
  function InOrder(reps: seq<Replacement>): seq<Replacement> {
    Sort(reps, EarlierFirst())
  }

  lemma ReverseHas<T>(s: seq<T>)
    ensures forall x :: x in Reverse(s) <==> x in s
  {
    var r := Reverse(s);
    forall x ensures x in r <==> x in s {
      if x in s {
        assert r[|s| - 1 - Position(s, x)] == x;
      }
      if x in r {
        assert s[|s| - 1 - Position(r, x)] == x;
      }
    }
  }

  lemma FlippedAscends(down: seq<Replacement>)
    requires Ascending(down, LaterFirst())
    ensures Ascending(Reverse(down), EarlierFirst())
  {
    var flipped := Reverse(down);
    forall i, j | 0 <= i < j < |flipped| ensures EarlierFirst()(flipped[i], flipped[j]) {
      assert LaterFirst()(down[|down| - 1 - j], down[|down| - 1 - i]);
    }
  }

  /** Disjointness depends on the replacements, not on their order. */
  lemma ReorderedDisjoint(source: string, reps: seq<Replacement>, up: seq<Replacement>)
    requires Disjoint(source, reps) && Ascending(up, EarlierFirst()) && forall x :: x in up <==> x in reps
    ensures Disjoint(source, up)
  {
    forall i | 0 <= i < |up| ensures up[i].start <= up[i].end <= |source| {
      assert up[i] in up;
      var m := Position(reps, up[i]);
    }
    forall i, j | 0 <= i < |up| && 0 <= j < |up| && i != j
      ensures up[i].start != up[j].start && (up[i].end <= up[j].start || up[j].end <= up[i].start)
    {
      assert up[i] in up && up[j] in up;
      assert if i < j then EarlierFirst()(up[i], up[j]) else EarlierFirst()(up[j], up[i]);
      var m, n := Position(reps, up[i]), Position(reps, up[j]);
    }
  }

  ghost predicate DistinctStarts(reps: seq<Replacement>) {
    forall i, j :: 0 <= i < j < |reps| ==> reps[i].start != reps[j].start
  }

  lemma SortsAscend(reps: seq<Replacement>)
    requires DistinctStarts(reps)
    ensures Ascending(Sort(reps, LaterFirst()), LaterFirst()) && Ascending(InOrder(reps), EarlierFirst())
  {
    SortAscends(reps, LaterFirst());
    SortAscends(reps, EarlierFirst());
  }

  lemma DescendingIsReversed(reps: seq<Replacement>)
    requires DistinctStarts(reps)
    ensures Reverse(Sort(reps, LaterFirst())) == InOrder(reps)
  {
    var down, up := Sort(reps, LaterFirst()), InOrder(reps);
    SortsAscend(reps);
    SortHas(reps, LaterFirst());
    SortHas(reps, EarlierFirst());
    FlippedAscends(down);
    ReverseHas(down);
    AscendingIsUnique(Reverse(down), up, EarlierFirst());
  }

  lemma DescendingReversed(source: string, reps: seq<Replacement>)
    requires Disjoint(source, reps)
    ensures Reverse(Sort(reps, LaterFirst())) == InOrder(reps)
    ensures InTextOrder(source, InOrder(reps), 0)
  {
    DescendingIsReversed(reps);
    SortsAscend(reps);
    SortHas(reps, EarlierFirst());
    ReorderedDisjoint(source, reps, InOrder(reps));
    AscendingIsTextOrder(source, InOrder(reps), 0);
  }

  /** One turn of the splicing loop over replacements listed in text order. */
  lemma SpliceNext(source: string, up: seq<Replacement>, n: nat)
    requires InTextOrder(source, up, 0) && 0 < n <= |up|
    ensures var r, merged := up[n - 1], Merge(source, up[n..], 0);
            Take(merged, r.start) + r.value + Drop(merged, r.end) == Merge(source, up[n - 1..], 0)
  {
    SuffixInTextOrder(source, up, n - 1, 0);
    assert up[n - 1..] == [up[n - 1]] + up[n..];
    SpliceOne(source, up[n - 1], up[n..]);
  }

  /** The last k replacements, in text order, are spliced in. */
  ghost predicate Spliced(source: string, up: seq<Replacement>, k: nat, projected: string) {
    k <= |up| && InTextOrder(source, up, 0) && projected == Merge(source, up[|up| - k..], 0)
  }

  lemma NothingSpliced(source: string, replacements: seq<Replacement>)
    requires Disjoint(source, replacements)
    ensures Spliced(source, Reverse(Sort(replacements, LaterFirst())), 0, source)
  {
    DescendingReversed(source, replacements);
    MergeNothing(source);
  }

  lemma OneMoreSpliced(source: string, up: seq<Replacement>, k: nat, projected: string, r: Replacement)
    requires k < |up| && Spliced(source, up, k, projected) && r == up[|up| - 1 - k]
    ensures Spliced(source, up, k + 1, Take(projected, r.start) + r.value + Drop(projected, r.end))
  {
    SpliceNext(source, up, |up| - k);
  }

  lemma AllSpliced(source: string, replacements: seq<Replacement>, projected: string)
    requires Disjoint(source, replacements)
    requires Spliced(source, Reverse(Sort(replacements, LaterFirst())), |replacements|, projected)
    ensures projected == Merge(source, InOrder(replacements), 0)
  {
    DescendingIsReversed(replacements);
    assert InOrder(replacements)[0..] == InOrder(replacements);
  }

  /** Splicing from the last replacement to the first is the single left-to-right merge. */
  method ApplyReplacements(source: string, replacements: seq<Replacement>) returns (projected: string)
    ensures Disjoint(source, replacements) ==> projected == Merge(source, InOrder(replacements), 0)
  {
    projected := source;
    var sorted := Sort(replacements, LaterFirst());
    ghost var ok := Disjoint(source, replacements);
    if ok {
      NothingSpliced(source, replacements);
    }
    for k := 0 to |sorted|
      invariant ok ==> Spliced(source, Reverse(sorted), k, projected)
    {
      if ok {
        OneMoreSpliced(source, Reverse(sorted), k, projected, sorted[k]);
      }
      projected := Take(projected, sorted[k].start) + sorted[k].value + Drop(projected, sorted[k].end);
    }
    if ok {
      AllSpliced(source, replacements, projected);
    }
  }

  lemma {:induction false} SuffixInTextOrder(source: string, reps: seq<Replacement>, k: nat, from: nat)
    requires InTextOrder(source, reps, from) && k <= |reps|
    ensures InTextOrder(source, reps[k..], from)
  {
    if k > 0 {
      SuffixInTextOrder(source, reps[1..], k - 1, reps[0].end);
      assert reps[1..][k - 1..] == reps[k..];
      StartsEarlier(source, reps[k..], reps[0].end, from);
    }
  }

  lemma StartsEarlier(source: string, reps: seq<Replacement>, from: nat, earlier: nat)
    requires InTextOrder(source, reps, from) && earlier <= from
    ensures InTextOrder(source, reps, earlier)
  {
  }

  // ---- nothing outside the ranges changes ----

  /** How far the replacements before a position move it. */
  function Shift(reps: seq<Replacement>, i: nat): int {
    if reps == [] || i < reps[0].end then 0
    else |reps[0].value| - (reps[0].end - reps[0].start) + Shift(reps[1..], i)
  }

  predicate Outside(reps: seq<Replacement>, i: nat) {
    forall k :: 0 <= k < |reps| ==> !(reps[k].start <= i < reps[k].end)
  }

  /** Every character outside the ranges survives, at its shifted position. */
  lemma {:induction false} OutsideSurvives(source: string, reps: seq<Replacement>, from: nat, i: nat)
    requires InTextOrder(source, reps, from) && from <= i < |source| && Outside(reps, i)
    ensures var at := i - from + Shift(reps, i);
            var merged := Merge(source, reps, from);
            0 <= at < |merged| && merged[at] == source[i]
  {
    if reps != [] {
      assert !(reps[0].start <= i < reps[0].end);
      var rest := Merge(source, reps[1..], reps[0].end);
      var kept := source[from..reps[0].start];
      assert Merge(source, reps, from) == kept + (reps[0].value + rest);
      if i >= reps[0].end {
        OutsideSurvives(source, reps[1..], reps[0].end, i);
        var at := i - reps[0].end + Shift(reps[1..], i);
        assert (kept + (reps[0].value + rest))[|kept| + |reps[0].value| + at] == rest[at];
      }
    }
  }

  /** How much longer the first k replacements make the text. */
  function Growth(reps: seq<Replacement>, k: nat): int
    requires k <= |reps|
  {
    if k == 0 then 0 else |reps[0].value| - (reps[0].end - reps[0].start) + Growth(reps[1..], k - 1)
  }

  /** Every value stands where its range was, moved by what the replacements before it add; with
    * what survives outside the ranges, that is the whole text. */
  lemma {:induction false} ValuesStand(source: string, reps: seq<Replacement>, from: nat, k: nat)
    requires InTextOrder(source, reps, from) && k < |reps|
    ensures var at, merged := reps[k].start - from + Growth(reps, k), Merge(source, reps, from);
            0 <= at <= at + |reps[k].value| <= |merged| && merged[at..at + |reps[k].value|] == reps[k].value
  {
    var rest := Merge(source, reps[1..], reps[0].end);
    var kept := source[from..reps[0].start];
    var merged := kept + (reps[0].value + rest);
    assert Merge(source, reps, from) == merged;
    if k == 0 {
      assert merged[|kept|..|kept| + |reps[0].value|] == reps[0].value;
    } else {
      ValuesStand(source, reps[1..], reps[0].end, k - 1);
      var at := reps[k].start - reps[0].end + Growth(reps[1..], k - 1);
      DropKept(kept, reps[0].value, rest, at, at + |reps[k].value|);
    }
  }

  lemma DropKept(kept: string, value: string, rest: string, a: nat, b: nat)
    requires a <= b <= |rest|
    ensures (kept + (value + rest))[|kept| + |value| + a..|kept| + |value| + b] == rest[a..b]
  {
  }

  lemma {:induction false} MergedLength(source: string, reps: seq<Replacement>, from: nat)
    requires InTextOrder(source, reps, from)
    ensures |Merge(source, reps, from)| == |source| - from + Growth(reps, |reps|)
  {
    if reps != [] {
      MergedLength(source, reps[1..], reps[0].end);
    }
  }
}
