/** Rewriting a whole file (scripts/rescope-vendor.ts, `patterns`, `rewriteLine` and `rewrite`):
  * the patterns of one direction, and which lines they are applied to. */
module RescopeFile {
  import opened Wrappers
  import opened Text
  import opened Sorting
  import opened RescopeTokens
  import opened RescopePasses
  import opened RescopeLine

  // ---- the patterns of one direction ----

  datatype Rename = Rename(upstream: string, scoped: string)

  datatype Entry = Entry(upstream: string, pattern: Pattern)

  /** The names each file is exempt from, as pairs of a file and an upstream name. */
  type Skips = set<(string, string)>

  function Oriented(r: Rename, reverse: bool): Entry {
    Entry(r.upstream, if reverse then Pattern(r.scoped, r.upstream) else Pattern(r.upstream, r.scoped))
  }

  function OrientAll(renames: seq<Rename>, reverse: bool): (r: seq<Entry>)
    ensures |r| == |renames| && forall i :: 0 <= i < |r| ==> r[i] == Oriented(renames[i], reverse)
  {
    seq(|renames|, i requires 0 <= i < |renames| => Oriented(renames[i], reverse))
  }

  predicate LongerName(a: Entry, b: Entry) {
    |a.pattern.from| > |b.pattern.from|
  }

  /** Longest name first; names of one length keep their order. */
  function Entries(renames: seq<Rename>, reverse: bool): seq<Entry> {
    Sort(OrientAll(renames, reverse), LongerName)
  }

  predicate Skipped(skips: Skips, file: string, e: Entry) {
    (file, e.upstream) in skips
  }

  /** The patterns a file is rewritten with. */
  function Applied(all: seq<Entry>, file: string, skips: Skips): Patterns {
    if all == [] then []
    else if Skipped(skips, file, all[0]) then Applied(all[1..], file, skips)
    else [all[0].pattern] + Applied(all[1..], file, skips)
  }

  function PatternsFor(renames: seq<Rename>, reverse: bool, file: string, skips: Skips): Patterns {
    Applied(Entries(renames, reverse), file, skips)
  }

  /** No name is, or lies under, another name of the table. */
  ghost predicate Unambiguous(renames: seq<Rename>) {
    && (forall i :: 0 <= i < |renames| ==> Name(renames[i].upstream) && Name(renames[i].scoped))
    && (forall i, j :: 0 <= i < |renames| && 0 <= j < |renames| ==> Apart(renames[i].upstream, renames[j].scoped))
    && (forall i, j :: 0 <= i < |renames| && 0 <= j < |renames| && i != j ==>
          Apart(renames[i].upstream, renames[j].upstream) && Apart(renames[i].scoped, renames[j].scoped))
  }

  lemma {:induction false} AppliedHas(all: seq<Entry>, file: string, skips: Skips, p: Pattern)
    ensures p in Applied(all, file, skips) <==> exists e :: e in all && !Skipped(skips, file, e) && e.pattern == p
  {
    if all != [] {
      AppliedHas(all[1..], file, skips, p);
      assert all == [all[0]] + all[1..];
      assert all[0] in all;
      if p in Applied(all[1..], file, skips) {
        var e :| e in all[1..] && !Skipped(skips, file, e) && e.pattern == p;
        assert e in all;
      }
      if e :| e in all && !Skipped(skips, file, e) && e.pattern == p {
        assert e == all[0] || e in all[1..];
      }
    }
  }

  lemma EntriesHave(renames: seq<Rename>, reverse: bool)
    ensures forall e :: e in Entries(renames, reverse) <==> exists r :: r in renames && Oriented(r, reverse) == e
  {
    var oriented := OrientAll(renames, reverse);
    SortHas(oriented, LongerName);
    forall r | r in renames ensures Oriented(r, reverse) in oriented {
      var i :| 0 <= i < |renames| && renames[i] == r;
      assert oriented[i] == Oriented(r, reverse);
    }
    forall e | e in oriented ensures exists r :: r in renames && Oriented(r, reverse) == e {
      var i :| 0 <= i < |oriented| && oriented[i] == e;
      assert renames[i] in renames;
    }
  }

  /** A file's patterns are the renames it is not exempt from: forwards from the upstream name to
    * the scoped one, in reverse from the scoped name to the upstream one. */
  ghost predicate LongFirst(ps: Patterns) {
    forall i, j :: 0 <= i < j < |ps| ==> |ps[i].from| >= |ps[j].from|
  }

  lemma {:induction false} AppliedAtMost(all: seq<Entry>, file: string, skips: Skips, n: nat)
    requires forall k :: 0 <= k < |all| ==> |all[k].pattern.from| <= n
    ensures forall i :: 0 <= i < |Applied(all, file, skips)| ==> |Applied(all, file, skips)[i].from| <= n
  {
    if all != [] {
      AppliedAtMost(all[1..], file, skips, n);
    }
  }

  lemma {:induction false} AppliedKeepsOrder(all: seq<Entry>, file: string, skips: Skips)
    requires Ordered(all, LongerName)
    ensures LongFirst(Applied(all, file, skips))
  {
    if all != [] {
      AppliedKeepsOrder(all[1..], file, skips);
      forall k | 0 <= k < |all[1..]| ensures |all[1..][k].pattern.from| <= |all[0].pattern.from| {
        assert !LongerName(all[k + 1], all[0]);
      }
      AppliedAtMost(all[1..], file, skips, |all[0].pattern.from|);
    }
  }

  /** Longer names are replaced before shorter ones. */
  lemma LongestFirst(renames: seq<Rename>, reverse: bool, file: string, skips: Skips)
    ensures LongFirst(PatternsFor(renames, reverse, file, skips))
  {
    SortOrders(OrientAll(renames, reverse), LongerName);
    AppliedKeepsOrder(Entries(renames, reverse), file, skips);
  }

  lemma PatternsForHas(renames: seq<Rename>, reverse: bool, file: string, skips: Skips, p: Pattern)
    ensures p in PatternsFor(renames, reverse, file, skips) <==>
            exists r :: r in renames && (file, r.upstream) !in skips
                        && p == if reverse then Pattern(r.scoped, r.upstream) else Pattern(r.upstream, r.scoped)
  {
    AppliedHas(Entries(renames, reverse), file, skips, p);
    EntriesHave(renames, reverse);
    if r :| r in renames && (file, r.upstream) !in skips && Oriented(r, reverse).pattern == p {
      assert !Skipped(skips, file, Oriented(r, reverse));
    }
  }

  lemma ReversedFlips(r: Rename, reverse: bool)
    ensures Flip(Oriented(r, reverse).pattern) == Oriented(r, !reverse).pattern
  {
  }

  lemma FlippedIn(renames: seq<Rename>, reverse: bool, file: string, skips: Skips, p: Pattern)
    requires p in PatternsFor(renames, reverse, file, skips)
    ensures Flip(p) in PatternsFor(renames, !reverse, file, skips)
  {
    PatternsForHas(renames, reverse, file, skips, p);
    var r :| r in renames && (file, r.upstream) !in skips && Oriented(r, reverse).pattern == p;
    ReversedFlips(r, reverse);
    PatternsForHas(renames, !reverse, file, skips, Flip(p));
  }

  /** The two directions' patterns of a file are each other's flips, skips included. */
  lemma DirectionsFlip(renames: seq<Rename>, reverse: bool, file: string, skips: Skips)
    ensures Flipped(PatternsFor(renames, reverse, file, skips), PatternsFor(renames, !reverse, file, skips))
  {
    var ps, qs := PatternsFor(renames, reverse, file, skips), PatternsFor(renames, !reverse, file, skips);
    forall m | 0 <= m < |ps| ensures Flip(ps[m]) in qs {
      FlippedIn(renames, reverse, file, skips, ps[m]);
    }
    forall n | 0 <= n < |qs| ensures Flip(qs[n]) in ps {
      FlippedIn(renames, !reverse, file, skips, qs[n]);
    }
  }

  /** No entry comes twice, whatever the sort did. */
  lemma SortKeepsDistinct(s: seq<Entry>)
    requires Distinct(s)
    ensures Distinct(Sort(s, LongerName))
  {
    var r := Sort(s, LongerName);
    forall i, j | 0 <= i < j < |r| ensures r[i] != r[j] {
      if r[i] == r[j] {
        TwiceInMultiset(r, i, j);
        TwiceHasPositions(s, r[i]);
      }
    }
  }

  lemma {:induction false} AppliedIsDistinct(all: seq<Entry>, file: string, skips: Skips)
    requires forall i, j :: 0 <= i < j < |all| ==> all[i].pattern != all[j].pattern
    ensures Distinct(Applied(all, file, skips))
  {
    if all != [] {
      AppliedIsDistinct(all[1..], file, skips);
      AppliedHas(all[1..], file, skips, all[0].pattern);
    }
  }

  lemma EntriesAreDistinct(renames: seq<Rename>, reverse: bool)
    requires Unambiguous(renames)
    ensures var all := Entries(renames, reverse); forall i, j :: 0 <= i < j < |all| ==> all[i].pattern != all[j].pattern
  {
    var oriented, all := OrientAll(renames, reverse), Entries(renames, reverse);
    forall i, j | 0 <= i < j < |oriented| ensures oriented[i] != oriented[j] {
      assert Apart(renames[i].upstream, renames[j].upstream);
    }
    SortKeepsDistinct(oriented);
    EntriesHave(renames, reverse);
    forall i, j | 0 <= i < j < |all| ensures all[i].pattern != all[j].pattern {
      assert all[i] in all && all[j] in all && all[i] != all[j];
    }
  }

  lemma TwoRenamesApart(renames: seq<Rename>, reverse: bool, r: Rename, q: Rename)
    requires Unambiguous(renames) && r in renames && q in renames
    ensures var a, b := Oriented(r, reverse).pattern, Oriented(q, reverse).pattern;
            Name(a.from) && Name(a.to) && Apart(a.from, b.to) && (a != b ==> Apart(a.from, b.from) && Apart(a.to, b.to))
  {
    var i :| 0 <= i < |renames| && renames[i] == r;
    var j :| 0 <= j < |renames| && renames[j] == q;
    assert Apart(renames[j].upstream, renames[i].scoped);
    assert Apart(renames[i].upstream, renames[j].scoped);
  }

  /** An unambiguous table gives compatible patterns for every file and either direction. */
  lemma PatternsAreCompatible(renames: seq<Rename>, reverse: bool, file: string, skips: Skips)
    requires Unambiguous(renames)
    ensures Compatible(PatternsFor(renames, reverse, file, skips))
  {
    var ps := PatternsFor(renames, reverse, file, skips);
    EntriesAreDistinct(renames, reverse);
    AppliedIsDistinct(Entries(renames, reverse), file, skips);
    forall i, j | 0 <= i < |ps| && 0 <= j < |ps|
      ensures Name(ps[i].from) && Name(ps[i].to) && Apart(ps[i].from, ps[j].to)
      ensures i != j ==> Apart(ps[i].from, ps[j].from) && Apart(ps[i].to, ps[j].to)
    {
      PatternsForHas(renames, reverse, file, skips, ps[i]);
      PatternsForHas(renames, reverse, file, skips, ps[j]);
      var r :| r in renames && Oriented(r, reverse).pattern == ps[i];
      var q :| q in renames && Oriented(q, reverse).pattern == ps[j];
      TwoRenamesApart(renames, reverse, r, q);
    }
  }

  // ---- which lines are rewritten ----

  predicate IsFence(line: string) {
    line != "" && if IsSpace(line[0]) then IsFence(line[1..]) else "```" <= line
  }

  /** What a file's name decides. */
  datatype Kind = Kind(markdown: bool, prose: bool)

  function KindOf(file: string): Kind {
    var markdown := |file| >= 3 && file[|file| - 3..] == ".md";
    Kind(markdown, markdown && "docs/" <= file)
  }

  /** Whether an odd number of fence lines comes before line n. */
  predicate Inside(lines: seq<string>, n: nat)
    requires n <= |lines|
  {
    n > 0 && Inside(lines, n - 1) != IsFence(lines[n - 1])
  }

  /** Markdown is rewritten inside fences, and outside them under docs/; fence lines never are. */
  predicate Eligible(lines: seq<string>, kind: Kind, n: nat)
    requires n < |lines|
  {
    !kind.markdown || (!IsFence(lines[n]) && (kind.prose || Inside(lines, n)))
  }

  function LineAfter(lines: seq<string>, kind: Kind, ps: Patterns, n: nat): string
    requires n < |lines|
  {
    if Eligible(lines, kind, n) then RewriteLine(lines[n], ps) else lines[n]
  }

  function RewriteLines(lines: seq<string>, kind: Kind, ps: Patterns): (r: seq<string>)
    ensures |r| == |lines| && forall n :: 0 <= n < |lines| ==> r[n] == LineAfter(lines, kind, ps, n)
  {
    seq(|lines|, n requires 0 <= n < |lines| => LineAfter(lines, kind, ps, n))
  }

  function RewriteText(text: string, file: string, ps: Patterns): string {
    Join(RewriteLines(Split(text, '\n'), KindOf(file), ps), '\n')
  }

  /** The line numbers where rewriting changed something. */
  ghost function ChangedLines(out: seq<string>, lines: seq<string>): set<nat>
    requires |out| <= |lines|
  {
    set n: nat | n < |out| && out[n] != lines[n]
  }

  lemma OneMoreLine(out: seq<string>, lines: seq<string>, next: string)
    requires |out| < |lines|
    ensures |ChangedLines(out + [next], lines)| == |ChangedLines(out, lines)| + (if next != lines[|out|] then 1 else 0)
  {
    var before, after := ChangedLines(out, lines), ChangedLines(out + [next], lines);
    if next != lines[|out|] {
      assert after == before + {|out|};
    } else {
      assert after == before;
    }
  }

  // ---- the rewriting itself ----

  lemma AppliedStep(all: seq<Entry>, n: nat, file: string, skips: Skips)
    requires n < |all|
    ensures Applied(all[n..], file, skips) ==
            (if Skipped(skips, file, all[n]) then [] else [all[n].pattern]) + Applied(all[n + 1..], file, skips)
  {
    assert all[n..][1..] == all[n + 1..];
  }

  /** One line, pattern after pattern. */
  method RewriteOne(line: string, file: string, all: seq<Entry>, skips: Skips) returns (out: string)
    ensures out == RewriteLine(line, Applied(all, file, skips))
  {
    out := line;
    assert all[0..] == all;
    for n := 0 to |all|
      invariant RewriteLine(line, Applied(all, file, skips)) == RewriteLine(out, Applied(all[n..], file, skips))
    {
      AppliedStep(all, n, file, skips);
      if Skipped(skips, file, all[n]) {
        continue;
      }
      out := ReplaceTokens(out, all[n].pattern);
      out := ReplaceScalars(out, all[n].pattern);
    }
  }

  /** What `rewrite` does with the next line, and the fence state after it. */
  method RewriteNext(line: string, kind: Kind, insideFence: bool, file: string, all: seq<Entry>, skips: Skips)
    returns (next: string, inside: bool)
    ensures inside == (insideFence != (kind.markdown && IsFence(line)))
    ensures next == if !kind.markdown || (!IsFence(line) && (kind.prose || insideFence))
                    then RewriteLine(line, Applied(all, file, skips)) else line
  {
    next, inside := line, insideFence;
    if kind.markdown {
      if IsFence(line) {
        inside := !insideFence;
        return;
      }
      if !insideFence && !kind.prose {
        return;
      }
    }
    next := RewriteOne(line, file, all, skips);
  }

  /** `rewrite`: the text with every eligible line rewritten, and how many lines changed. */
  method Rewrite(text: string, file: string, all: seq<Entry>, skips: Skips) returns (result: string, changed: nat)
    ensures result == RewriteText(text, file, Applied(all, file, skips))
    ensures var lines := Split(text, '\n');
            changed == |ChangedLines(RewriteLines(lines, KindOf(file), Applied(all, file, skips)), lines)|
  {
    var lines := Split(text, '\n');
    var out;
    out, changed := RewriteEach(lines, KindOf(file), file, all, skips);
    result := Join(out, '\n');
  }

  /** The lines of a file are taken one by one: what one step adds to the lines done so far. */
  lemma OneMoreRewritten(lines: seq<string>, kind: Kind, ps: Patterns, out: seq<string>, inside: bool, next: string)
    requires |out| < |lines| && out == RewriteLines(lines, kind, ps)[..|out|]
    requires kind.markdown ==> inside == Inside(lines, |out|)
    requires var line := lines[|out|];
             next == if !kind.markdown || (!IsFence(line) && (kind.prose || inside)) then RewriteLine(line, ps) else line
    ensures out + [next] == RewriteLines(lines, kind, ps)[..|out| + 1]
    ensures |ChangedLines(out + [next], lines)| == |ChangedLines(out, lines)| + (if next != lines[|out|] then 1 else 0)
  {
    OneMoreLine(out, lines, next);
    NextIs(lines, kind, ps, |out|, inside, next);
    Extends(out, RewriteLines(lines, kind, ps), next);
  }

  lemma NextIs(lines: seq<string>, kind: Kind, ps: Patterns, n: nat, inside: bool, next: string)
    requires n < |lines| && (kind.markdown ==> inside == Inside(lines, n))
    requires next == if !kind.markdown || (!IsFence(lines[n]) && (kind.prose || inside)) then RewriteLine(lines[n], ps) else lines[n]
    ensures next == RewriteLines(lines, kind, ps)[n]
  {
  }

  lemma Extends(out: seq<string>, after: seq<string>, next: string)
    requires |out| < |after| && out == after[..|out|] && next == after[|out|]
    ensures out + [next] == after[..|out| + 1]
  {
  }

  method RewriteEach(lines: seq<string>, kind: Kind, file: string, all: seq<Entry>, skips: Skips)
    returns (out: seq<string>, changed: nat)
    ensures out == RewriteLines(lines, kind, Applied(all, file, skips))
    ensures changed == |ChangedLines(out, lines)|
  {
    ghost var ps := Applied(all, file, skips);
    var insideFence := false;
    out, changed := [], 0;
    for n := 0 to |lines|
      invariant |out| == n && out == RewriteLines(lines, kind, ps)[..n]
      invariant kind.markdown ==> insideFence == Inside(lines, n)
      invariant changed == |ChangedLines(out, lines)|
    {
      var next, inside := RewriteNext(lines[n], kind, insideFence, file, all, skips);
      if next != lines[n] {
        changed := changed + 1;
      }
      OneMoreRewritten(lines, kind, ps, out, insideFence, next);
      out, insideFence := out + [next], inside;
    }
  }
}
