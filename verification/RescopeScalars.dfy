/** Rewriting a YAML `name:` scalar (scripts/rescope-vendor.ts, the `yamlName` pattern). The
  * scalar always lies before a line's first quote: in its unquoted head. */
module RescopeScalars {
  import opened Wrappers
  import opened Text
  import opened RescopeTokens
  import opened RescopePasses

  predicate Blank(c: char) {
    c == ' ' || c == '\t'
  }

  lemma BlankIsSpace(c: char)
    ensures Blank(c) ==> IsSpace(c) && !Quote(c)
    ensures IsSpace(c) ==> !Quote(c)
  {
  }

  function SkipSpace(s: string, i: nat): (k: nat)
    requires i <= |s|
    ensures i <= k <= |s|
    ensures forall j :: i <= j < k ==> IsSpace(s[j])
    ensures k < |s| ==> !IsSpace(s[k])
    decreases |s| - i
  {
    if i < |s| && IsSpace(s[i]) then SkipSpace(s, i + 1) else i
  }

  function SkipBlank(s: string, i: nat): (k: nat)
    requires i <= |s|
    ensures i <= k <= |s|
    ensures forall j :: i <= j < k ==> Blank(s[j])
    ensures k < |s| ==> !Blank(s[k])
    decreases |s| - i
  {
    if i < |s| && Blank(s[i]) then SkipBlank(s, i + 1) else i
  }

  const KEY := "name:"

  /** Past optional white space, an optional list dash, and white space again. */
  function KeyStart(s: string): (j: nat)
    ensures j <= |s|
  {
    var i := SkipSpace(s, 0);
    if i < |s| && s[i] == '-' then SkipSpace(s, i + 1) else i
  }

  predicate HasKey(s: string, j: nat) {
    j + 5 < |s| && s[j..j + 5] == KEY && Blank(s[j + 5])
  }

  /** Past `name:` and the blanks that must follow it. */
  function KeyEnd(s: string): (r: Option<nat>)
    ensures r.Some? ==> KeyStart(s) + 6 <= r.value <= |s|
  {
    var j := KeyStart(s);
    if HasKey(s, j) then Some(SkipBlank(s, j + 5)) else None
  }

  /** Blanks, then the end of the line or a comment. */
  predicate Trails(rest: string, last: bool) {
    var i := SkipBlank(rest, 0);
    if i < |rest| then rest[i] == '#' else last
  }

  predicate IsValue(value: string, name: string, last: bool) {
    name <= value && Trails(value[|name|..], last)
  }

  /** The head's scalar is the name; `last` says whether nothing follows the head. */
  predicate IsScalar(head: string, name: string, last: bool) {
    KeyEnd(head).Some? && IsValue(head[KeyEnd(head).value..], name, last)
  }

  function ReplaceScalar(head: string, p: Pattern, last: bool): string {
    if IsScalar(head, p.from, last) then
      var k := KeyEnd(head).value;
      head[..k] + (p.to + head[k..][|p.from|..])
    else head
  }

  // ---- the scalar depends on the head only ----

  /** What may follow a head: nothing, or text starting with a quote. */
  predicate AfterHead(tail: string) {
    tail != "" ==> Quote(tail[0])
  }

  lemma {:induction false} SkipSpaceInHead(head: string, tail: string, i: nat)
    requires AfterHead(tail) && i <= |head|
    ensures SkipSpace(head + tail, i) == SkipSpace(head, i)
    decreases |head| - i
  {
    if i < |head| {
      if IsSpace(head[i]) {
        SkipSpaceInHead(head, tail, i + 1);
      }
    } else if tail != "" {
      BlankIsSpace(tail[0]);
    }
  }

  lemma {:induction false} SkipBlankInHead(head: string, tail: string, i: nat)
    requires AfterHead(tail) && i <= |head|
    ensures SkipBlank(head + tail, i) == SkipBlank(head, i)
    decreases |head| - i
  {
    if i < |head| {
      if Blank(head[i]) {
        SkipBlankInHead(head, tail, i + 1);
      }
    } else if tail != "" {
      BlankIsSpace(tail[0]);
    }
  }

  lemma KeyStartInHead(head: string, tail: string)
    requires AfterHead(tail) && Unquoted(head)
    ensures KeyStart(head + tail) == KeyStart(head)
  {
    SkipSpaceInHead(head, tail, 0);
    var i := SkipSpace(head, 0);
    if i < |head| {
      SkipSpaceInHead(head, tail, i + 1);
    }
  }

  lemma KeyIsUnquoted(s: string, j: nat, i: nat)
    requires HasKey(s, j) && j <= i <= j + 5
    ensures !Quote(s[i])
  {
    if i < j + 5 {
      assert s[i] == s[j..j + 5][i - j] == KEY[i - j];
    }
  }

  lemma HasKeyInHead(head: string, tail: string, j: nat)
    requires AfterHead(tail) && Unquoted(head) && j <= |head|
    ensures HasKey(head + tail, j) == HasKey(head, j)
  {
    var s := head + tail;
    if j + 5 < |head| {
      assert s[j..j + 5] == head[j..j + 5];
    } else if HasKey(s, j) {
      KeyIsUnquoted(s, j, |head|);
    }
  }

  lemma KeyEndInHead(head: string, tail: string)
    requires AfterHead(tail) && Unquoted(head)
    ensures KeyEnd(head + tail) == KeyEnd(head)
  {
    KeyStartInHead(head, tail);
    var j := KeyStart(head);
    HasKeyInHead(head, tail, j);
    if HasKey(head, j) {
      SkipBlankInHead(head, tail, j + 5);
    }
  }

  lemma PrefixInHead(head: string, tail: string, name: string)
    requires AfterHead(tail) && Unquoted(name)
    ensures name <= head + tail <==> name <= head
  {
    if |head| < |name| && tail != "" {
      assert (head + tail)[|head|] == tail[0] && !Quote(name[|head|]);
    }
  }

  lemma TrailsInHead(rest: string, tail: string)
    requires AfterHead(tail)
    ensures Trails(rest + tail, true) == Trails(rest, tail == "")
  {
    SkipBlankInHead(rest, tail, 0);
    assert tail != "" ==> (rest + tail)[|rest|] == tail[0] != '#';
  }

  lemma ValueInHead(value: string, tail: string, name: string)
    requires AfterHead(tail) && Name(name)
    ensures IsValue(value + tail, name, true) == IsValue(value, name, tail == "")
  {
    PrefixInHead(value, tail, name);
    if name <= value {
      assert (value + tail)[|name|..] == value[|name|..] + tail;
      TrailsInHead(value[|name|..], tail);
    }
  }

  lemma ScalarInHead(head: string, tail: string, name: string)
    requires AfterHead(tail) && Unquoted(head) && Name(name)
    ensures IsScalar(head + tail, name, true) == IsScalar(head, name, tail == "")
  {
    KeyEndInHead(head, tail);
    if KeyEnd(head).Some? {
      var k := KeyEnd(head).value;
      assert (head + tail)[k..] == head[k..] + tail;
      ValueInHead(head[k..], tail, name);
    }
  }

  lemma SpliceInHead(head: string, tail: string, k: nat, n: nat, x: string)
    requires k + n <= |head|
    ensures (head + tail)[..k] + (x + (head + tail)[k..][n..]) == head[..k] + (x + head[k..][n..]) + tail
  {
    assert (head + tail)[k..] == head[k..] + tail;
    assert (head[k..] + tail)[n..] == head[k..][n..] + tail;
  }

  /** Replacing the scalar of a line is replacing it in the line's head. */
  lemma ReplaceInHead(head: string, tail: string, p: Pattern)
    requires AfterHead(tail) && Unquoted(head) && Name(p.from)
    ensures ReplaceScalar(head + tail, p, true) == ReplaceScalar(head, p, tail == "") + tail
  {
    ScalarInHead(head, tail, p.from);
    KeyEndInHead(head, tail);
    if IsScalar(head, p.from, tail == "") {
      SpliceInHead(head, tail, KeyEnd(head).value, |p.from|, p.to);
    }
  }

  // ---- one scalar has one name ----

  lemma SkipSpaceIs(s: string, i: nat, k: nat)
    requires i <= k <= |s| && (forall j :: i <= j < k ==> IsSpace(s[j])) && (k < |s| ==> !IsSpace(s[k]))
    ensures SkipSpace(s, i) == k
  {
  }

  lemma SkipBlankIs(s: string, i: nat, k: nat)
    requires i <= k <= |s| && (forall j :: i <= j < k ==> Blank(s[j])) && (k < |s| ==> !Blank(s[k]))
    ensures SkipBlank(s, i) == k
  {
  }

  lemma ScalarHasOneName(head: string, a: string, b: string, last: bool)
    requires Name(a) && Name(b) && IsScalar(head, a, last) && IsScalar(head, b, last)
    ensures a == b
  {
    var rest := head[KeyEnd(head).value..];
    assert a == rest[..|a|] && b == rest[..|b|];
    if |a| < |b| {
      NoTrailInside(rest, a, b, last);
    } else if |b| < |a| {
      NoTrailInside(rest, b, a, last);
    }
  }

  lemma NoSecondName(head: string, a: string, b: string, last: bool)
    requires Name(a) && Name(b) && a != b && IsScalar(head, a, last)
    ensures !IsScalar(head, b, last)
  {
    if IsScalar(head, b, last) {
      ScalarHasOneName(head, a, b, last);
    }
  }

  lemma NoTrailInside(rest: string, a: string, b: string, last: bool)
    requires a <= b <= rest && |a| < |b| && Name(b)
    ensures !Trails(rest[|a|..], last)
  {
    var c := rest[|a|];
    assert c == b[|a|];
    BlankIsSpace(c);
    assert SkipBlank(rest[|a|..], 0) == 0;
  }

  lemma KeyStartStays(head: string, k: nat, s: string)
    requires KeyStart(head) < k <= |head| && k <= |s| && s[..k] == head[..k]
    ensures KeyStart(s) == KeyStart(head)
  {
    assert forall m :: 0 <= m < k ==> s[m] == s[..k][m] == head[..k][m] == head[m];
    var i := SkipSpace(head, 0);
    SkipSpaceIs(s, 0, i);
    if head[i] == '-' {
      SkipSpaceIs(s, i + 1, KeyStart(head));
    }
  }

  /** A key is found again when only what follows it changes. */
  lemma KeyEndStays(head: string, k: nat, x: string)
    requires KeyEnd(head) == Some(k) && x != "" && !IsSpace(x[0])
    ensures KeyEnd(head[..k] + x) == Some(k)
  {
    var s, j := head[..k] + x, KeyStart(head);
    BlankIsSpace(x[0]);
    assert s[..k] == head[..k];
    KeyStartStays(head, k, s);
    assert s[j..j + 5] == head[j..j + 5];
    assert forall m :: 0 <= m < k ==> s[m] == head[m];
    SkipBlankIs(s, j + 5, k);
  }

  /** A rewritten scalar has the new name, and rewriting it back restores the head. */
  lemma ReplacedScalar(head: string, p: Pattern, last: bool)
    requires Name(p.from) && Name(p.to) && IsScalar(head, p.from, last)
    ensures IsScalar(ReplaceScalar(head, p, last), p.to, last)
    ensures ReplaceScalar(ReplaceScalar(head, p, last), Flip(p), last) == head
  {
    var k := KeyEnd(head).value;
    var rest := head[k..][|p.from|..];
    var value := p.to + rest;
    KeyEndStays(head, k, value);
    assert (head[..k] + value)[k..] == value && (head[..k] + value)[..k] == head[..k];
    assert value[|p.to|..] == rest;
    assert head[k..] == p.from + rest && head == head[..k] + head[k..];
  }

  lemma ReplacedIsUnquoted(head: string, p: Pattern, last: bool)
    requires Unquoted(head) && Name(p.to)
    ensures Unquoted(ReplaceScalar(head, p, last))
  {
  }

  // ---- all patterns ----

  function ScalarAll(head: string, ps: Patterns, last: bool): string
    decreases |ps|
  {
    if ps == [] then head else ScalarAll(ReplaceScalar(head, ps[0], last), ps[1..], last)
  }

  ghost predicate NoScalars(head: string, ps: Patterns, last: bool) {
    forall m :: 0 <= m < |ps| ==> !IsScalar(head, ps[m].from, last)
  }

  lemma {:induction false} NoScalarStays(head: string, ps: Patterns, last: bool)
    requires NoScalars(head, ps, last)
    ensures ScalarAll(head, ps, last) == head
    decreases |ps|
  {
    if ps != [] {
      assert !IsScalar(head, ps[0].from, last);
      NoScalarStays(head, ps[1..], last);
    }
  }

  /** A head rewritten by one pattern is left alone by all patterns. */
  lemma RewrittenHasNoSource(head: string, ps: Patterns, m: nat, last: bool)
    requires Compatible(ps) && m < |ps| && IsScalar(head, ps[m].from, last)
    ensures NoScalars(ReplaceScalar(head, ps[m], last), ps, last)
  {
    var after := ReplaceScalar(head, ps[m], last);
    ReplacedScalar(head, ps[m], last);
    forall n | 0 <= n < |ps| ensures !IsScalar(after, ps[n].from, last) {
      assert Apart(ps[n].from, ps[m].to);
      NoSecondName(after, ps[m].to, ps[n].from, last);
    }
  }

  lemma {:induction false} OnlyScalarReplaced(head: string, ps: Patterns, m: nat, last: bool)
    requires m < |ps|
    requires forall j :: 0 <= j < m ==> !IsScalar(head, ps[j].from, last)
    requires forall j :: m < j < |ps| ==> !IsScalar(ReplaceScalar(head, ps[m], last), ps[j].from, last)
    ensures ScalarAll(head, ps, last) == ReplaceScalar(head, ps[m], last)
    decreases m
  {
    if m == 0 {
      NoScalarStays(ReplaceScalar(head, ps[0], last), ps[1..], last);
    } else {
      assert !IsScalar(head, ps[0].from, last);
      assert ps[1..][m - 1] == ps[m];
      OnlyScalarReplaced(head, ps[1..], m - 1, last);
    }
  }

  /** The one pattern whose name the scalar has decides it. */
  lemma ScalarDecides(head: string, ps: Patterns, m: nat, last: bool)
    requires Compatible(ps) && m < |ps| && IsScalar(head, ps[m].from, last)
    ensures ScalarAll(head, ps, last) == ReplaceScalar(head, ps[m], last)
  {
    forall j | 0 <= j < m ensures !IsScalar(head, ps[j].from, last) {
      assert Apart(ps[m].from, ps[j].from);
      NoSecondName(head, ps[m].from, ps[j].from, last);
    }
    RewrittenHasNoSource(head, ps, m, last);
    OnlyScalarReplaced(head, ps, m, last);
  }

  lemma ScalarsIdempotent(head: string, ps: Patterns, last: bool)
    requires Compatible(ps)
    ensures ScalarAll(ScalarAll(head, ps, last), ps, last) == ScalarAll(head, ps, last)
  {
    if m :| 0 <= m < |ps| && IsScalar(head, ps[m].from, last) {
      ScalarDecides(head, ps, m, last);
      RewrittenHasNoSource(head, ps, m, last);
      NoScalarStays(ReplaceScalar(head, ps[m], last), ps, last);
    } else {
      NoScalarStays(head, ps, last);
    }
  }

  ghost predicate NoTargetScalars(head: string, ps: Patterns, last: bool) {
    forall m :: 0 <= m < |ps| ==> !IsScalar(head, ps[m].to, last)
  }

  lemma RewrittenReturns(head: string, ps: Patterns, qs: Patterns, m: nat, last: bool)
    requires Compatible(ps) && Compatible(qs) && Flipped(ps, qs)
    requires m < |ps| && IsScalar(head, ps[m].from, last)
    ensures ScalarAll(ScalarAll(head, ps, last), qs, last) == head
  {
    ScalarDecides(head, ps, m, last);
    ReplacedScalar(head, ps[m], last);
    assert Flip(ps[m]) in qs;
    var k :| 0 <= k < |qs| && qs[k] == Flip(ps[m]);
    ScalarDecides(ReplaceScalar(head, ps[m], last), qs, k, last);
  }

  lemma NoTargetsNoSources(head: string, ps: Patterns, qs: Patterns, last: bool)
    requires Flipped(ps, qs) && NoTargetScalars(head, ps, last)
    ensures NoScalars(head, qs, last)
  {
    forall n | 0 <= n < |qs| ensures !IsScalar(head, qs[n].from, last) {
      assert Flip(qs[n]) in ps;
      var k :| 0 <= k < |ps| && ps[k] == Flip(qs[n]);
    }
  }

  /** The reverse patterns restore every head that held no target scalar. */
  lemma ScalarsRoundTrip(head: string, ps: Patterns, qs: Patterns, last: bool)
    requires Compatible(ps) && Compatible(qs) && Flipped(ps, qs) && NoTargetScalars(head, ps, last)
    ensures ScalarAll(ScalarAll(head, ps, last), qs, last) == head
  {
    if m :| 0 <= m < |ps| && IsScalar(head, ps[m].from, last) {
      RewrittenReturns(head, ps, qs, m, last);
    } else {
      NoScalarStays(head, ps, last);
      NoTargetsNoSources(head, ps, qs, last);
      NoScalarStays(head, qs, last);
    }
  }

  lemma {:induction false} ScalarAllIsUnquoted(head: string, ps: Patterns, last: bool)
    requires Unquoted(head) && Compatible(ps)
    ensures Unquoted(ScalarAll(head, ps, last))
    decreases |ps|
  {
    if ps != [] {
      CompatibleTail(ps);
      ReplacedIsUnquoted(head, ps[0], last);
      ScalarAllIsUnquoted(ReplaceScalar(head, ps[0], last), ps[1..], last);
    }
  }
}
