/** Schema key paths such as `agents[].id` and their steps (scripts/gen-config-catalog.ts, `parsePath`). */
module PathSyntax {
  import opened Text
  import opened TypePaths

  const HOP := "[]"

  predicate EndsWithHop(s: string) {
    |s| >= 2 && s[|s| - 2..] == HOP
  }

  /** A segment's member followed by one array hop for each trailing `[]`. */
  function SegmentSteps(segment: string): (steps: Path) {
    if EndsWithHop(segment) then SegmentSteps(segment[..|segment| - 2]) + [Array] else [Member(segment)]
  }

  function Steps(segments: seq<string>): Path {
    if segments == [] then [] else Steps(segments[..|segments| - 1]) + SegmentSteps(segments[|segments| - 1])
  }

  function Hops(n: nat): Path {
    if n == 0 then [] else Hops(n - 1) + [Array]
  }

  function HopText(n: nat): string {
    if n == 0 then "" else HopText(n - 1) + HOP
  }

  method ParsePath(path: string) returns (steps: Path)
    ensures steps == Steps(Split(path, '.'))
  {
    steps := [];
    var segments := Split(path, '.');
    for k := 0 to |segments|
      invariant steps == Steps(segments[..k])
    {
      var segment := segments[k];
      var name, arrays := segment, 0;
      while EndsWithHop(name)
        invariant SegmentSteps(segment) == SegmentSteps(name) + Hops(arrays)
        decreases |name|
      {
        HopsCommute(arrays);
        assert SegmentSteps(name) + Hops(arrays) == SegmentSteps(name[..|name| - 2]) + ([Array] + Hops(arrays));
        name := name[..|name| - 2];
        arrays := arrays + 1;
      }
      ghost var before := steps;
      steps := steps + [Member(name)];
      for i := 0 to arrays
        invariant steps == before + [Member(name)] + Hops(i)
      {
        steps := steps + [Array];
      }
      assert segments[..k + 1][..k] == segments[..k];
      assert steps == before + ([Member(name)] + Hops(arrays));
    }
    assert segments[..|segments|] == segments;
  }

  lemma {:induction false} HopsCommute(n: nat)
    ensures [Array] + Hops(n) == Hops(n + 1)
  {
    if n > 0 {
      HopsCommute(n - 1);
      assert [Array] + Hops(n) == [Array] + Hops(n - 1) + [Array];
    }
  }

  /** Each segment starts with its member, the rest being array hops. */
  lemma {:induction false} SegmentIsMemberThenHops(segment: string)
    ensures SegmentSteps(segment) != [] && SegmentSteps(segment)[0].Member?
    ensures forall i :: 0 < i < |SegmentSteps(segment)| ==> SegmentSteps(segment)[i].Array?
    ensures segment == SegmentSteps(segment)[0].name + HopText(|SegmentSteps(segment)| - 1)
    ensures !EndsWithHop(SegmentSteps(segment)[0].name)
    decreases |segment|
  {
    if EndsWithHop(segment) {
      SegmentIsMemberThenHops(segment[..|segment| - 2]);
      assert segment == segment[..|segment| - 2] + HOP;
      var n := |SegmentSteps(segment)| - 1;
      assert HopText(n) == HopText(n - 1) + HOP;
    }
  }

  /** A hop is written as an opening and a closing bracket. */
  lemma HopIsBrackets(segment: string)
    ensures EndsWithHop(segment) <==>
            |segment| >= 2 && segment[|segment| - 2] == '[' && segment[|segment| - 1] == ']'
  {
    if |segment| >= 2 {
      var end := segment[|segment| - 2..];
      assert end == [end[0], end[1]] && HOP == [HOP[0], HOP[1]];
    }
  }

  /** A segment has array hops exactly when it ends in the two brackets. */
  lemma HopsAreBrackets(segment: string)
    ensures |SegmentSteps(segment)| > 1 <==>
            |segment| >= 2 && segment[|segment| - 2] == '[' && segment[|segment| - 1] == ']'
  {
    HopIsBrackets(segment);
    if EndsWithHop(segment) {
      SegmentIsMemberThenHops(segment[..|segment| - 2]);
    }
  }

  // ---- the inverse ----

  /** Write steps back as a key path. */
  function Render(steps: Path): string {
    if steps == [] then ""
    else
      var init, last := steps[..|steps| - 1], steps[|steps| - 1];
      match last
      case Array => Render(init) + HOP
      case Member(name) => if init == [] then name else Render(init) + "." + name
  }

  function RenderStep(before: Path, last: Step): string {
    match last
    case Array => Render(before) + HOP
    case Member(name) => if before == [] then name else Render(before) + "." + name
  }

  lemma RenderAppend(before: Path, last: Step)
    ensures Render(before + [last]) == RenderStep(before, last)
  {
    assert (before + [last])[..|before|] == before;
  }

  lemma HopLast(segment: string)
    requires EndsWithHop(segment)
    ensures var shorter := segment[..|segment| - 2];
            segment == shorter + HOP && SegmentSteps(segment) == SegmentSteps(shorter) + [Array]
  {
  }

  /** The text a segment is written after. */
  function Before(before: Path): string {
    if before == [] then "" else Render(before) + "."
  }

  lemma RenderHop(before: Path, steps: Path, prefix: string, text: string)
    requires Render(before + steps) == prefix + text
    ensures Render(before + (steps + [Array])) == prefix + (text + HOP)
  {
    RenderAppend(before + steps, Array);
    assert before + (steps + [Array]) == before + steps + [Array];
  }

  lemma {:induction false} RenderSegment(before: Path, segment: string)
    ensures Render(before + SegmentSteps(segment)) == Before(before) + segment
    decreases |segment|
  {
    if EndsWithHop(segment) {
      var shorter := segment[..|segment| - 2];
      HopLast(segment);
      RenderSegment(before, shorter);
      RenderHop(before, SegmentSteps(shorter), Before(before), shorter);
    } else {
      RenderAppend(before, Member(segment));
    }
  }

  lemma StepsAreNotEmpty(segments: seq<string>)
    requires segments != []
    ensures Steps(segments) != []
  {
  }

  lemma {:induction false} RenderSegments(segments: seq<string>)
    requires segments != []
    ensures Render(Steps(segments)) == Join(segments, '.')
  {
    var init, last := segments[..|segments| - 1], segments[|segments| - 1];
    RenderSegment(Steps(init), last);
    assert segments == init + [last];
    if init != [] {
      RenderSegments(init);
      StepsAreNotEmpty(init);
      JoinAppend(init, last, '.');
    }
  }

  /** Rendering undoes parsing on every string. */
  lemma RenderUndoesParse(path: string)
    ensures Render(Steps(Split(path, '.'))) == path
  {
    RenderSegments(Split(path, '.'));
    JoinOfSplit(path, '.');
  }

  /** The step lists that are written unambiguously. */
  predicate Writable(steps: Path) {
    && steps != [] && steps[0].Member?
    && forall i :: 0 <= i < |steps| && steps[i].Member? ==> '.' !in steps[i].name && !EndsWithHop(steps[i].name)
  }

  lemma {:induction false} SegmentIsWritable(segment: string)
    requires '.' !in segment
    ensures Writable(SegmentSteps(segment))
    decreases |segment|
  {
    if EndsWithHop(segment) {
      SegmentIsWritable(segment[..|segment| - 2]);
    }
  }

  lemma {:induction false} StepsAreWritable(segments: seq<string>)
    requires segments != [] && forall i :: 0 <= i < |segments| ==> '.' !in segments[i]
    ensures Writable(Steps(segments))
  {
    SegmentIsWritable(segments[|segments| - 1]);
    if |segments| > 1 {
      StepsAreWritable(segments[..|segments| - 1]);
    }
  }

  lemma StepsAppend(segments: seq<string>, last: string)
    ensures Steps(segments + [last]) == Steps(segments) + SegmentSteps(last)
  {
    assert (segments + [last])[..|segments|] == segments;
  }

  lemma SegmentHop(segment: string)
    ensures SegmentSteps(segment + HOP) == SegmentSteps(segment) + [Array]
  {
    assert (segment + HOP)[..|segment|] == segment;
  }

  lemma HopAtEnd(segments: seq<string>)
    requires segments != []
    ensures Steps(segments[..|segments| - 1] + [segments[|segments| - 1] + HOP]) == Steps(segments) + [Array]
  {
    var init, last := segments[..|segments| - 1], segments[|segments| - 1];
    StepsAppend(init, last + HOP);
    SegmentHop(last);
    assert Steps(init) + (SegmentSteps(last) + [Array]) == Steps(init) + SegmentSteps(last) + [Array];
  }

  /** The segments a writable step list came from. */
  lemma {:induction false} WritableSegments(steps: Path) returns (segments: seq<string>)
    requires Writable(steps)
    ensures segments != [] && Steps(segments) == steps && forall i :: 0 <= i < |segments| ==> '.' !in segments[i]
  {
    var init, last := steps[..|steps| - 1], steps[|steps| - 1];
    if init == [] {
      segments := [last.name];
      assert steps == [last];
    } else {
      segments := WritableSegments(init);
      match last {
        case Member(name) =>
          assert (segments + [name])[..|segments|] == segments;
          segments := segments + [name];
        case Array =>
          HopAtEnd(segments);
          segments := segments[..|segments| - 1] + [segments[|segments| - 1] + HOP];
      }
    }
    assert steps == init + [last];
  }

  /** Parsing undoes rendering exactly on the writable step lists. */
  lemma ParseUndoesRender(steps: Path)
    ensures Steps(Split(Render(steps), '.')) == steps <==> Writable(steps)
  {
    StepsAreWritable(Split(Render(steps), '.'));
    if Writable(steps) {
      var segments := WritableSegments(steps);
      RenderSegments(segments);
      SplitOfJoin(segments, '.');
    }
  }
}
