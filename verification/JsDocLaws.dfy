/** How a description is laid out (scripts/jsdoc.ts, `parseJsDoc`): which lines make a paragraph or
  * a list, one output line for each paragraph and item, an empty line between blocks, and what
  * the kinds of lines and the modes are. */
module JsDocLaws {
  import opened Wrappers
  import opened Text
  import opened Words
  import opened JsDoc

  // ---- the kinds of lines ----

  predicate AllSpaces(s: string) {
    forall i :: 0 <= i < |s| ==> IsSpace(s[i])
  }

  lemma {:induction false} TrimEndIsEmpty(s: string)
    ensures TrimEnd(s) == "" <==> AllSpaces(s)
  {
    if s != "" && IsSpace(s[|s| - 1]) {
      TrimEndIsEmpty(s[..|s| - 1]);
    }
  }

  /** A blank line has nothing but white space. */
  lemma BlankIsAllSpace(line: string)
    ensures Blank(line) <==> AllSpaces(line)
  {
    TrimEndIsEmpty(TrimStart(line));
    var k := SpaceEnd(line);
    assert forall i :: k <= i < |line| ==> TrimStart(line)[i - k] == line[i];
  }

  /** After white space, the line goes on with this text. */
  ghost predicate GoesOnWith(line: string, text: string) {
    exists k :: 0 <= k <= |line| && AllSpaces(line[..k]) && text <= line[k..]
  }

  lemma GoesOnAtStart(line: string, text: string)
    requires text != "" && !IsSpace(text[0])
    ensures GoesOnWith(line, text) <==> text <= TrimStart(line)
  {
    var e := SpaceEnd(line);
    assert AllSpaces(line[..e]);
    if GoesOnWith(line, text) {
      var k :| 0 <= k <= |line| && AllSpaces(line[..k]) && text <= line[k..];
      assert line[k] == text[0];
      assert forall i :: 0 <= i < k ==> line[i] == line[..k][i];
      SpaceEndIs(line, k);
    }
  }

  /** Nothing, or a character that is no letter, digit or underscore, by its code. */
  predicate EndsWord(rest: string) {
    rest == "" || var n := rest[0] as int; n < 48 || 57 < n < 65 || 90 < n < 95 || n == 96 || 122 < n
  }

  /** White space, `@mode`, and then no word character. */
  ghost predicate ModePattern(line: string) {
    exists space, rest :: Tagged(line, space, "@mode", rest)
  }

  predicate Tagged(line: string, space: string, tag: string, rest: string) {
    line == space + tag + rest && AllSpaces(space) && EndsWord(rest)
  }

  /** A dash at the very start, then some white space. */
  ghost predicate BulletPattern(line: string) {
    exists space, rest :: line == "-" + space + rest && space != "" && AllSpaces(space)
  }

  lemma ModeTagMatchesPattern(line: string)
    ensures ModeTag(line) <==> ModePattern(line)
  {
    if ModeTag(line) {
      ModeTagSplits(line, "@mode", line[..SpaceEnd(line)], TrimStart(line));
    }
    if space, rest :| Tagged(line, space, "@mode", rest) {
      TrimmedIs(space, "@mode", rest);
    }
  }

  lemma ModeTagSplits(line: string, tag: string, space: string, t: string)
    requires line == space + t && AllSpaces(space)
    requires |tag| == 5 && tag <= t && (|t| > 5 ==> !WordChar(t[5]))
    ensures Tagged(line, space, tag, t[5..])
  {
    assert t == tag + t[5..];
    assert space + (tag + t[5..]) == space + tag + t[5..];
  }

  lemma TrimmedIs(space: string, tag: string, rest: string)
    requires AllSpaces(space) && tag != "" && !IsSpace(tag[0])
    ensures TrimStart(space + tag + rest) == tag + rest
  {
    var line := space + tag + rest;
    assert line[|space|] == tag[0] && line[|space|..] == tag + rest;
    assert forall i :: 0 <= i < |space| ==> line[i] == space[i];
    SpaceEndIs(line, |space|);
  }

  lemma BulletMatchesPattern(line: string)
    ensures Bullet(line) <==> BulletPattern(line)
  {
    if Bullet(line) {
      assert line == "-" + [line[1]] + line[2..] && AllSpaces([line[1]]);
    }
    if space, rest :| line == "-" + space + rest && space != "" && AllSpaces(space) {
      assert line[0] == '-' && line[1] == space[0];
    }
  }

  /** A tag line begins, after white space, with `@`; a mode tag with `@mode`, and no word
    * character right behind it; a bullet is a dash and white space at the very start. */
  lemma LineKinds(line: string)
    ensures Tag(line) <==> GoesOnWith(line, "@")
    ensures ModeTag(line) <==> ModePattern(line)
    ensures Bullet(line) <==> BulletPattern(line)
    ensures Blank(line) <==> AllSpaces(line)
  {
    GoesOnAtStart(line, "@");
    ModeTagMatchesPattern(line);
    BulletMatchesPattern(line);
    BlankIsAllSpace(line);
  }

  /** The modes: a mode is what a line says that has two words, `@mode` and the mode's name. */
  lemma ModeTable(line: string)
    ensures ModeOf(line) == Some(Emit) <==> WordsOf(line) == ["@mode", "emit"]
    ensures ModeOf(line) == Some(Waterfall) <==> WordsOf(line) == ["@mode", "waterfall"]
    ensures ModeOf(line) == Some(Parallel) <==> WordsOf(line) == ["@mode", "parallel"]
    ensures ModeOf(line) == Some(Serial) <==> WordsOf(line) == ["@mode", "serial"]
    ensures ModeOf(line) == Some(Bail) <==> WordsOf(line) == ["@mode", "bail"]
  {
    var words := WordsOf(line);
    if |words| == 2 {
      assert words == [words[0], words[1]];
    }
    assert |"emit"| == 4 && |"waterfall"| == 9 && |"parallel"| == 8 && |"serial"| == 6 && |"bail"| == 4 && "emit"[0] != "bail"[0];
  }

  // ---- which lines make a block ----

  lemma {:induction false} UntilBefore(a: seq<string>, line: string, b: seq<string>, stop: string -> bool)
    requires stop(line)
    ensures Until(a + [line] + b, stop) == Until(a, stop)
  {
    var all := a + [line] + b;
    if a == [] {
      assert all[0] == line;
    } else {
      assert all[0] == a[0] && all[1..] == a[1..] + [line] + b;
      if !stop(a[0]) {
        UntilBefore(a[1..], line, b, stop);
      }
    }
  }

  lemma EndBefore(a: seq<string>, line: string, b: seq<string>)
    requires a != [] && Blank(line)
    ensures BlockEnd(a + [line] + b) == BlockEnd(a)
    ensures var n := BlockEnd(a); (a + [line] + b)[..n] == a[..n] && (a + [line] + b)[n..] == a[n..] + [line] + b
  {
    assert (a + [line] + b)[1..] == a[1..] + [line] + b;
    UntilBefore(a[1..], line, b, JsDoc.Blank);
    UntilBefore(a[1..], line, b, BlankOrBullet);
  }

  lemma FirstOfAll(first: string, a: seq<string>, line: string, b: seq<string>)
    ensures [first] + a + [line] + b == [first] + (a + [line] + b)
  {
  }

  lemma AfterBlank(first: string, a: seq<string>, line: string, b: seq<string>)
    requires Blank(first) && BlocksOf(a + [line] + b) == BlocksOf(a) + BlocksOf(b)
    ensures BlocksOf([first] + a + [line] + b) == BlocksOf([first] + a) + BlocksOf(b)
  {
    BlocksAtBlank(first, a + [line] + b);
    BlocksAtBlank(first, a);
    FirstOfAll(first, a, line, b);
  }

  lemma AfterBlock(a: seq<string>, line: string, b: seq<string>, n: nat)
    requires a != [] && !Blank(a[0]) && Blank(line) && n == BlockEnd(a)
    requires BlocksOf(a[n..] + [line] + b) == BlocksOf(a[n..]) + BlocksOf(b)
    ensures BlocksOf(a + [line] + b) == BlocksOf(a) + BlocksOf(b)
  {
    EndBefore(a, line, b);
    NextBlock(a + [line] + b, n);
    NextBlock(a, n);
    Regrouped([Block(a[..n])], BlocksOf(a[n..]), BlocksOf(b));
  }

  lemma Regrouped(x: seq<string>, y: seq<string>, z: seq<string>)
    ensures x + (y + z) == x + y + z
  {
  }

  /** A blank line separates blocks. */
  lemma {:induction false} BlankSeparates(a: seq<string>, line: string, b: seq<string>)
    requires Blank(line)
    ensures BlocksOf(a + [line] + b) == BlocksOf(a) + BlocksOf(b)
    decreases |a|
  {
    if a == [] {
      assert a + [line] + b == [line] + b;
      BlocksAtBlank(line, b);
    } else if Blank(a[0]) {
      BlankSeparates(a[1..], line, b);
      AfterBlank(a[0], a[1..], line, b);
      assert [a[0]] + a[1..] == a;
    } else {
      BlankSeparates(a[BlockEnd(a)..], line, b);
      AfterBlock(a, line, b, BlockEnd(a));
    }
  }

  ghost predicate Plain(lines: seq<string>) {
    forall i :: 0 <= i < |lines| ==> !BlankOrBullet(lines[i])
  }

  lemma {:induction false} UntilPast(a: seq<string>, b: seq<string>, stop: string -> bool)
    requires forall i :: 0 <= i < |a| ==> !stop(a[i])
    ensures Until(a + b, stop) == |a| + Until(b, stop)
  {
    if a == [] {
      assert a + b == b;
    } else {
      assert (a + b)[1..] == a[1..] + b && (a + b)[0] == a[0];
      UntilPast(a[1..], b, stop);
    }
  }

  /** Plain lines make one paragraph, up to the end, a blank line or a bullet. */
  lemma ParagraphIsBlock(para: seq<string>, rest: seq<string>)
    requires para != [] && Plain(para) && (rest == [] || BlankOrBullet(rest[0]))
    ensures BlocksOf(para + rest) == [Flat(para)] + BlocksOf(rest)
  {
    var all := para + rest;
    assert all[0] == para[0] && all[1..] == para[1..] + rest;
    UntilPast(para[1..], rest, BlankOrBullet);
    NextBlock(all, |para|);
    assert all[..|para|] == para && all[|para|..] == rest;
  }

  /** An item: a bullet line and plain lines. */
  ghost predicate Item(lines: seq<string>) {
    lines != [] && Bullet(lines[0]) && Plain(lines[1..])
  }

  ghost predicate AllItems(items: seq<seq<string>>) {
    forall i :: 0 <= i < |items| ==> items[i] != [] && Item(items[i])
  }

  function Concat(items: seq<seq<string>>): seq<string> {
    if items == [] then [] else items[0] + Concat(items[1..])
  }

  function FlatAll(items: seq<seq<string>>): (r: seq<string>)
    requires forall i :: 0 <= i < |items| ==> items[i] != []
    ensures |r| == |items| && forall i :: 0 <= i < |items| ==> r[i] == Flat(items[i])
  {
    seq(|items|, i requires 0 <= i < |items| => Flat(items[i]))
  }

  lemma ConcatStarts(items: seq<seq<string>>)
    requires AllItems(items)
    ensures Concat(items) != [] <==> items != []
    ensures items != [] ==> Concat(items)[0] == items[0][0] && Bullet(Concat(items)[0])
  {
  }

  lemma NoBulletInside(item: seq<string>, rest: seq<string>)
    requires Item(item) && (rest == [] || Bullet(rest[0]))
    ensures 1 + Until((item + rest)[1..], Bullet) == |item|
  {
    assert (item + rest)[1..] == item[1..] + rest;
    UntilPast(item[1..], rest, Bullet);
  }

  lemma NextItem(item: seq<string>, rest: seq<string>)
    requires Item(item) && item != [] && (rest == [] || Bullet(rest[0]))
    ensures Items(item + rest) == [Flat(item)] + Items(rest)
  {
    NoBulletInside(item, rest);
    ItemsOf(item + rest, |item|);
    assert (item + rest)[..|item|] == item && (item + rest)[|item|..] == rest;
  }

  lemma FlatFirst(items: seq<seq<string>>)
    requires items != [] && AllItems(items)
    ensures FlatAll(items) == [Flat(items[0])] + FlatAll(items[1..])
  {
  }

  lemma {:induction false} ItemsAre(items: seq<seq<string>>)
    requires AllItems(items)
    ensures Items(Concat(items)) == FlatAll(items)
  {
    if items != [] {
      ItemsAre(items[1..]);
      ConcatStarts(items[1..]);
      NextItem(items[0], Concat(items[1..]));
      FlatFirst(items);
    }
  }

  lemma {:induction false} NoBlankInside(items: seq<seq<string>>)
    requires AllItems(items)
    ensures forall k :: 0 <= k < |Concat(items)| ==> !Blank(Concat(items)[k])
  {
    if items != [] {
      NoBlankInside(items[1..]);
      var item := items[0];
      LineKinds(item[0]);
      forall k | 0 < k < |item| ensures !Blank(item[k]) {
        assert item[1..][k - 1] == item[k];
      }
    }
  }

  /** Items make one list, with one line for each item, up to the end or a blank line. */
  lemma ListIsBlock(items: seq<seq<string>>, rest: seq<string>)
    requires items != [] && AllItems(items) && (rest == [] || Blank(rest[0]))
    ensures BlocksOf(Concat(items) + rest) == [Join(FlatAll(items), '\n')] + BlocksOf(rest)
  {
    var list := Concat(items);
    var all := list + rest;
    ConcatStarts(items);
    NoBlankInside(items);
    assert all[0] == list[0] && all[1..] == list[1..] + rest;
    UntilPast(list[1..], rest, JsDoc.Blank);
    NextBlock(all, |list|);
    assert all[..|list|] == list && all[|list|..] == rest;
    ItemsAre(items);
  }

  // ---- how blocks are written ----

  /** Single blanks between words and none at the ends. */
  ghost predicate Normal(s: string) {
    && (forall i :: 0 <= i < |s| && IsSpace(s[i]) ==> s[i] == ' ' && 0 < i && i + 1 < |s|)
    && (forall i :: 0 < i < |s| ==> !(IsSpace(s[i - 1]) && IsSpace(s[i])))
  }

  ghost predicate SingleBlanks(s: string) {
    && (forall i :: 0 <= i < |s| && IsSpace(s[i]) ==> s[i] == ' ')
    && (forall i :: 0 < i < |s| ==> !(IsSpace(s[i - 1]) && IsSpace(s[i])))
  }

  lemma {:induction false} CollapseSingles(s: string)
    ensures SingleBlanks(Collapse(s))
    ensures s != "" ==> Collapse(s) != "" && (IsSpace(Collapse(s)[0]) <==> IsSpace(s[0]))
    decreases |s|
  {
    assert IsSpace(' ');
    if s != "" {
      if IsSpace(s[0]) {
        CollapseSingles(s[SpaceEnd(s)..]);
      } else {
        CollapseSingles(s[WordEnd(s)..]);
      }
    }
  }

  lemma {:induction false} TrimEndSingles(s: string)
    requires SingleBlanks(s)
    ensures SingleBlanks(TrimEnd(s)) && TrimEnd(s) <= s
    ensures TrimEnd(s) != "" ==> !IsSpace(TrimEnd(s)[|TrimEnd(s)| - 1])
  {
    if s != "" && IsSpace(s[|s| - 1]) {
      TrimEndSingles(s[..|s| - 1]);
    }
  }

  /** Lines run together keep their words, with single blanks between them, on one line. */
  lemma FlatIsNormal(lines: seq<string>)
    requires lines != []
    ensures Normal(Flat(lines)) && WordsOf(Flat(lines)) == WordsOfAll(lines) && '\n' !in Flat(lines)
  {
    FlatKeepsWords(lines);
    var collapsed := Collapse(Join(lines, ' '));
    CollapseSingles(Join(lines, ' '));
    var started := TrimStart(collapsed);
    assert SingleBlanks(started) && (started != "" ==> !IsSpace(started[0]));
    TrimEndSingles(started);
    assert IsSpace('\n') && '\n' != ' ';
  }

  lemma {:induction false} SplitConcat(a: string, c: char, b: string)
    ensures Split(a + [c] + b, c) == Split(a, c) + Split(b, c)
  {
    if a == "" {
      assert a + [c] + b == [c] + b && ([c] + b)[1..] == b;
    } else {
      var all := a + [c] + b;
      assert all[0] == a[0] && all[1..] == a[1..] + [c] + b;
      SplitConcat(a[1..], c, b);
    }
  }

  /** Between two blocks stands one empty line. */
  lemma BlocksAreSpaced(first: string, rest: seq<string>)
    requires rest != []
    ensures Split(Stacked([first] + rest), '\n') == Split(first, '\n') + [""] + Split(Stacked(rest), '\n')
  {
    assert ([first] + rest)[1..] == rest;
    var below := Stacked(rest);
    assert Stacked([first] + rest) == first + ['\n'] + (['\n'] + below);
    SplitConcat(first, '\n', ['\n'] + below);
    SplitConcat("", '\n', below);
    assert "" + ['\n'] + below == ['\n'] + below;
  }

  /** A paragraph is one line, and a list one line for each item. */
  lemma BlockLines(items: seq<seq<string>>)
    requires items != [] && forall i :: 0 <= i < |items| ==> items[i] != []
    ensures Split(Join(FlatAll(items), '\n'), '\n') == FlatAll(items)
    ensures Split(Flat(items[0]), '\n') == [Flat(items[0])]
  {
    forall i | 0 <= i < |items| ensures '\n' !in FlatAll(items)[i] {
      FlatIsNormal(items[i]);
    }
    SplitOfJoin(FlatAll(items), '\n');
    FlatIsNormal(items[0]);
  }

  // ---- links and modes ----

  /** A link's text stands between the white space behind `{@link` and the first closing brace; it
    * is white space only if it is the one character left of a longer gap. */
  ghost predicate LinkPattern(s: string, a: nat, b: nat) {
    && 6 < a < b < |s| && s[..6] == "{@link" && s[b] == '}'
    && (forall j :: 6 <= j < a ==> IsSpace(s[j])) && (forall j :: a <= j < b ==> s[j] != '}')
    && (IsSpace(s[a]) ==> b == a + 1)
  }

  lemma LinkTextHasPattern(s: string, a: nat, b: nat)
    requires LinkText(s) == Some((a, b))
    ensures LinkPattern(s, a, b)
  {
    var gap := SpaceEnd(s[6..]);
    assert forall j :: 6 <= j < 6 + gap ==> s[j] == s[6..][j - 6];
    assert 6 + gap < |s| ==> s[6 + gap] == s[6..][gap];
  }

  lemma PatternIsLinkText(s: string, a: nat, b: nat)
    requires LinkPattern(s, a, b)
    ensures LinkText(s) == Some((a, b))
  {
    assert "{@link" <= s;
    var e := if IsSpace(s[a]) then a + 1 else a;
    assert forall j :: 0 <= j < e - 6 ==> s[6..][j] == s[6 + j];
    assert s[6..][e - 6] == s[e];
    SpaceEndIs(s[6..], e - 6);
    FirstOfIs(s, '}', e, b);
  }

  lemma LinkTextMatchesPattern(s: string, a: nat, b: nat)
    ensures LinkText(s) == Some((a, b)) <==> LinkPattern(s, a, b)
  {
    if LinkText(s) == Some((a, b)) {
      LinkTextHasPattern(s, a, b);
    }
    if LinkPattern(s, a, b) {
      PatternIsLinkText(s, a, b);
    }
  }

  /** The mode is that of the last line with a valid one. */
  lemma {:induction false} LastModeIsLast(lines: seq<string>)
    ensures LastMode(lines).None? <==> NoMode(lines, 0)
    ensures LastMode(lines).Some? ==>
              exists n :: 0 <= n < |lines| && ModeOf(lines[n]) == LastMode(lines) && NoMode(lines, n + 1)
  {
    if lines != [] && ModeOf(lines[|lines| - 1]).None? {
      var init := lines[..|lines| - 1];
      LastModeIsLast(init);
      if LastMode(init).Some? {
        var n :| 0 <= n < |init| && ModeOf(init[n]) == LastMode(init) && NoMode(init, n + 1);
        assert lines[n] == init[n];
        NoModeAtEnd(lines, n + 1);
      } else {
        NoModeAtEnd(lines, 0);
      }
    } else if lines != [] {
      assert NoMode(lines, |lines| - 1 + 1);
    }
  }

  /** No line from the n-th on has a valid mode. */
  ghost predicate NoMode(lines: seq<string>, n: nat) {
    forall m :: n <= m < |lines| ==> ModeOf(lines[m]).None?
  }

  lemma NoModeAtEnd(lines: seq<string>, n: nat)
    requires lines != [] && n < |lines| && NoMode(lines[..|lines| - 1], n) && ModeOf(lines[|lines| - 1]).None?
    ensures NoMode(lines, n)
  {
    assert forall m :: n <= m < |lines| - 1 ==> lines[..|lines| - 1][m] == lines[m];
  }
}
