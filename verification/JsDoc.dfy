/** The JSDoc block machine (scripts/jsdoc.ts, `parseJsDoc`): its paragraphs and lists are those
  * of the comment's prose, and no word is lost, repeated or reordered. */
module JsDoc {
  import opened Wrappers
  import opened Text
  import opened Words

  // ---- lines ----

  predicate Blank(line: string) {
    Trim(line) == ""
  }

  /** A dash and white space at the line's very start. */
  predicate Bullet(line: string) {
    |line| >= 2 && line[0] == '-' && IsSpace(line[1])
  }

  predicate BlankOrBullet(line: string) {
    Blank(line) || Bullet(line)
  }

  predicate Tag(line: string) {
    "@" <= TrimStart(line)
  }

  predicate WordChar(c: char) {
    'a' <= c <= 'z' || 'A' <= c <= 'Z' || '0' <= c <= '9' || c == '_'
  }

  /** An `@mode` tag, whatever follows it. */
  predicate ModeTag(line: string) {
    var t := TrimStart(line);
    "@mode" <= t && (|t| > 5 ==> !WordChar(t[5]))
  }

  datatype Mode = Emit | Waterfall | Parallel | Serial | Bail

  function ModeNamed(name: string): Option<Mode> {
    if name == "emit" then Some(Emit)
    else if name == "waterfall" then Some(Waterfall)
    else if name == "parallel" then Some(Parallel)
    else if name == "serial" then Some(Serial)
    else if name == "bail" then Some(Bail)
    else None
  }

  /** The mode of a line that says `@mode`, one valid mode and nothing else. */
  function ModeOf(line: string): Option<Mode> {
    var words := WordsOf(line);
    if |words| == 2 && words[0] == "@mode" then ModeNamed(words[1]) else None
  }

  lemma ModeIsTag(line: string)
    ensures ModeOf(line).Some? ==> ModeTag(line)
    ensures ModeTag(line) ==> Tag(line)
  {
    var t := TrimStart(line);
    SkippedSpace(line, SpaceEnd(line));
    if ModeOf(line).Some? && t != "" {
      var k := WordEnd(t);
      assert WordsOf(t)[0] == t[..k] == "@mode";
      assert k == 5;
    }
    if ModeTag(line) {
      assert t[0] == "@mode"[0] == '@';
    }
  }

  // ---- what a comment says ----

  function Until(lines: seq<string>, stop: string -> bool): (n: nat)
    ensures n <= |lines|
  {
    if lines == [] || stop(lines[0]) then 0 else 1 + Until(lines[1..], stop)
  }

  /** Lines run together, with single blanks between words. */
  function Flat(lines: seq<string>): string
    requires lines != []
  {
    Trim(Collapse(Join(lines, ' ')))
  }

  /** A list's items: each is a bullet line and the lines up to the next bullet. */
  function Items(run: seq<string>): seq<string>
    decreases |run|
  {
    if run == [] then []
    else
      var n := 1 + Until(run[1..], Bullet);
      [Flat(run[..n])] + Items(run[n..])
  }

  /** A list goes on to the next blank line, a paragraph to the next blank line or bullet. */
  function BlockEnd(lines: seq<string>): (n: nat)
    requires lines != []
    ensures 0 < n <= |lines|
  {
    if Bullet(lines[0]) then 1 + Until(lines[1..], Blank) else 1 + Until(lines[1..], BlankOrBullet)
  }

  function Block(run: seq<string>): string
    requires run != []
  {
    if Bullet(run[0]) then Join(Items(run), '\n') else Flat(run)
  }

  /** The blocks of lines, cut at blank lines and where a list starts. */
  function BlocksOf(lines: seq<string>): seq<string>
    decreases |lines|
  {
    if lines == [] then []
    else if Blank(lines[0]) then BlocksOf(lines[1..])
    else [Block(lines[..BlockEnd(lines)])] + BlocksOf(lines[BlockEnd(lines)..])
  }

  /** Blocks with an empty line between them. */
  function Stacked(blocks: seq<string>): string {
    if blocks == [] then ""
    else if |blocks| == 1 then blocks[0]
    else blocks[0] + "\n\n" + Stacked(blocks[1..])
  }

  /** Where the text of the link that opens a text begins and ends: past the white space after its
    * tag and before the next closing brace. White space alone is the text of a link only if there
    * is more than one. */
  function LinkText(s: string): (r: Option<(nat, nat)>)
    ensures r.Some? ==> 6 < r.value.0 < r.value.1 < |s|
  {
    if !("{@link" <= s) then None
    else
      var gap := SpaceEnd(s[6..]);
      var close := FirstOf(s, '}', 6 + gap);
      if gap == 0 || close == |s| then None
      else if close > 6 + gap then Some((6 + gap, close))
      else if gap > 1 then Some((6 + gap - 1, close))
      else None
  }

  function FirstOf(s: string, c: char, from: nat): (k: nat)
    requires from <= |s|
    ensures from <= k <= |s| && (forall j :: from <= j < k ==> s[j] != c) && (k < |s| ==> s[k] == c)
    decreases |s| - from
  {
    if from == |s| || s[from] == c then from else FirstOf(s, c, from + 1)
  }

  /** Every link gives way to its text. */
  function Unlink(s: string): string
    decreases |s|
  {
    if s == "" then ""
    else match LinkText(s)
      case Some((start, end)) => s[start..end] + Unlink(s[end + 1..])
      case None => [s[0]] + Unlink(s[1..])
  }

  /** The description of a comment with these lines. */
  function Description(lines: seq<string>): string {
    Trim(Unlink(Stacked(BlocksOf(Prose(lines)))))
  }

  /** The prose ends at the first block tag. */
  function Prose(lines: seq<string>): seq<string> {
    lines[..Until(lines, Tag)]
  }

  function LastMode(lines: seq<string>): Option<Mode> {
    if lines == [] then None
    else if ModeOf(lines[|lines| - 1]).Some? then ModeOf(lines[|lines| - 1])
    else LastMode(lines[..|lines| - 1])
  }

  // ---- the machine ----

  ghost function ParaRest(para: seq<string>, rest: seq<string>): seq<string>
    requires para != []
  {
    var n := Until(rest, BlankOrBullet);
    [Flat(para + rest[..n])] + BlocksOf(rest[n..])
  }

  ghost function ListFrom(list: seq<string>, item: seq<string>, run: seq<string>): (r: seq<string>)
    requires item != []
    ensures r != []
  {
    var k := Until(run, Bullet);
    list + ([Flat(item + run[..k])] + Items(run[k..]))
  }

  ghost function ListRest(list: seq<string>, item: seq<string>, rest: seq<string>): seq<string>
    requires item != []
  {
    var n := Until(rest, Blank);
    [Join(ListFrom(list, item, rest[..n]), '\n')] + BlocksOf(rest[n..])
  }

  /** The blocks that a pending paragraph or list, and the rest of the prose, come to. */
  ghost function Rest(para: seq<string>, list: seq<string>, item: seq<string>, rest: seq<string>): seq<string> {
    if para != [] then ParaRest(para, rest)
    else if item != [] then ListRest(list, item, rest)
    else BlocksOf(rest)
  }

  class DocBlocks {
    var blocks: seq<string>
    var para: seq<string>
    var list: seq<string>
    var item: seq<string>
    var inTags: bool
    var mode: Option<Mode>
    var hasMode: bool

    /** A pending paragraph and a pending list never coexist, and a list has an open item. */
    ghost predicate Valid()
      reads this
    {
      && (para != [] ==> list == [] && item == [])
      && (list != [] ==> item != [])
    }

    ghost function Outcome(rest: seq<string>): seq<string>
      reads this
    {
      blocks + Rest(para, list, item, rest)
    }

    constructor ()
      ensures Valid() && blocks == [] && para == [] && list == [] && item == []
      ensures !inTags && mode == None && !hasMode
    {
      blocks, para, list, item := [], [], [], [];
      inTags, mode, hasMode := false, None, false;
    }

    method FlushItem()
      modifies this`list, this`item
      ensures item == []
      ensures list == if old(item) == [] then old(list) else old(list) + [Flat(old(item))]
    {
      if item != [] {
        list := list + [Flat(item)];
      }
      item := [];
    }

    method FlushList()
      requires Valid()
      modifies this`blocks, this`list, this`item
      ensures item == [] && list == []
      ensures blocks == if old(item) == [] then old(blocks)
                        else old(blocks) + [Join(old(list) + [Flat(old(item))], '\n')]
    {
      FlushItem();
      if list != [] {
        blocks := blocks + [Join(list, '\n')];
      }
      list := [];
    }

    method FlushPara()
      requires Valid()
      modifies this`blocks, this`para, this`list, this`item
      ensures Valid() && para == [] && list == [] && item == []
      ensures blocks == old(Outcome([])) == Outcome([])
    {
      NothingLeft(para, list, item);
      FlushList();
      if para != [] {
        blocks := blocks + [Flat(para)];
      }
      para := [];
    }

    /** A bullet line: what is pending is flushed first, so that it comes above the list. */
    method StartItem(line: string, ghost rest: seq<string>)
      requires Valid() && Bullet(line) && !Blank(line)
      modifies this`blocks, this`para, this`list, this`item
      ensures Valid()
      ensures Outcome(rest) == old(Outcome([line] + rest))
    {
      TakeBullet(para, list, item, line, rest);
      if para != [] {
        Associate(blocks, [Flat(para)], ListRest([], [line], rest));
      }
      FlushItem();
      if para != [] {
        blocks := blocks + [Flat(para)];
        para := [];
      }
      item := item + [line];
      assert item == [line];
    }

    /** One line of prose. */
    method Take(line: string, ghost rest: seq<string>)
      requires Valid()
      modifies this`blocks, this`para, this`list, this`item
      ensures Valid()
      ensures Outcome(rest) == old(Outcome([line] + rest))
    {
      if Blank(line) {
        TakeBlank(para, list, item, line, rest);
        Associate(blocks, Rest(para, list, item, []), BlocksOf(rest));
        FlushPara();
      } else if Bullet(line) {
        StartItem(line, rest);
      } else {
        TakeOther(para, list, item, line, rest);
        if item != [] {
          item := item + [line];
        } else {
          para := para + [line];
        }
      }
    }

    /** What `@mode` tags leave behind. */
    method ReadMode(line: string)
      modifies this`mode, this`hasMode
      ensures mode == if ModeOf(line).Some? then ModeOf(line) else old(mode)
      ensures hasMode == (old(hasMode) || ModeTag(line))
    {
      ModeIsTag(line);
      if ModeOf(line).Some? {
        mode, hasMode := ModeOf(line), true;
      } else if ModeTag(line) {
        hasMode := true;
      }
    }

    /** One line of the comment. */
    method Read(line: string, ghost rest: seq<string>)
      requires Valid() && (Tag(line) ==> rest == [])
      modifies this
      ensures Valid() && inTags == (old(inTags) || Tag(line))
      ensures Outcome(rest) == old(Outcome(if inTags || Tag(line) then rest else [line] + rest))
      ensures mode == if ModeOf(line).Some? then ModeOf(line) else old(mode)
      ensures hasMode == (old(hasMode) || ModeTag(line))
    {
      ReadMode(line);
      if Tag(line) {
        FlushPara();
        inTags := true;
      } else if !inTags {
        Take(line, rest);
      }
    }

    /** The state after the first n lines of a comment whose prose has these blocks. */
    ghost predicate After(lines: seq<string>, n: nat, all: seq<string>)
      requires n <= |lines|
      reads this
    {
      && Valid() && Outcome(Left(lines, n)) == all
      && inTags == (n > Until(lines, Tag))
      && mode == LastMode(lines[..n]) && hasMode == SomeModeTag(lines[..n])
    }

    method ReadNext(lines: seq<string>, n: nat, ghost all: seq<string>)
      requires n < |lines| && After(lines, n, all)
      modifies this
      ensures After(lines, n + 1, all)
    {
      LeftNext(lines, n);
      NextLast(lines, n);
      NextTag(lines, n);
      Read(lines[n], Left(lines, n + 1));
    }

    lemma Starts(lines: seq<string>)
      requires Valid() && blocks == [] && para == [] && item == []
      requires !inTags && mode == None && !hasMode
      ensures After(lines, 0, BlocksOf(Prose(lines)))
    {
      LeftStarts(lines);
    }

    /** The end of the comment. */
    method Close(ghost lines: seq<string>, ghost all: seq<string>)
      requires After(lines, |lines|, all)
      modifies this
      ensures blocks == all && mode == LastMode(lines) && hasMode == SomeModeTag(lines)
    {
      LeftEnds(lines);
      assert lines[..|lines|] == lines;
      FlushPara();
    }
  }

  lemma Associate(a: seq<string>, b: seq<string>, c: seq<string>)
    ensures a + (b + c) == a + b + c
  {
  }

  lemma ListStops(list: seq<string>, item: seq<string>, rest: seq<string>)
    requires item != [] && Until(rest, Blank) == 0
    ensures ListRest(list, item, rest) == [Join(list + [Flat(item)], '\n')] + BlocksOf(rest)
  {
    assert item + [] == item && rest[..0] == [] && rest[0..] == rest;
    assert ListFrom(list, item, []) == list + [Flat(item)];
  }

  lemma ParaStops(para: seq<string>, rest: seq<string>)
    requires para != [] && Until(rest, BlankOrBullet) == 0
    ensures ParaRest(para, rest) == [Flat(para)] + BlocksOf(rest)
  {
    assert para + rest[..0] == para && rest[0..] == rest;
  }

  lemma NothingLeft(para: seq<string>, list: seq<string>, item: seq<string>)
    ensures Rest(para, list, item, []) ==
            if para != [] then [Flat(para)]
            else if item != [] then [Join(list + [Flat(item)], '\n')]
            else []
  {
    if para != [] {
      ParaStops(para, []);
    } else if item != [] {
      ListStops(list, item, []);
    }
  }

  lemma UntilCons(line: string, rest: seq<string>, stop: string -> bool)
    ensures Until([line] + rest, stop) == if stop(line) then 0 else 1 + Until(rest, stop)
    ensures ([line] + rest)[1..] == rest
  {
    assert ([line] + rest)[1..] == rest;
  }

  lemma DropCons(line: string, rest: seq<string>, n: nat)
    requires n <= |rest|
    ensures ([line] + rest)[..n + 1] == [line] + rest[..n] && ([line] + rest)[n + 1..] == rest[n..]
  {
  }

  lemma BlocksAtBlank(line: string, rest: seq<string>)
    requires Blank(line)
    ensures BlocksOf([line] + rest) == BlocksOf(rest)
  {
    assert ([line] + rest)[1..] == rest;
  }

  lemma TakeBlank(para: seq<string>, list: seq<string>, item: seq<string>, line: string, rest: seq<string>)
    requires Blank(line)
    ensures Rest(para, list, item, [line] + rest) == Rest(para, list, item, []) + BlocksOf(rest)
  {
    UntilCons(line, rest, BlankOrBullet);
    UntilCons(line, rest, Blank);
    BlocksAtBlank(line, rest);
    NothingLeft(para, list, item);
    if para != [] {
      ParaStops(para, [line] + rest);
    } else if item != [] {
      ListStops(list, item, [line] + rest);
    }
  }

  lemma ItemsFromBullet(line: string, run: seq<string>)
    ensures Items([line] + run) == ListFrom([], [line], run)
  {
    var k := Until(run, Bullet);
    UntilCons(line, run, Bullet);
    DropCons(line, run, k);
  }

  lemma NextBlock(lines: seq<string>, n: nat)
    requires lines != [] && !Blank(lines[0]) && n == BlockEnd(lines)
    ensures BlocksOf(lines) == [Block(lines[..n])] + BlocksOf(lines[n..])
  {
  }

  lemma BlocksFromBullet(line: string, rest: seq<string>)
    requires Bullet(line) && !Blank(line)
    ensures BlocksOf([line] + rest) == ListRest([], [line], rest)
  {
    var n := Until(rest, Blank);
    UntilCons(line, rest, Blank);
    NextBlock([line] + rest, n + 1);
    DropCons(line, rest, n);
    ItemsFromBullet(line, rest[..n]);
  }

  lemma ListAtBullet(list: seq<string>, item: seq<string>, line: string, run: seq<string>)
    requires Bullet(line) && item != []
    ensures ListFrom(list, item, [line] + run) == ListFrom(list + [Flat(item)], [line], run)
  {
    var all := [line] + run;
    UntilCons(line, run, Bullet);
    assert item + all[..0] == item && all[0..] == all;
    ItemsFromBullet(line, run);
  }

  lemma ListGoesOn(list: seq<string>, item: seq<string>, line: string, run: seq<string>)
    requires !Bullet(line) && item != []
    ensures ListFrom(list, item, [line] + run) == ListFrom(list, item + [line], run)
  {
    var k := Until(run, Bullet);
    UntilCons(line, run, Bullet);
    DropCons(line, run, k);
    assert item + ([line] + run[..k]) == item + [line] + run[..k];
  }

  lemma TakeInList(list: seq<string>, item: seq<string>, list': seq<string>, item': seq<string>, line: string, rest: seq<string>)
    requires !Blank(line) && item != [] && item' != []
    requires var run := rest[..Until(rest, Blank)]; ListFrom(list, item, [line] + run) == ListFrom(list', item', run)
    ensures ListRest(list, item, [line] + rest) == ListRest(list', item', rest)
  {
    UntilCons(line, rest, Blank);
    DropCons(line, rest, Until(rest, Blank));
  }

  lemma TakeBullet(para: seq<string>, list: seq<string>, item: seq<string>, line: string, rest: seq<string>)
    requires Bullet(line) && !Blank(line)
    requires (para != [] ==> list == [] && item == []) && (list != [] ==> item != [])
    ensures Rest(para, list, item, [line] + rest) ==
            if para != [] then [Flat(para)] + ListRest([], [line], rest)
            else if item != [] then ListRest(list + [Flat(item)], [line], rest)
            else ListRest([], [line], rest)
  {
    if para != [] {
      UntilCons(line, rest, BlankOrBullet);
      ParaStops(para, [line] + rest);
      BlocksFromBullet(line, rest);
    } else if item != [] {
      ListAtBullet(list, item, line, rest[..Until(rest, Blank)]);
      TakeInList(list, item, list + [Flat(item)], [line], line, rest);
    } else {
      BlocksFromBullet(line, rest);
    }
  }

  lemma ParaGoesOn(para: seq<string>, line: string, rest: seq<string>)
    requires !BlankOrBullet(line) && para != []
    ensures ParaRest(para, [line] + rest) == ParaRest(para + [line], rest)
  {
    var n := Until(rest, BlankOrBullet);
    UntilCons(line, rest, BlankOrBullet);
    DropCons(line, rest, n);
    assert para + ([line] + rest[..n]) == para + [line] + rest[..n];
  }

  lemma BlocksFromPara(line: string, rest: seq<string>)
    requires !BlankOrBullet(line)
    ensures BlocksOf([line] + rest) == ParaRest([line], rest)
  {
    var n := Until(rest, BlankOrBullet);
    UntilCons(line, rest, BlankOrBullet);
    NextBlock([line] + rest, n + 1);
    DropCons(line, rest, n);
  }

  lemma TakeOther(para: seq<string>, list: seq<string>, item: seq<string>, line: string, rest: seq<string>)
    requires !BlankOrBullet(line)
    requires (para != [] ==> list == [] && item == []) && (list != [] ==> item != [])
    ensures Rest(para, list, item, [line] + rest) ==
            if item != [] then Rest(para, list, item + [line], rest) else Rest(para + [line], list, item, rest)
  {
    if item != [] {
      ListGoesOn(list, item, line, rest[..Until(rest, Blank)]);
      TakeInList(list, item, list, item + [line], line, rest);
    } else if para != [] {
      ParaGoesOn(para, line, rest);
    } else {
      BlocksFromPara(line, rest);
      assert [] + [line] == [line];
    }
  }

  lemma {:induction false} UntilStops(lines: seq<string>, stop: string -> bool)
    ensures var n := Until(lines, stop);
            (forall i :: 0 <= i < n ==> !stop(lines[i])) && (n < |lines| ==> stop(lines[n]))
  {
    if lines != [] && !stop(lines[0]) {
      UntilStops(lines[1..], stop);
    }
  }

  lemma NextLast(lines: seq<string>, n: nat)
    requires n < |lines|
    ensures LastMode(lines[..n + 1]) == if ModeOf(lines[n]).Some? then ModeOf(lines[n]) else LastMode(lines[..n])
  {
    assert lines[..n + 1][..n] == lines[..n];
  }

  ghost predicate SomeModeTag(lines: seq<string>) {
    exists n :: 0 <= n < |lines| && ModeTag(lines[n])
  }

  lemma NextTag(lines: seq<string>, n: nat)
    requires n < |lines|
    ensures SomeModeTag(lines[..n + 1]) <==> SomeModeTag(lines[..n]) || ModeTag(lines[n])
  {
    assert lines[..n + 1] == lines[..n] + [lines[n]];
    if SomeModeTag(lines[..n]) {
      var m :| 0 <= m < n && ModeTag(lines[..n][m]);
      assert ModeTag(lines[..n + 1][m]);
    }
    if ModeTag(lines[n]) {
      assert ModeTag(lines[..n + 1][n]);
    }
  }

  /** The prose still to be read after n lines. */
  ghost function Left(lines: seq<string>, n: nat): seq<string>
    requires n <= |lines|
  {
    var end := Until(lines, Tag);
    if n < end then lines[n..end] else []
  }

  lemma LeftStarts(lines: seq<string>)
    ensures Left(lines, 0) == Prose(lines)
  {
  }

  lemma LeftEnds(lines: seq<string>)
    ensures Left(lines, |lines|) == []
  {
  }

  lemma LeftNext(lines: seq<string>, n: nat)
    requires n < |lines|
    ensures var end, left := Until(lines, Tag), Left(lines, n + 1);
            && (n >= end <==> n > end || Tag(lines[n]))
            && (Tag(lines[n]) ==> left == [])
            && Left(lines, n) == if n >= end then left else [lines[n]] + left
  {
    UntilStops(lines, Tag);
  }

  /** `parseJsDoc` from the comment's lines on. */
  method ParseJsDoc(lines: seq<string>) returns (doc: string, mode: Option<Mode>, hasMode: bool)
    ensures doc == Description(lines)
    ensures mode == LastMode(lines)
    ensures hasMode <==> SomeModeTag(lines)
  {
    var state := new DocBlocks();
    ghost var all := BlocksOf(Prose(lines));
    state.Starts(lines);
    for n := 0 to |lines|
      invariant fresh(state) && state.After(lines, n, all)
    {
      state.ReadNext(lines, n, all);
    }
    state.Close(lines, all);
    doc, mode, hasMode := Trim(Unlink(Stacked(state.blocks))), state.mode, state.hasMode;
  }

  // ---- no word is lost ----

  lemma {:induction false} StackedKeepsWords(blocks: seq<string>)
    ensures WordsOf(Stacked(blocks)) == WordsOfAll(blocks)
  {
    if |blocks| == 1 {
      assert WordsOfAll(blocks[1..]) == [];
    } else if blocks != [] {
      var rest := Stacked(blocks[1..]);
      StackedKeepsWords(blocks[1..]);
      WordsAround(blocks[0], '\n', "\n" + rest);
      SpaceThen('\n', rest);
      assert blocks[0] + "\n\n" + rest == blocks[0] + ['\n'] + ("\n" + rest);
    }
  }

  lemma FlatKeepsWords(lines: seq<string>)
    requires lines != []
    ensures WordsOf(Flat(lines)) == WordsOfAll(lines)
  {
    var joined := Join(lines, ' ');
    TrimKeepsWords(Collapse(joined));
    CollapseKeepsWords(joined);
    JoinKeepsWords(lines, ' ');
  }

  lemma WordsOfFirst(first: string, rest: seq<string>)
    ensures WordsOfAll([first] + rest) == WordsOf(first) + WordsOfAll(rest)
  {
    assert ([first] + rest)[1..] == rest;
  }

  lemma WordsCutAt(lines: seq<string>, n: nat)
    requires n <= |lines|
    ensures WordsOfAll(lines) == WordsOfAll(lines[..n]) + WordsOfAll(lines[n..])
  {
    WordsOfConcat(lines[..n], lines[n..]);
    Rejoined(lines, n);
  }

  lemma Rejoined(lines: seq<string>, n: nat)
    requires n <= |lines|
    ensures lines[..n] + lines[n..] == lines
  {
  }

  /** One text in place of the first n lines. */
  lemma WordsOfFirstLines(lines: seq<string>, n: nat, first: string, rest: seq<string>)
    requires n <= |lines| && WordsOf(first) == WordsOfAll(lines[..n]) && WordsOfAll(rest) == WordsOfAll(lines[n..])
    ensures WordsOfAll([first] + rest) == WordsOfAll(lines)
  {
    WordsOfFirst(first, rest);
    WordsCutAt(lines, n);
  }

  lemma ItemsOf(run: seq<string>, n: nat)
    requires run != [] && n == 1 + Until(run[1..], Bullet)
    ensures Items(run) == [Flat(run[..n])] + Items(run[n..])
  {
  }

  lemma FirstItemKeepsWords(run: seq<string>, n: nat, rest: seq<string>)
    requires 0 < n <= |run| && WordsOfAll(rest) == WordsOfAll(run[n..])
    ensures WordsOfAll([Flat(run[..n])] + rest) == WordsOfAll(run)
  {
    FlatKeepsWords(run[..n]);
    WordsOfFirstLines(run, n, Flat(run[..n]), rest);
  }

  lemma {:induction false} ItemsKeepWords(run: seq<string>)
    ensures WordsOfAll(Items(run)) == WordsOfAll(run)
    decreases |run|
  {
    if run != [] {
      var n := 1 + Until(run[1..], Bullet);
      ItemsKeepWords(run[n..]);
      ItemsOf(run, n);
      FirstItemKeepsWords(run, n, Items(run[n..]));
    }
  }

  lemma BlockKeepsWords(run: seq<string>)
    requires run != []
    ensures WordsOf(Block(run)) == WordsOfAll(run)
  {
    if Bullet(run[0]) {
      JoinKeepsWords(Items(run), '\n');
      ItemsKeepWords(run);
    } else {
      FlatKeepsWords(run);
    }
  }

  lemma BlankHasNoWords(line: string)
    requires Blank(line)
    ensures WordsOf(line) == []
  {
    TrimKeepsWords(line);
  }

  lemma {:induction false} BlocksKeepWords(lines: seq<string>)
    ensures WordsOfAll(BlocksOf(lines)) == WordsOfAll(lines)
    decreases |lines|
  {
    if lines != [] {
      if Blank(lines[0]) {
        BlankHasNoWords(lines[0]);
        BlocksKeepWords(lines[1..]);
      } else {
        var n := BlockEnd(lines);
        NextBlock(lines, n);
        BlocksKeepWords(lines[n..]);
        BlockKeepsWords(lines[..n]);
        WordsOfFirstLines(lines, n, Block(lines[..n]), BlocksOf(lines[n..]));
      }
    }
  }

  /** Before links are unwrapped, the words of the description are the words of the lines before
    * the first block tag, in order. */
  lemma DocKeepsWords(lines: seq<string>)
    ensures WordsOf(Stacked(BlocksOf(Prose(lines)))) == WordsOfAll(Prose(lines))
  {
    StackedKeepsWords(BlocksOf(Prose(lines)));
    BlocksKeepWords(Prose(lines));
  }

  // ---- links ----

  lemma UnlinkChar(c: char, rest: string)
    requires c != '{'
    ensures Unlink([c] + rest) == [c] + Unlink(rest)
  {
    assert ([c] + rest)[0] != "{@link"[0];
    assert ([c] + rest)[1..] == rest;
  }

  lemma UnlinkAt(s: string, start: nat, end: nat, text: string, rest: string)
    requires LinkText(s) == Some((start, end)) && s[start..end] == text && s[end + 1..] == rest
    ensures Unlink(s) == text + Unlink(rest)
  {
  }

  lemma Regroup(x: string, a: string, b: string)
    ensures x + (a + b) == x + a + b
  {
  }

  lemma UnlinkLonger(c: char, tail: string, b: string, after: string)
    requires c != '{' && Unlink(tail + b) == tail + after
    ensures Unlink([c] + tail + b) == [c] + tail + after
  {
    UnlinkChar(c, tail + b);
    Regroup([c], tail, b);
    Regroup([c], tail, after);
  }

  lemma {:induction false} UnlinkPlain(a: string, b: string)
    requires '{' !in a
    ensures Unlink(a + b) == a + Unlink(b)
  {
    if a == "" {
      assert a + b == b;
    } else {
      UnlinkPlain(a[1..], b);
      UnlinkLonger(a[0], a[1..], b, Unlink(b));
      assert [a[0]] + a[1..] == a;
    }
  }

  lemma {:induction false} SpaceEndIs(s: string, k: nat)
    requires k < |s| && (forall j :: 0 <= j < k ==> IsSpace(s[j])) && !IsSpace(s[k])
    ensures SpaceEnd(s) == k
  {
    if k > 0 {
      SpaceEndIs(s[1..], k - 1);
    }
  }

  lemma {:induction false} FirstOfIs(s: string, c: char, from: nat, k: nat)
    requires from <= k < |s| && (forall j :: from <= j < k ==> s[j] != c) && s[k] == c
    ensures FirstOf(s, c, from) == k
    decreases k - from
  {
    if from < k {
      FirstOfIs(s, c, from + 1, k);
    }
  }

  lemma LinkTextOf(gap: string, text: string, b: string)
    requires gap != "" && (forall j :: 0 <= j < |gap| ==> IsSpace(gap[j]))
    requires text != "" && !IsSpace(text[0]) && '}' !in text
    ensures var s := "{@link" + gap + text + "}" + b;
            && LinkText(s) == Some((6 + |gap|, 6 + |gap| + |text|))
            && s[6 + |gap|..6 + |gap| + |text|] == text && s[6 + |gap| + |text| + 1..] == b
  {
    var s := "{@link" + gap + text + "}" + b;
    var at := 6 + |gap|;
    assert s[6..] == gap + text + "}" + b;
    SpaceEndIs(s[6..], |gap|);
    assert s[at..at + |text|] == text && s[at + |text|] == '}';
    assert forall j :: at <= j < at + |text| ==> s[j] == text[j - at];
    FirstOfIs(s, '}', at, at + |text|);
  }

  /** A link gives way to its text, whatever stands around it. */
  lemma LinkGivesWay(a: string, gap: string, text: string, b: string)
    requires '{' !in a && gap != "" && (forall j :: 0 <= j < |gap| ==> IsSpace(gap[j]))
    requires text != "" && !IsSpace(text[0]) && '}' !in text
    ensures Unlink(a + ("{@link" + gap + text + "}" + b)) == a + (text + Unlink(b))
  {
    UnlinkPlain(a, "{@link" + gap + text + "}" + b);
    OpeningLink(gap, text, b);
  }

  lemma OpeningLink(gap: string, text: string, b: string)
    requires gap != "" && (forall j :: 0 <= j < |gap| ==> IsSpace(gap[j]))
    requires text != "" && !IsSpace(text[0]) && '}' !in text
    ensures Unlink("{@link" + gap + text + "}" + b) == text + Unlink(b)
  {
    LinkTextOf(gap, text, b);
    UnlinkAt("{@link" + gap + text + "}" + b, 6 + |gap|, 6 + |gap| + |text|, text, b);
  }

  /** Without an opening brace in the prose, the description has exactly its words, in order. */
  lemma DescriptionKeepsWords(lines: seq<string>)
    requires forall n :: 0 <= n < |Prose(lines)| ==> '{' !in Prose(lines)[n]
    ensures WordsOf(Description(lines)) == WordsOfAll(Prose(lines))
  {
    var stacked := Stacked(BlocksOf(Prose(lines)));
    DocKeepsWords(lines);
    NoneHolds(Prose(lines), '{');
    WordsHold(stacked, '{');
    UnlinkPlain(stacked, "");
    assert stacked + "" == stacked;
    TrimKeepsWords(stacked);
  }

  lemma {:induction false} NoneHolds(texts: seq<string>, c: char)
    requires !IsSpace(c) && forall n :: 0 <= n < |texts| ==> c !in texts[n]
    ensures !InSome(WordsOfAll(texts), c)
  {
    if texts != [] {
      NoneHolds(texts[1..], c);
      WordsHold(texts[0], c);
      var first, rest := WordsOf(texts[0]), WordsOfAll(texts[1..]);
      assert forall i :: 0 <= i < |first + rest| ==> (first + rest)[i] == if i < |first| then first[i] else rest[i - |first|];
    }
  }
}
