/** The words of a text, and collapsing its white space. */
module Words {
  import opened Text

  predicate NoSpace(s: string) {
    forall i :: 0 <= i < |s| ==> !IsSpace(s[i])
  }

  function WordEnd(s: string): (k: nat)
    ensures k <= |s| && (forall i :: 0 <= i < k ==> !IsSpace(s[i])) && (k < |s| ==> IsSpace(s[k]))
    ensures s != "" && !IsSpace(s[0]) ==> k > 0
  {
    if s == "" || IsSpace(s[0]) then 0 else 1 + WordEnd(s[1..])
  }

  function SpaceEnd(s: string): (k: nat)
    ensures k <= |s| && (forall i :: 0 <= i < k ==> IsSpace(s[i])) && (k < |s| ==> !IsSpace(s[k]))
    ensures s != "" && IsSpace(s[0]) ==> k > 0
  {
    if s == "" || !IsSpace(s[0]) then 0 else 1 + SpaceEnd(s[1..])
  }

  function WordsOf(s: string): seq<string>
    decreases |s|
  {
    if s == "" then []
    else if IsSpace(s[0]) then WordsOf(s[1..])
    else [s[..WordEnd(s)]] + WordsOf(s[WordEnd(s)..])
  }

  function WordsOfAll(texts: seq<string>): seq<string> {
    if texts == [] then [] else WordsOf(texts[0]) + WordsOfAll(texts[1..])
  }

  /** Every run of white space becomes one blank. */
  function Collapse(s: string): string
    decreases |s|
  {
    if s == "" then ""
    else if IsSpace(s[0]) then " " + Collapse(s[SpaceEnd(s)..])
    else s[..WordEnd(s)] + Collapse(s[WordEnd(s)..])
  }

  function TrimStart(s: string): string {
    s[SpaceEnd(s)..]
  }

  function TrimEnd(s: string): string {
    if s != "" && IsSpace(s[|s| - 1]) then TrimEnd(s[..|s| - 1]) else s
  }

  function Trim(s: string): string {
    TrimEnd(TrimStart(s))
  }

  // ---- words survive ----

  lemma {:induction false} WordEndIs(s: string, k: nat)
    requires k <= |s| && (forall i :: 0 <= i < k ==> !IsSpace(s[i])) && (k < |s| ==> IsSpace(s[k]))
    ensures WordEnd(s) == k
  {
    if k > 0 {
      WordEndIs(s[1..], k - 1);
    }
  }

  lemma WordThen(word: string, rest: string)
    requires word != "" && NoSpace(word) && (rest != "" ==> IsSpace(rest[0]))
    ensures WordsOf(word + rest) == [word] + WordsOf(rest)
  {
    var s := word + rest;
    assert s[..|word|] == word && s[|word|..] == rest && s[0] == word[0];
    WordEndIs(s, |word|);
  }

  lemma SpaceThen(c: char, rest: string)
    requires IsSpace(c)
    ensures WordsOf([c] + rest) == WordsOf(rest)
  {
    assert ([c] + rest)[1..] == rest;
  }

  lemma SplitAtWord(s: string) returns (word: string, rest: string)
    requires s != "" && !IsSpace(s[0])
    ensures s == word + rest && word == s[..WordEnd(s)] && rest == s[WordEnd(s)..]
    ensures word != "" && NoSpace(word) && (rest != "" ==> IsSpace(rest[0]))
    ensures WordsOf(s) == [word] + WordsOf(rest)
  {
    word, rest := s[..WordEnd(s)], s[WordEnd(s)..];
  }

  lemma AroundSpace(a: string, c: char, b: string)
    requires IsSpace(c) && a != "" && IsSpace(a[0])
    requires WordsOf(a[1..] + [c] + b) == WordsOf(a[1..]) + WordsOf(b)
    ensures WordsOf(a + [c] + b) == WordsOf(a) + WordsOf(b)
  {
    SpaceThen(a[0], a[1..] + [c] + b);
    assert a + [c] + b == [a[0]] + (a[1..] + [c] + b);
  }

  lemma TailStarts(rest: string, c: char, b: string)
    requires IsSpace(c) && (rest != "" ==> IsSpace(rest[0]))
    ensures rest + [c] + b != "" && IsSpace((rest + [c] + b)[0])
  {
  }

  lemma Regrouped(word: string, rest: string, c: char, b: string)
    ensures word + rest + [c] + b == word + (rest + [c] + b)
  {
  }

  lemma AroundWord(word: string, rest: string, tail: string, b: string)
    requires word != "" && NoSpace(word) && (tail != "" ==> IsSpace(tail[0]))
    requires WordsOf(tail) == WordsOf(rest) + WordsOf(b)
    ensures WordsOf(word + tail) == [word] + WordsOf(rest) + WordsOf(b)
  {
    WordThen(word, tail);
  }

  /** White space separates words. */
  lemma {:induction false} WordsAround(a: string, c: char, b: string)
    requires IsSpace(c)
    ensures WordsOf(a + [c] + b) == WordsOf(a) + WordsOf(b)
    decreases |a|
  {
    if a == "" {
      assert a + [c] + b == [c] + b;
      SpaceThen(c, b);
    } else if IsSpace(a[0]) {
      WordsAround(a[1..], c, b);
      AroundSpace(a, c, b);
    } else {
      var word, rest := SplitAtWord(a);
      WordsAround(rest, c, b);
      TailStarts(rest, c, b);
      AroundWord(word, rest, rest + [c] + b, b);
      Regrouped(word, rest, c, b);
    }
  }

  lemma {:induction false} SkippedSpace(s: string, k: nat)
    requires k <= |s| && forall i :: 0 <= i < k ==> IsSpace(s[i])
    ensures WordsOf(s[k..]) == WordsOf(s)
  {
    if k > 0 {
      SkippedSpace(s[1..], k - 1);
      assert s[1..][k - 1..] == s[k..];
    } else {
      assert s[0..] == s;
    }
  }

  // ---- characters and words ----

  ghost predicate InSome(words: seq<string>, c: char) {
    exists i :: 0 <= i < |words| && c in words[i]
  }

  lemma InSomeSplits(first: string, rest: seq<string>, c: char)
    ensures InSome([first] + rest, c) <==> c in first || InSome(rest, c)
  {
    var all := [first] + rest;
    if c in first {
      assert c in all[0];
    }
    if i :| 0 <= i < |rest| && c in rest[i] {
      assert c in all[i + 1];
    }
    if i :| 0 <= i < |all| && c in all[i] {
      assert i > 0 ==> all[i] == rest[i - 1];
    }
  }

  /** The words of a text hold exactly its characters that are not white space. */
  lemma {:induction false} WordsHold(s: string, c: char)
    requires !IsSpace(c)
    ensures c in s <==> InSome(WordsOf(s), c)
    decreases |s|
  {
    if s != "" {
      if IsSpace(s[0]) {
        WordsHold(s[1..], c);
        assert s == [s[0]] + s[1..];
      } else {
        var word, rest := SplitAtWord(s);
        WordsHold(rest, c);
        InSomeSplits(word, WordsOf(rest), c);
      }
    }
  }

  lemma CollapseStarts(s: string)
    ensures Collapse(s) != "" ==> s != "" && (IsSpace(s[0]) ==> IsSpace(Collapse(s)[0]))
  {
    assert IsSpace(' ');
  }

  lemma {:induction false} CollapseKeepsWords(s: string)
    ensures WordsOf(Collapse(s)) == WordsOf(s)
    decreases |s|
  {
    if s != "" {
      if IsSpace(s[0]) {
        var rest := s[SpaceEnd(s)..];
        CollapseKeepsWords(rest);
        SpaceThen(' ', Collapse(rest));
        SkippedSpace(s, SpaceEnd(s));
      } else {
        var word, rest := SplitAtWord(s);
        CollapseKeepsWords(rest);
        CollapseStarts(rest);
        WordThen(word, Collapse(rest));
      }
    }
  }

  lemma {:induction false} TrimEndKeepsWords(s: string)
    ensures WordsOf(TrimEnd(s)) == WordsOf(s)
  {
    if s != "" && IsSpace(s[|s| - 1]) {
      var init := s[..|s| - 1];
      TrimEndKeepsWords(init);
      WordsAround(init, s[|s| - 1], "");
      assert init + [s[|s| - 1]] + "" == s;
    }
  }

  lemma TrimKeepsWords(s: string)
    ensures WordsOf(Trim(s)) == WordsOf(s)
  {
    SkippedSpace(s, SpaceEnd(s));
    TrimEndKeepsWords(TrimStart(s));
  }

  lemma {:induction false} JoinKeepsWords(texts: seq<string>, c: char)
    requires texts != [] && IsSpace(c)
    ensures WordsOf(Join(texts, c)) == WordsOfAll(texts)
  {
    if |texts| > 1 {
      JoinKeepsWords(texts[1..], c);
      WordsAround(texts[0], c, Join(texts[1..], c));
    } else {
      assert WordsOfAll(texts[1..]) == [];
    }
  }

  lemma {:induction false} WordsOfConcat(a: seq<string>, b: seq<string>)
    ensures WordsOfAll(a + b) == WordsOfAll(a) + WordsOfAll(b)
  {
    if a == [] {
      assert a + b == b;
    } else {
      assert (a + b)[1..] == a[1..] + b;
      WordsOfConcat(a[1..], b);
    }
  }
}
