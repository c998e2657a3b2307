/** Printing a command line that can be pasted into a shell, and how a shell reads it back
  * (scripts/publish-npm-baseline.ts, `formatCopyableCommand`, `quoteShellArgument`).
  * The reader follows sections 2.2.1 to 2.2.3 and 2.3 of the POSIX Shell Command Language. */
module ShellWords {
  import opened Wrappers

  // ---- the printer ----

  predicate SafeChar(c: char) {
    'a' <= c <= 'z' || 'A' <= c <= 'Z' || '0' <= c <= '9' || c in "_./:@=+-"
  }

  predicate Safe(value: string) {
    value != "" && forall i :: 0 <= i < |value| ==> SafeChar(value[i])
  }

  /** Each single quote becomes a single quote inside double quotes between two quoted parts. */
  function EscapeSingleQuotes(value: string): string {
    if value == "" then ""
    else (if value[0] == '\'' then "'\"'\"'" else [value[0]]) + EscapeSingleQuotes(value[1..])
  }

  function QuoteShellArgument(value: string): string {
    if Safe(value) then value else "'" + EscapeSingleQuotes(value) + "'"
  }

  /** A word is printed as it is exactly when it is not empty and all its characters are letters,
    * digits, or among _ . / : @ = + - */
  lemma PrintedPlainIff(value: string)
    ensures QuoteShellArgument(value) == value <==>
            value != "" && forall i :: 0 <= i < |value| ==>
              var c := value[i];
              || 'a' <= c <= 'z' || 'A' <= c <= 'Z' || '0' <= c <= '9' || c == '_' || c == '.' || c == '/' || c == ':'
              || c == '@' || c == '=' || c == '+' || c == '-'
  {
    EscapedIsLonger(value);
  }

  lemma {:induction false} EscapedIsLonger(value: string)
    ensures |EscapeSingleQuotes(value)| >= |value|
  {
    if value != "" {
      EscapedIsLonger(value[1..]);
    }
  }

  function JoinQuoted(words: seq<string>): string
    requires words != []
  {
    if |words| == 1 then QuoteShellArgument(words[0])
    else QuoteShellArgument(words[0]) + " " + JoinQuoted(words[1..])
  }

  function FormatCopyableCommand(command: string, args: seq<string>): string {
    JoinQuoted([command] + args)
  }

  // ---- the reader ----

  /** Between words, in an unquoted part, inside single quotes, inside double quotes. */
  datatype Mode = Between | Bare | Single | Double

  predicate Blank(c: char) {
    c == ' ' || c == '\t'
  }

  /** Unquoted, these start an operator, an expansion, a pattern, a comment or a new command. */
  predicate Special(c: char) {
    c in "|&;<>()$`\n*?[]#~{}!"
  }

  /** The words of the rest of a simple command, the current one so far being `word`; None if
    * a quote is not closed, something beyond quoting would happen, or a NUL occurs. */
  function Words(s: string, mode: Mode, word: string): Option<seq<string>>
    decreases |s|, if mode.Between? then 1 else 0
  {
    if s == "" then
      match mode
      case Between => Some([])
      case Bare => Some([word])
      case _ => None
    else
      var c, rest := s[0], s[1..];
      if c == '\0' then None
      else match mode
        case Between => if Blank(c) then Words(rest, Between, "") else Words(s, Bare, "")
        case Bare =>
          if Blank(c) then
            (match Words(rest, Between, "")
             case None => None
             case Some(more) => Some([word] + more))
          else if c == '\'' then Words(rest, Single, word)
          else if c == '"' then Words(rest, Double, word)
          else if c == '\\' then
            (if rest == "" || rest[0] == '\0' then None
             else Words(rest[1..], Bare, if rest[0] == '\n' then word else word + [rest[0]]))
          else if Special(c) then None
          else Words(rest, Bare, word + [c])
        case Single =>
          if c == '\'' then Words(rest, Bare, word) else Words(rest, Single, word + [c])
        case Double =>
          if c == '"' then Words(rest, Bare, word)
          else if c == '$' || c == '`' then None
          else if c == '\\' && rest != "" && rest[0] in "$`\"\\" then Words(rest[1..], Double, word + [rest[0]])
          else if c == '\\' && rest != "" && rest[0] == '\n' then Words(rest[1..], Double, word)
          else Words(rest, Double, word + [c])
  }

  function Read(line: string): Option<seq<string>> {
    Words(line, Between, "")
  }

  // ---- the round trip ----

  lemma ReadSafeChar(c: char, rest: string, word: string)
    requires SafeChar(c)
    ensures Words([c] + rest, Bare, word) == Words(rest, Bare, word + [c])
  {
    assert ([c] + rest)[1..] == rest;
  }

  lemma {:induction false} ReadSafe(value: string, rest: string, word: string)
    requires forall i :: 0 <= i < |value| ==> SafeChar(value[i])
    ensures Words(value + rest, Bare, word) == Words(rest, Bare, word + value)
  {
    if value == "" {
      assert value + rest == rest && word + value == word;
    } else {
      var c, tail := value[0], value[1..];
      ReadSafeChar(c, tail + rest, word);
      ReadSafe(tail, rest, word + [c]);
      assert [c] + (tail + rest) == value + rest;
      assert word + [c] + tail == word + value;
    }
  }

  lemma ReadEscapedQuote(rest: string, word: string)
    ensures Words("'\"'\"'" + rest, Single, word) == Words(rest, Single, word + "'")
  {
    var s := "'\"'\"'" + rest;
    assert s[1..][0] == '"' && s[1..][1..][0] == '\'' && s[1..][1..][1..][0] == '"' && s[1..][1..][1..][1..][0] == '\'';
    assert s[1..][1..][1..][1..][1..] == rest;
    assert Words(s, Single, word) == Words(s[1..], Bare, word);
    assert Words(s[1..], Bare, word) == Words(s[1..][1..], Double, word);
    assert Words(s[1..][1..], Double, word) == Words(s[1..][1..][1..], Double, word + "'");
    assert Words(s[1..][1..][1..], Double, word + "'") == Words(s[1..][1..][1..][1..], Bare, word + "'");
  }

  lemma {:induction false} ReadEscaped(value: string, rest: string, word: string)
    requires '\0' !in value
    ensures Words(EscapeSingleQuotes(value) + "'" + rest, Single, word) == Words(rest, Bare, word + value)
  {
    if value == "" {
      assert EscapeSingleQuotes(value) + "'" + rest == "'" + rest;
      assert ("'" + rest)[1..] == rest && word + value == word;
    } else {
      var c, tail := value[0], EscapeSingleQuotes(value[1..]) + "'" + rest;
      ReadEscaped(value[1..], rest, word + [c]);
      assert word + [c] + value[1..] == word + value;
      if c == '\'' {
        assert EscapeSingleQuotes(value) + "'" + rest == "'\"'\"'" + tail;
        ReadEscapedQuote(tail, word);
      } else {
        assert EscapeSingleQuotes(value) + "'" + rest == [c] + tail;
        assert ([c] + tail)[1..] == tail;
      }
    }
  }

  lemma ReadQuotedSafe(value: string, rest: string)
    requires Safe(value)
    ensures Words(value + rest, Between, "") == Words(rest, Bare, value)
  {
    var s := value + rest;
    assert SafeChar(value[0]) && s[0] == value[0];
    assert Words(s, Between, "") == Words(s, Bare, "");
    ReadSafe(value, rest, "");
    assert "" + value == value;
  }

  lemma OpenQuote(s: string)
    ensures Words("'" + s, Between, "") == Words(s, Single, "")
  {
    assert ("'" + s)[1..] == s;
  }

  lemma ReadQuotedEscaped(value: string, rest: string)
    requires '\0' !in value
    ensures Words("'" + EscapeSingleQuotes(value) + "'" + rest, Between, "") == Words(rest, Bare, value)
  {
    var inner := EscapeSingleQuotes(value) + "'" + rest;
    OpenQuote(inner);
    ReadEscaped(value, rest, "");
    assert "'" + EscapeSingleQuotes(value) + "'" + rest == "'" + inner;
    assert "" + value == value;
  }

  lemma ReadQuoted(value: string, rest: string)
    requires '\0' !in value
    ensures Words(QuoteShellArgument(value) + rest, Between, "") == Words(rest, Bare, value)
  {
    if Safe(value) {
      ReadQuotedSafe(value, rest);
    } else {
      ReadQuotedEscaped(value, rest);
    }
  }

  lemma {:induction false} ReadJoined(words: seq<string>)
    requires words != [] && forall i :: 0 <= i < |words| ==> '\0' !in words[i]
    ensures Read(JoinQuoted(words)) == Some(words)
  {
    var first := QuoteShellArgument(words[0]);
    if |words| == 1 {
      ReadQuoted(words[0], "");
      assert first + "" == first && words == [words[0]];
    } else {
      var rest := " " + JoinQuoted(words[1..]);
      ReadJoined(words[1..]);
      ReadQuoted(words[0], rest);
      assert first + " " + JoinQuoted(words[1..]) == first + rest;
      assert rest[1..] == JoinQuoted(words[1..]);
      assert words == [words[0]] + words[1..];
    }
  }

  lemma {:induction false} NulIsUnreadable(s: string, mode: Mode, word: string)
    requires '\0' in s
    ensures Words(s, mode, word).None?
    decreases |s|, if mode.Between? then 1 else 0
  {
    var c, rest := s[0], s[1..];
    if c != '\0' {
      assert '\0' in rest;
      match mode
      case Between =>
        if Blank(c) { NulIsUnreadable(rest, Between, ""); } else { NulIsUnreadable(s, Bare, ""); }
      case Bare =>
        if Blank(c) { NulIsUnreadable(rest, Between, ""); }
        else if c == '\'' { NulIsUnreadable(rest, Single, word); }
        else if c == '"' { NulIsUnreadable(rest, Double, word); }
        else if c == '\\' {
          if rest[0] != '\0' { NulIsUnreadable(rest[1..], Bare, if rest[0] == '\n' then word else word + [rest[0]]); }
        }
        else if !Special(c) { NulIsUnreadable(rest, Bare, word + [c]); }
      case Single =>
        if c == '\'' { NulIsUnreadable(rest, Bare, word); } else { NulIsUnreadable(rest, Single, word + [c]); }
      case Double =>
        if c == '"' { NulIsUnreadable(rest, Bare, word); }
        else if c == '\\' && rest[0] in "$`\"\\" { NulIsUnreadable(rest[1..], Double, word + [rest[0]]); }
        else if c == '\\' && rest[0] == '\n' { NulIsUnreadable(rest[1..], Double, word); }
        else if c != '$' && c != '`' { NulIsUnreadable(rest, Double, word + [c]); }
    }
  }

  lemma {:induction false} EscapingKeepsNul(value: string)
    requires '\0' in value
    ensures '\0' in EscapeSingleQuotes(value)
  {
    if value[0] != '\0' {
      EscapingKeepsNul(value[1..]);
    }
  }

  lemma {:induction false} JoiningKeepsNul(words: seq<string>, i: nat)
    requires i < |words| && '\0' in words[i]
    ensures '\0' in JoinQuoted(words)
  {
    if i == 0 {
      EscapingKeepsNul(words[0]);
      assert !Safe(words[0]) by {
        var k :| 0 <= k < |words[0]| && words[0][k] == '\0';
        assert !SafeChar(words[0][k]);
      }
      assert '\0' in QuoteShellArgument(words[0]);
    } else {
      JoiningKeepsNul(words[1..], i - 1);
    }
  }

  /** A shell reads a printed command back as exactly its words, precisely when none has a NUL. */
  lemma PrintedCommandReadsBack(command: string, args: seq<string>)
    ensures Read(FormatCopyableCommand(command, args)) == Some([command] + args)
            <==> forall i :: 0 <= i < |[command] + args| ==> '\0' !in ([command] + args)[i]
  {
    var words := [command] + args;
    if i :| 0 <= i < |words| && '\0' in words[i] {
      JoiningKeepsNul(words, i);
      NulIsUnreadable(JoinQuoted(words), Between, "");
    } else {
      ReadJoined(words);
    }
  }
}
