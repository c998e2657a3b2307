/** The nine renames of the source (scripts/rescope-vendor.ts, `RENAMES`), and a line on which
  * they are not idempotent. */
module RescopeTable {
  import opened Wrappers
  import Text
  import opened RescopeTokens
  import opened RescopePasses
  import opened RescopeLine
  import opened RescopeLaws
  import opened RescopeFile
  import opened RescopeFileLaws
  import opened RescopeEffects

  const FRAMEWORK := ["cordis", "cosmokit", "schemastery"]
  const PLUGINS := ["loader", "include", "group", "timer", "hmr", "logger-console"]
  const SCOPE := "@deepseek-ai/"
  const OLD_PLUGIN := "@cordisjs/plugin-"
  const NEW_PLUGIN := "@deepseek-ai/cordis-plugin-"

  function RenameAt(n: nat): Rename
    requires n < 9
  {
    if n < 3 then Rename(FRAMEWORK[n], SCOPE + FRAMEWORK[n])
    else Rename(OLD_PLUGIN + PLUGINS[n - 3], NEW_PLUGIN + PLUGINS[n - 3])
  }

  function Renames(): (r: seq<Rename>)
    ensures |r| == 9 && forall n :: 0 <= n < 9 ==> r[n] == RenameAt(n)
  {
    seq(9, n requires 0 <= n < 9 => RenameAt(n))
  }

  // ---- telling names apart ----

  lemma NamedAgrees(a: string, b: string, k: nat)
    requires IsNamed(a, b) && k <= |a| && k <= |b|
    ensures (a + "/")[k] == (b + "/")[k]
  {
    assert b + "/" <= a + "/";
  }

  /** Two names that differ somewhere, or one of which goes on with something other than a slash. */
  lemma DifferAt(a: string, b: string, k: nat)
    requires k <= |a| && k <= |b| && (a + "/")[k] != (b + "/")[k]
    ensures Apart(a, b) && Apart(b, a)
  {
    if IsNamed(a, b) {
      NamedAgrees(a, b, k);
    }
    if IsNamed(b, a) {
      NamedAgrees(b, a, k);
    }
  }

  lemma AfterPrefix(prefix: string, a: string, b: string, k: nat)
    requires k <= |a| && k <= |b| && (a + "/")[k] != (b + "/")[k]
    ensures Apart(prefix + a, prefix + b) && Apart(a, b)
  {
    DifferAt(a, b, k);
    DifferAt(prefix + a, prefix + b, |prefix| + k);
  }

  lemma FrameworkApart(i: nat, j: nat)
    requires i < 3 && j < 3 && i != j
    ensures Apart(FRAMEWORK[i], FRAMEWORK[j]) && Apart(SCOPE + FRAMEWORK[i], SCOPE + FRAMEWORK[j])
  {
    AfterPrefix(SCOPE, FRAMEWORK[i], FRAMEWORK[j], if i < 2 && j < 2 then 2 else 0);
  }

  lemma PluginsApart(i: nat, j: nat)
    requires i < 6 && j < 6 && i != j
    ensures Apart(OLD_PLUGIN + PLUGINS[i], OLD_PLUGIN + PLUGINS[j])
    ensures Apart(NEW_PLUGIN + PLUGINS[i], NEW_PLUGIN + PLUGINS[j])
  {
    var k := if {i, j} == {0, 5} then 2 else 0;
    AfterPrefix(OLD_PLUGIN, PLUGINS[i], PLUGINS[j], k);
    AfterPrefix(NEW_PLUGIN, PLUGINS[i], PLUGINS[j], k);
  }

  lemma KindsApart(i: nat, j: nat)
    requires i < 3 && j < 6
    ensures Apart(FRAMEWORK[i], OLD_PLUGIN + PLUGINS[j]) && Apart(OLD_PLUGIN + PLUGINS[j], FRAMEWORK[i])
    ensures Apart(SCOPE + FRAMEWORK[i], NEW_PLUGIN + PLUGINS[j]) && Apart(NEW_PLUGIN + PLUGINS[j], SCOPE + FRAMEWORK[i])
  {
    DifferAt(FRAMEWORK[i], OLD_PLUGIN + PLUGINS[j], 0);
    var k := if i == 0 then 6 else if i == 1 then 2 else 0;
    assert NEW_PLUGIN == SCOPE + "cordis-plugin-";
    assert FRAMEWORK[0] == "cordis" && |"cordis"| == 6;
    DifferAt(SCOPE + FRAMEWORK[i], NEW_PLUGIN + PLUGINS[j], |SCOPE| + k);
  }

  lemma DirectionsApart(i: nat, j: nat)
    requires i < 9 && j < 9
    ensures Apart(RenameAt(i).upstream, RenameAt(j).scoped)
  {
    DifferAt(RenameAt(i).upstream, RenameAt(j).scoped, if i < 3 then 0 else 1);
  }

  predicate Plain(s: string) {
    s != "" && forall i :: 0 <= i < |s| ==> '-' <= s[i] <= 'z' && s[i] != '`'
  }

  lemma PlainIsName(s: string)
    requires Plain(s)
    ensures Name(s)
  {
  }

  lemma FrameworkIsNamed(i: nat)
    requires i < 3
    ensures Name(FRAMEWORK[i]) && Name(SCOPE + FRAMEWORK[i])
  {
    assert Plain("cordis") && Plain("cosmokit") && Plain("schemastery") && Plain(SCOPE);
    PlainIsName(FRAMEWORK[i]);
    PlainIsName(SCOPE + FRAMEWORK[i]);
  }

  lemma PluginsArePlain(i: nat)
    requires i < 6
    ensures Plain(PLUGINS[i])
  {
    assert Plain("loader") && Plain("include") && Plain("group");
    assert Plain("timer") && Plain("hmr") && Plain("logger-console");
  }

  lemma PluginsAreNamed(i: nat)
    requires i < 6
    ensures Name(OLD_PLUGIN + PLUGINS[i]) && Name(NEW_PLUGIN + PLUGINS[i])
  {
    PluginsArePlain(i);
    assert Plain(OLD_PLUGIN) && Plain(NEW_PLUGIN);
    PlainIsName(OLD_PLUGIN + PLUGINS[i]);
    PlainIsName(NEW_PLUGIN + PLUGINS[i]);
  }

  lemma RenamesAreNamed(n: nat)
    requires n < 9
    ensures Name(RenameAt(n).upstream) && Name(RenameAt(n).scoped)
  {
    if n < 3 {
      FrameworkIsNamed(n);
    } else {
      PluginsAreNamed(n - 3);
    }
  }

  ghost predicate RenamesApart(a: Rename, b: Rename) {
    Apart(a.upstream, b.upstream) && Apart(a.scoped, b.scoped)
  }

  lemma FrameworkPair(i: nat, j: nat)
    requires i < 3 && j < 3 && i != j
    ensures RenamesApart(RenameAt(i), RenameAt(j))
  {
    FrameworkApart(i, j);
  }

  lemma MixedPair(i: nat, j: nat)
    requires i < 3 <= j < 9
    ensures RenamesApart(RenameAt(i), RenameAt(j)) && RenamesApart(RenameAt(j), RenameAt(i))
  {
    KindsApart(i, j - 3);
  }

  lemma PluginPair(i: nat, j: nat)
    requires 3 <= i < 9 && 3 <= j < 9 && i != j
    ensures RenamesApart(RenameAt(i), RenameAt(j))
  {
    PluginsApart(i - 3, j - 3);
  }

  lemma AnyPair(i: nat, j: nat)
    requires i < 9 && j < 9 && i != j
    ensures RenamesApart(Renames()[i], Renames()[j])
  {
    if i < 3 && j < 3 {
      FrameworkPair(i, j);
    } else if i < 3 {
      MixedPair(i, j);
    } else if j < 3 {
      MixedPair(j, i);
    } else {
      PluginPair(i, j);
    }
  }

  /** The table of the source is unambiguous, so all laws of rewriting hold of it. */
  lemma RenamesAreUnambiguous()
    ensures Unambiguous(Renames())
  {
    forall i | 0 <= i < 9 ensures Name(Renames()[i].upstream) && Name(Renames()[i].scoped) {
      RenamesAreNamed(i);
    }
    forall i, j | 0 <= i < 9 && 0 <= j < 9 ensures Apart(Renames()[i].upstream, Renames()[j].scoped) {
      DirectionsApart(i, j);
    }
    forall i, j | 0 <= i < 9 && 0 <= j < 9 && i != j
      ensures RenamesApart(Renames()[i], Renames()[j])
    {
      AnyPair(i, j);
    }
  }

  /** Both laws, for the table of the source: `--reverse` undoes a run and a run undoes `--reverse`
    * on every file whose eligible lines hold none of the names being written, and a second run
    * changes nothing exactly without shared quotes. */
  lemma TableLaws(text: string, file: string, skips: Skips, reverse: bool)
    ensures var ps, qs := PatternsFor(Renames(), reverse, file, skips), PatternsFor(Renames(), !reverse, file, skips);
            var once := RewriteText(text, file, ps);
            && (NothingRenamedYet(text, file, ps) ==> RewriteText(once, file, qs) == text)
            && (RewriteText(once, file, ps) == once <==> NoSharedQuotesIn(text, file, ps))
  {
    RenamesAreUnambiguous();
    PatternsAreCompatible(Renames(), reverse, file, skips);
    TextIdempotentIff(text, file, PatternsFor(Renames(), reverse, file, skips));
    if NothingRenamedYet(text, file, PatternsFor(Renames(), reverse, file, skips)) {
      ReverseUndoesRewrite(text, file, Renames(), skips, reverse);
    }
  }

  lemma TablePattern(r: Rename, reverse: bool, file: string, skips: Skips) returns (m: nat)
    requires r in Renames() && (file, r.upstream) !in skips
    ensures var ps := PatternsFor(Renames(), reverse, file, skips);
            m < |ps| && ps[m] == if reverse then Pattern(r.scoped, r.upstream) else Pattern(r.upstream, r.scoped)
  {
    var ps := PatternsFor(Renames(), reverse, file, skips);
    var p := if reverse then Pattern(r.scoped, r.upstream) else Pattern(r.upstream, r.scoped);
    PatternsForHas(Renames(), reverse, file, skips, p);
    m :| 0 <= m < |ps| && ps[m] == p;
  }

  /** For each of the nine names a file is not exempt from: a run turns the quoted upstream name,
    * with its subpath, into the quoted scoped name, and a reverse run turns it back. */
  lemma TableRenames(r: Rename, reverse: bool, file: string, skips: Skips, a: string, q: char, sub: string, b: string)
    requires r in Renames() && (file, r.upstream) !in skips
    requires Quote(q) && Subpath(sub) && Unquoted(a) && Unquoted(b)
    requires var line := a + [q] + ((if reverse then r.scoped else r.upstream) + sub) + [q] + b;
             var ps := PatternsFor(Renames(), reverse, file, skips);
             OneLine(line) && forall k :: 0 <= k < |ps| ==> !HasScalar(line, ps[k].from)
    ensures RewriteLine(a + [q] + ((if reverse then r.scoped else r.upstream) + sub) + [q] + b,
                        PatternsFor(Renames(), reverse, file, skips))
         == a + [q] + ((if reverse then r.upstream else r.scoped) + sub) + [q] + b
  {
    RenamesAreUnambiguous();
    PatternsAreCompatible(Renames(), reverse, file, skips);
    var m := TablePattern(r, reverse, file, skips);
    QuotedNameIsRenamed(a, q, sub, b, PatternsFor(Renames(), reverse, file, skips), m);
  }

  lemma FrameworkNames()
    ensures Renames()[0] == Rename("cordis", "@deepseek-ai/cordis")
    ensures Renames()[1] == Rename("cosmokit", "@deepseek-ai/cosmokit")
    ensures Renames()[2] == Rename("schemastery", "@deepseek-ai/schemastery")
  {
    assert SCOPE + "cordis" == "@deepseek-ai/cordis";
    assert SCOPE + "cosmokit" == "@deepseek-ai/cosmokit";
    assert SCOPE + "schemastery" == "@deepseek-ai/schemastery";
  }

  lemma LoaderNames()
    ensures Renames()[3] == Rename("@cordisjs/plugin-loader", "@deepseek-ai/cordis-plugin-loader")
    ensures Renames()[4] == Rename("@cordisjs/plugin-include", "@deepseek-ai/cordis-plugin-include")
    ensures Renames()[5] == Rename("@cordisjs/plugin-group", "@deepseek-ai/cordis-plugin-group")
  {
    assert OLD_PLUGIN + "loader" == "@cordisjs/plugin-loader" && NEW_PLUGIN + "loader" == "@deepseek-ai/cordis-plugin-loader";
    assert OLD_PLUGIN + "include" == "@cordisjs/plugin-include" && NEW_PLUGIN + "include" == "@deepseek-ai/cordis-plugin-include";
    assert OLD_PLUGIN + "group" == "@cordisjs/plugin-group" && NEW_PLUGIN + "group" == "@deepseek-ai/cordis-plugin-group";
  }

  lemma RunnerNames()
    ensures Renames()[6] == Rename("@cordisjs/plugin-timer", "@deepseek-ai/cordis-plugin-timer")
    ensures Renames()[7] == Rename("@cordisjs/plugin-hmr", "@deepseek-ai/cordis-plugin-hmr")
    ensures Renames()[8] == Rename("@cordisjs/plugin-logger-console", "@deepseek-ai/cordis-plugin-logger-console")
  {
    assert OLD_PLUGIN + "timer" == "@cordisjs/plugin-timer" && NEW_PLUGIN + "timer" == "@deepseek-ai/cordis-plugin-timer";
    assert OLD_PLUGIN + "hmr" == "@cordisjs/plugin-hmr" && NEW_PLUGIN + "hmr" == "@deepseek-ai/cordis-plugin-hmr";
    assert OLD_PLUGIN + "logger-console" == "@cordisjs/plugin-logger-console" && NEW_PLUGIN + "logger-console" == "@deepseek-ai/cordis-plugin-logger-console";
  }

  /** A run leaves no name it rewrites on any eligible line exactly without shared quotes. */
  lemma TableResidue(text: string, file: string, skips: Skips, reverse: bool)
    ensures var ps := PatternsFor(Renames(), reverse, file, skips);
            var after := Text.Split(RewriteText(text, file, ps), '\n');
            (forall n :: 0 <= n < |after| && Eligible(after, KindOf(file), n) ==> !NamesSource(after[n], ps))
            <==> NoSharedQuotesIn(text, file, ps)
  {
    RenamesAreUnambiguous();
    PatternsAreCompatible(Renames(), reverse, file, skips);
    FileResidueIff(text, file, PatternsFor(Renames(), reverse, file, skips));
  }

  // ---- a line that a second run changes ----

  /** The line 'cordis'cordis', its quotes included, with any name in the place of cordis. */
  function SharedLine(name: string): string {
    "'" + name + "'" + name + "'"
  }

  lemma TokenOpens(s: string, name: string, rest: string)
    requires Name(name) && s == "'" + name + "'" + rest
    ensures TokenEnd(s, name) == Some(|name| + 1)
  {
    assert s[1..1 + |name|] == name && s[|name| + 1] == '\'';
    TokenEndMatchesPattern(s, name, |name| + 1);
  }

  lemma SharedLineShares(name: string)
    requires Name(name)
    ensures HasSharedQuote(SharedLine(name), name)
  {
    var s := SharedLine(name);
    assert s == "'" + name + "'" + (name + "'") && s[0..] == s;
    TokenOpens(s, name, name + "'");
    assert s[|name| + 1..] == "'" + name + "'" + "";
    TokenOpens(s[|name| + 1..], name, "");
    assert SharesQuoteAt(s, name, 0);
  }

  /** The source calls its rewrite idempotent; on this line it is not, for any name of any table. */
  lemma SharedLineChangesTwice(ps: Patterns, m: nat)
    requires Compatible(ps) && m < |ps|
    ensures var s := SharedLine(ps[m].from); RewriteLine(RewriteLine(s, ps), ps) != RewriteLine(s, ps)
  {
    SharedLineShares(ps[m].from);
    LineIdempotentIff(SharedLine(ps[m].from), ps);
  }
}
