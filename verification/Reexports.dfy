/** Following re-export chains to a type's declaration (scripts/gen-config-catalog.ts,
  * `findExportedTypeDecl`): the shared guard never hides a declaration that can be reached. */
module Reexports {
  import opened Wrappers

  type File = string
  type Name = string

  /** A name looked for in a file. */
  datatype Key = Key(file: File, name: Name)

  datatype Clause =
    | Everything
    | Listed(elements: seq<(Name, Name)>) // the exported name, and the name it has in the other file
    | Namespace

  /** An export declaration; the target is None unless it names a relative `.ts` file. */
  datatype Reexport = Reexport(target: Option<File>, clause: Clause)

  /** Declared type names, and the export declarations of each readable file. */
  datatype Sources = Sources(declared: set<Key>, reexports: map<File, seq<Reexport>>)

  /** The other name of the first listed element that exports the name. */
  function FirstListed(elements: seq<(Name, Name)>, name: Name): (r: Option<Name>)
    ensures r.Some? <==> exists j :: 0 <= j < |elements| && elements[j].0 == name
    ensures r.Some? ==> exists j :: FirstAt(elements, name, r.value, j)
  {
    if elements == [] then None
    else if elements[0].0 == name then
      assert FirstAt(elements, name, elements[0].1, 0);
      Some(elements[0].1)
    else
      var r := FirstListed(elements[1..], name);
      assert r.Some? ==> exists j :: FirstAt(elements, name, r.value, j) by {
        if r.Some? {
          var j :| FirstAt(elements[1..], name, r.value, j);
          assert FirstAt(elements, name, r.value, j + 1);
        }
      }
      assert forall j :: 0 <= j < |elements| && elements[j].0 == name ==> j > 0 && elements[1..][j - 1] == elements[j];
      r
  }

  /** Element j is the first that exports the name, and has the other name in the other file. */
  predicate FirstAt(elements: seq<(Name, Name)>, name: Name, other: Name, j: int) {
    0 <= j < |elements| && elements[j] == (name, other) && forall m :: 0 <= m < j ==> elements[m].0 != name
  }

  function LookFor(clause: Clause, name: Name): Option<Name> {
    match clause
    case Everything => Some(name)
    case Listed(elements) => FirstListed(elements, name)
    case Namespace => None
  }

  /** Where one export declaration sends the search. */
  function Next(e: Reexport, name: Name): Option<Key> {
    var found := LookFor(e.clause, name);
    if e.target.None? || found.None? then None else Some(Key(e.target.value, found.value))
  }

  ghost predicate Hop(w: Sources, a: Key, b: Key) {
    a.file in w.reexports && exists i :: 0 <= i < |w.reexports[a.file]| && Next(w.reexports[a.file][i], a.name) == Some(b)
  }

  /** The clause re-exports the name, which is `other` in the other file: everything keeps its
    * name, and of a list the first element exporting the name decides. */
  ghost predicate Passes(clause: Clause, name: Name, other: Name) {
    match clause
    case Everything => other == name
    case Listed(elements) => exists j :: FirstAt(elements, name, other, j)
    case Namespace => false
  }

  /** A hop is one export declaration of the file, passing the name on to a relative target. */
  lemma HopIsReexport(w: Sources, a: Key, b: Key)
    ensures Hop(w, a, b) <==>
            a.file in w.reexports
            && exists i :: 0 <= i < |w.reexports[a.file]| && w.reexports[a.file][i].target == Some(b.file)
                           && Passes(w.reexports[a.file][i].clause, a.name, b.name)
  {
    if a.file in w.reexports {
      forall i | 0 <= i < |w.reexports[a.file]|
        ensures Next(w.reexports[a.file][i], a.name) == Some(b) <==>
                w.reexports[a.file][i].target == Some(b.file) && Passes(w.reexports[a.file][i].clause, a.name, b.name)
      {
        PassesIsLookFor(w.reexports[a.file][i].clause, a.name, b.name);
      }
    }
  }

  lemma PassesIsLookFor(clause: Clause, name: Name, other: Name)
    ensures LookFor(clause, name) == Some(other) <==> Passes(clause, name, other)
  {
    if clause.Listed? {
      var found := FirstListed(clause.elements, name);
      if found.Some? {
        var k :| FirstAt(clause.elements, name, found.value, k);
        if j :| FirstAt(clause.elements, name, other, j) {
          assert j == k;
        }
      }
    }
  }

  ghost predicate Chain(w: Sources, keys: seq<Key>) {
    forall i, j :: 0 <= i < j < |keys| && j == i + 1 ==> Hop(w, keys[i], keys[j])
  }

  /** A declaration reached from a key along a chain of re-exports. */
  ghost predicate Declares(w: Sources, key: Key, at: Key) {
    at in w.declared && exists keys :: keys != [] && keys[0] == key && keys[|keys| - 1] == at && Chain(w, keys)
  }

  /** A chain of re-exports leads into a file that cannot be read. */
  ghost predicate Misses(w: Sources, key: Key, file: File) {
    file !in w.reexports
    && exists keys: seq<Key> :: keys != [] && keys[0] == key && keys[|keys| - 1].file == file && Chain(w, keys)
  }

  // ---- the finitely many keys of a search ----

  ghost function Names(w: Sources, name: Name): set<Name> {
    {name} + set f, i, j |
      f in w.reexports && 0 <= i < |w.reexports[f]| && w.reexports[f][i].clause.Listed?
      && 0 <= j < |w.reexports[f][i].clause.elements| :: w.reexports[f][i].clause.elements[j].1
  }

  ghost function Universe(w: Sources, name: Name): set<Key> {
    set f, n | f in w.reexports.Keys && n in Names(w, name) :: Key(f, n)
  }

  lemma HopStays(w: Sources, name: Name, a: Key, b: Key)
    requires a in Universe(w, name) && Hop(w, a, b) && b.file in w.reexports
    ensures b in Universe(w, name)
  {
    var i :| 0 <= i < |w.reexports[a.file]| && Next(w.reexports[a.file][i], a.name) == Some(b);
    var clause := w.reexports[a.file][i].clause;
    if clause.Listed? {
      var j :| 0 <= j < |clause.elements| && clause.elements[j] == (a.name, b.name);
      assert clause.elements[j].1 in Names(w, name);
    }
  }

  lemma ChainFrom(w: Sources, a: Key, b: Key, at: Key)
    requires Hop(w, a, b) && Declares(w, b, at)
    ensures Declares(w, a, at)
  {
    var keys :| keys != [] && keys[0] == b && keys[|keys| - 1] == at && Chain(w, keys);
    var longer := [a] + keys;
    assert Chain(w, longer);
    assert longer[|longer| - 1] == at;
  }

  lemma MissFrom(w: Sources, a: Key, b: Key, file: File)
    requires Hop(w, a, b) && Misses(w, b, file)
    ensures Misses(w, a, file)
  {
    var keys: seq<Key> :| keys != [] && keys[0] == b && keys[|keys| - 1].file == file && Chain(w, keys);
    var longer := [a] + keys;
    assert Chain(w, longer);
    assert longer[|longer| - 1].file == file;
  }

  lemma MissedHere(w: Sources, key: Key)
    requires key.file !in w.reexports
    ensures Misses(w, key, key.file)
  {
    var keys := [key];
    assert Chain(w, keys);
  }

  lemma DeclaredHere(w: Sources, key: Key)
    requires key in w.declared
    ensures Declares(w, key, key)
  {
    var keys := [key];
    assert Chain(w, keys);
  }

  // ---- the search ----

  /** No declaration among the keys, and every hop from them stays among the others. */
  ghost predicate Exhausted(w: Sources, keys: set<Key>, within: set<Key>) {
    forall k :: k in keys ==> k !in w.declared && HopsInto(w, k, within)
  }

  ghost predicate HopsInto(w: Sources, k: Key, within: set<Key>) {
    forall b :: Hop(w, k, b) ==> b in within
  }

  lemma {:induction false} NothingReached(w: Sources, seen: set<Key>, keys: seq<Key>)
    requires Exhausted(w, seen, seen) && keys != [] && keys[0] in seen && Chain(w, keys)
    requires forall k :: k in seen ==> k.file in w.reexports
    ensures keys[|keys| - 1] !in w.declared && keys[|keys| - 1].file in w.reexports
    decreases |keys|
  {
    if |keys| > 1 {
      assert Hop(w, keys[0], keys[1]) && HopsInto(w, keys[0], seen);
      NothingReached(w, seen, keys[1..]);
    }
  }

  // ---- the first export declaration that leads anywhere ----

  /** No chain from the key, off the avoided keys, leads to a declaration. */
  ghost predicate DeadEnd(w: Sources, key: Key, avoided: set<Key>) {
    forall keys :: keys != [] && keys[0] == key && Chain(w, keys) && (forall k :: k in keys ==> k !in avoided) ==>
      keys[|keys| - 1] !in w.declared
  }

  lemma {:induction false} NothingReachedOff(w: Sources, avoided: set<Key>, seen: set<Key>, keys: seq<Key>)
    requires Exhausted(w, seen - avoided, seen) && keys != [] && keys[0] in seen && Chain(w, keys)
    requires forall k :: k in keys ==> k !in avoided
    ensures keys[|keys| - 1] !in w.declared
    decreases |keys|
  {
    assert keys[0] in keys;
    if |keys| > 1 {
      assert Hop(w, keys[0], keys[1]) && HopsInto(w, keys[0], seen);
      NothingReachedOff(w, avoided, seen, keys[1..]);
    }
  }

  lemma ExhaustedIsDeadEnd(w: Sources, avoided: set<Key>, seen: set<Key>, key: Key)
    requires Exhausted(w, seen - avoided, seen) && key in seen
    ensures DeadEnd(w, key, avoided)
  {
    forall keys | keys != [] && keys[0] == key && Chain(w, keys) && forall k :: k in keys ==> k !in avoided
      ensures keys[|keys| - 1] !in w.declared
    {
      NothingReachedOff(w, avoided, seen, keys);
    }
  }

  /** The declaration is reached through the i-th export declaration of the key's file, and those
    * before it lead to none, unless past an avoided key. */
  ghost predicate FirstLead(w: Sources, key: Key, at: Key, avoided: set<Key>, i: int)
    requires key.file in w.reexports
  {
    var statements := w.reexports[key.file];
    && 0 <= i < |statements| && Next(statements[i], key.name).Some? && Declares(w, Next(statements[i], key.name).value, at)
    && forall j :: 0 <= j < i && Next(statements[j], key.name).Some? ==> DeadEnd(w, Next(statements[j], key.name).value, avoided)
  }

  class ExportSearch {
    const w: Sources
    ghost const root: Name
    var seen: set<Key>

    constructor (w: Sources, ghost root: Name)
      ensures this.w == w && this.root == root && seen == {}
    {
      this.w, this.root, seen := w, root, {};
    }

    ghost predicate Readable()
      reads this
    {
      forall k :: k in seen ==> k.file in w.reexports
    }

    /** The error is the first file that cannot be read. */
    method Find(key: Key) returns (r: Result<Option<Key>, File>)
      requires Readable() && key in Universe(w, root)
      modifies this
      ensures Readable() && old(seen) <= seen
      ensures r.Ok? && r.value.Some? ==> Declares(w, key, r.value.value)
      ensures r == Ok(None) ==> key in seen && Exhausted(w, seen - old(seen), seen)
      ensures r.Err? ==> Misses(w, key, r.error)
      ensures key in w.declared && key !in old(seen) ==> r == Ok(Some(key))
      ensures key !in w.declared && r.Ok? && r.value.Some? ==>
                exists i :: FirstLead(w, key, r.value.value, old(seen) + {key}, i)
      decreases Universe(w, root) - seen
    {
      if key in seen {
        return Ok(None);
      }
      seen := seen + {key};
      assert key in Universe(w, root) - old(seen) && key !in Universe(w, root) - seen;
      if key in w.declared {
        DeclaredHere(w, key);
        return Ok(Some(key));
      }
      var statements := w.reexports[key.file];
      for k := 0 to |statements|
        invariant Readable() && old(seen) + {key} <= seen
        invariant Exhausted(w, seen - old(seen) - {key}, seen)
        invariant forall i :: 0 <= i < k && Next(statements[i], key.name).Some? ==>
                    Next(statements[i], key.name).value in seen && DeadEnd(w, Next(statements[i], key.name).value, old(seen) + {key})
      {
        var next := Next(statements[k], key.name);
        if next.Some? {
          assert Hop(w, key, next.value);
          if next.value.file !in w.reexports {
            MissedHere(w, next.value);
            MissFrom(w, key, next.value, next.value.file);
            return Err(next.value.file);
          }
          HopStays(w, root, key, next.value);
          ghost var before := seen;
          assert Universe(w, root) - seen < Universe(w, root) - old(seen);
          r := Find(next.value);
          if r.Err? {
            MissFrom(w, key, next.value, r.error);
            return;
          }
          if r.value.Some? {
            ChainFrom(w, key, next.value, r.value.value);
            assert FirstLead(w, key, r.value.value, old(seen) + {key}, k);
            return;
          }
          StillExhausted(w, before - old(seen) - {key}, before, seen - before, seen);
          assert seen - old(seen) - {key} <= (before - old(seen) - {key}) + (seen - before);
          assert seen - (old(seen) + {key}) == seen - old(seen) - {key};
          ExhaustedIsDeadEnd(w, old(seen) + {key}, seen, next.value);
        }
      }
      assert HopsInto(w, key, seen);
      r := Ok(None);
    }
  }

  lemma StillExhausted(w: Sources, a: set<Key>, within: set<Key>, b: set<Key>, more: set<Key>)
    requires Exhausted(w, a, within) && Exhausted(w, b, more) && within <= more
    ensures Exhausted(w, a + b, more)
  {
    forall k | k in a + b ensures k !in w.declared && HopsInto(w, k, more) {
      assert k in a ==> HopsInto(w, k, within);
    }
  }

  lemma NothingLeft(w: Sources, seen: set<Key>, key: Key)
    requires Exhausted(w, seen, seen) && key in seen && forall k :: k in seen ==> k.file in w.reexports
    ensures forall at :: !Declares(w, key, at)
    ensures forall f :: !Misses(w, key, f)
  {
    forall at ensures !Declares(w, key, at) {
      if Declares(w, key, at) {
        var keys :| keys != [] && keys[0] == key && keys[|keys| - 1] == at && Chain(w, keys);
        NothingReached(w, seen, keys);
      }
    }
    forall f ensures !Misses(w, key, f) {
      if Misses(w, key, f) {
        var keys: seq<Key> :| keys != [] && keys[0] == key && keys[|keys| - 1].file == f && Chain(w, keys);
        NothingReached(w, seen, keys);
      }
    }
  }

  /** Nothing is found exactly when no chain of re-exports, cycles included, leads to a declaration
    * or into an unreadable file; what is found, or reported, is at the end of such a chain. */
  method FindExportedTypeDecl(w: Sources, key: Key) returns (r: Result<Option<Key>, File>)
    requires key.file in w.reexports
    ensures r == Ok(None) <==> (forall at :: !Declares(w, key, at)) && (forall f :: !Misses(w, key, f))
    ensures r.Ok? && r.value.Some? ==> Declares(w, key, r.value.value)
    ensures r.Err? ==> Misses(w, key, r.error)
    ensures key in w.declared ==> r == Ok(Some(key))
    ensures key !in w.declared && r.Ok? && r.value.Some? ==> exists i :: FirstLead(w, key, r.value.value, {key}, i)
  {
    var search := new ExportSearch(w, key.name);
    r := search.Find(key);
    assert {} + {key} == {key};
    if r == Ok(None) {
      assert search.seen - {} == search.seen;
      NothingLeft(w, search.seen, key);
    }
  }
}
