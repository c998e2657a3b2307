/** Stable sorting by a strict order, as the array sort of the source does it. */
module Sorting {
  ghost predicate StrictOrder<T(!new)>(lt: (T, T) -> bool) {
    && (forall a, b :: lt(a, b) ==> !lt(b, a))
    && (forall a, b, c :: lt(a, b) && lt(b, c) ==> lt(a, c))
  }

  /** No later element is below an earlier one. */
  ghost predicate Ordered<T>(s: seq<T>, lt: (T, T) -> bool) {
    forall i, j :: 0 <= i < j < |s| ==> !lt(s[j], s[i])
  }

  /** Each element is below every later one. */
  ghost predicate Ascending<T>(s: seq<T>, lt: (T, T) -> bool) {
    forall i, j :: 0 <= i < j < |s| ==> lt(s[i], s[j])
  }

  function Insert<T>(s: seq<T>, x: T, lt: (T, T) -> bool): (r: seq<T>)
    ensures |r| == |s| + 1
    ensures multiset(r) == multiset(s) + multiset{x}
  {
    if s == [] then [x]
    else if lt(x, s[0]) then [x] + s
    else
      assert s == [s[0]] + s[1..];
      [s[0]] + Insert(s[1..], x, lt)
  }

  function Sort<T>(s: seq<T>, lt: (T, T) -> bool): (r: seq<T>)
    ensures |r| == |s| && multiset(r) == multiset(s)
  {
    if s == [] then []
    else
      assert s == s[..|s| - 1] + [s[|s| - 1]];
      Insert(Sort(s[..|s| - 1], lt), s[|s| - 1], lt)
  }

  lemma {:induction false} InsertHas<T>(s: seq<T>, x: T, lt: (T, T) -> bool)
    ensures forall y :: y in Insert(s, x, lt) <==> y in s || y == x
  {
    if s != [] && !lt(x, s[0]) {
      InsertHas(s[1..], x, lt);
    }
  }

  lemma {:induction false} InsertOrders<T(!new)>(s: seq<T>, x: T, lt: (T, T) -> bool)
    requires StrictOrder(lt) && Ordered(s, lt)
    ensures Ordered(Insert(s, x, lt), lt)
  {
    if s != [] {
      var r := Insert(s, x, lt);
      if lt(x, s[0]) {
        forall j | 0 < j < |r| ensures !lt(r[j], x) {
          assert r[j] == s[j - 1];
        }
      } else {
        InsertOrders(s[1..], x, lt);
        InsertHas(s[1..], x, lt);
        var tail := Insert(s[1..], x, lt);
        forall j | 0 < j < |r| ensures !lt(r[j], s[0]) {
          assert r[j] == tail[j - 1] && tail[j - 1] in tail;
        }
      }
    }
  }

  lemma {:induction false} SortHas<T>(s: seq<T>, lt: (T, T) -> bool)
    ensures forall y :: y in Sort(s, lt) <==> y in s
  {
    if s != [] {
      var init, last := s[..|s| - 1], s[|s| - 1];
      SortHas(init, lt);
      InsertHas(Sort(init, lt), last, lt);
      assert s == init + [last];
    }
  }

  lemma {:induction false} SortOrders<T(!new)>(s: seq<T>, lt: (T, T) -> bool)
    requires StrictOrder(lt)
    ensures Ordered(Sort(s, lt), lt)
  {
    if s != [] {
      SortOrders(s[..|s| - 1], lt);
      InsertOrders(Sort(s[..|s| - 1], lt), s[|s| - 1], lt);
    }
  }

  /** Elements that any two distinct positions of the list order sort into an ascending list. */
  lemma SortAscends<T(!new)>(s: seq<T>, lt: (T, T) -> bool)
    requires StrictOrder(lt)
    requires forall i, j :: 0 <= i < j < |s| ==> lt(s[i], s[j]) || lt(s[j], s[i])
    ensures Ascending(Sort(s, lt), lt)
  {
    SortOrders(s, lt);
    SortHas(s, lt);
    forall i, j | 0 <= i < j < |Sort(s, lt)| ensures lt(Sort(s, lt)[i], Sort(s, lt)[j]) {
      SortedPairAscends(s, lt, Sort(s, lt), i, j);
    }
  }

  lemma SortedPairAscends<T(!new)>(s: seq<T>, lt: (T, T) -> bool, r: seq<T>, i: nat, j: nat)
    requires StrictOrder(lt)
    requires forall i, j :: 0 <= i < j < |s| ==> lt(s[i], s[j]) || lt(s[j], s[i])
    requires multiset(r) == multiset(s) && i < j < |r| && !lt(r[j], r[i])
    ensures lt(r[i], r[j])
  {
    OccursOnce(s, r[i], lt);
    if r[i] == r[j] {
      TwiceInMultiset(r, i, j);
    }
    assert r[i] in multiset(s) && r[j] in multiset(s);
    var m, n := Position(s, r[i]), Position(s, r[j]);
  }

  lemma OccursOnce<T(!new)>(s: seq<T>, x: T, lt: (T, T) -> bool)
    requires StrictOrder(lt)
    requires forall i, j :: 0 <= i < j < |s| ==> lt(s[i], s[j]) || lt(s[j], s[i])
    ensures multiset(s)[x] <= 1
  {
    if multiset(s)[x] >= 2 {
      TwiceHasPositions(s, x);
    }
  }

  ghost function Position<T>(s: seq<T>, x: T): (k: nat)
    requires x in s
    ensures k < |s| && s[k] == x
  {
    var k :| 0 <= k < |s| && s[k] == x;
    k
  }

  lemma TwiceInMultiset<T>(r: seq<T>, i: nat, j: nat)
    requires i < j < |r| && r[i] == r[j]
    ensures multiset(r)[r[i]] >= 2
  {
    assert r == r[..j] + r[j..] && r[i] in r[..j] && r[j] in r[j..];
  }

  lemma {:induction false} TwiceHasPositions<T>(s: seq<T>, x: T)
    requires multiset(s)[x] >= 2
    ensures exists i, j :: 0 <= i < j < |s| && s[i] == x == s[j]
  {
    var init, last := s[..|s| - 1], s[|s| - 1];
    assert s == init + [last];
    if last == x {
      assert x in init;
      var i :| 0 <= i < |init| && init[i] == x;
      assert s[i] == x == s[|s| - 1];
    } else {
      TwiceHasPositions(init, x);
      var i, j :| 0 <= i < j < |init| && init[i] == x == init[j];
      assert s[i] == x == s[j];
    }
  }

  lemma NonEmptyHas<T>(s: seq<T>)
    ensures s == [] || exists x :: x in s
  {
    if s != [] {
      assert s[0] in s;
    }
  }

  /** An ascending list is determined by its elements. */
  lemma {:induction false} AscendingIsUnique<T(!new)>(a: seq<T>, b: seq<T>, lt: (T, T) -> bool)
    requires forall x, y :: lt(x, y) ==> !lt(y, x)
    requires Ascending(a, lt) && Ascending(b, lt)
    requires forall x :: x in a <==> x in b
    ensures a == b
  {
    NonEmptyHas(b);
    if a != [] {
      assert a[0] in b;
      var i, j := Position(a, b[0]), Position(b, a[0]);
      assert j == 0;
      forall x ensures x in a[1..] <==> x in b[1..] {
        assert x in a <==> x == a[0] || x in a[1..];
        assert x in b <==> x == b[0] || x in b[1..];
      }
      AscendingIsUnique(a[1..], b[1..], lt);
    }
  }
}
