/** The order of the sorted packages in the caller's terms (scripts/package-graph.ts,
  * `comparePackages`): by depth, listed groups in the caller's order before all others. */
module PackageOrder {
  import opened Wrappers
  import opened Sorting
  import opened PackageGraph

  /** The group stands first at position k of the caller's list. */
  ghost predicate ListedAt(groups: seq<string>, group: string, k: int) {
    0 <= k < |groups| && groups[k] == group && group !in groups[..k]
  }

  lemma ListedLater(groups: seq<string>, group: string, k: int)
    requires groups != [] && groups[0] != group && k > 0
    ensures ListedAt(groups, group, k) <==> ListedAt(groups[1..], group, k - 1)
  {
    if k < |groups| {
      assert groups[..k] == [groups[0]] + groups[1..][..k - 1];
    }
  }

  lemma ListedNow(groups: seq<string>, group: string, k: int)
    requires groups != [] && groups[0] == group
    ensures ListedAt(groups, group, k) <==> k == 0
  {
    if 0 < k < |groups| {
      assert groups[..k][0] == group;
    }
  }

  lemma {:induction false} IndexOfIsFirst(groups: seq<string>, group: string)
    ensures IndexOf(groups, group) >= -1
    ensures IndexOf(groups, group) == -1 <==> group !in groups
    ensures forall k :: ListedAt(groups, group, k) <==> k >= 0 && IndexOf(groups, group) == k
  {
    if groups != [] {
      IndexOfIsFirst(groups[1..], group);
      assert forall g :: g in groups <==> g == groups[0] || g in groups[1..];
      forall k ensures ListedAt(groups, group, k) <==> k >= 0 && IndexOf(groups, group) == k {
        if groups[0] == group {
          ListedNow(groups, group, k);
        } else if k > 0 {
          ListedLater(groups, group, k);
          var before := k - 1;
          assert ListedAt(groups[1..], group, before) <==> IndexOf(groups[1..], group) == before;
        }
      }
    }
  }

  /** No array is longer than the rank of an unlisted group. */
  ghost predicate FitsArray(o: Ordering) {
    |o.groups| <= MAX_SAFE_INTEGER
  }

  lemma RankIs(o: Ordering, group: string)
    requires FitsArray(o)
    ensures group !in o.groups ==> GroupRank(o, group) == MAX_SAFE_INTEGER
    ensures group in o.groups ==> ListedAt(o.groups, group, GroupRank(o, group)) && GroupRank(o, group) < MAX_SAFE_INTEGER
    ensures forall k :: ListedAt(o.groups, group, k) ==> GroupRank(o, group) == k
  {
    IndexOfIsFirst(o.groups, group);
    assert group in o.groups ==> ListedAt(o.groups, group, IndexOf(o.groups, group));
  }

  /** The first package may stand before the second at one depth. */
  ghost predicate MayPrecede(o: Ordering, a: Package, b: Package) {
    && (forall k, l :: ListedAt(o.groups, a.group, k) && ListedAt(o.groups, b.group, l) ==> k <= l)
    && (b.group in o.groups ==> a.group in o.groups)
    && (a.group !in o.groups && b.group !in o.groups ==> a.group == b.group || o.before(a.group, b.group))
    && (a.group == b.group ==> o.before(a.short, b.short))
  }

  lemma PrecedesMayPrecede(o: Ordering, a: Package, b: Package)
    requires Collates(o) && FitsArray(o) && Precedes(o, a, b)
    ensures MayPrecede(o, a, b)
  {
    RankIs(o, a.group);
    RankIs(o, b.group);
    assert a.group == b.group ==> !o.before(a.group, b.group);
  }

  /** In a layered order depths never fall, and within one depth listed groups come in the
    * caller's order, then the others in collation order, each group by name. */
  lemma OrderWithinDepth(entries: seq<Package>, o: Ordering, out: seq<Package>, i: nat, j: nat, d: nat, e: nat)
    requires Collates(o) && FitsArray(o) && DistinctShorts(entries) && LayeredOrder(entries, o, out)
    requires i < j < |out| && DepthIs(Deps(entries), out[i].short, d) && DepthIs(Deps(entries), out[j].short, e)
    ensures d <= e
    ensures d == e ==> MayPrecede(o, out[i], out[j])
  {
    var g := Deps(entries);
    assert BelowIn(g, o)(out[i], out[j]);
    var x, y :| DepthIs(g, out[i].short, x) && DepthIs(g, out[j].short, y) && (x < y || (x == y && Precedes(o, out[i], out[j])));
    DepthIsUnique(g, out[i].short, d, x);
    DepthIsUnique(g, out[j].short, e, y);
    if d == e {
      PrecedesMayPrecede(o, out[i], out[j]);
    }
  }

  /** The package stands at position i and none of its name stands later. */
  ghost predicate LastAt(packages: seq<Package>, q: Package, i: int) {
    0 <= i < |packages| && packages[i] == q && forall j :: i < j < |packages| ==> packages[j].short != q.short
  }

  ghost predicate LastSomewhere(packages: seq<Package>, q: Package) {
    exists i :: LastAt(packages, q, i)
  }

  lemma LastInLonger(init: seq<Package>, last: Package, q: Package)
    ensures LastSomewhere(init + [last], q) <==> q == last || (q.short != last.short && LastSomewhere(init, q))
  {
    var all := init + [last];
    if q == last {
      assert LastAt(all, q, |init|);
    }
    if i :| LastAt(init, q, i) && q.short != last.short {
      assert LastAt(all, q, i);
    }
    if i :| LastAt(all, q, i) && q != last {
      assert all[|init|] == last && i < |init|;
      assert forall j :: 0 <= j < |init| ==> init[j] == all[j];
      assert LastAt(init, q, i);
    }
  }

  /** Of several packages of one name the last counts. */
  lemma {:induction false} EntriesAreLast(packages: seq<Package>, q: Package)
    ensures q in Entries(packages) <==> LastSomewhere(packages, q)
  {
    if packages != [] {
      var init, last := packages[..|packages| - 1], packages[|packages| - 1];
      EntriesAreLast(init, q);
      EntryOfLonger(packages, q);
      LastInLonger(init, last, q);
      assert packages == init + [last];
    }
  }

  lemma EntryOfLonger(packages: seq<Package>, q: Package)
    requires packages != []
    ensures var init, last := packages[..|packages| - 1], packages[|packages| - 1];
            q in Entries(packages) <==> q == last || (q.short != last.short && q in Entries(init))
  {
    PutKeepsDistinct(Entries(packages[..|packages| - 1]), packages[|packages| - 1]);
  }
}
