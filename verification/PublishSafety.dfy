/** Release safety: whatever crashes, reruns, concurrent publishers and outside registry
  * activity occur, a run only moves the entry package's `latest` tag to a version all of
  * whose packages exist (scripts/publish-npm-baseline.ts). */
module PublishSafety {
  import opened Wrappers
  import opened PublishSteps

  type RunId = nat

  datatype Publisher = Publisher(bundle: Bundle, pc: Pc)

  /** The registry, the live publishers, and the bundles whose run got past its `latest` step. */
  datatype System = System(registry: Registry, publishers: map<RunId, Publisher>, released: set<Bundle>)

  predicate PastLatest(pc: Pc) {
    pc.VerifyIntegrity? || pc.VerifyTag? || pc.VerifyLatest? || pc.Done?
  }

  /** A publisher starts, or starts again after a crash at any point. */
  ghost predicate Start(s: System, s': System, id: RunId, b: Bundle) {
    ValidBundle(b) && s' == s.(publishers := s.publishers[id := Publisher(b, AtPackage(b, 0))])
  }

  ghost predicate Crash(s: System, s': System, id: RunId) {
    s' == s.(publishers := s.publishers - {id})
  }

  /** A publisher executes its next registry command. */
  ghost predicate Advance(s: System, s': System, id: RunId) {
    && id in s.publishers
    && var Publisher(b, pc) := s.publishers[id];
       && ValidPc(b, pc) && !Terminal(pc)
       && var (reg', pc') := StepOf(s.registry, b, pc);
          s' == System(reg', s.publishers[id := Publisher(b, pc')],
                       if PastLatest(pc') then s.released + {b} else s.released)
  }

  /** Anyone else uses the registry: new versions may appear and tags may move. */
  ghost predicate Outside(s: System, s': System) {
    Grows(s.registry, s'.registry) && s' == s.(registry := s'.registry)
  }

  ghost predicate Next(s: System, s': System) {
    || (exists id, b :: Start(s, s', id, b))
    || (exists id :: Crash(s, s', id))
    || (exists id :: Advance(s, s', id))
    || Outside(s, s')
  }

  ghost predicate Execution(trace: seq<System>) {
    && trace != [] && trace[0].publishers == map[] && trace[0].released == {}
    && (forall i, j :: 0 <= i < j < |trace| && j == i + 1 ==> Next(trace[i], trace[j]))
  }

  /** How many packages a run has made sure of when it stands at a step. */
  function Secured(b: Bundle, pc: Pc): (n: nat)
    requires ValidPc(b, pc)
    ensures n <= |b.packages|
  {
    match pc
    case ViewPackage(i) => i
    case UploadPackage(i) => i
    case ReadTag(i) => i + 1
    case WriteTag(i) => i + 1
    case Failed(_) => 0
    case _ => |b.packages|
  }

  ghost predicate PublisherOk(reg: Registry, p: Publisher) {
    ValidPc(p.bundle, p.pc) && Present(reg, p.bundle, Secured(p.bundle, p.pc))
  }

  ghost predicate Safe(s: System) {
    && (forall id :: id in s.publishers ==> PublisherOk(s.registry, s.publishers[id]))
    && (forall b :: b in s.released ==> Complete(s.registry, b))
  }

  lemma StepGrows(reg: Registry, b: Bundle, pc: Pc)
    requires ValidPc(b, pc) && !Terminal(pc)
    ensures Grows(reg, StepOf(reg, b, pc).0)
  {
  }

  lemma StepSecures(reg: Registry, b: Bundle, pc: Pc)
    requires ValidPc(b, pc) && !Terminal(pc) && Present(reg, b, Secured(b, pc))
    ensures var (reg', pc') := StepOf(reg, b, pc);
            Present(reg', b, Secured(b, pc')) && (PastLatest(pc') ==> Complete(reg', b))
  {
    StepGrows(reg, b, pc);
    var (reg', pc') := StepOf(reg, b, pc);
    var n, n' := Secured(b, pc), Secured(b, pc');
    forall i | 0 <= i < n' ensures PresentAt(reg', b, i) {
      if i < n {
        assert PresentAt(reg, b, i);
      }
    }
  }

  lemma GrowsKeepsPresent(reg: Registry, reg': Registry, b: Bundle, n: nat)
    requires Grows(reg, reg') && n <= |b.packages| && Present(reg, b, n)
    ensures Present(reg', b, n)
  {
    forall i | 0 <= i < n ensures PresentAt(reg', b, i) {
      assert PresentAt(reg, b, i);
    }
  }

  lemma GrowsKeepsSafe(s: System, reg': Registry)
    requires Safe(s) && Grows(s.registry, reg')
    ensures Safe(s.(registry := reg'))
  {
    forall id | id in s.publishers ensures PublisherOk(reg', s.publishers[id]) {
      var p := s.publishers[id];
      GrowsKeepsPresent(s.registry, reg', p.bundle, Secured(p.bundle, p.pc));
    }
    forall b | b in s.released ensures Complete(reg', b) {
      GrowsKeepsPresent(s.registry, reg', b, |b.packages|);
    }
  }

  lemma NextKeepsSafe(s: System, s': System)
    requires Safe(s) && Next(s, s')
    ensures Safe(s')
  {
    if Outside(s, s') {
      GrowsKeepsSafe(s, s'.registry);
    } else if id :| Advance(s, s', id) {
      var Publisher(b, pc) := s.publishers[id];
      StepGrows(s.registry, b, pc);
      GrowsKeepsSafe(s, s'.registry);
      assert PublisherOk(s.registry, s.publishers[id]);
      StepSecures(s.registry, b, pc);
    }
  }

  /** In every execution, every bundle some run has released is complete, then and ever after. */
  lemma {:induction false} ReleaseSafety(trace: seq<System>, k: nat)
    requires Execution(trace) && k < |trace|
    ensures Safe(trace[k])
  {
    if k > 0 {
      ReleaseSafety(trace, k - 1);
      NextKeepsSafe(trace[k - 1], trace[k]);
    }
  }

  // ---- the `latest` tag itself ----

  function Latest(reg: Registry): Option<Version> {
    if (RELEASE_ENTRY_PACKAGE, LATEST_DIST_TAG) in reg.tags
    then Some(reg.tags[(RELEASE_ENTRY_PACKAGE, LATEST_DIST_TAG)]) else None
  }

  /** The bundle's own tag cannot move the entry's `latest` early: it is another tag, or the
    * entry package is not in the bundle, or it is the last package. */
  predicate Cautious(b: Bundle) {
    b.distTag == LATEST_DIST_TAG ==>
      forall i :: 0 <= i < |b.packages| - 1 ==> b.packages[i].name != RELEASE_ENTRY_PACKAGE
  }

  /** A step that changes `latest` moves it to a complete bundle's version. */
  lemma CautiousStepMovesLatestLast(reg: Registry, b: Bundle, pc: Pc)
    requires ValidPc(b, pc) && !Terminal(pc) && Present(reg, b, Secured(b, pc)) && Cautious(b)
    ensures var reg' := StepOf(reg, b, pc).0;
            Latest(reg') == Latest(reg) || (Latest(reg') == Some(b.version) && Complete(reg', b))
  {
    StepSecures(reg, b, pc);
    if pc.WriteLatest? {
      StepGrows(reg, b, pc);
      GrowsKeepsPresent(reg, StepOf(reg, b, pc).0, b, |b.packages|);
    }
  }

  /** At step j of an execution, the run of this bundle moves `latest`. */
  ghost predicate Moves(trace: seq<System>, j: nat, id: RunId, b: Bundle)
    requires j + 1 < |trace|
  {
    && Advance(trace[j], trace[j + 1], id) && trace[j].publishers[id].bundle == b
    && Latest(trace[j + 1].registry) != Latest(trace[j].registry)
  }

  lemma ExecutionStep(trace: seq<System>, k: nat)
    requires Execution(trace) && k + 1 < |trace|
    ensures Next(trace[k], trace[k + 1])
  {
    assert forall i, j :: 0 <= i < j < |trace| && j == i + 1 ==> Next(trace[i], trace[j]);
  }

  lemma NextGrows(s: System, s': System)
    requires Safe(s) && Next(s, s')
    ensures Grows(s.registry, s'.registry)
  {
    if !Outside(s, s') {
      if id :| Advance(s, s', id) {
        StepGrows(s.registry, s.publishers[id].bundle, s.publishers[id].pc);
      }
    }
  }

  lemma StaysComplete(trace: seq<System>, k: nat, b: Bundle)
    requires Execution(trace) && k + 1 < |trace| && Complete(trace[k].registry, b)
    ensures Complete(trace[k + 1].registry, b)
  {
    ReleaseSafety(trace, k);
    ExecutionStep(trace, k);
    NextGrows(trace[k], trace[k + 1]);
    GrowsKeepsPresent(trace[k].registry, trace[k + 1].registry, b, |b.packages|);
  }

  /** Whoever moves `latest` with a cautious bundle moves it to that bundle's version, when every
    * package of the bundle exists, and they all exist ever after. */
  lemma MoverIsComplete(trace: seq<System>, j: nat, id: RunId, b: Bundle, k: nat)
    requires Execution(trace) && j < k < |trace| && Moves(trace, j, id, b) && Cautious(b)
    ensures Latest(trace[j + 1].registry) == Some(b.version) && Complete(trace[k].registry, b)
  {
    ReleaseSafety(trace, j);
    assert PublisherOk(trace[j].registry, trace[j].publishers[id]);
    CautiousStepMovesLatestLast(trace[j].registry, b, trace[j].publishers[id].pc);
    for m := j + 1 to k
      invariant Complete(trace[m].registry, b)
    {
      StaysComplete(trace, m, b);
    }
  }

  /** Nobody but the publishers moves the entry's `latest` tag. */
  ghost predicate OnlyPublishersMoveLatest(trace: seq<System>) {
    forall i, j :: 0 <= i < j < |trace| && j == i + 1 && Outside(trace[i], trace[j]) ==>
      Latest(trace[j].registry) == Latest(trace[i].registry)
  }

  /** `latest` is what the run that moved it last made it. */
  ghost predicate LastMove(trace: seq<System>, k: nat, j: nat, id: RunId, b: Bundle)
    requires k < |trace|
  {
    j < k && Moves(trace, j, id, b) && Latest(trace[k].registry) == Latest(trace[j + 1].registry)
  }

  lemma MovedByPublisher(trace: seq<System>, k: nat) returns (id: RunId, b: Bundle)
    requires Execution(trace) && OnlyPublishersMoveLatest(trace) && k + 1 < |trace|
    requires Latest(trace[k + 1].registry) != Latest(trace[k].registry)
    ensures Moves(trace, k, id, b)
  {
    ExecutionStep(trace, k);
    WhoMoves(trace[k], trace[k + 1]);
    assert !Outside(trace[k], trace[k + 1]);
    id :| Advance(trace[k], trace[k + 1], id);
    b := trace[k].publishers[id].bundle;
  }

  lemma WhoMoves(s: System, s': System)
    requires Next(s, s') && Latest(s'.registry) != Latest(s.registry)
    ensures Outside(s, s') || exists id :: Advance(s, s', id)
  {
  }

  lemma {:induction false} UnmovedOrMoved(trace: seq<System>, k: nat)
    requires Execution(trace) && OnlyPublishersMoveLatest(trace) && k < |trace|
    ensures Latest(trace[k].registry) == Latest(trace[0].registry) || exists j: nat, id, b :: LastMove(trace, k, j, id, b)
  {
    if k > 0 {
      var before := k - 1;
      if Latest(trace[k].registry) != Latest(trace[before].registry) {
        var id, b := MovedByPublisher(trace, before);
        assert LastMove(trace, k, before, id, b);
      } else {
        UnmovedOrMoved(trace, before);
        if j: nat, id, b :| LastMove(trace, before, j, id, b) {
          assert LastMove(trace, k, j, id, b);
        }
      }
    }
  }

  /** Every publisher carries a cautious bundle. */
  ghost predicate AllCautious(s: System) {
    forall id :: id in s.publishers ==> Cautious(s.publishers[id].bundle)
  }

  /** In every execution of cautious publishers, `latest` is where it was, or some publisher moved
    * it to its own bundle's version and every package of that very bundle exists. */
  lemma LatestNamesCompleteRelease(trace: seq<System>, k: nat)
    requires Execution(trace) && OnlyPublishersMoveLatest(trace) && k < |trace|
    requires forall i :: 0 <= i < |trace| ==> AllCautious(trace[i])
    ensures Latest(trace[k].registry) == Latest(trace[0].registry) ||
            exists j: nat, id, b :: LastMove(trace, k, j, id, b) && Latest(trace[k].registry) == Some(b.version)
                               && Complete(trace[k].registry, b)
  {
    UnmovedOrMoved(trace, k);
    if j: nat, id, b :| LastMove(trace, k, j, id, b) {
      assert AllCautious(trace[j]);
      MoverIsComplete(trace, j, id, b, k);
      assert LastMove(trace, k, j, id, b);
    }
  }

  /** A lone run of the bundle on an empty registry never shows `latest` at an incomplete release. */
  ghost predicate NeverEarly(b: Bundle) {
    forall steps: nat ::
      var reg := After(Registry(map[], map[]), b, AtPackage(b, 0), steps).0;
      Latest(reg) == Some(b.version) ==> Complete(reg, b)
  }

  lemma {:induction false} CautiousRunKeepsLatestComplete(reg: Registry, b: Bundle, pc: Pc, steps: nat)
    requires ValidPc(b, pc) && Present(reg, b, Secured(b, pc)) && Cautious(b)
    requires Latest(reg) == Some(b.version) ==> Complete(reg, b)
    ensures var reg' := After(reg, b, pc, steps).0;
            Latest(reg') == Some(b.version) ==> Complete(reg', b)
    decreases steps
  {
    if steps > 0 && !Terminal(pc) {
      var (reg', pc') := StepOf(reg, b, pc);
      CautiousStepMovesLatestLast(reg, b, pc);
      StepSecures(reg, b, pc);
      StepGrows(reg, b, pc);
      if Latest(reg) == Some(b.version) {
        GrowsKeepsPresent(reg, reg', b, |b.packages|);
      }
      CautiousRunKeepsLatestComplete(reg', b, pc', steps - 1);
    }
  }

  /** What the empty registry holds once the first n packages are published and tagged. */
  function Uploaded(b: Bundle, n: nat): Registry
    requires n <= |b.packages|
  {
    if n == 0 then Registry(map[], map[])
    else
      var before, p := Uploaded(b, n - 1), b.packages[n - 1];
      Registry(before.versions[(p.name, b.version) := p.integrity], before.tags[(p.name, b.distTag) := b.version])
  }

  lemma {:induction false} UploadedHas(b: Bundle, n: nat, i: nat)
    requires ValidBundle(b) && n <= |b.packages| && i < |b.packages|
    ensures (b.packages[i].name, b.version) in Uploaded(b, n).versions <==> i < n
    ensures i < n ==> (b.packages[i].name, b.distTag) in Uploaded(b, n).tags
                      && Uploaded(b, n).tags[(b.packages[i].name, b.distTag)] == b.version
  {
    if n > 0 {
      UploadedHas(b, n - 1, i);
    }
  }

  lemma {:induction false} AfterAdds(reg: Registry, b: Bundle, pc: Pc, m: nat, n: nat)
    requires ValidPc(b, pc)
    ensures var (reg', pc') := After(reg, b, pc, m);
            After(reg, b, pc, m + n) == After(reg', b, pc', n)
    decreases m
  {
    if m > 0 && !Terminal(pc) {
      var (reg', pc') := StepOf(reg, b, pc);
      AfterAdds(reg', b, pc', m - 1, n);
    }
  }

  lemma {:induction false} EmptyRunUploads(b: Bundle, n: nat)
    requires ValidBundle(b) && n <= |b.packages|
    ensures After(Registry(map[], map[]), b, AtPackage(b, 0), 3 * n) == (Uploaded(b, n), AtPackage(b, n))
  {
    if n > 0 {
      var reg := Uploaded(b, n - 1);
      EmptyRunUploads(b, n - 1);
      AfterAdds(Registry(map[], map[]), b, AtPackage(b, 0), 3 * (n - 1), 3);
      UploadedHas(b, n - 1, n - 1);
      assert StepOf(reg, b, ViewPackage(n - 1)) == (reg, UploadPackage(n - 1));
      assert StepOf(reg, b, UploadPackage(n - 1)) == (Uploaded(b, n), ReadTag(n - 1));
      assert (b.packages[n - 1].name, b.version) in Uploaded(b, n).versions;
      assert StepOf(Uploaded(b, n), b, ReadTag(n - 1)) == (Uploaded(b, n), AtPackage(b, n));
      assert After(reg, b, ViewPackage(n - 1), 3) == After(Uploaded(b, n), b, ReadTag(n - 1), 1);
    }
  }

  /** `latest` stays behind completeness exactly for the cautious bundles. */
  lemma LatestIsNeverEarlyIffCautious(b: Bundle)
    requires ValidBundle(b)
    ensures NeverEarly(b) <==> Cautious(b)
  {
    var empty := Registry(map[], map[]);
    if Cautious(b) {
      forall steps: nat ensures var reg := After(empty, b, AtPackage(b, 0), steps).0;
                                Latest(reg) == Some(b.version) ==> Complete(reg, b) {
        CautiousRunKeepsLatestComplete(empty, b, AtPackage(b, 0), steps);
      }
    } else {
      var i :| 0 <= i < |b.packages| - 1 && b.packages[i].name == RELEASE_ENTRY_PACKAGE;
      EmptyRunUploads(b, i + 1);
      UploadedHas(b, i + 1, i);
      UploadedHas(b, i + 1, i + 1);
      var reg := After(empty, b, AtPackage(b, 0), 3 * (i + 1)).0;
      assert !PresentAt(reg, b, i + 1);
      assert Latest(reg) == Some(b.version) && !Complete(reg, b);
    }
  }
}
