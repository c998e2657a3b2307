/** A lone publication run converges: it succeeds exactly when nothing conflicts and the
  * entry package is available, a crashed run can be rerun to the same registry, and a run
  * over a finished release writes nothing (scripts/publish-npm-baseline.ts). */
module PublishConvergence {
  import opened Wrappers
  import opened PublishSteps
  import opened PublishSafety

  predicate NoConflict(reg: Registry, b: Bundle) {
    forall i :: 0 <= i < |b.packages| && (b.packages[i].name, b.version) in reg.versions ==> PresentAt(reg, b, i)
  }

  /** The entry package is in the bundle, or already published at the bundle's version. */
  predicate EntryAvailable(reg: Registry, b: Bundle) {
    || (RELEASE_ENTRY_PACKAGE, b.version) in reg.versions
    || exists i :: 0 <= i < |b.packages| && b.packages[i].name == RELEASE_ENTRY_PACKAGE
  }

  /** Registry invariant: a tag names a published version. */
  ghost predicate TagsPoint(reg: Registry) {
    forall k :: k in reg.tags ==> (k.0, reg.tags[k]) in reg.versions
  }

  predicate TaggedAt(reg: Registry, b: Bundle, i: nat)
    requires i < |b.packages|
  {
    (b.packages[i].name, b.distTag) in reg.tags && reg.tags[(b.packages[i].name, b.distTag)] == b.version
  }

  predicate Tagged(reg: Registry, b: Bundle, n: nat)
    requires n <= |b.packages|
  {
    forall i :: 0 <= i < n ==> TaggedAt(reg, b, i)
  }

  /** The finished release: all packages, all their tags, and the entry's `latest`. */
  predicate Settled(reg: Registry, b: Bundle) {
    Complete(reg, b) && Tagged(reg, b, |b.packages|) && Latest(reg) == Some(b.version)
  }

  // ---- where a run is headed ----

  function BundleVersions(b: Bundle, n: nat): map<(Name, Version), Integrity>
    requires n <= |b.packages|
  {
    if n == 0 then map[] else BundleVersions(b, n - 1)[(b.packages[n - 1].name, b.version) := b.packages[n - 1].integrity]
  }

  function BundleTags(b: Bundle, n: nat): map<(Name, Tag), Version>
    requires n <= |b.packages|
  {
    if n == 0 then map[(RELEASE_ENTRY_PACKAGE, LATEST_DIST_TAG) := b.version]
    else BundleTags(b, n - 1)[(b.packages[n - 1].name, b.distTag) := b.version]
  }

  /** The registry with the bundle published and tagged over it. */
  function Target(reg: Registry, b: Bundle): Registry {
    Registry(reg.versions + BundleVersions(b, |b.packages|), reg.tags + BundleTags(b, |b.packages|))
  }

  lemma {:induction false} BundleVersionsHas(b: Bundle, n: nat, i: nat)
    requires ValidBundle(b) && i < n <= |b.packages|
    ensures (b.packages[i].name, b.version) in BundleVersions(b, n)
    ensures BundleVersions(b, n)[(b.packages[i].name, b.version)] == b.packages[i].integrity
  {
    if i < n - 1 {
      BundleVersionsHas(b, n - 1, i);
    }
  }

  lemma {:induction false} BundleVersionsOnly(b: Bundle, n: nat, k: (Name, Version)) returns (i: nat)
    requires ValidBundle(b) && n <= |b.packages| && k in BundleVersions(b, n)
    ensures i < n && k == (b.packages[i].name, b.version) && BundleVersions(b, n)[k] == b.packages[i].integrity
  {
    if k == (b.packages[n - 1].name, b.version) {
      i := n - 1;
    } else {
      i := BundleVersionsOnly(b, n - 1, k);
    }
  }

  lemma {:induction false} BundleTagsHas(b: Bundle, n: nat, k: (Name, Tag))
    requires n <= |b.packages|
    ensures k in BundleTags(b, n) ==> BundleTags(b, n)[k] == b.version
    ensures k in BundleTags(b, n) <==>
            k == (RELEASE_ENTRY_PACKAGE, LATEST_DIST_TAG) || exists i :: 0 <= i < n && k == (b.packages[i].name, b.distTag)
  {
    if n > 0 {
      BundleTagsHas(b, n - 1, k);
    }
  }

  lemma SettledIsTarget(reg: Registry, b: Bundle)
    requires ValidBundle(b) && Settled(reg, b)
    ensures Target(reg, b) == reg
  {
    forall k | k in BundleVersions(b, |b.packages|)
      ensures k in reg.versions && reg.versions[k] == BundleVersions(b, |b.packages|)[k]
    {
      var i := BundleVersionsOnly(b, |b.packages|, k);
      assert PresentAt(reg, b, i);
    }
    forall k | k in BundleTags(b, |b.packages|) ensures k in reg.tags && reg.tags[k] == BundleTags(b, |b.packages|)[k] {
      BundleTagsHas(b, |b.packages|, k);
      if i :| 0 <= i < |b.packages| && k == (b.packages[i].name, b.distTag) {
        assert TaggedAt(reg, b, i);
      }
    }
  }

  lemma TargetAfterUpload(reg: Registry, b: Bundle, i: nat)
    requires ValidBundle(b) && i < |b.packages|
    ensures Target(reg.(versions := reg.versions[(b.packages[i].name, b.version) := b.packages[i].integrity]), b) == Target(reg, b)
  {
    BundleVersionsHas(b, |b.packages|, i);
  }

  lemma TargetAfterTag(reg: Registry, b: Bundle, k: (Name, Tag))
    requires k in BundleTags(b, |b.packages|)
    ensures Target(reg.(tags := reg.tags[k := b.version]), b) == Target(reg, b)
  {
    BundleTagsHas(b, |b.packages|, k);
  }

  // ---- a run on its way ----

  /** How many packages have their tag when the run stands at a step. */
  function TagsDone(b: Bundle, pc: Pc): (n: nat)
    requires ValidPc(b, pc)
    ensures n <= |b.packages|
  {
    match pc
    case ViewPackage(i) => i
    case UploadPackage(i) => i
    case ReadTag(i) => i
    case WriteTag(i) => i
    case Failed(_) => 0
    case _ => |b.packages|
  }

  /** The run stands where a run left alone without conflicts stands. */
  predicate OnCourse(reg: Registry, b: Bundle, pc: Pc) {
    && ValidPc(b, pc) && !pc.Failed?
    && NoConflict(reg, b) && EntryAvailable(reg, b)
    && Present(reg, b, Secured(b, pc)) && Tagged(reg, b, TagsDone(b, pc))
    && (pc.UploadPackage? ==> (b.packages[pc.i].name, b.version) !in reg.versions)
    && (PastLatest(pc) ==> Latest(reg) == Some(b.version))
  }

  lemma KnownPackage(reg: Registry, name: Name, version: Version, tag: Tag)
    requires (name, version) in reg.versions
    ensures RemoteDistTag(reg, name, tag) == Ok(if (name, tag) in reg.tags then Some(reg.tags[(name, tag)]) else None)
  {
  }

  lemma EntryPublished(reg: Registry, b: Bundle)
    requires EntryAvailable(reg, b) && Complete(reg, b)
    ensures (RELEASE_ENTRY_PACKAGE, b.version) in reg.versions
  {
    if i :| 0 <= i < |b.packages| && b.packages[i].name == RELEASE_ENTRY_PACKAGE {
      assert PresentAt(reg, b, i);
    }
  }

  lemma UploadStaysOnCourse(reg: Registry, b: Bundle, i: nat)
    requires ValidBundle(b) && OnCourse(reg, b, UploadPackage(i))
    ensures var (reg', pc') := StepOf(reg, b, UploadPackage(i));
            OnCourse(reg', b, pc') && Target(reg', b) == Target(reg, b)
  {
    var (reg', pc') := StepOf(reg, b, UploadPackage(i));
    StepSecures(reg, b, UploadPackage(i));
    var p := b.packages[i];
    TargetAfterUpload(reg, b, i);
    BundleTagsHas(b, |b.packages|, (p.name, b.distTag));
    TargetAfterTag(reg.(versions := reg.versions[(p.name, b.version) := p.integrity]), b, (p.name, b.distTag));
    forall j | 0 <= j < i ensures TaggedAt(reg', b, j) {
      assert TaggedAt(reg, b, j);
    }
    forall j | 0 <= j < |b.packages| && (b.packages[j].name, b.version) in reg'.versions ensures PresentAt(reg', b, j) {
      if j != i {
        assert PresentAt(reg, b, j);
      }
    }
  }

  lemma TagStaysOnCourse(reg: Registry, b: Bundle, i: nat)
    requires ValidBundle(b) && OnCourse(reg, b, WriteTag(i))
    ensures var (reg', pc') := StepOf(reg, b, WriteTag(i));
            OnCourse(reg', b, pc') && Target(reg', b) == Target(reg, b)
  {
    assert PresentAt(reg, b, i);
    var reg' := StepOf(reg, b, WriteTag(i)).0;
    BundleTagsHas(b, |b.packages|, (b.packages[i].name, b.distTag));
    TargetAfterTag(reg, b, (b.packages[i].name, b.distTag));
    SameVersions(reg, reg', b, i + 1);
    forall j | 0 <= j < i ensures TaggedAt(reg', b, j) {
      assert TaggedAt(reg, b, j);
    }
  }

  lemma SameVersions(reg: Registry, reg': Registry, b: Bundle, n: nat)
    requires reg'.versions == reg.versions && NoConflict(reg, b) && n <= |b.packages| && Present(reg, b, n)
    ensures NoConflict(reg', b) && Present(reg', b, n) && (EntryAvailable(reg, b) ==> EntryAvailable(reg', b))
  {
    forall i | 0 <= i < |b.packages| ensures PresentAt(reg', b, i) <==> PresentAt(reg, b, i) {
    }
  }

  lemma LatestStaysOnCourse(reg: Registry, b: Bundle)
    requires ValidBundle(b) && OnCourse(reg, b, WriteLatest)
    ensures var (reg', pc') := StepOf(reg, b, WriteLatest);
            OnCourse(reg', b, pc') && Target(reg', b) == Target(reg, b)
  {
    var reg' := StepOf(reg, b, WriteLatest).0;
    EntryPublished(reg, b);
    BundleTagsHas(b, |b.packages|, (RELEASE_ENTRY_PACKAGE, LATEST_DIST_TAG));
    TargetAfterTag(reg, b, (RELEASE_ENTRY_PACKAGE, LATEST_DIST_TAG));
    SameVersions(reg, reg', b, |b.packages|);
    forall j | 0 <= j < |b.packages| ensures TaggedAt(reg', b, j) {
      assert TaggedAt(reg, b, j);
    }
  }

  lemma ReadStaysOnCourse(reg: Registry, b: Bundle, pc: Pc)
    requires ValidBundle(b) && OnCourse(reg, b, pc) && !Terminal(pc) && !Writes(pc)
    ensures var (reg', pc') := StepOf(reg, b, pc);
            reg' == reg && OnCourse(reg, b, pc')
  {
    var pc' := StepOf(reg, b, pc).1;
    match pc
    case ViewPackage(i) =>
      if (b.packages[i].name, b.version) in reg.versions {
        assert PresentAt(reg, b, i);
      }
    case ReadTag(i) =>
      assert PresentAt(reg, b, i);
      KnownPackage(reg, b.packages[i].name, b.version, b.distTag);
      if pc' != WriteTag(i) {
        assert TaggedAt(reg, b, i);
      }
    case ReadLatest =>
      EntryPublished(reg, b);
      KnownPackage(reg, RELEASE_ENTRY_PACKAGE, b.version, LATEST_DIST_TAG);
    case VerifyIntegrity(i) =>
      assert PresentAt(reg, b, i);
    case VerifyTag(i) =>
      assert PresentAt(reg, b, i) && TaggedAt(reg, b, i);
      KnownPackage(reg, b.packages[i].name, b.version, b.distTag);
    case VerifyLatest =>
      EntryPublished(reg, b);
      KnownPackage(reg, RELEASE_ENTRY_PACKAGE, b.version, LATEST_DIST_TAG);
  }

  lemma StepStaysOnCourse(reg: Registry, b: Bundle, pc: Pc)
    requires ValidBundle(b) && OnCourse(reg, b, pc) && !Terminal(pc)
    ensures var (reg', pc') := StepOf(reg, b, pc);
            OnCourse(reg', b, pc') && Target(reg', b) == Target(reg, b)
  {
    match pc
    case UploadPackage(i) => UploadStaysOnCourse(reg, b, i);
    case WriteTag(i) => TagStaysOnCourse(reg, b, i);
    case WriteLatest => LatestStaysOnCourse(reg, b);
    case _ => ReadStaysOnCourse(reg, b, pc);
  }

  lemma {:induction false} CourseReachesTarget(reg: Registry, b: Bundle, pc: Pc)
    requires ValidBundle(b) && OnCourse(reg, b, pc)
    ensures var r := RunToEnd(reg, b, pc);
            r.pc == Done && r.registry == Target(reg, b) && Settled(r.registry, b)
    decreases Remaining(b, pc)
  {
    if Terminal(pc) {
      SettledIsTarget(reg, b);
    } else {
      StepShortens(reg, b, pc);
      StepStaysOnCourse(reg, b, pc);
      var (reg', pc') := StepOf(reg, b, pc);
      CourseReachesTarget(reg', b, pc');
    }
  }

  lemma {:induction false} AfterStaysOnCourse(reg: Registry, b: Bundle, pc: Pc, steps: nat)
    requires ValidBundle(b) && OnCourse(reg, b, pc)
    ensures var (reg', pc') := After(reg, b, pc, steps);
            OnCourse(reg', b, pc') && Target(reg', b) == Target(reg, b)
    decreases steps
  {
    if steps > 0 && !Terminal(pc) {
      StepStaysOnCourse(reg, b, pc);
      var (reg', pc') := StepOf(reg, b, pc);
      AfterStaysOnCourse(reg', b, pc', steps - 1);
    }
  }

  /** Convergence: without conflicts and with the entry package available, a lone run ends
    * with the whole release published, tagged and verified. */
  lemma PublishConverges(reg: Registry, b: Bundle)
    requires ValidBundle(b) && NoConflict(reg, b) && EntryAvailable(reg, b)
    ensures var r := RunToEnd(reg, b, AtPackage(b, 0));
            r.pc == Done && r.registry == Target(reg, b) && Settled(r.registry, b)
  {
    CourseReachesTarget(reg, b, AtPackage(b, 0));
  }

  /** Resumption: crash after any number of commands, rerun from the start, and the registry
    * ends exactly as if nothing had happened. */
  lemma RerunAfterCrash(reg: Registry, b: Bundle, steps: nat)
    requires ValidBundle(b) && NoConflict(reg, b) && EntryAvailable(reg, b)
    ensures var crashed := After(reg, b, AtPackage(b, 0), steps).0;
            var rerun := RunToEnd(crashed, b, AtPackage(b, 0));
            rerun.pc == Done && rerun.registry == RunToEnd(reg, b, AtPackage(b, 0)).registry
  {
    PublishConverges(reg, b);
    AfterStaysOnCourse(reg, b, AtPackage(b, 0), steps);
    PublishConverges(After(reg, b, AtPackage(b, 0), steps).0, b);
  }

  lemma {:induction false} SettledRunIsQuiet(reg: Registry, b: Bundle, pc: Pc)
    requires ValidBundle(b) && OnCourse(reg, b, pc) && Settled(reg, b) && !Writes(pc)
    ensures RunToEnd(reg, b, pc) == Outcome(reg, Done, 0)
    decreases Remaining(b, pc)
  {
    if !Terminal(pc) {
      StepShortens(reg, b, pc);
      ReadStaysOnCourse(reg, b, pc);
      if pc.ViewPackage? || pc.ReadTag? {
        assert PresentAt(reg, b, pc.i) && TaggedAt(reg, b, pc.i);
      }
      SettledRunIsQuiet(reg, b, StepOf(reg, b, pc).1);
    }
  }

  lemma SettledIsOnCourse(reg: Registry, b: Bundle)
    requires ValidBundle(b) && Settled(reg, b) && TagsPoint(reg)
    ensures OnCourse(reg, b, AtPackage(b, 0)) && OnCourse(reg, b, AtVerify(b, 0))
  {
    forall i | 0 <= i < |b.packages| ensures PresentAt(reg, b, i) {
    }
    assert (RELEASE_ENTRY_PACKAGE, reg.tags[(RELEASE_ENTRY_PACKAGE, LATEST_DIST_TAG)]) in reg.versions;
  }

  /** A run over a finished release succeeds, changes nothing and issues no write. */
  lemma RerunWritesNothing(reg: Registry, b: Bundle)
    requires ValidBundle(b) && Settled(reg, b) && TagsPoint(reg)
    ensures RunToEnd(reg, b, AtPackage(b, 0)) == Outcome(reg, Done, 0)
  {
    SettledIsOnCourse(reg, b);
    SettledRunIsQuiet(reg, b, AtPackage(b, 0));
  }

  // ---- the exact conditions of success ----

  /** What passed verification steps have established. */
  predicate VerifiedSoFar(reg: Registry, b: Bundle, pc: Pc) {
    && ValidPc(b, pc)
    && match pc
       case VerifyIntegrity(i) => Present(reg, b, i) && Tagged(reg, b, i)
       case VerifyTag(i) => Present(reg, b, i + 1) && Tagged(reg, b, i)
       case VerifyLatest => Complete(reg, b) && Tagged(reg, b, |b.packages|)
       case Done => Settled(reg, b)
       case _ => true
  }

  lemma StepVerifies(reg: Registry, b: Bundle, pc: Pc)
    requires VerifiedSoFar(reg, b, pc) && !Terminal(pc)
    ensures var (reg', pc') := StepOf(reg, b, pc); VerifiedSoFar(reg', b, pc')
  {
  }

  lemma {:induction false} DoneIsSettled(reg: Registry, b: Bundle, pc: Pc)
    requires VerifiedSoFar(reg, b, pc)
    ensures var r := RunToEnd(reg, b, pc);
            && (r.pc == Done ==> Settled(r.registry, b))
            && Grows(reg, r.registry)
            && (TagsPoint(reg) ==> TagsPoint(r.registry))
            && (forall k :: k in r.registry.versions && k !in reg.versions ==>
                  exists i :: 0 <= i < |b.packages| && k == (b.packages[i].name, b.version))
    decreases Remaining(b, pc)
  {
    if !Terminal(pc) {
      StepShortens(reg, b, pc);
      StepGrows(reg, b, pc);
      var (reg', pc') := StepOf(reg, b, pc);
      StepVerifies(reg, b, pc);
      DoneIsSettled(reg', b, pc');
      RunUnfolds(reg, b, pc);
    }
  }

  /** A lone run succeeds exactly when no published version conflicts and the entry package is available. */
  lemma PublishSucceedsIff(reg: Registry, b: Bundle)
    requires ValidBundle(b) && TagsPoint(reg)
    ensures RunToEnd(reg, b, AtPackage(b, 0)).pc == Done <==> NoConflict(reg, b) && EntryAvailable(reg, b)
  {
    var r := RunToEnd(reg, b, AtPackage(b, 0));
    DoneIsSettled(reg, b, AtPackage(b, 0));
    if NoConflict(reg, b) && EntryAvailable(reg, b) {
      PublishConverges(reg, b);
    }
    if r.pc == Done {
      forall i | 0 <= i < |b.packages| && (b.packages[i].name, b.version) in reg.versions ensures PresentAt(reg, b, i) {
        assert PresentAt(r.registry, b, i);
      }
      assert (RELEASE_ENTRY_PACKAGE, r.registry.tags[(RELEASE_ENTRY_PACKAGE, LATEST_DIST_TAG)]) in r.registry.versions;
    }
  }

  /** Verification reads only, and succeeds exactly on a finished release. */
  lemma VerifySucceedsIff(reg: Registry, b: Bundle)
    requires ValidBundle(b) && TagsPoint(reg)
    ensures RunToEnd(reg, b, AtVerify(b, 0)).pc == Done <==> Settled(reg, b)
    ensures RunToEnd(reg, b, AtVerify(b, 0)).registry == reg && RunToEnd(reg, b, AtVerify(b, 0)).writes == 0
  {
    DoneIsSettled(reg, b, AtVerify(b, 0));
    VerifyReadsOnly(reg, b, AtVerify(b, 0));
    if Settled(reg, b) {
      SettledIsOnCourse(reg, b);
      SettledRunIsQuiet(reg, b, AtVerify(b, 0));
    }
  }

  lemma {:induction false} VerifyReadsOnly(reg: Registry, b: Bundle, pc: Pc)
    requires ValidPc(b, pc) && (PastLatest(pc) || pc.Failed?)
    ensures RunToEnd(reg, b, pc).registry == reg && RunToEnd(reg, b, pc).writes == 0
    decreases Remaining(b, pc)
  {
    if !Terminal(pc) {
      StepShortens(reg, b, pc);
      VerifyReadsOnly(reg, b, StepOf(reg, b, pc).1);
    }
  }
}
