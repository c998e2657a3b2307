/** What a failed run reports and leaves behind (scripts/publish-npm-baseline.ts): a publication
  * stops at the first conflicting package with everything before it published and tagged, and a
  * verification names the first thing that is not as it should be. */
module PublishReports {
  import opened Wrappers
  import opened PublishSteps
  import opened PublishSafety
  import opened PublishConvergence

  // ---- publication ----

  /** The registry with one package published and tagged. */
  function Put(reg: Registry, b: Bundle, i: nat): Registry
    requires i < |b.packages|
  {
    var p := b.packages[i];
    Registry(reg.versions[(p.name, b.version) := p.integrity], reg.tags[(p.name, b.distTag) := b.version])
  }

  /** The registry with the first n packages published and tagged. */
  function PutFirst(reg: Registry, b: Bundle, n: nat): Registry
    requires n <= |b.packages|
  {
    if n == 0 then reg else Put(PutFirst(reg, b, n - 1), b, n - 1)
  }

  /** The version is published with another integrity than the bundle's. */
  predicate ConflictAt(reg: Registry, b: Bundle, i: nat)
    requires i < |b.packages|
  {
    (b.packages[i].name, b.version) in reg.versions && reg.versions[(b.packages[i].name, b.version)] != b.packages[i].integrity
  }

  /** Two runs that come to the same end. */
  ghost predicate SameEnd(r: Outcome, s: Outcome) {
    r.registry == s.registry && r.pc == s.pc
  }

  lemma TaggedAlready(reg: Registry, b: Bundle, i: nat)
    requires i < |b.packages| && (b.packages[i].name, b.version) in reg.versions
    ensures var read := RemoteDistTag(reg, b.packages[i].name, b.distTag);
            read.Ok? && (read.value == Some(b.version) <==> TaggedAt(reg, b, i))
  {
    KnownPackage(reg, b.packages[i].name, b.version, b.distTag);
  }

  lemma TagTurn(reg: Registry, b: Bundle, i: nat)
    requires i < |b.packages| && (b.packages[i].name, b.version) in reg.versions
    ensures SameEnd(RunToEnd(reg, b, ReadTag(i)),
                    RunToEnd(reg.(tags := reg.tags[(b.packages[i].name, b.distTag) := b.version]), b, AtPackage(b, i + 1)))
  {
    TaggedAlready(reg, b, i);
    RunUnfolds(reg, b, ReadTag(i));
    if TaggedAt(reg, b, i) {
      assert reg.tags[(b.packages[i].name, b.distTag) := b.version] == reg.tags;
    } else {
      RunUnfolds(reg, b, WriteTag(i));
    }
  }

  /** One turn of the loop puts a package that does not conflict, and goes on. */
  lemma PackageTurn(reg: Registry, b: Bundle, i: nat)
    requires ValidBundle(b) && i < |b.packages| && !ConflictAt(reg, b, i)
    ensures SameEnd(RunToEnd(reg, b, ViewPackage(i)), RunToEnd(Put(reg, b, i), b, AtPackage(b, i + 1)))
  {
    var p := b.packages[i];
    RunUnfolds(reg, b, ViewPackage(i));
    if (p.name, b.version) in reg.versions {
      assert reg.versions[(p.name, b.version) := p.integrity] == reg.versions;
      TagTurn(reg, b, i);
    } else {
      var uploaded := Put(reg, b, i);
      RunUnfolds(reg, b, UploadPackage(i));
      TagTurn(uploaded, b, i);
      assert uploaded.tags[(p.name, b.distTag) := b.version] == uploaded.tags;
    }
  }

  lemma {:induction false} PutElsewhere(reg: Registry, b: Bundle, n: nat, i: nat)
    requires ValidBundle(b) && n <= i < |b.packages|
    ensures var k := (b.packages[i].name, b.version);
            (k in PutFirst(reg, b, n).versions <==> k in reg.versions)
            && (k in reg.versions ==> PutFirst(reg, b, n).versions[k] == reg.versions[k])
  {
    if n > 0 {
      PutElsewhere(reg, b, n - 1, i);
    }
  }

  lemma {:induction false} FirstTurns(reg: Registry, b: Bundle, n: nat)
    requires ValidBundle(b) && n <= |b.packages| && forall i :: 0 <= i < n ==> !ConflictAt(reg, b, i)
    ensures SameEnd(RunToEnd(reg, b, AtPackage(b, 0)), RunToEnd(PutFirst(reg, b, n), b, AtPackage(b, n)))
  {
    if n > 0 {
      FirstTurns(reg, b, n - 1);
      PutElsewhere(reg, b, n - 1, n - 1);
      assert !ConflictAt(reg, b, n - 1);
      PackageTurn(PutFirst(reg, b, n - 1), b, n - 1);
    }
  }

  /** A run stops at the first conflicting package and says what is wrong with it; everything
    * before it has been published and tagged, and nothing else has changed. */
  lemma StopsAtFirstConflict(reg: Registry, b: Bundle, i: nat)
    requires ValidBundle(b) && i < |b.packages| && ConflictAt(reg, b, i) && forall j :: 0 <= j < i ==> !ConflictAt(reg, b, j)
    ensures var r, name := RunToEnd(reg, b, AtPackage(b, 0)), b.packages[i].name;
            && r.registry == PutFirst(reg, b, i)
            && r.pc == Failed(if "sha512-" <= reg.versions[(name, b.version)] then DifferentIntegrity(name) else NoIntegrity(name))
  {
    FirstTurns(reg, b, i);
    PutElsewhere(reg, b, i, i);
    RunUnfolds(PutFirst(reg, b, i), b, ViewPackage(i));
  }

  lemma {:induction false} PutPublishes(reg: Registry, b: Bundle, n: nat, k: (Name, Version))
    requires n <= |b.packages|
    ensures k in PutFirst(reg, b, n).versions <==>
            k in reg.versions || exists i :: 0 <= i < n && k == (b.packages[i].name, b.version)
  {
    if n > 0 {
      PutPublishes(reg, b, n - 1, k);
    }
  }

  lemma PutKeepsTagsPointing(reg: Registry, b: Bundle, i: nat)
    requires i < |b.packages| && TagsPoint(reg)
    ensures TagsPoint(Put(reg, b, i))
  {
    var after := Put(reg, b, i);
    forall k | k in after.tags ensures (k.0, after.tags[k]) in after.versions {
      if k in reg.tags && k != (b.packages[i].name, b.distTag) {
        assert (k.0, reg.tags[k]) in reg.versions;
      }
    }
  }

  lemma PutKeepsTags(reg: Registry, b: Bundle, n: nat)
    requires n <= |b.packages| && TagsPoint(reg)
    ensures TagsPoint(PutFirst(reg, b, n))
  {
    for j := 0 to n
      invariant TagsPoint(PutFirst(reg, b, j))
    {
      PutKeepsTagsPointing(PutFirst(reg, b, j), b, j);
    }
  }

  lemma LastStepFails(reg: Registry, b: Bundle)
    requires TagsPoint(reg) && (RELEASE_ENTRY_PACKAGE, b.version) !in reg.versions
    ensures var r := RunToEnd(reg, b, ReadLatest); r.pc == Failed(CommandFailed) && r.registry == reg
  {
    assert Latest(reg) != Some(b.version);
    RunUnfolds(reg, b, ReadLatest);
    if StepOf(reg, b, ReadLatest).1 == WriteLatest {
      RunUnfolds(reg, b, WriteLatest);
    }
  }

  lemma EntryStillMissing(reg: Registry, b: Bundle)
    requires !EntryAvailable(reg, b)
    ensures (RELEASE_ENTRY_PACKAGE, b.version) !in PutFirst(reg, b, |b.packages|).versions
  {
    PutPublishes(reg, b, |b.packages|, (RELEASE_ENTRY_PACKAGE, b.version));
  }

  /** Without the entry package the last step fails, with the whole bundle published. */
  lemma FailsWithoutEntry(reg: Registry, b: Bundle)
    requires ValidBundle(b) && TagsPoint(reg) && !EntryAvailable(reg, b)
    requires forall i :: 0 <= i < |b.packages| ==> !ConflictAt(reg, b, i)
    ensures var r := RunToEnd(reg, b, AtPackage(b, 0));
            r.pc == Failed(CommandFailed) && r.registry == PutFirst(reg, b, |b.packages|)
  {
    FirstTurns(reg, b, |b.packages|);
    EntryStillMissing(reg, b);
    PutKeepsTags(reg, b, |b.packages|);
    LastStepFails(PutFirst(reg, b, |b.packages|), b);
  }

  // ---- verification ----

  predicate VerifiedAt(reg: Registry, b: Bundle, i: nat)
    requires i < |b.packages|
  {
    PresentAt(reg, b, i) && TaggedAt(reg, b, i)
  }

  /** What is wrong with a package that does not verify. */
  function Complaint(reg: Registry, b: Bundle, i: nat): Error
    requires i < |b.packages|
  {
    var p := b.packages[i];
    if (p.name, b.version) !in reg.versions then MissingPackage(p.name)
    else if reg.versions[(p.name, b.version)] == p.integrity then WrongTag(p.name, b.distTag)
    else if "sha512-" <= reg.versions[(p.name, b.version)] then DifferentIntegrity(p.name)
    else NoIntegrity(p.name)
  }

  lemma VerifyTurn(reg: Registry, b: Bundle, i: nat)
    requires ValidBundle(b) && i < |b.packages|
    ensures VerifiedAt(reg, b, i) ==> SameEnd(RunToEnd(reg, b, VerifyIntegrity(i)), RunToEnd(reg, b, AtVerify(b, i + 1)))
    ensures !VerifiedAt(reg, b, i) ==> RunToEnd(reg, b, VerifyIntegrity(i)).pc == Failed(Complaint(reg, b, i))
  {
    RunUnfolds(reg, b, VerifyIntegrity(i));
    if PresentAt(reg, b, i) {
      TaggedAlready(reg, b, i);
      RunUnfolds(reg, b, VerifyTag(i));
    }
  }

  /** Verification complains about the first package that does not verify. */
  lemma {:induction false} ComplainsAboutFirst(reg: Registry, b: Bundle, j: nat, i: nat)
    requires ValidBundle(b) && j <= i < |b.packages| && !VerifiedAt(reg, b, i)
    requires forall m :: j <= m < i ==> VerifiedAt(reg, b, m)
    ensures RunToEnd(reg, b, AtVerify(b, j)).pc == Failed(Complaint(reg, b, i))
    decreases i - j
  {
    VerifyTurn(reg, b, j);
    if j < i {
      ComplainsAboutFirst(reg, b, j + 1, i);
    }
  }

  /** When every package verifies, a wrong `latest` is what it complains about. */
  lemma {:induction false} ComplainsAboutLatest(reg: Registry, b: Bundle, j: nat)
    requires ValidBundle(b) && j <= |b.packages| && Latest(reg) != Some(b.version)
    requires forall m :: j <= m < |b.packages| ==> VerifiedAt(reg, b, m)
    ensures RunToEnd(reg, b, AtVerify(b, j)).pc ==
            Failed(if exists k :: k in reg.versions && k.0 == RELEASE_ENTRY_PACKAGE
                   then WrongTag(RELEASE_ENTRY_PACKAGE, LATEST_DIST_TAG) else CommandFailed)
    decreases |b.packages| - j
  {
    if j < |b.packages| {
      VerifyTurn(reg, b, j);
      ComplainsAboutLatest(reg, b, j + 1);
    } else {
      RunUnfolds(reg, b, VerifyLatest);
    }
  }
}
