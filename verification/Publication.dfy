/** `RegistryPublication` as written: loops of registry commands against a shared registry
  * (scripts/publish-npm-baseline.ts), refining the step machine of PublishSteps. */
module Publication {
  import opened Wrappers
  import opened PublishSteps

  /** The remote registry, with a count of the successful writes it served. */
  class RemoteRegistry {
    var state: Registry
    var writes: nat

    constructor (state: Registry)
      ensures this.state == state && writes == 0
    {
      this.state := state;
      writes := 0;
    }

    method Publish(p: Package, version: Version, tag: Tag) returns (r: Result<(), Error>)
      modifies this
      ensures r.Ok? <==> Upload(old(state), p, version, tag).Ok?
      ensures r.Ok? ==> Upload(old(state), p, version, tag) == Ok(state) && writes == old(writes) + 1
      ensures r.Err? ==> r.error == CommandFailed && state == old(state) && writes == old(writes)
    {
      var uploaded := Upload(state, p, version, tag);
      if uploaded.Err? {
        return Err(uploaded.error);
      }
      state, writes := uploaded.value, writes + 1;
      return Ok(());
    }

    method TagVersion(name: Name, version: Version, tag: Tag) returns (r: Result<(), Error>)
      modifies this
      ensures r.Ok? <==> AddDistTag(old(state), name, version, tag).Ok?
      ensures r.Ok? ==> AddDistTag(old(state), name, version, tag) == Ok(state) && writes == old(writes) + 1
      ensures r.Err? ==> r.error == CommandFailed && state == old(state) && writes == old(writes)
    {
      var tagged := AddDistTag(state, name, version, tag);
      if tagged.Err? {
        return Err(tagged.error);
      }
      state, writes := tagged.value, writes + 1;
      return Ok(());
    }
  }

  /** How a call left alone must end, given the machine's outcome from where it started. */
  ghost predicate EndsAs(r: Result<(), Error>, state: Registry, writes: int, outcome: Outcome) {
    && state == outcome.registry && writes == outcome.writes
    && (r.Ok? <==> outcome.pc == Done)
    && (r.Err? ==> outcome.pc == Failed(r.error))
  }

  /** Some writes into a run, the rest of it is still to come. */
  ghost predicate Continues(whole: Outcome, writes: int, rest: Outcome) {
    whole.registry == rest.registry && whole.pc == rest.pc && whole.writes == rest.writes + writes
  }

  class RegistryPublication {
    const bundle: Bundle
    const remote: RemoteRegistry

    constructor (bundle: Bundle, remote: RemoteRegistry)
      ensures this.bundle == bundle && this.remote == remote
    {
      this.bundle := bundle;
      this.remote := remote;
    }

    /** Read a tag and write it unless it already names the version. */
    method EnsureDistTag(name: Name, tag: Tag) returns (r: Result<(), Error>)
      modifies remote
      ensures var read := RemoteDistTag(old(remote.state), name, tag);
              if read.Err? then r == Err(read.error) && remote.state == old(remote.state) && remote.writes == old(remote.writes)
              else if read.value == Some(bundle.version) then
                r.Ok? && remote.state == old(remote.state) && remote.writes == old(remote.writes)
              else
                var written := AddDistTag(old(remote.state), name, bundle.version, tag);
                if written.Err? then r == Err(written.error) && remote.state == old(remote.state) && remote.writes == old(remote.writes)
                else r.Ok? && remote.state == written.value && remote.writes == old(remote.writes) + 1
    {
      var read := RemoteDistTag(remote.state, name, tag);
      if read.Err? {
        return Err(read.error);
      }
      if read.value == Some(bundle.version) {
        return Ok(());
      }
      r := remote.TagVersion(name, bundle.version, tag);
    }

    /** Publish a missing package; one that exists must have the bundle's integrity. */
    method UploadIfMissing(i: nat) returns (r: Result<(), Error>)
      requires i < |bundle.packages|
      modifies remote
      ensures remote.writes >= old(remote.writes)
      ensures r.Ok? ==>
                Continues(RunToEnd(old(remote.state), bundle, ViewPackage(i)), remote.writes - old(remote.writes),
                          RunToEnd(remote.state, bundle, ReadTag(i)))
      ensures r.Err? ==> EndsAs(r, remote.state, remote.writes - old(remote.writes),
                                RunToEnd(old(remote.state), bundle, ViewPackage(i)))
    {
      var pkg := bundle.packages[i];
      RunUnfolds(remote.state, bundle, ViewPackage(i));
      var existing := RemoteIntegrity(remote.state, pkg.name, bundle.version);
      if existing.Err? {
        return Err(existing.error);
      }
      if existing.value.None? {
        RunUnfolds(remote.state, bundle, UploadPackage(i));
        r := remote.Publish(pkg, bundle.version, bundle.distTag);
        return;
      }
      if existing.value.value != pkg.integrity {
        return Err(DifferentIntegrity(pkg.name));
      }
      return Ok(());
    }

    /** One turn of the publishing loop. */
    method PublishPackage(i: nat) returns (r: Result<(), Error>)
      requires i < |bundle.packages|
      modifies remote
      ensures remote.writes >= old(remote.writes)
      ensures r.Ok? ==>
                Continues(RunToEnd(old(remote.state), bundle, ViewPackage(i)), remote.writes - old(remote.writes),
                          RunToEnd(remote.state, bundle, AtPackage(bundle, i + 1)))
      ensures r.Err? ==> EndsAs(r, remote.state, remote.writes - old(remote.writes),
                                RunToEnd(old(remote.state), bundle, ViewPackage(i)))
    {
      r := UploadIfMissing(i);
      if r.Err? {
        return;
      }
      RunUnfolds(remote.state, bundle, ReadTag(i));
      RunUnfolds(remote.state, bundle, WriteTag(i));
      r := EnsureDistTag(bundle.packages[i].name, bundle.distTag);
    }

    method Publish() returns (r: Result<(), Error>)
      modifies remote
      ensures remote.writes >= old(remote.writes)
      ensures EndsAs(r, remote.state, remote.writes - old(remote.writes),
                     RunToEnd(old(remote.state), bundle, AtPackage(bundle, 0)))
    {
      ghost var whole := RunToEnd(remote.state, bundle, AtPackage(bundle, 0));
      for i := 0 to |bundle.packages|
        invariant remote.writes >= old(remote.writes)
        invariant Continues(whole, remote.writes - old(remote.writes),
                            RunToEnd(remote.state, bundle, AtPackage(bundle, i)))
      {
        r := PublishPackage(i);
        if r.Err? {
          return;
        }
      }
      RunUnfolds(remote.state, bundle, ReadLatest);
      RunUnfolds(remote.state, bundle, WriteLatest);
      r := EnsureDistTag(RELEASE_ENTRY_PACKAGE, LATEST_DIST_TAG);
      if r.Ok? {
        r := Verify();
      }
    }

    /** A tag must name the bundle's version. */
    method RequireDistTag(name: Name, tag: Tag) returns (r: Result<(), Error>)
      ensures var read := RemoteDistTag(remote.state, name, tag);
              r == if read.Err? then Err(read.error)
                   else if read.value == Some(bundle.version) then Ok(())
                   else Err(WrongTag(name, tag))
    {
      var read := RemoteDistTag(remote.state, name, tag);
      if read.Err? {
        return Err(read.error);
      }
      if read.value != Some(bundle.version) {
        return Err(WrongTag(name, tag));
      }
      return Ok(());
    }

    method Verify() returns (r: Result<(), Error>)
      ensures EndsAs(r, remote.state, 0, RunToEnd(remote.state, bundle, AtVerify(bundle, 0)))
    {
      ghost var whole := RunToEnd(remote.state, bundle, AtVerify(bundle, 0));
      for i := 0 to |bundle.packages|
        invariant whole == RunToEnd(remote.state, bundle, AtVerify(bundle, i))
      {
        var pkg := bundle.packages[i];
        RunUnfolds(remote.state, bundle, VerifyIntegrity(i));
        RunUnfolds(remote.state, bundle, VerifyTag(i));
        var existing := RemoteIntegrity(remote.state, pkg.name, bundle.version);
        if existing.Err? {
          return Err(existing.error);
        }
        if existing.value.None? {
          return Err(MissingPackage(pkg.name));
        }
        if existing.value.value != pkg.integrity {
          return Err(DifferentIntegrity(pkg.name));
        }
        r := RequireDistTag(pkg.name, bundle.distTag);
        if r.Err? {
          return;
        }
      }
      RunUnfolds(remote.state, bundle, VerifyLatest);
      r := RequireDistTag(RELEASE_ENTRY_PACKAGE, LATEST_DIST_TAG);
    }
  }
}
