/** The registry commands of one publication run and the steps the run takes through them
  * (scripts/publish-npm-baseline.ts, `RegistryPublication`). */
module PublishSteps {
  import opened Wrappers

  type Name = string
  type Version = string
  type Tag = string
  type Integrity = string

  const RELEASE_ENTRY_PACKAGE: Name := "@deepseek-ai/dsh"
  const LATEST_DIST_TAG: Tag := "latest"

  datatype Package = Package(name: Name, integrity: Integrity)

  datatype Bundle = Bundle(version: Version, distTag: Tag, packages: seq<Package>)

  /** Published versions never change; tags may be moved. */
  datatype Registry = Registry(versions: map<(Name, Version), Integrity>, tags: map<(Name, Tag), Version>)

  datatype Error =
    | NoIntegrity(name: Name)
    | DifferentIntegrity(name: Name)
    | MissingPackage(name: Name)
    | WrongTag(name: Name, tag: Tag)
    | CommandFailed

  predicate Sha512(integrity: Integrity) {
    "sha512-" <= integrity
  }

  /** What loading a manifest establishes: at least one package, distinct names, real digests. */
  predicate ValidBundle(b: Bundle) {
    && b.packages != []
    && (forall i, j :: 0 <= i < j < |b.packages| ==> b.packages[i].name != b.packages[j].name)
    && (forall i :: 0 <= i < |b.packages| ==> Sha512(b.packages[i].integrity))
  }

  // ---- registry commands ----

  /** `npm view`: absent, present with a digest, or present without one. */
  function RemoteIntegrity(reg: Registry, name: Name, version: Version): Result<Option<Integrity>, Error> {
    if (name, version) !in reg.versions then Ok(None)
    else if !Sha512(reg.versions[(name, version)]) then Err(NoIntegrity(name))
    else Ok(Some(reg.versions[(name, version)]))
  }

  /** `npm publish --tag`: refused for an existing version. */
  function Upload(reg: Registry, p: Package, version: Version, tag: Tag): Result<Registry, Error> {
    if (p.name, version) in reg.versions then Err(CommandFailed)
    else Ok(Registry(reg.versions[(p.name, version) := p.integrity], reg.tags[(p.name, tag) := version]))
  }

  /** `npm dist-tag ls`: fails for a package the registry does not know. */
  function RemoteDistTag(reg: Registry, name: Name, tag: Tag): Result<Option<Version>, Error> {
    if forall k :: k in reg.versions ==> k.0 != name then Err(CommandFailed)
    else if (name, tag) in reg.tags then Ok(Some(reg.tags[(name, tag)]))
    else Ok(None)
  }

  /** `npm dist-tag add`: refused for a missing version. */
  function AddDistTag(reg: Registry, name: Name, version: Version, tag: Tag): Result<Registry, Error> {
    if (name, version) !in reg.versions then Err(CommandFailed)
    else Ok(reg.(tags := reg.tags[(name, tag) := version]))
  }

  // ---- the run as a step machine: one registry command a step ----

  datatype Pc =
    | ViewPackage(i: nat)
    | UploadPackage(i: nat)
    | ReadTag(i: nat)
    | WriteTag(i: nat)
    | ReadLatest
    | WriteLatest
    | VerifyIntegrity(i: nat)
    | VerifyTag(i: nat)
    | VerifyLatest
    | Done
    | Failed(error: Error)

  function AtPackage(b: Bundle, i: nat): Pc {
    if i < |b.packages| then ViewPackage(i) else ReadLatest
  }

  function AtVerify(b: Bundle, i: nat): Pc {
    if i < |b.packages| then VerifyIntegrity(i) else VerifyLatest
  }

  predicate ValidPc(b: Bundle, pc: Pc) {
    match pc
    case ViewPackage(i) => i < |b.packages|
    case UploadPackage(i) => i < |b.packages|
    case ReadTag(i) => i < |b.packages|
    case WriteTag(i) => i < |b.packages|
    case VerifyIntegrity(i) => i < |b.packages|
    case VerifyTag(i) => i < |b.packages|
    case _ => true
  }

  predicate Terminal(pc: Pc) {
    pc.Done? || pc.Failed?
  }

  predicate Writes(pc: Pc) {
    pc.UploadPackage? || pc.WriteTag? || pc.WriteLatest?
  }

  /** After a tag was read: go on if it already names the version, else write it. */
  function AfterRead(tag: Result<Option<Version>, Error>, version: Version, next: Pc, write: Pc): Pc {
    if tag.Err? then Failed(tag.error)
    else if tag.value == Some(version) then next
    else write
  }

  function AfterWrite(reg: Registry, written: Result<Registry, Error>, next: Pc): (Registry, Pc) {
    if written.Err? then (reg, Failed(written.error)) else (written.value, next)
  }

  function StepOf(reg: Registry, b: Bundle, pc: Pc): (r: (Registry, Pc))
    requires ValidPc(b, pc) && !Terminal(pc)
    ensures ValidPc(b, r.1)
  {
    match pc
    case ViewPackage(i) =>
      var p := b.packages[i];
      var existing := RemoteIntegrity(reg, p.name, b.version);
      (reg, if existing.Err? then Failed(existing.error)
            else if existing.value.None? then UploadPackage(i)
            else if existing.value.value != p.integrity then Failed(DifferentIntegrity(p.name))
            else ReadTag(i))
    case UploadPackage(i) =>
      AfterWrite(reg, Upload(reg, b.packages[i], b.version, b.distTag), ReadTag(i))
    case ReadTag(i) =>
      (reg, AfterRead(RemoteDistTag(reg, b.packages[i].name, b.distTag), b.version, AtPackage(b, i + 1), WriteTag(i)))
    case WriteTag(i) =>
      AfterWrite(reg, AddDistTag(reg, b.packages[i].name, b.version, b.distTag), AtPackage(b, i + 1))
    case ReadLatest =>
      (reg, AfterRead(RemoteDistTag(reg, RELEASE_ENTRY_PACKAGE, LATEST_DIST_TAG), b.version, AtVerify(b, 0), WriteLatest))
    case WriteLatest =>
      AfterWrite(reg, AddDistTag(reg, RELEASE_ENTRY_PACKAGE, b.version, LATEST_DIST_TAG), AtVerify(b, 0))
    case VerifyIntegrity(i) =>
      var p := b.packages[i];
      var existing := RemoteIntegrity(reg, p.name, b.version);
      (reg, if existing.Err? then Failed(existing.error)
            else if existing.value.None? then Failed(MissingPackage(p.name))
            else if existing.value.value != p.integrity then Failed(DifferentIntegrity(p.name))
            else VerifyTag(i))
    case VerifyTag(i) =>
      var name := b.packages[i].name;
      (reg, AfterRead(RemoteDistTag(reg, name, b.distTag), b.version, AtVerify(b, i + 1), Failed(WrongTag(name, b.distTag))))
    case VerifyLatest =>
      (reg, AfterRead(RemoteDistTag(reg, RELEASE_ENTRY_PACKAGE, LATEST_DIST_TAG), b.version, Done,
                      Failed(WrongTag(RELEASE_ENTRY_PACKAGE, LATEST_DIST_TAG))))
  }

  /** An upper bound on the steps left. */
  function Remaining(b: Bundle, pc: Pc): nat
    requires ValidPc(b, pc)
  {
    var n := |b.packages|;
    match pc
    case ViewPackage(i) => 4 * (n - i) + 2 * n + 3
    case UploadPackage(i) => 4 * (n - i) + 2 * n + 2
    case ReadTag(i) => 4 * (n - i) + 2 * n + 1
    case WriteTag(i) => 4 * (n - i) + 2 * n
    case ReadLatest => 2 * n + 3
    case WriteLatest => 2 * n + 2
    case VerifyIntegrity(i) => 2 * (n - i) + 1
    case VerifyTag(i) => 2 * (n - i)
    case VerifyLatest => 1
    case Done => 0
    case Failed(_) => 0
  }

  lemma StepShortens(reg: Registry, b: Bundle, pc: Pc)
    requires ValidPc(b, pc) && !Terminal(pc)
    ensures Remaining(b, StepOf(reg, b, pc).1) < Remaining(b, pc)
  {
  }

  /** A run left alone, to its end: the final registry, where it stops, and how many writes it made. */
  datatype Outcome = Outcome(registry: Registry, pc: Pc, writes: nat)

  function RunToEnd(reg: Registry, b: Bundle, pc: Pc): (r: Outcome)
    requires ValidPc(b, pc)
    ensures Terminal(r.pc)
    decreases Remaining(b, pc)
  {
    if Terminal(pc) then Outcome(reg, pc, 0)
    else
      StepShortens(reg, b, pc);
      var (reg', pc') := StepOf(reg, b, pc);
      var rest := RunToEnd(reg', b, pc');
      rest.(writes := rest.writes + if Writes(pc) && !pc'.Failed? then 1 else 0)
  }

  lemma RunUnfolds(reg: Registry, b: Bundle, pc: Pc)
    requires ValidPc(b, pc) && !Terminal(pc)
    ensures var (reg', pc') := StepOf(reg, b, pc);
            var rest := RunToEnd(reg', b, pc');
            RunToEnd(reg, b, pc) == rest.(writes := rest.writes + if Writes(pc) && !pc'.Failed? then 1 else 0)
  {
  }

  /** The state after some steps of a run left alone; a finished run stays where it is. */
  function After(reg: Registry, b: Bundle, pc: Pc, steps: nat): (r: (Registry, Pc))
    requires ValidPc(b, pc)
    ensures ValidPc(b, r.1)
    decreases steps
  {
    if steps == 0 || Terminal(pc) then (reg, pc)
    else
      var (reg', pc') := StepOf(reg, b, pc);
      After(reg', b, pc', steps - 1)
  }

  // ---- what a release must leave in the registry ----

  predicate PresentAt(reg: Registry, b: Bundle, i: nat)
    requires i < |b.packages|
  {
    (b.packages[i].name, b.version) in reg.versions && reg.versions[(b.packages[i].name, b.version)] == b.packages[i].integrity
  }

  /** The first n packages exist at the bundle's version with their recorded integrity. */
  predicate Present(reg: Registry, b: Bundle, n: nat)
    requires n <= |b.packages|
  {
    forall i :: 0 <= i < n ==> PresentAt(reg, b, i)
  }

  predicate Complete(reg: Registry, b: Bundle) {
    Present(reg, b, |b.packages|)
  }

  /** Versions are immutable: nothing that was published disappears or changes. */
  ghost predicate Grows(reg: Registry, reg': Registry) {
    forall k :: k in reg.versions ==> k in reg'.versions && reg'.versions[k] == reg.versions[k]
  }
}
