/**
 Publishing a release bundle to a registry, and resuming it after an interruption
 (docker/support/scripts/publish-npm-baseline.ts).

 The registry is an index of package versions and dist-tags; each client command changes it
 atomically.  A command is due when the manifest still needs it.  Every run, finished or cut
 short, consists of due commands, and every run of due commands aims at the same index.
 */
module RegistryPublication {
  import opened Wrappers

  const RELEASE_ENTRY_PACKAGE: string := "@deepseek-ai/dsh"
  const LATEST_DIST_TAG: string := "latest"

  datatype PackedPackage = PackedPackage(name: string, integrity: string)

  datatype Manifest = Manifest(version: string, distTag: string, packages: seq<PackedPackage>)

  /** The versions of one package with their integrity, and its dist-tags. */
  datatype Published = Published(versions: map<string, string>, tags: map<string, string>)

  type Index = map<string, Published>

  datatype Command = PublishTarball(pkg: PackedPackage) | AddDistTag(name: string, tag: string)

  datatype PublicationError =
    | DifferentIntegrity(name: string)
    | PackageMissing(name: string)
    | IntegrityMismatch(name: string)
    | TagPointsElsewhere(name: string, tag: string)
    | CommandFailed(name: string)
    | Interrupted

  // ---------------------------------------------------------------- registry state

  function RemoteIntegrity(index: Index, name: string, version: string): Option<string> {
    if name in index && version in index[name].versions then Some(index[name].versions[version]) else None
  }

  function RemoteTag(index: Index, name: string, tag: string): Option<string> {
    if name in index && tag in index[name].tags then Some(index[name].tags[tag]) else None
  }

  /** The registry's own guarantee: a dist-tag names a version that exists. */
  ghost predicate WellFormed(index: Index) {
    forall name, tag :: name in index && tag in index[name].tags ==> index[name].tags[tag] in index[name].versions
  }

  /**
   What a command does.  Publishing sets the chosen dist-tag; some registries also point
   `latest` at the first version a name ever gets.
   */
  function Apply(m: Manifest, seedsLatest: bool, index: Index, c: Command): Index {
    match c
    case PublishTarball(pkg) =>
      var known := if pkg.name in index then index[pkg.name] else Published(map[], map[]);
      var tags := if seedsLatest && pkg.name !in index then known.tags[LATEST_DIST_TAG := m.version] else known.tags;
      index[pkg.name := Published(known.versions[m.version := pkg.integrity], tags[m.distTag := m.version])]
    case AddDistTag(name, tag) =>
      if name in index then index[name := index[name].(tags := index[name].tags[tag := m.version])] else index
  }

  function Run(m: Manifest, seedsLatest: bool, index: Index, log: seq<Command>): Index {
    if log == [] then index
    else Apply(m, seedsLatest, Run(m, seedsLatest, index, log[..|log| - 1]), log[|log| - 1])
  }

  // ---------------------------------------------------------------- what the manifest asks for

  ghost predicate DistinctNames(m: Manifest) {
    forall i, j :: 0 <= i < j < |m.packages| ==> m.packages[i].name != m.packages[j].name
  }

  predicate Listed(m: Manifest, name: string) {
    exists p :: p in m.packages && p.name == name
  }

  /** A dist-tag the manifest wants on a package. */
  predicate Wanted(m: Manifest, name: string, tag: string) {
    (Listed(m, name) && tag == m.distTag) || (name == RELEASE_ENTRY_PACKAGE && tag == LATEST_DIST_TAG)
  }

  predicate Due(m: Manifest, index: Index, c: Command) {
    match c
    case PublishTarball(pkg) => pkg in m.packages && RemoteIntegrity(index, pkg.name, m.version).None?
    case AddDistTag(name, tag) =>
      && Wanted(m, name, tag)
      && RemoteIntegrity(index, name, m.version).Some? && RemoteTag(index, name, tag) != Some(m.version)
  }

  ghost predicate DueRun(m: Manifest, seedsLatest: bool, index: Index, log: seq<Command>) {
    log == []
    || (&& DueRun(m, seedsLatest, index, log[..|log| - 1])
        && Due(m, Run(m, seedsLatest, index, log[..|log| - 1]), log[|log| - 1]))
  }

  ghost predicate Settled(m: Manifest, index: Index) {
    forall c :: !Due(m, index, c)
  }

  /**
   The registries a publication can complete on: no listed version exists with other bytes, and
   the entry package is listed or its version is already there.
   */
  ghost predicate Publishable(m: Manifest, index: Index) {
    && (forall p :: p in m.packages ==> RemoteIntegrity(index, p.name, m.version) in {None, Some(p.integrity)})
    && (Listed(m, RELEASE_ENTRY_PACKAGE) || RemoteIntegrity(index, RELEASE_ENTRY_PACKAGE, m.version).Some?)
  }

  /** What `verify` accepts. */
  ghost predicate Verified(m: Manifest, index: Index) {
    && (forall p :: p in m.packages ==>
          && RemoteIntegrity(index, p.name, m.version) == Some(p.integrity)
          && RemoteTag(index, p.name, m.distTag) == Some(m.version))
    && RemoteTag(index, RELEASE_ENTRY_PACKAGE, LATEST_DIST_TAG) == Some(m.version)
  }

  // ---------------------------------------------------------------- the index aimed at

  ghost function IntegrityOf(m: Manifest, name: string): (i: string)
    requires Listed(m, name)
    ensures exists p :: p in m.packages && p.name == name && p.integrity == i
  {
    var p :| p in m.packages && p.name == name;
    p.integrity
  }

  ghost function TargetPackage(m: Manifest, seedsLatest: bool, index: Index, name: string): Published {
    var known := if name in index then index[name] else Published(map[], map[]);
    var versions := if Listed(m, name) then known.versions[m.version := IntegrityOf(m, name)] else known.versions;
    var seeded := if seedsLatest && name !in index then known.tags[LATEST_DIST_TAG := m.version] else known.tags;
    var tagged := if Listed(m, name) then seeded[m.distTag := m.version] else seeded;
    Published(versions, if name == RELEASE_ENTRY_PACKAGE then tagged[LATEST_DIST_TAG := m.version] else tagged)
  }

  ghost function ListedNames(m: Manifest): set<string> {
    set p | p in m.packages :: p.name
  }

  /** The index in which everything the manifest asks for has happened and nothing else has. */
  ghost function Target(m: Manifest, seedsLatest: bool, index: Index): Index {
    map name | name in index.Keys + ListedNames(m) :: TargetPackage(m, seedsLatest, index, name)
  }

  lemma SameName(m: Manifest, p: PackedPackage, q: PackedPackage)
    requires DistinctNames(m) && p in m.packages && q in m.packages && p.name == q.name
    ensures p == q
  {
    var i :| 0 <= i < |m.packages| && m.packages[i] == p;
    var j :| 0 <= j < |m.packages| && m.packages[j] == q;
  }

  lemma ListedIntegrity(m: Manifest, p: PackedPackage)
    requires DistinctNames(m) && p in m.packages
    ensures Listed(m, p.name) && p.name in ListedNames(m) && IntegrityOf(m, p.name) == p.integrity
  {
    var q :| q in m.packages && q.name == p.name && q.integrity == IntegrityOf(m, p.name);
    SameName(m, p, q);
  }

  lemma SameMap<K, V>(a: map<K, V>, b: map<K, V>)
    requires a.Keys == b.Keys && forall k :: k in a ==> a[k] == b[k]
    ensures a == b
  {
  }

  lemma PublishKeepsTarget(m: Manifest, seedsLatest: bool, index: Index, p: PackedPackage, name: string)
    requires DistinctNames(m) && p in m.packages
    requires RemoteIntegrity(index, p.name, m.version).None? && (name in index || Listed(m, name))
    ensures TargetPackage(m, seedsLatest, Apply(m, seedsLatest, index, PublishTarball(p)), name)
            == TargetPackage(m, seedsLatest, index, name)
  {
    ListedIntegrity(m, p);
    if name == p.name {
      var before := TargetPackage(m, seedsLatest, index, name);
      var after := TargetPackage(m, seedsLatest, Apply(m, seedsLatest, index, PublishTarball(p)), name);
      assert after.versions == before.versions;
      assert after.tags == before.tags;
    }
  }

  lemma TagKeepsTarget(m: Manifest, seedsLatest: bool, index: Index, tagged: string, tag: string, name: string)
    requires Due(m, index, AddDistTag(tagged, tag)) && (name in index || Listed(m, name))
    ensures TargetPackage(m, seedsLatest, Apply(m, seedsLatest, index, AddDistTag(tagged, tag)), name)
            == TargetPackage(m, seedsLatest, index, name)
  {
    if name == tagged {
      var before := TargetPackage(m, seedsLatest, index, name);
      var after := TargetPackage(m, seedsLatest, Apply(m, seedsLatest, index, AddDistTag(tagged, tag)), name);
      assert after.tags == before.tags;
    }
  }

  /** A due command moves the registry without moving the target. */
  lemma DueCommandKeepsTarget(m: Manifest, seedsLatest: bool, index: Index, c: Command)
    requires DistinctNames(m) && Due(m, index, c)
    ensures Target(m, seedsLatest, Apply(m, seedsLatest, index, c)) == Target(m, seedsLatest, index)
  {
    hide TargetPackage;
    var next := Apply(m, seedsLatest, index, c);
    assert next.Keys + ListedNames(m) == index.Keys + ListedNames(m);
    forall name | name in index.Keys + ListedNames(m)
      ensures TargetPackage(m, seedsLatest, next, name) == TargetPackage(m, seedsLatest, index, name)
    {
      match c
      case PublishTarball(p) => PublishKeepsTarget(m, seedsLatest, index, p, name);
      case AddDistTag(tagged, tag) => TagKeepsTarget(m, seedsLatest, index, tagged, tag, name);
    }
    SameMap(Target(m, seedsLatest, next), Target(m, seedsLatest, index));
  }

  /** It also keeps the registry well-formed, publishable, and every existing integrity as it was. */
  lemma DueCommandIsSafe(m: Manifest, seedsLatest: bool, index: Index, c: Command)
    requires DistinctNames(m) && WellFormed(index) && Due(m, index, c)
    ensures WellFormed(Apply(m, seedsLatest, index, c))
    ensures Publishable(m, index) <==> Publishable(m, Apply(m, seedsLatest, index, c))
    ensures forall name, version :: RemoteIntegrity(index, name, version).Some? ==>
              RemoteIntegrity(Apply(m, seedsLatest, index, c), name, version) == RemoteIntegrity(index, name, version)
  {
    var next := Apply(m, seedsLatest, index, c);
    forall name, version | RemoteIntegrity(index, name, version).Some?
      ensures RemoteIntegrity(next, name, version) == RemoteIntegrity(index, name, version)
    {
    }
    forall p | p in m.packages
      ensures RemoteIntegrity(next, p.name, m.version) in {None, Some(p.integrity)}
              <==> RemoteIntegrity(index, p.name, m.version) in {None, Some(p.integrity)}
    {
      if c.PublishTarball? && c.pkg.name == p.name {
        SameName(m, c.pkg, p);
      }
    }
    assert (RemoteIntegrity(next, RELEASE_ENTRY_PACKAGE, m.version).Some?
            && RemoteIntegrity(index, RELEASE_ENTRY_PACKAGE, m.version).None?) ==> Listed(m, RELEASE_ENTRY_PACKAGE);
  }

  /** Whatever a run of due commands has done so far: same target, same integrities, still publishable. */
  lemma {:induction false} DueRunsKeepTarget(m: Manifest, seedsLatest: bool, index: Index, log: seq<Command>)
    requires DistinctNames(m) && WellFormed(index) && DueRun(m, seedsLatest, index, log)
    ensures Target(m, seedsLatest, Run(m, seedsLatest, index, log)) == Target(m, seedsLatest, index)
    ensures WellFormed(Run(m, seedsLatest, index, log))
    ensures Publishable(m, index) <==> Publishable(m, Run(m, seedsLatest, index, log))
    ensures forall name, version :: RemoteIntegrity(index, name, version).Some? ==>
              RemoteIntegrity(Run(m, seedsLatest, index, log), name, version) == RemoteIntegrity(index, name, version)
  {
    hide Target, WellFormed, Publishable, Due, RemoteIntegrity, Apply;
    if log != [] {
      var before := log[..|log| - 1];
      DueRunsKeepTarget(m, seedsLatest, index, before);
      DueCommandKeepsTarget(m, seedsLatest, Run(m, seedsLatest, index, before), log[|log| - 1]);
      DueCommandIsSafe(m, seedsLatest, Run(m, seedsLatest, index, before), log[|log| - 1]);
    }
  }

  lemma SettledIsVerified(m: Manifest, index: Index)
    requires WellFormed(index) && Publishable(m, index) && Settled(m, index)
    ensures Verified(m, index)
  {
    forall p | p in m.packages
      ensures RemoteIntegrity(index, p.name, m.version) == Some(p.integrity)
      ensures RemoteTag(index, p.name, m.distTag) == Some(m.version)
    {
      assert !Due(m, index, PublishTarball(p));
      assert !Due(m, index, AddDistTag(p.name, m.distTag));
      assert Listed(m, p.name);
    }
    assert !Due(m, index, AddDistTag(RELEASE_ENTRY_PACKAGE, LATEST_DIST_TAG));
    if Listed(m, RELEASE_ENTRY_PACKAGE) {
      var p :| p in m.packages && p.name == RELEASE_ENTRY_PACKAGE;
    }
  }

  lemma VerifiedPackageIsTarget(m: Manifest, seedsLatest: bool, index: Index, name: string)
    requires DistinctNames(m) && Verified(m, index) && name in index
    ensures TargetPackage(m, seedsLatest, index, name) == index[name]
  {
    var t := TargetPackage(m, seedsLatest, index, name);
    if Listed(m, name) {
      var p :| p in m.packages && p.name == name;
      ListedIntegrity(m, p);
    }
    assert t.versions == index[name].versions;
    assert t.tags == index[name].tags;
  }

  /** A verified registry is its own target: nothing is left to do, and nothing extra was done. */
  lemma VerifiedIsTarget(m: Manifest, seedsLatest: bool, index: Index)
    requires DistinctNames(m) && Verified(m, index)
    ensures Target(m, seedsLatest, index) == index && Settled(m, index)
  {
    forall name | name in index.Keys + ListedNames(m)
      ensures name in index && TargetPackage(m, seedsLatest, index, name) == index[name]
    {
      if name in ListedNames(m) {
        var p :| p in m.packages && p.name == name;
        assert RemoteIntegrity(index, p.name, m.version).Some?;
      }
      VerifiedPackageIsTarget(m, seedsLatest, index, name);
    }
    SameMap(Target(m, seedsLatest, index), index);
    forall c ensures !Due(m, index, c) {
      if c.AddDistTag? && Listed(m, c.name) {
        var p :| p in m.packages && p.name == c.name;
      }
    }
  }

  /**
   Resumability: stop a publication after any commands and run another one to the end; the
   registry is the one an uninterrupted publication reaches, and `verify` accepts it.
   */
  lemma ResumedRunsReachTheSameRegistry(
      m: Manifest, seedsLatest: bool, index: Index,
      interrupted: seq<Command>, resumed: seq<Command>, uninterrupted: seq<Command>)
    requires DistinctNames(m) && WellFormed(index) && Publishable(m, index)
    requires DueRun(m, seedsLatest, index, interrupted)
    requires DueRun(m, seedsLatest, Run(m, seedsLatest, index, interrupted), resumed)
    requires Settled(m, Run(m, seedsLatest, Run(m, seedsLatest, index, interrupted), resumed))
    requires DueRun(m, seedsLatest, index, uninterrupted) && Settled(m, Run(m, seedsLatest, index, uninterrupted))
    ensures Run(m, seedsLatest, Run(m, seedsLatest, index, interrupted), resumed)
        == Run(m, seedsLatest, index, uninterrupted)
    ensures Verified(m, Run(m, seedsLatest, index, uninterrupted))
  {
    hide Target, WellFormed, Publishable, Due, Settled, Verified, Run, DueRun;
    var stopped := Run(m, seedsLatest, index, interrupted);
    DueRunsKeepTarget(m, seedsLatest, index, interrupted);
    DueRunsKeepTarget(m, seedsLatest, stopped, resumed);
    DueRunsKeepTarget(m, seedsLatest, index, uninterrupted);
    SettledIsVerified(m, Run(m, seedsLatest, stopped, resumed));
    SettledIsVerified(m, Run(m, seedsLatest, index, uninterrupted));
    VerifiedIsTarget(m, seedsLatest, Run(m, seedsLatest, stopped, resumed));
    VerifiedIsTarget(m, seedsLatest, Run(m, seedsLatest, index, uninterrupted));
  }

  // ---------------------------------------------------------------- the client

  /** A registry that may stop answering after a given number of further commands. */
  class Registry {
    var index: Index
    var remaining: nat
    const seedsLatest: bool

    constructor (index: Index, remaining: nat, seedsLatest: bool)
      ensures this.index == index && this.remaining == remaining && this.seedsLatest == seedsLatest
    {
      this.index, this.remaining, this.seedsLatest := index, remaining, seedsLatest;
    }

    method Execute(m: Manifest, c: Command) returns (done: bool)
      modifies this
      ensures done <==> old(remaining) > 0
      ensures index == if done then Apply(m, seedsLatest, old(index), c) else old(index)
      ensures remaining == if done then old(remaining) - 1 else old(remaining)
    {
      done := remaining > 0;
      if done {
        index, remaining := Apply(m, seedsLatest, index, c), remaining - 1;
      }
    }
  }

  lemma DueRunsConcat(m: Manifest, seedsLatest: bool, index: Index, log: seq<Command>, c: Command)
    requires DueRun(m, seedsLatest, index, log) && Due(m, Run(m, seedsLatest, index, log), c)
    ensures DueRun(m, seedsLatest, index, log + [c])
    ensures Run(m, seedsLatest, index, log + [c]) == Apply(m, seedsLatest, Run(m, seedsLatest, index, log), c)
  {
    assert (log + [c])[..|log|] == log;
  }

  /** Commands of this manifest only ever point a tag at its own version, so what is done stays done. */
  lemma DoneStaysDone(m: Manifest, seedsLatest: bool, index: Index, c: Command, name: string, tag: string)
    requires RemoteTag(index, name, tag) == Some(m.version)
    ensures RemoteTag(Apply(m, seedsLatest, index, c), name, tag) == Some(m.version)
  {
  }

  /** The first `n` packages are on the registry with the right bytes and the right dist-tag. */
  ghost predicate FirstDone(m: Manifest, index: Index, n: nat)
    requires n <= |m.packages|
  {
    forall j :: 0 <= j < n ==>
      && RemoteIntegrity(index, m.packages[j].name, m.version) == Some(m.packages[j].integrity)
      && RemoteTag(index, m.packages[j].name, m.distTag) == Some(m.version)
  }

  /** The commands that serve the package at position `n`, or the entry package after the last one. */
  ghost predicate Serves(m: Manifest, n: nat, c: Command) {
    if n < |m.packages|
    then c in {PublishTarball(m.packages[n]), AddDistTag(m.packages[n].name, m.distTag)}
    else n == |m.packages| && c == AddDistTag("@deepseek-ai/dsh", "latest")
  }

  /** Each command came after every package before the one it serves was completely done. */
  ghost predicate OneByOne(m: Manifest, seedsLatest: bool, index: Index, log: seq<Command>) {
    log == []
    || (var before := log[..|log| - 1];
        && OneByOne(m, seedsLatest, index, before)
        && exists n | 0 <= n <= |m.packages| ::
             FirstDone(m, Run(m, seedsLatest, index, before), n) && Serves(m, n, log[|log| - 1]))
  }

  lemma OneMoreCommand(m: Manifest, seedsLatest: bool, index: Index, log: seq<Command>, c: Command, n: nat)
    requires OneByOne(m, seedsLatest, index, log)
    requires n <= |m.packages| && FirstDone(m, Run(m, seedsLatest, index, log), n) && Serves(m, n, c)
    ensures OneByOne(m, seedsLatest, index, log + [c])
  {
    assert (log + [c])[..|log|] == log;
  }

  /**
   The entry package's `latest` is moved last: in a run that publishes under another tag, on a registry where the
   first publication of a name does not set it, it has only ever moved once every package was done.
   */
  lemma {:induction false} LatestMovesLast(m: Manifest, seedsLatest: bool, index: Index, log: seq<Command>)
    requires DistinctNames(m) && WellFormed(index) && m.distTag != "latest"
    requires !seedsLatest || "@deepseek-ai/dsh" in index
    requires DueRun(m, seedsLatest, index, log) && OneByOne(m, seedsLatest, index, log)
    ensures var now := Run(m, seedsLatest, index, log);
            RemoteTag(now, "@deepseek-ai/dsh", "latest") != RemoteTag(index, "@deepseek-ai/dsh", "latest") ==>
              FirstDone(m, now, |m.packages|)
    ensures "@deepseek-ai/dsh" in index ==> "@deepseek-ai/dsh" in Run(m, seedsLatest, index, log)
  {
    if log != [] {
      var before, c := log[..|log| - 1], log[|log| - 1];
      var was := Run(m, seedsLatest, index, before);
      LatestMovesLast(m, seedsLatest, index, before);
      DueRunsKeepTarget(m, seedsLatest, index, before);
      hide WellFormed, DistinctNames, Due, OneByOne;
      if FirstDone(m, was, |m.packages|) {
        FirstStayDone(m, seedsLatest, was, c, |m.packages|);
      } else {
        ServedEarlier(m, seedsLatest, index, log, c);
        OtherTagsStay(m, seedsLatest, was, c);
      }
    }
  }

  lemma ServedEarlier(m: Manifest, seedsLatest: bool, index: Index, log: seq<Command>, c: Command)
    requires log != [] && c == log[|log| - 1] && OneByOne(m, seedsLatest, index, log)
    requires !FirstDone(m, Run(m, seedsLatest, index, log[..|log| - 1]), |m.packages|)
    ensures exists n: nat :: n < |m.packages| && Serves(m, n, c)
  {
    var before := log[..|log| - 1];
    var n: nat :| n <= |m.packages| && FirstDone(m, Run(m, seedsLatest, index, before), n) && Serves(m, n, c);
    hide FirstDone;
    assert n != |m.packages|;
  }

  lemma OtherTagsStay(m: Manifest, seedsLatest: bool, index: Index, c: Command)
    requires m.distTag != "latest" && (!seedsLatest || "@deepseek-ai/dsh" in index)
    requires exists n: nat :: n < |m.packages| && Serves(m, n, c)
    ensures RemoteTag(Apply(m, seedsLatest, index, c), "@deepseek-ai/dsh", "latest")
         == RemoteTag(index, "@deepseek-ai/dsh", "latest")
  {
  }

  lemma FirstStayDone(m: Manifest, seedsLatest: bool, index: Index, c: Command, n: nat)
    requires DistinctNames(m) && WellFormed(index) && Due(m, index, c) && n <= |m.packages| && FirstDone(m, index, n)
    ensures FirstDone(m, Apply(m, seedsLatest, index, c), n)
  {
    DueCommandIsSafe(m, seedsLatest, index, c);
    forall j | 0 <= j < n
      ensures RemoteTag(Apply(m, seedsLatest, index, c), m.packages[j].name, m.distTag) == Some(m.version)
    {
      DoneStaysDone(m, seedsLatest, index, c, m.packages[j].name, m.distTag);
    }
  }

  class Publication {
    const m: Manifest
    const registry: Registry

    constructor (m: Manifest, registry: Registry)
      ensures this.m == m && this.registry == registry
    {
      this.m, this.registry := m, registry;
    }

    /** The commands issued since `start`, all of them due, are what separates the two indices. */
    ghost predicate Progress(start: Index, log: seq<Command>, done: nat)
      reads registry
    {
      && DistinctNames(m) && done <= |m.packages|
      && WellFormed(start) && WellFormed(registry.index)
      && DueRun(m, registry.seedsLatest, start, log) && registry.index == Run(m, registry.seedsLatest, start, log)
      && FirstDone(m, registry.index, done)
    }

    lemma Advance(start: Index, log: seq<Command>, done: nat, before: Index, c: Command)
      requires DistinctNames(m) && done <= |m.packages| && WellFormed(start) && WellFormed(before)
      requires DueRun(m, registry.seedsLatest, start, log) && before == Run(m, registry.seedsLatest, start, log)
      requires FirstDone(m, before, done) && Due(m, before, c)
      requires registry.index == Apply(m, registry.seedsLatest, before, c)
      ensures Progress(start, log + [c], done)
      ensures forall name, version :: RemoteIntegrity(before, name, version).Some? ==>
                RemoteIntegrity(registry.index, name, version) == RemoteIntegrity(before, name, version)
    {
      DueRunsConcat(m, registry.seedsLatest, start, log, c);
      DueCommandIsSafe(m, registry.seedsLatest, before, c);
      FirstStayDone(m, registry.seedsLatest, before, c, done);
    }

    method EnsureDistTag(name: string, tag: string, ghost start: Index, ghost log: seq<Command>, ghost done: nat)
      returns (r: Result<(), PublicationError>, ghost log': seq<Command>)
      requires Progress(start, log, done) && Wanted(m, name, tag)
      modifies registry
      ensures Progress(start, log', done) && log' in {log, log + [AddDistTag(name, tag)]}
      ensures |log'| + registry.remaining == |log| + old(registry.remaining)
      ensures r.Success? ==> RemoteTag(registry.index, name, tag) == Some(m.version)
      ensures r.Success? ==>
          RemoteIntegrity(registry.index, name, m.version) == old(RemoteIntegrity(registry.index, name, m.version))
      ensures r == Failure(Interrupted) ==> registry.remaining == 0 && log' == log
      ensures r.Failure? ==> r.error in {Interrupted, CommandFailed(name)}
      ensures r == Failure(CommandFailed(name)) ==>
          log' == log && RemoteIntegrity(registry.index, name, m.version).None?
    {
      log' := log;
      if name !in registry.index {
        return Failure(CommandFailed(name)), log;  // listing the tags of an unknown package fails
      }
      if RemoteTag(registry.index, name, tag) == Some(m.version) {
        return Success(()), log;
      }
      if RemoteIntegrity(registry.index, name, m.version).None? {
        return Failure(CommandFailed(name)), log;  // tagging a version that does not exist fails
      }
      ghost var before := registry.index;
      var sent := registry.Execute(m, AddDistTag(name, tag));
      if !sent {
        return Failure(Interrupted), log;
      }
      Advance(start, log, done, before, AddDistTag(name, tag));
      return Success(()), log + [AddDistTag(name, tag)];
    }

    /** The version is on the registry with the manifest's bytes afterwards, or it cannot be. */
    method EnsurePublished(i: nat, ghost start: Index, ghost log: seq<Command>)
      returns (r: Result<(), PublicationError>, ghost log': seq<Command>)
      requires i < |m.packages| && Progress(start, log, i)
      modifies registry
      ensures log' in {log, log + [PublishTarball(m.packages[i])]}
      ensures |log'| + registry.remaining == |log| + old(registry.remaining)
      ensures Progress(start, log', i)
      ensures r.Success? ==>
                RemoteIntegrity(registry.index, m.packages[i].name, m.version) == Some(m.packages[i].integrity)
      ensures r == Failure(Interrupted) ==> registry.remaining == 0 && log' == log
      ensures r.Failure? && r.error != Interrupted ==> !Publishable(m, registry.index)
      ensures r.Failure? ==> r.error in {Interrupted, DifferentIntegrity(m.packages[i].name)}
    {
      var pkg := m.packages[i];
      log' := log;
      assert pkg in m.packages;
      var existing := RemoteIntegrity(registry.index, pkg.name, m.version);
      if existing.None? {
        ghost var before := registry.index;
        var sent := registry.Execute(m, PublishTarball(pkg));
        if !sent {
          return Failure(Interrupted), log';
        }
        Advance(start, log, i, before, PublishTarball(pkg));
        return Success(()), log + [PublishTarball(pkg)];
      }
      if existing.value != pkg.integrity {
        return Failure(DifferentIntegrity(pkg.name)), log';
      }
      return Success(()), log';
    }

    lemma MayServe(start: Index, log: seq<Command>, n: nat, c: Command)
      requires Progress(start, log, n) && Serves(m, n, c) && OneByOne(m, registry.seedsLatest, start, log)
      ensures OneByOne(m, registry.seedsLatest, start, log + [c])
    {
      OneMoreCommand(m, registry.seedsLatest, start, log, c, n);
    }

    lemma OneMoreDone(start: Index, log: seq<Command>, i: nat)
      requires i < |m.packages| && Progress(start, log, i)
      requires RemoteIntegrity(registry.index, m.packages[i].name, m.version) == Some(m.packages[i].integrity)
      requires RemoteTag(registry.index, m.packages[i].name, m.distTag) == Some(m.version)
      ensures Progress(start, log, i + 1)
    {
    }

    method PublishPackage(i: nat, ghost start: Index, ghost log: seq<Command>)
      returns (r: Result<(), PublicationError>, ghost log': seq<Command>)
      requires i < |m.packages| && Progress(start, log, i) && OneByOne(m, registry.seedsLatest, start, log)
      modifies registry
      ensures |log| <= |log'| <= |log| + 2 && |log'| + registry.remaining == |log| + old(registry.remaining)
      ensures OneByOne(m, registry.seedsLatest, start, log')
      ensures Progress(start, log', if r.Success? then i + 1 else i)
      ensures r == Failure(Interrupted) ==> registry.remaining == 0 && |log'| <= |log| + 1
      ensures r.Failure? && r.error != Interrupted ==> !Publishable(m, registry.index)
    {
      hide Progress, Publishable, RemoteIntegrity, RemoteTag;
      var pkg := m.packages[i];
      MayServe(start, log, i, PublishTarball(pkg));
      r, log' := EnsurePublished(i, start, log);
      if r.Failure? {
        return;
      }
      assert pkg in m.packages && Listed(m, pkg.name);
      MayServe(start, log', i, AddDistTag(pkg.name, m.distTag));
      r, log' := EnsureDistTag(pkg.name, m.distTag, start, log', i);
      if r.Success? {
        OneMoreDone(start, log', i);
      }
    }

    /** What is wrong with the package at position `i`. */
    ghost predicate Refused(i: nat, error: PublicationError)
      requires i < |m.packages|
      reads registry
    {
      var name := m.packages[i].name;
      match RemoteIntegrity(registry.index, name, m.version)
      case None => error == PackageMissing(name)
      case Some(integrity) =>
        if integrity != m.packages[i].integrity then error == IntegrityMismatch(name)
        else
          error == TagPointsElsewhere(name, m.distTag) && RemoteTag(registry.index, name, m.distTag) != Some(m.version)
    }

    method VerifyRemote() returns (r: Result<(), PublicationError>)
      ensures r.Success? <==> FirstDone(m, registry.index, |m.packages|)
      ensures r.Failure? ==>
                exists i: nat :: i < |m.packages| && FirstDone(m, registry.index, i) && Refused(i, r.error)
    {
      for i := 0 to |m.packages|
        invariant FirstDone(m, registry.index, i)
      {
        var pkg := m.packages[i];
        var integrity := RemoteIntegrity(registry.index, pkg.name, m.version);
        if integrity.None? {
          return Failure(PackageMissing(pkg.name));
        }
        if integrity.value != pkg.integrity {
          return Failure(IntegrityMismatch(pkg.name));
        }
        if RemoteTag(registry.index, pkg.name, m.distTag) != Some(m.version) {
          return Failure(TagPointsElsewhere(pkg.name, m.distTag));
        }
      }
      return Success(());
    }

    method VerifyReleaseEntryDistTag() returns (r: Result<(), PublicationError>)
      ensures r.Success? <==> RemoteTag(registry.index, RELEASE_ENTRY_PACKAGE, LATEST_DIST_TAG) == Some(m.version)
      ensures r.Failure? ==>
                r.error == if "@deepseek-ai/dsh" in registry.index then TagPointsElsewhere("@deepseek-ai/dsh", "latest")
                           else CommandFailed("@deepseek-ai/dsh")
    {
      if RELEASE_ENTRY_PACKAGE !in registry.index {
        return Failure(CommandFailed(RELEASE_ENTRY_PACKAGE));
      }
      if RemoteTag(registry.index, RELEASE_ENTRY_PACKAGE, LATEST_DIST_TAG) != Some(m.version) {
        return Failure(TagPointsElsewhere(RELEASE_ENTRY_PACKAGE, LATEST_DIST_TAG));
      }
      return Success(());
    }

    /** Verification changes nothing and accepts exactly the verified registries. */
    method Verify() returns (r: Result<(), PublicationError>)
      ensures r.Success? <==> Verified(m, registry.index)
    {
      r := VerifyRemote();
      assert FirstDone(m, registry.index, |m.packages|) <==>
             forall p :: p in m.packages ==>
               && RemoteIntegrity(registry.index, p.name, m.version) == Some(p.integrity)
               && RemoteTag(registry.index, p.name, m.distTag) == Some(m.version);
      if r.Success? {
        r := VerifyReleaseEntryDistTag();
      }
    }

    /**
     One publication: it issues due commands only; it succeeds, leaving a verified registry, unless
     it is cut off or the registry was not publishable to begin with.  A registry that accepts more
     than two commands a package is never the reason it stops.
     */
    method Publish() returns (r: Result<(), PublicationError>, ghost log: seq<Command>)
      requires DistinctNames(m) && WellFormed(registry.index)
      modifies registry
      ensures DueRun(m, registry.seedsLatest, old(registry.index), log)
      ensures registry.index == Run(m, registry.seedsLatest, old(registry.index), log)
      ensures OneByOne(m, registry.seedsLatest, old(registry.index), log)
      ensures r.Success? ==> Publishable(m, old(registry.index)) && Verified(m, registry.index)
      ensures r.Success? ==> registry.index == Target(m, registry.seedsLatest, old(registry.index))
      ensures r == Failure(Interrupted) ==> registry.remaining == 0 && old(registry.remaining) <= 2 * |m.packages|
      ensures r.Failure? && r.error != Interrupted ==> !Publishable(m, old(registry.index))
    {
      hide Publishable, Verified, Target, DueRun, Run, WellFormed;
      ghost var start := registry.index;
      log := [];
      EmptyRun(m, registry.seedsLatest, start);
      for i := 0 to |m.packages|
        invariant Progress(start, log, i) && |log| <= 2 * i && OneByOne(m, registry.seedsLatest, start, log)
        invariant |log| + registry.remaining == old(registry.remaining)
      {
        r, log := PublishPackage(i, start, log);
        if r.Failure? {
          DueRunsKeepTarget(m, registry.seedsLatest, start, log);
          return;
        }
      }
      MayServe(start, log, |m.packages|, AddDistTag(RELEASE_ENTRY_PACKAGE, LATEST_DIST_TAG));
      r, log := EnsureDistTag(RELEASE_ENTRY_PACKAGE, LATEST_DIST_TAG, start, log, |m.packages|);
      DueRunsKeepTarget(m, registry.seedsLatest, start, log);
      if r.Failure? {
        EntryUnavailable(m, registry.index, r.error);
        return;
      }
      AllDone(m, registry.index);
      VerifiedIsTarget(m, registry.seedsLatest, registry.index);
      r := Verify();
    }
  }

  lemma EmptyRun(m: Manifest, seedsLatest: bool, index: Index)
    ensures DueRun(m, seedsLatest, index, []) && Run(m, seedsLatest, index, []) == index
  {
  }

  lemma EntryUnavailable(m: Manifest, index: Index, e: PublicationError)
    requires FirstDone(m, index, |m.packages|)
    requires e == CommandFailed(RELEASE_ENTRY_PACKAGE) ==>
        RemoteIntegrity(index, RELEASE_ENTRY_PACKAGE, m.version).None?
    ensures e == CommandFailed(RELEASE_ENTRY_PACKAGE) ==> !Publishable(m, index)
  {
    if Listed(m, RELEASE_ENTRY_PACKAGE) {
      var p :| p in m.packages && p.name == RELEASE_ENTRY_PACKAGE;
      var j :| 0 <= j < |m.packages| && m.packages[j] == p;
    }
  }

  lemma AllDone(m: Manifest, index: Index)
    requires WellFormed(index) && FirstDone(m, index, |m.packages|)
    requires RemoteTag(index, RELEASE_ENTRY_PACKAGE, LATEST_DIST_TAG) == Some(m.version)
    ensures Verified(m, index) && Publishable(m, index)
  {
    forall p | p in m.packages
      ensures RemoteIntegrity(index, p.name, m.version) == Some(p.integrity)
      ensures RemoteTag(index, p.name, m.distTag) == Some(m.version)
    {
      var j :| 0 <= j < |m.packages| && m.packages[j] == p;
    }
  }
}
