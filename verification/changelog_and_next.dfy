/** `ChangelogAndNext`: parse the changelog, choose the next version, and remember
    the versions per changelog file so that an unchanged file and configuration
    need not be parsed again. */
module ChangelogAndNext {
  import opened Wrappers
  import opened Text
  import Changelogs
  import NextVersionFunctions
  import opened SerializedValues

  const DEFAULT_FILE: string := "CHANGELOG.md"
  const FIRST_VERSION: string := "0.1.0"
  const DASH_SNAPSHOT: string := "-SNAPSHOT"

  /** `NextVersionCfg`: a forced version, the rule, and whether to append "-SNAPSHOT". */
  datatype NextVersionCfg = NextVersionCfg(
    forceNextVersion: Option<string>,
    versionFunction: NextVersionFunctions.NextVersionFunction,
    appendSnapshot: bool)

  /** `Versions`: the next version and the last published one, null when there is none. */
  datatype Versions = Versions(next: string, last: Option<string>)

  /** The changelog (parsed lazily by the program) and the versions. */
  datatype ChangelogAndNext = ChangelogAndNext(changelog: Changelogs.Changelog, versions: Versions)

  /** The version before the snapshot suffix: forced, first, unchanged, or bumped. */
  function ChooseNext(c: Changelogs.Changelog, cfg: NextVersionCfg): (r: Result<string>)
    requires Changelogs.WellFormed(c)
    ensures var last := Changelogs.VersionLast(c).value;
            && (cfg.forceNextVersion.Some? ==> r == Success(cfg.forceNextVersion.value))
            && (cfg.forceNextVersion.None? && last.None? ==> r == Success(FIRST_VERSION))
            && (cfg.forceNextVersion.None? && last.Some? && AllBlank(Changelogs.UnreleasedChanges(c).value) ==>
                  r == Success(last.value))
            && (cfg.forceNextVersion.None? && last.Some? && !AllBlank(Changelogs.UnreleasedChanges(c).value) ==>
                  r == NextVersionFunctions.NextVersion(cfg.versionFunction, Changelogs.UnreleasedChanges(c).value, last))
  {
    // a parsed document never makes these two throw
    var last := Changelogs.VersionLast(c).value;
    var noUnreleasedChanges := Changelogs.NoUnreleasedChanges(c).value;
    if cfg.forceNextVersion.Some? then Success(cfg.forceNextVersion.value)
    else if last.None? then Success(FIRST_VERSION)
    else if noUnreleasedChanges then Success(last.value)
    else NextVersionFunctions.NextVersionOf(cfg.versionFunction, c)
  }

  /** The snapshot step: the suffix is appended once, and a version that already
      carries it is refused with a message naming it. */
  function AppendSnapshot(next: string, appendSnapshot: bool): (r: Result<string>)
    ensures !appendSnapshot ==> r == Success(next)
    ensures appendSnapshot ==> (r.Success? <==> !EndsWith(next, DASH_SNAPSHOT))
    ensures appendSnapshot && r.Success? ==>
              EndsWith(r.value, DASH_SNAPSHOT) && r.value[..|r.value| - |DASH_SNAPSHOT|] == next
    ensures r.Failure? ==> r.error == "Can't append -SNAPSHOT to " + next + " because it's already there!"
  {
    if !appendSnapshot then Success(next)
    else if EndsWith(next, DASH_SNAPSHOT) then
      Failure("Can't append -SNAPSHOT to " + next + " because it's already there!")
    else
      var r := next + DASH_SNAPSHOT;
      assert r[|r| - |DASH_SNAPSHOT|..] == DASH_SNAPSHOT;
      Success(r)
  }

  /** A snapshot version cannot be turned into a snapshot again. */
  lemma SnapshotOnce(next: string)
    requires AppendSnapshot(next, true).Success?
    ensures AppendSnapshot(AppendSnapshot(next, true).value, true).Failure?
  {
  }

  /** `calculate(content, cfg)`. */
  function Calculate(content: string, cfg: NextVersionCfg): (r: Result<ChangelogAndNext>)
    ensures var c := Changelogs.Parse(content);
            && (r.Success? <==> ChooseNext(c, cfg).Success? && AppendSnapshot(ChooseNext(c, cfg).value, cfg.appendSnapshot).Success?)
            && (r.Success? ==> r.value.changelog == c
                               && r.value.versions.last == Changelogs.VersionLast(c).value
                               && r.value.versions.next == AppendSnapshot(ChooseNext(c, cfg).value, cfg.appendSnapshot).value)
  {
    var changelog := Changelogs.Parse(content);
    var next :- ChooseNext(changelog, cfg);
    var next' :- AppendSnapshot(next, cfg.appendSnapshot);
    Success(ChangelogAndNext(changelog, Versions(next', Changelogs.VersionLast(changelog).value)))
  }

  /** A forced version is used as given, even for a changelog with no release yet. */
  lemma ForcedWins(content: string, cfg: NextVersionCfg)
    requires cfg.forceNextVersion.Some? && !cfg.appendSnapshot
    ensures Calculate(content, cfg).Success?
    ensures Calculate(content, cfg).value.versions.next == cfg.forceNextVersion.value
  {
  }

  /** With no release yet and no forced version, the next version is "0.1.0", plus
      the snapshot suffix when asked for. */
  lemma FirstVersion(content: string, cfg: NextVersionCfg)
    requires cfg.forceNextVersion.None?
    requires Changelogs.VersionLast(Changelogs.Parse(content)) == Success(None)
    ensures Calculate(content, cfg).Success?
    ensures Calculate(content, cfg).value.versions.next
              == if cfg.appendSnapshot then FIRST_VERSION + DASH_SNAPSHOT else FIRST_VERSION
  {
    var c := Changelogs.Parse(content);
    assert ChooseNext(c, cfg) == Success(FIRST_VERSION);
    assert !EndsWith(FIRST_VERSION, DASH_SNAPSHOT);
  }

  // ---------------------------------------------------------------- cache

  /** `FileSignature`: the canonical path, the size and the modification time. */
  datatype FileSignature = FileSignature(canonicalPath: string, filesize: int, lastModified: int)

  /** `Input`: what the cache key is serialized from. */
  datatype Input = Input(changelogFile: FileSignature, cfgNextVersion: Option<NextVersionCfg>)

  /** The static cache: per canonical path, the serialized input and the versions
      computed from it. */
  type Cache = map<string, (Serialized<Input>, Versions)>

  function PathOf(inputActual: Serialized<Input>): string
    requires inputActual.value.Some?
  {
    inputActual.value.value.changelogFile.canonicalPath
  }

  /** `cacheRead(inputActual)`: a hit needs an entry under the same path whose
      serialized input has the same bytes. */
  function CacheRead(cache: Cache, inputActual: Serialized<Input>): (r: Option<Versions>)
    requires inputActual.value.Some?
    ensures r.Some? <==> PathOf(inputActual) in cache && cache[PathOf(inputActual)].0.bytes.Some?
                         && cache[PathOf(inputActual)].0.bytes == inputActual.bytes
    ensures r.Some? ==> r.value == cache[PathOf(inputActual)].1
  {
    var path := PathOf(inputActual);
    if path in cache && Equals(cache[path].0, SerializedObj(inputActual)) then Some(cache[path].1)
    else None
  }

  /** `cacheStore(inputActual, versions)`: the entry under the path is replaced and
      every other entry stays. */
  function CacheStore(cache: Cache, inputActual: Serialized<Input>, versions: Versions): (r: Cache)
    requires inputActual.value.Some?
    ensures r.Keys == cache.Keys + {PathOf(inputActual)}
    ensures r[PathOf(inputActual)].1 == versions && r[PathOf(inputActual)].0.bytes == inputActual.bytes
    ensures forall p :: p in cache && p != PathOf(inputActual) ==> r[p] == cache[p]
  {
    cache[PathOf(inputActual) := (inputActual, versions)]
  }

  /** A stored input is read back, as long as it has bytes. */
  lemma StoreThenRead(cache: Cache, inputActual: Serialized<Input>, versions: Versions)
    requires inputActual.value.Some? && inputActual.bytes.Some?
    ensures CacheRead(CacheStore(cache, inputActual, versions), inputActual) == Some(versions)
  {
  }

  /** Storing under one path leaves the reads of every other path as they were. */
  lemma StoreKeepsOtherPaths(cache: Cache, inputActual: Serialized<Input>, versions: Versions,
                             other: Serialized<Input>)
    requires inputActual.value.Some? && other.value.Some?
    requires PathOf(other) != PathOf(inputActual)
    ensures CacheRead(CacheStore(cache, inputActual, versions), other) == CacheRead(cache, other)
  {
  }

  /** `calculateUsingCache(changelogFile, cfg)` on a file with the given signature
      and content. A hit returns the stored versions and leaves the cache as it is;
      a miss calculates and stores. The serialization of the input is a parameter. */
  function CalculateUsingCache(cache: Cache, signature: FileSignature, content: string, cfg: NextVersionCfg,
                               serialize: Input -> seq<byte>): (r: Result<(ChangelogAndNext, Cache)>)
    ensures var inputActual := FromValue(Input(signature, Some(cfg)), serialize);
            var cached := CacheRead(cache, inputActual);
            && (cached.Some? ==> r.Success? && r.value.0.versions == cached.value
                                 && r.value.0.changelog == Changelogs.Parse(content) && r.value.1 == cache)
            && (cached.None? ==> r.Success? == Calculate(content, cfg).Success?)
            && (cached.None? && r.Success? ==>
                  r.value.0 == Calculate(content, cfg).value
                  && CacheRead(r.value.1, inputActual) == Some(r.value.0.versions))
  {
    var inputActual := FromValue(Input(signature, Some(cfg)), serialize);
    var cached := CacheRead(cache, inputActual);
    if cached.None? then
      var model :- Calculate(content, cfg);
      StoreThenRead(cache, inputActual, model.versions);
      Success((model, CacheStore(cache, inputActual, model.versions)))
    else
      Success((ChangelogAndNext(Changelogs.Parse(content), cached.value), cache))
  }

  /** The cache is faithful for a file and configuration when a hit on their
      serialized input holds the versions `calculate` would give for the content. */
  predicate Faithful(cache: Cache, signature: FileSignature, content: string, cfg: NextVersionCfg,
                     serialize: Input -> seq<byte>)
  {
    var cached := CacheRead(cache, FromValue(Input(signature, Some(cfg)), serialize));
    cached.Some? ==> Calculate(content, cfg).Success? && cached.value == Calculate(content, cfg).value.versions
  }

  /** Through a faithful cache the result is what `calculate` gives, and the cache
      stays faithful. */
  lemma UsingCacheAgrees(cache: Cache, signature: FileSignature, content: string, cfg: NextVersionCfg,
                         serialize: Input -> seq<byte>)
    requires Faithful(cache, signature, content, cfg, serialize)
    ensures var r := CalculateUsingCache(cache, signature, content, cfg, serialize);
            && (r.Success? <==> Calculate(content, cfg).Success?)
            && (r.Success? ==> r.value.0 == Calculate(content, cfg).value
                               && Faithful(r.value.1, signature, content, cfg, serialize))
  {
  }

  /** Calling twice with the same file and configuration computes once: the second
      call hits the entry the first one stored. */
  lemma SecondCallHits(cache: Cache, signature: FileSignature, content: string, cfg: NextVersionCfg,
                       serialize: Input -> seq<byte>)
    requires CalculateUsingCache(cache, signature, content, cfg, serialize).Success?
    ensures var first := CalculateUsingCache(cache, signature, content, cfg, serialize).value;
            var inputActual := FromValue(Input(signature, Some(cfg)), serialize);
            && CacheRead(first.1, inputActual) == Some(first.0.versions)
            && CalculateUsingCache(first.1, signature, content, cfg, serialize) == Success(first)
  {
  }
}
