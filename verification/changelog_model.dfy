/** `ChangelogModel`: the older entry point. It parses with `ParsedChangelog`, picks
    the next version with its own copy of the semver rule, and builds the result
    with OSGi's `Version` constructor, which refuses negative components. */
module ChangelogModel {
  import opened Wrappers
  import opened Text
  import opened VersionNumbers
  import ParsedChangelogs
  import NextVersionFunctions

  const DEFAULT_FILE: string := "CHANGELOG.md"
  const COMMIT_MESSAGE_VERSION: string := "{version}"
  const DONT_PARSE_BELOW_HERE: string := "<!-- dont parse below here -->"
  const FIRST_VERSION: string := "0.1.0"

  /** `NextVersionCfg`: its public list fields may be set to null. */
  datatype NextVersionCfg = NextVersionCfg(
    ifFoundBumpMinor: Option<seq<string>>,
    ifFoundBumpMajor: Option<seq<string>>,
    forceNextVersion: Option<string>)

  /** `ChangelogModel.PushCfg`. */
  datatype PushCfg = PushCfg(tagPrefix: string, commitMessage: string, remote: string, branch: string)

  function DefaultNextVersionCfg(): (cfg: NextVersionCfg)
    ensures cfg.ifFoundBumpMinor == Some(NextVersionFunctions.ADDED_DEFAULT)
    ensures cfg.ifFoundBumpMajor == Some(NextVersionFunctions.BREAKING_DEFAULT)
    ensures cfg.forceNextVersion.None?
  {
    NextVersionCfg(Some(["### Added"]), Some(["**BREAKING**"]), None)
  }

  /** `new PushCfg()`; the stand-alone `PushCfg` class holds the same fields and defaults. */
  function DefaultPushCfg(): (cfg: PushCfg)
    ensures cfg.tagPrefix == "release/" && cfg.remote == "origin" && cfg.branch == "master"
    ensures cfg.commitMessage == "Published release/" + COMMIT_MESSAGE_VERSION
    ensures ValidateCommitMessage(cfg.commitMessage) == Success(cfg.commitMessage)
  {
    var msg := "Published release/" + COMMIT_MESSAGE_VERSION;
    assert OccursAt(msg, COMMIT_MESSAGE_VERSION, 18);
    ContainsIffOccurs(msg, COMMIT_MESSAGE_VERSION);
    PushCfg("release/", msg, "origin", "master")
  }

  /** A commit message is accepted, unchanged, exactly when it holds the placeholder. */
  function RequirePlaceholder(commitMessage: string, placeholder: string): (r: Result<string>)
    ensures r.Success? <==> Contains(commitMessage, placeholder)
    ensures r.Success? ==> r.value == commitMessage
    ensures r.Failure? ==> r.error == ILLEGAL_ARGUMENT
  {
    if !Contains(commitMessage, placeholder) then Failure(ILLEGAL_ARGUMENT) else Success(commitMessage)
  }

  /** `validateCommitMessage`: the message must mention "{version}". */
  function ValidateCommitMessage(commitMessage: string): (r: Result<string>)
    ensures r.Success? <==> Contains(commitMessage, COMMIT_MESSAGE_VERSION)
    ensures r.Success? ==> r.value == commitMessage
    ensures r.Failure? ==> r.error == ILLEGAL_ARGUMENT
  {
    RequirePlaceholder(commitMessage, COMMIT_MESSAGE_VERSION)
  }

  /** `new Version(major, minor, micro)`: every component must be non-negative. */
  function NewVersion(major: int, minor: int, micro: int): (r: Result<Version>)
    ensures r.Success? <==> major >= 0 && minor >= 0 && micro >= 0
    ensures r.Success? ==> r.value == Version(major, minor, micro)
  {
    if major < 0 || minor < 0 || micro < 0 then Failure(ILLEGAL_ARGUMENT)
    else Success(Version(major, minor, micro))
  }

  /** The `major == 0` branch of the older rule; `isMinor` is `None` when the
      minor triggers are null. */
  function ModelBelowOne(last: Version, isMajor: bool, isMinor: Option<bool>): (r: Result<Version>)
    requires InRange(last) && last.major == 0
    ensures r.Success? ==> Less(last, r.value)
    ensures !isMajor && isMinor.None? ==> r == Failure(NULL_POINTER)
    ensures NextVersionFunctions.NoWrap(last) && (isMajor || isMinor.Some?) ==>
              r == Success(NextVersionFunctions.Apply(last, NextVersionFunctions.BumpFor(last, isMajor, isMinor == Some(true))))
  {
    if isMajor then NewVersion(0, Inc(last.minor), 0)
    else if isMinor.None? then Failure(NULL_POINTER)
    else if isMinor.value then NewVersion(0, Inc(last.minor), 0)
    else NewVersion(0, last.minor, Inc(last.micro))
  }

  /** The `major >= 1` branch of the older rule. */
  function ModelFromOne(last: Version, isMajor: bool, isMinor: Option<bool>): (r: Result<Version>)
    requires InRange(last) && last.major != 0
    ensures r.Success? ==> Less(last, r.value)
    ensures !isMajor && isMinor.None? ==> r == Failure(NULL_POINTER)
    ensures NextVersionFunctions.NoWrap(last) && (isMajor || isMinor.Some?) ==>
              r == Success(NextVersionFunctions.Apply(last, NextVersionFunctions.BumpFor(last, isMajor, isMinor == Some(true))))
  {
    if isMajor then NewVersion(Inc(last.major), 0, 0)
    else if isMinor.None? then Failure(NULL_POINTER)
    else if isMinor.value then NewVersion(last.major, Inc(last.minor), 0)
    else NewVersion(last.major, last.minor, Inc(last.micro))
  }

  /** `nextVersion(unreleasedChanges, last, cfg)`: the semver rule on `int`
      components; a component that wraps to a negative makes the constructor throw. */
  function ModelNextVersion(unreleased: string, last: Version, cfg: NextVersionCfg): (r: Result<Version>)
    requires InRange(last)
    ensures r.Success? ==> Less(last, r.value)
    ensures NextVersionFunctions.NoWrap(last) && cfg.ifFoundBumpMajor.Some? && cfg.ifFoundBumpMinor.Some? ==>
              r == Success(NextVersionFunctions.Apply(last, NextVersionFunctions.BumpFor(last,
                     NextVersionFunctions.AnyMatch(cfg.ifFoundBumpMajor.value, unreleased),
                     NextVersionFunctions.AnyMatch(cfg.ifFoundBumpMinor.value, unreleased))))
    ensures cfg.ifFoundBumpMajor.None? ==> r == Failure(NULL_POINTER)
  {
    if cfg.ifFoundBumpMajor.None? then Failure(NULL_POINTER)
    else
      var isMajor := NextVersionFunctions.AnyMatch(cfg.ifFoundBumpMajor.value, unreleased);
      var isMinor := if cfg.ifFoundBumpMinor.None? then None
                     else Some(NextVersionFunctions.AnyMatch(cfg.ifFoundBumpMinor.value, unreleased));
      if last.major == 0 then ModelBelowOne(last, isMajor, isMinor)
      else ModelFromOne(last, isMajor, isMinor)
  }

  /** The older rule prints exactly the text of the newer `Semver` rule, as long as
      no component is at the `int` limit. */
  lemma ModelAgreesWithSemver(unreleased: string, last: Version, bumpMinor: seq<string>, bumpMajor: seq<string>)
    requires InRange(last) && NextVersionFunctions.NoWrap(last)
    ensures var r := ModelNextVersion(unreleased, last, NextVersionCfg(Some(bumpMinor), Some(bumpMajor), None));
            r.Success?
            && NextVersionFunctions.SemverNext(unreleased, Some(VersionToString(last)), Some(bumpMajor), Some(bumpMinor))
                 == Success(VersionToString(r.value))
  {
    ParseVersionToString(last);
  }

  /** Where the newer rule would print a negative number, the older one throws. */
  lemma WrapRejected(unreleased: string, last: Version, cfg: NextVersionCfg)
    requires InRange(last) && last.micro == INT_MAX
    requires cfg.ifFoundBumpMajor.Some? && cfg.ifFoundBumpMinor.Some?
    requires !NextVersionFunctions.AnyMatch(cfg.ifFoundBumpMajor.value, unreleased)
    requires !NextVersionFunctions.AnyMatch(cfg.ifFoundBumpMinor.value, unreleased)
    ensures ModelNextVersion(unreleased, last, cfg) == Failure(ILLEGAL_ARGUMENT)
  {
  }

  /** The result: the parsed document and the chosen next version. */
  datatype Model = Model(parsed: ParsedChangelogs.ParsedChangelog, versionNext: string)

  /** The unreleased changes hold nothing but line breaks and blanks; the meaning
      `Changelog.noUnreleasedChanges` gives it, which `ParsedChangelog` lacks. */
  function NoUnreleasedChanges(d: ParsedChangelogs.ParsedChangelog): (b: bool)
    ensures b <==> AllBlank(ParsedChangelogs.UnreleasedChanges(d))
  {
    var changes := ParsedChangelogs.UnreleasedChanges(d);
    RemoveLfBlank(changes);
    TrimEmptyIffBlank(RemoveAll(changes, '\n'));
    Trim(RemoveAll(changes, '\n')) == ""
  }

  /** `calculate(content, cfg)`: a forced version wins; without a last version the
      first version is "0.1.0"; without unreleased changes the last version stays;
      otherwise the rule bumps the last version. */
  function Calculate(content: string, cfg: NextVersionCfg): (r: Result<Model>)
    ensures r.Success? ==> r.value.parsed == ParsedChangelogs.Parse(content)
    ensures var d := ParsedChangelogs.Parse(content);
            var last := ParsedChangelogs.VersionLast(d).value;
            && (cfg.forceNextVersion.Some? ==> r == Success(Model(d, cfg.forceNextVersion.value)))
            && (cfg.forceNextVersion.None? && last.None? ==> r == Success(Model(d, FIRST_VERSION)))
            && (cfg.forceNextVersion.None? && last.Some? && NoUnreleasedChanges(d) ==>
                  r == Success(Model(d, last.value)))
            && (cfg.forceNextVersion.None? && last.Some? && !NoUnreleasedChanges(d)
                && ParseVersion(last).Success? && NextVersionFunctions.NoWrap(ParseVersion(last).value)
                && cfg.ifFoundBumpMajor.Some? && cfg.ifFoundBumpMinor.Some? ==>
                  r == Success(Model(d, NextVersionFunctions.SemverNext(ParsedChangelogs.UnreleasedChanges(d), last,
                                                                         cfg.ifFoundBumpMajor, cfg.ifFoundBumpMinor).value)))
            && (cfg.forceNextVersion.None? && last.Some? && !NoUnreleasedChanges(d) && ParseVersion(last).Failure? ==>
                  r == Failure(ILLEGAL_ARGUMENT))
            && (cfg.forceNextVersion.None? && last.Some? && !NoUnreleasedChanges(d) && ParseVersion(last).Success?
                && cfg.ifFoundBumpMajor.None? ==>
                  r == Failure(NULL_POINTER))
  {
    var parsed := ParsedChangelogs.Parse(content);
    if cfg.forceNextVersion.Some? then Success(Model(parsed, cfg.forceNextVersion.value))
    else
      // a parsed document's second entry is always released, so this never throws
      var last := ParsedChangelogs.VersionLast(parsed).value;
      if last.None? then Success(Model(parsed, FIRST_VERSION))
      else if NoUnreleasedChanges(parsed) then Success(Model(parsed, last.value))
      else
        var v :- ParseVersion(last);
        var next :- ModelNextVersion(ParsedChangelogs.UnreleasedChanges(parsed), v, cfg);
        ModelTextAgrees(ParsedChangelogs.UnreleasedChanges(parsed), last, v, cfg);
        Success(Model(parsed, VersionToString(next)))
  }

  lemma ModelTextAgrees(unreleased: string, last: Option<string>, v: Version, cfg: NextVersionCfg)
    requires ParseVersion(last) == Success(v)
    ensures NextVersionFunctions.NoWrap(v) && cfg.ifFoundBumpMajor.Some? && cfg.ifFoundBumpMinor.Some? ==>
              && ModelNextVersion(unreleased, v, cfg).Success?
              && NextVersionFunctions.SemverNext(unreleased, last, cfg.ifFoundBumpMajor, cfg.ifFoundBumpMinor)
                   == Success(VersionToString(ModelNextVersion(unreleased, v, cfg).value))
  {
  }
}
