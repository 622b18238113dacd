/** `NextVersionFunction`: the rule that turns the unreleased changes and the last
    published version into the next version. `Semver` follows items 6 to 8 of
    Semantic Versioning 2.0.0 for 1.0.0 and up, and bumps the minor version for
    any notable change below 1.0.0 (item 4 of that standard sets no rule there). */
module NextVersionFunctions {
  import opened Wrappers
  import opened Text
  import opened VersionNumbers
  import Changelogs

  /** The default triggers: a breaking change, and an added feature. */
  const BREAKING_DEFAULT: seq<string> := ["**BREAKING**"]
  const ADDED_DEFAULT: seq<string> := ["### Added"]

  /** `toFind.stream().anyMatch(text::contains)`. */
  function AnyMatch(toFind: seq<string>, text: string): (b: bool)
    ensures b <==> exists i :: 0 <= i < |toFind| && Contains(text, toFind[i])
    decreases |toFind|
  {
    if |toFind| == 0 then false
    else
      var rest := AnyMatch(toFind[1..], text);
      assert forall i :: 1 <= i < |toFind| ==> toFind[i] == toFind[1..][i - 1];
      Contains(text, toFind[0]) || rest
  }

  datatype Bump = Major | Minor | Patch

  /** Which component a release bumps: below 1.0.0 either trigger bumps the minor
      version; from 1.0.0 on a breaking change bumps the major version, an added
      feature the minor version, and anything else the patch version. */
  function BumpFor(last: Version, breaking: bool, added: bool): Bump {
    if last.major == 0 then
      if breaking || added then Minor else Patch
    else if breaking then Major
    else if added then Minor
    else Patch
  }

  /** The bumped version: the chosen component goes up by one and the ones
      below it go back to zero. */
  function Apply(v: Version, b: Bump): (r: Version)
    ensures Less(v, r)
    ensures b == Major ==> r.major == v.major + 1 && r.minor == 0 && r.micro == 0
    ensures b == Minor ==> r.major == v.major && r.minor == v.minor + 1 && r.micro == 0
    ensures b == Patch ==> r.major == v.major && r.minor == v.minor && r.micro == v.micro + 1
  {
    match b
    case Major => Version(v.major + 1, 0, 0)
    case Minor => Version(v.major, v.minor + 1, 0)
    case Patch => Version(v.major, v.minor, v.micro + 1)
  }

  /** No component is at the `int` limit, so a bump cannot wrap around. */
  predicate NoWrap(v: Version) {
    v.major < INT_MAX && v.minor < INT_MAX && v.micro < INT_MAX
  }

  lemma ZeroText()
    ensures NatToString(0) == "0"
  {
  }

  /** The text `a + "." + b + "." + c` for Java `int`s; the literal "0." and ".0"
      pieces of the Java code are the zero components. */
  function Dotted(a: int, b: int, c: int): (s: string)
    ensures a >= 0 && b >= 0 && c >= 0 ==> s == VersionToString(Version(a, b, c))
  {
    ZeroText();
    IntToString(a) + "." + IntToString(b) + "." + IntToString(c)
  }

  /** The `major == 0` branch of `Semver.nextVersion`: a breaking change or an
      added feature bumps the minor version, anything else the patch version.
      `isAdded` is `None` when the added triggers are null. */
  function SemverBelowOne(v: Version, isBreaking: bool, isAdded: Option<bool>): (r: Result<string>)
    requires InRange(v) && v.major == 0
    ensures r.Failure? <==> !isBreaking && isAdded.None?
    ensures r.Failure? ==> r.error == NULL_POINTER
    ensures r.Success? && NoWrap(v) ==>
              r.value == VersionToString(Apply(v, BumpFor(v, isBreaking, isAdded == Some(true))))
  {
    if isBreaking then Success(Dotted(0, Inc(v.minor), 0))
    else if isAdded.None? then Failure(NULL_POINTER)
    else if isAdded.value then Success(Dotted(0, Inc(v.minor), 0))
    else Success(Dotted(0, v.minor, Inc(v.micro)))
  }

  /** The `major >= 1` branch: a breaking change bumps the major version, an
      added feature the minor version, anything else the patch version. */
  function SemverFromOne(v: Version, isBreaking: bool, isAdded: Option<bool>): (r: Result<string>)
    requires InRange(v) && v.major != 0
    ensures r.Failure? <==> !isBreaking && isAdded.None?
    ensures r.Failure? ==> r.error == NULL_POINTER
    ensures r.Success? && NoWrap(v) ==>
              r.value == VersionToString(Apply(v, BumpFor(v, isBreaking, isAdded == Some(true))))
  {
    if isBreaking then Success(Dotted(Inc(v.major), 0, 0))
    else if isAdded.None? then Failure(NULL_POINTER)
    else if isAdded.value then Success(Dotted(v.major, Inc(v.minor), 0))
    else Success(Dotted(v.major, v.minor, Inc(v.micro)))
  }

  /** `Semver.nextVersion(unreleasedChanges, lastVersion)`, shared with the older
      `VersionBumpFunction.Semver`. A trigger list is `None` when it is null: the
      stream over it throws once the evaluation reaches it. */
  function SemverNext(unreleased: string, last: Option<string>,
                      breaking: Option<seq<string>>, added: Option<seq<string>>): (r: Result<string>)
    ensures ParseVersion(last).Failure? ==> r.Failure?
    ensures breaking.None? ==> r.Failure?
    ensures ParseVersion(last).Success? && breaking.Some? && AnyMatch(breaking.value, unreleased) ==> r.Success?
    ensures ParseVersion(last).Success? && breaking.Some? && added.Some? ==> r.Success?
    ensures ParseVersion(last).Success? && NoWrap(ParseVersion(last).value) && breaking.Some? && added.Some? ==>
              var v := ParseVersion(last).value;
              r == Success(VersionToString(Apply(v, BumpFor(v, AnyMatch(breaking.value, unreleased),
                                                               AnyMatch(added.value, unreleased)))))
  {
    var v :- ParseVersion(last);
    if breaking.None? then Failure(NULL_POINTER)
    else
      var isBreaking := AnyMatch(breaking.value, unreleased);
      var isAdded := if added.None? then None else Some(AnyMatch(added.value, unreleased));
      if v.major == 0 then SemverBelowOne(v, isBreaking, isAdded)
      else SemverFromOne(v, isBreaking, isAdded)
  }

  /** The three ready-made `Semver` subclasses. */
  datatype Style = Plain | BrandPrefix | Condense

  /** A `Semver` with its two trigger lists, or a `NonSemver` subclass whose rule
      is user code, passed in as a function. */
  datatype NextVersionFunction =
    | Semver(style: Style, breaking: seq<string>, added: seq<string>)
    | NonSemver(rule: (string, Option<string>) -> string)

  /** `new Semver()` and its subclasses start with the default triggers. */
  function NewSemver(style: Style): (f: NextVersionFunction)
    ensures f.Semver? && f.style == style
    ensures AnyMatch(f.breaking, "**BREAKING**") && AnyMatch(f.added, "### Added")
  {
    assert OccursAt("**BREAKING**", "**BREAKING**", 0);
    assert OccursAt("### Added", "### Added", 0);
    ContainsIffOccurs("**BREAKING**", "**BREAKING**");
    ContainsIffOccurs("### Added", "### Added");
    Semver(style, BREAKING_DEFAULT, ADDED_DEFAULT)
  }

  /** `ifFoundBumpBreaking(toFind)`: a `Semver` refuses null; a `NonSemver` always throws. */
  function IfFoundBumpBreaking(f: NextVersionFunction, toFind: Option<seq<string>>): (r: Result<NextVersionFunction>)
    ensures r.Success? <==> f.Semver? && toFind.Some?
    ensures r.Success? ==> r.value == f.(breaking := toFind.value)
  {
    if f.NonSemver? then Failure(ILLEGAL_ARGUMENT)
    else if toFind.None? then Failure(NULL_POINTER)
    else Success(f.(breaking := toFind.value))
  }

  /** `ifFoundBumpAdded(toFind)`. */
  function IfFoundBumpAdded(f: NextVersionFunction, toFind: Option<seq<string>>): (r: Result<NextVersionFunction>)
    ensures r.Success? <==> f.Semver? && toFind.Some?
    ensures r.Success? ==> r.value == f.(added := toFind.value)
  {
    if f.NonSemver? then Failure(ILLEGAL_ARGUMENT)
    else if toFind.None? then Failure(NULL_POINTER)
    else Success(f.(added := toFind.value))
  }

  /** `SemverBrandPrefix.nextVersion`: the integer before the first dot is kept, and
      the rest is bumped as semver. */
  function BrandPrefixNext(unreleased: string, last: Option<string>, breaking: seq<string>, added: seq<string>)
    : (r: Result<string>)
    ensures r.Success? ==> last.Some? && '.' in last.value
  {
    if last.None? then Failure(NULL_POINTER)
    else
      var dot := IndexOfCharFrom(last.value, '.', 0);
      if dot == -1 then Failure(STRING_INDEX_OUT_OF_BOUNDS)
      else
        var brand :- ParseInt(last.value[..dot]);
        var result :- SemverNext(unreleased, Some(last.value[dot + 1..]), Some(breaking), Some(added));
        Success(IntToString(brand) + "." + result)
  }

  /** `SemverCondense__X_Y_0__to__X_Y.nextVersion`: one trailing ".0" is dropped. */
  function CondenseNext(unreleased: string, last: Option<string>, breaking: seq<string>, added: seq<string>)
    : (r: Result<string>)
    ensures r.Success? <==> SemverNext(unreleased, last, Some(breaking), Some(added)).Success?
    ensures r.Success? ==>
              var full := SemverNext(unreleased, last, Some(breaking), Some(added)).value;
              full == r.value || full == r.value + ".0"
  {
    var semver :- SemverNext(unreleased, last, Some(breaking), Some(added));
    if EndsWith(semver, ".0") then
      assert semver == semver[..|semver| - 2] + ".0";
      Success(semver[..|semver| - 2])
    else Success(semver)
  }

  /** `nextVersion(unreleasedChanges, lastVersion)` of each kind of function. */
  function NextVersion(f: NextVersionFunction, unreleased: string, last: Option<string>): (r: Result<string>)
    ensures f.Semver? && f.style == Plain ==> r == SemverNext(unreleased, last, Some(f.breaking), Some(f.added))
    ensures f.NonSemver? ==> r == Success(f.rule(unreleased, last))
  {
    match f
    case NonSemver(rule) => Success(rule(unreleased, last))
    case Semver(Plain, breaking, added) => SemverNext(unreleased, last, Some(breaking), Some(added))
    case Semver(BrandPrefix, breaking, added) => BrandPrefixNext(unreleased, last, breaking, added)
    case Semver(Condense, breaking, added) => CondenseNext(unreleased, last, breaking, added)
  }

  /** `nextVersion(changelog)`: the unreleased changes and the last version of the
      document; a parsed document never makes these throw. */
  function NextVersionOf(f: NextVersionFunction, c: Changelogs.Changelog): (r: Result<string>)
    ensures Changelogs.WellFormed(c) ==>
              r == NextVersion(f, Changelogs.UnreleasedChanges(c).value, Changelogs.VersionLast(c).value)
  {
    var unreleased :- Changelogs.UnreleasedChanges(c);
    var last :- Changelogs.VersionLast(c);
    NextVersion(f, unreleased, last)
  }

  /** Every semver bump gives a larger version, and it parses back to exactly the
      bump of the last version. */
  lemma SemverNextIncreases(f: NextVersionFunction, unreleased: string, last: Version)
    requires f.Semver? && f.style == Plain && InRange(last) && NoWrap(last)
    ensures NextVersion(f, unreleased, Some(VersionToString(last))).Success?
    ensures var next := ParseVersion(Some(NextVersion(f, unreleased, Some(VersionToString(last))).value));
            next.Success? && Less(last, next.value)
            && next.value == Apply(last, BumpFor(last, AnyMatch(f.breaking, unreleased), AnyMatch(f.added, unreleased)))
  {
    ParseVersionToString(last);
    var next := Apply(last, BumpFor(last, AnyMatch(f.breaking, unreleased), AnyMatch(f.added, unreleased)));
    ParseVersionToString(next);
  }

  /** The brand prefix survives, and the rest is what semver makes of the rest. */
  lemma BrandPrefixKeepsBrand(unreleased: string, brand: nat, rest: string, breaking: seq<string>, added: seq<string>)
    requires brand <= INT_MAX
    requires SemverNext(unreleased, Some(rest), Some(breaking), Some(added)).Success?
    ensures NextVersion(Semver(BrandPrefix, breaking, added), unreleased, Some(NatToString(brand) + "." + rest))
              == Success(NatToString(brand) + "." + SemverNext(unreleased, Some(rest), Some(breaking), Some(added)).value)
  {
    assert '.' !in NatToString(brand) by {
      assert !IsDigit('.');
    }
    FirstCharAfter(NatToString(brand), '.', rest);
    ParseIntToString(brand);
  }

  /** A version's text ends in ".0" exactly when its micro component is zero. */
  lemma MicroZeroText(v: Version)
    ensures var text := VersionToString(v);
            && (EndsWith(text, ".0") <==> v.micro == 0)
            && (v.micro == 0 ==> text[..|text| - 2] == NatToString(v.major) + "." + NatToString(v.minor))
  {
    var text := VersionToString(v);
    var head := NatToString(v.major) + "." + NatToString(v.minor);
    var m := NatToString(v.micro);
    ZeroText();
    assert text == head + "." + m;
    if v.micro == 0 {
      assert text == head + ".0";
      assert text[|text| - 2..] == ".0";
      assert text[..|text| - 2] == head;
    } else {
      NoLeadingZero(v.micro);
      assert text[|text| - 1] == m[|m| - 1];
      if |m| == 1 {
        assert m == [m[0]];
        assert text[|text| - 1] != '0';
      } else {
        assert text[|text| - 2] == m[|m| - 2];
        assert IsDigit(m[|m| - 2]) && !IsDigit('.');
      }
      assert text[|text| - 2..] != ".0";
    }
  }

  /** Condensed versions drop the zero micro of a minor or major bump, and keep a
      patch bump as it is. */
  lemma CondenseDropsZeroMicro(unreleased: string, last: Version, breaking: seq<string>, added: seq<string>)
    requires InRange(last) && NoWrap(last)
    ensures var next := Apply(last, BumpFor(last, AnyMatch(breaking, unreleased), AnyMatch(added, unreleased)));
            NextVersion(Semver(Condense, breaking, added), unreleased, Some(VersionToString(last)))
              == Success(if next.micro == 0 then NatToString(next.major) + "." + NatToString(next.minor)
                         else VersionToString(next))
  {
    ParseVersionToString(last);
    var next := Apply(last, BumpFor(last, AnyMatch(breaking, unreleased), AnyMatch(added, unreleased)));
    MicroZeroText(next);
  }

  lemma NoLeadingZero(n: nat)
    requires n > 0
    ensures NatToString(n) != "0"
  {
    if n < 10 {
      assert NatToString(n) == [DigitChar(n)];
    }
  }
}
