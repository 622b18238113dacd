/** `VersionBumpFunction`: the older copy of the next-version rule. Its `Semver`
    computes exactly what `NextVersionFunction.Semver` computes, but its setters
    store whatever list they are given, null included. */
module VersionBumpFunctions {
  import opened Wrappers
  import opened Text
  import opened VersionNumbers
  import NextVersionFunctions

  /** A `Semver` (with the `BrandPrefix` subclass when `brand` is set) holding two
      trigger lists that may be null, or a `NonSemver` with a user-supplied rule. */
  datatype VersionBumpFunction =
    | Semver(brand: bool, breaking: Option<seq<string>>, added: Option<seq<string>>)
    | NonSemver(rule: (string, Option<string>) -> string)

  /** `new Semver()` and `new BrandPrefix()`. */
  function NewSemver(brand: bool): (f: VersionBumpFunction)
    ensures f.Semver? && f.brand == brand
    ensures f.breaking == Some(NextVersionFunctions.BREAKING_DEFAULT)
    ensures f.added == Some(NextVersionFunctions.ADDED_DEFAULT)
  {
    Semver(brand, Some(["**BREAKING**"]), Some(["### Added"]))
  }

  /** `ifFoundBumpBreaking(toFind)`: a `Semver` stores the list, null or not; a
      `NonSemver` throws. */
  function IfFoundBumpBreaking(f: VersionBumpFunction, toFind: Option<seq<string>>): (r: Result<VersionBumpFunction>)
    ensures r.Success? <==> f.Semver?
    ensures r.Success? ==> r.value.Semver? && r.value.breaking == toFind
                           && r.value.added == f.added && r.value.brand == f.brand
    ensures r.Failure? ==> r.error == ILLEGAL_ARGUMENT
  {
    match f
    case NonSemver(_) => Failure(ILLEGAL_ARGUMENT)
    case Semver(brand, _, added) => Success(Semver(brand, toFind, added))
  }

  /** `ifFoundBumpAdded(toFind)`. */
  function IfFoundBumpAdded(f: VersionBumpFunction, toFind: Option<seq<string>>): (r: Result<VersionBumpFunction>)
    ensures r.Success? <==> f.Semver?
    ensures r.Success? ==> r.value.Semver? && r.value.added == toFind
                           && r.value.breaking == f.breaking && r.value.brand == f.brand
    ensures r.Failure? ==> r.error == ILLEGAL_ARGUMENT
  {
    match f
    case NonSemver(_) => Failure(ILLEGAL_ARGUMENT)
    case Semver(brand, breaking, _) => Success(Semver(brand, breaking, toFind))
  }

  /** `BrandPrefix.nextVersion`: the integer before the first dot is kept, and the
      rest goes through the plain rule. */
  function BrandPrefixNext(unreleased: string, last: Option<string>,
                           breaking: Option<seq<string>>, added: Option<seq<string>>): (r: Result<string>)
    ensures r.Success? ==> last.Some? && '.' in last.value
    ensures last.None? ==> r == Failure(NULL_POINTER)
    ensures last.Some? && '.' !in last.value ==> r == Failure(STRING_INDEX_OUT_OF_BOUNDS)
  {
    if last.None? then Failure(NULL_POINTER)
    else
      var dot := IndexOfCharFrom(last.value, '.', 0);
      if dot == -1 then Failure(STRING_INDEX_OUT_OF_BOUNDS)
      else
        var brand :- ParseInt(last.value[..dot]);
        var result :- NextVersionFunctions.SemverNext(unreleased, Some(last.value[dot + 1..]), breaking, added);
        Success(IntToString(brand) + "." + result)
  }

  /** `nextVersion(unreleasedChanges, lastVersion)` of each kind of function. */
  function NextVersion(f: VersionBumpFunction, unreleased: string, last: Option<string>): (r: Result<string>)
    ensures f.Semver? && !f.brand ==> r == NextVersionFunctions.SemverNext(unreleased, last, f.breaking, f.added)
    ensures f.NonSemver? ==> r == Success(f.rule(unreleased, last))
  {
    match f
    case NonSemver(rule) => Success(rule(unreleased, last))
    case Semver(false, breaking, added) => NextVersionFunctions.SemverNext(unreleased, last, breaking, added)
    case Semver(true, breaking, added) => BrandPrefixNext(unreleased, last, breaking, added)
  }

  /** The older function as the newer one sees it, for non-null trigger lists. */
  function Current(f: VersionBumpFunction): (g: NextVersionFunctions.NextVersionFunction)
    requires f.Semver? ==> f.breaking.Some? && f.added.Some?
    ensures f.Semver? <==> g.Semver?
  {
    match f
    case NonSemver(rule) => NextVersionFunctions.NonSemver(rule)
    case Semver(brand, breaking, added) =>
      NextVersionFunctions.Semver(if brand then NextVersionFunctions.BrandPrefix else NextVersionFunctions.Plain,
                                  breaking.value, added.value)
  }

  /** With non-null trigger lists the older and the newer function agree on every
      input. */
  lemma AgreesWithCurrent(f: VersionBumpFunction, unreleased: string, last: Option<string>)
    requires f.Semver? ==> f.breaking.Some? && f.added.Some?
    ensures NextVersion(f, unreleased, last) == NextVersionFunctions.NextVersion(Current(f), unreleased, last)
  {
    if f.Semver? && f.brand {
      BrandPrefixAgrees(unreleased, last, f.breaking.value, f.added.value);
    }
  }

  /** The two copies of the brand-prefix rule compute the same thing. */
  lemma BrandPrefixAgrees(unreleased: string, last: Option<string>, breaking: seq<string>, added: seq<string>)
    ensures BrandPrefixNext(unreleased, last, Some(breaking), Some(added))
            == NextVersionFunctions.BrandPrefixNext(unreleased, last, breaking, added)
  {
  }

  /** Given a non-null list, the older setters succeed exactly when the newer ones
      do and leave the same function behind. */
  lemma SettersAgreeWithCurrent(f: VersionBumpFunction, toFind: seq<string>)
    requires f.Semver? ==> f.breaking.Some? && f.added.Some?
    ensures (IfFoundBumpBreaking(f, Some(toFind)).Success?
             <==> NextVersionFunctions.IfFoundBumpBreaking(Current(f), Some(toFind)).Success?)
    ensures IfFoundBumpBreaking(f, Some(toFind)).Success? ==>
              Current(IfFoundBumpBreaking(f, Some(toFind)).value)
                == NextVersionFunctions.IfFoundBumpBreaking(Current(f), Some(toFind)).value
    ensures (IfFoundBumpAdded(f, Some(toFind)).Success?
             <==> NextVersionFunctions.IfFoundBumpAdded(Current(f), Some(toFind)).Success?)
    ensures IfFoundBumpAdded(f, Some(toFind)).Success? ==>
              Current(IfFoundBumpAdded(f, Some(toFind)).value)
                == NextVersionFunctions.IfFoundBumpAdded(Current(f), Some(toFind)).value
  {
  }

  /** A null breaking list fails every plain semver bump; a null added list fails
      exactly when no breaking trigger fires, since only then is it consulted. */
  lemma NullTriggers(unreleased: string, last: Option<string>, breaking: seq<string>)
    requires ParseVersion(last).Success?
    ensures NextVersion(Semver(false, None, Some(breaking)), unreleased, last).Failure?
    ensures var r := NextVersion(Semver(false, Some(breaking), None), unreleased, last);
            r.Success? <==> NextVersionFunctions.AnyMatch(breaking, unreleased)
  {
  }
}
