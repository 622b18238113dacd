/** Java `int` arithmetic and text, and the part of OSGi's `Version` the version
    functions use: parsing `major.minor.micro` and printing it back. */
module VersionNumbers {
  import opened Wrappers
  import opened Text

  const INT_MAX: int := 0x7fff_ffff
  const INT_MIN: int := -0x8000_0000

  predicate IsInt(i: int) {
    INT_MIN <= i <= INT_MAX
  }

  /** Java's `x + 1` on an `int`: the largest value wraps to the smallest. */
  function Inc(x: int): (r: int)
    requires IsInt(x)
    ensures IsInt(r)
    ensures r == x + 1 || (x == INT_MAX && r == INT_MIN)
  {
    if x == INT_MAX then INT_MIN else x + 1
  }

  /** An `int` in string concatenation: a minus sign for negatives, then decimal digits. */
  function IntToString(i: int): (s: string)
    ensures |s| > 0
    ensures i >= 0 ==> s == NatToString(i)
    ensures '.' !in s
  {
    if i < 0 then "-" + NatToString(-i) else NatToString(i)
  }

  /** `Integer.parseInt`: an optional sign, then at least one decimal digit, and a
      value that fits an `int`. */
  function ParseInt(s: string): (r: Result<int>)
    ensures r.Success? ==> IsInt(r.value)
    ensures r.Success? ==> |s| > 0 && (IsDigits(s) || ((s[0] == '-' || s[0] == '+') && IsDigits(s[1..])))
  {
    if |s| > 0 && (s[0] == '-' || s[0] == '+') then
      if !IsDigits(s[1..]) then Failure(NUMBER_FORMAT)
      else
        var v: int := if s[0] == '-' then -(ParseNat(s[1..]) as int) else ParseNat(s[1..]);
        if IsInt(v) then Success(v) else Failure(NUMBER_FORMAT)
    else if IsDigits(s) && ParseNat(s) <= INT_MAX then Success(ParseNat(s))
    else Failure(NUMBER_FORMAT)
  }

  /** Printing an `int` and parsing it back gives the `int`. */
  lemma ParseIntToString(i: int)
    requires IsInt(i)
    ensures ParseInt(IntToString(i)) == Success(i)
  {
    ParseNatToString(if i < 0 then -i else i);
    if i < 0 {
      assert IntToString(i)[1..] == NatToString(-i);
    }
  }

  /** A version with an empty qualifier. Parsed components fit an `int`. */
  datatype Version = Version(major: nat, minor: nat, micro: nat)

  predicate InRange(v: Version) {
    v.major <= INT_MAX && v.minor <= INT_MAX && v.micro <= INT_MAX
  }

  /** Lexicographic order on (major, minor, micro). */
  predicate Less(a: Version, b: Version) {
    a.major < b.major
    || (a.major == b.major && a.minor < b.minor)
    || (a.major == b.major && a.minor == b.minor && a.micro < b.micro)
  }

  /** The pieces between the dots, as the tokenizer in OSGi's `Version` sees them. */
  function SplitDots(s: string): (parts: seq<string>)
    ensures |parts| >= 1
    ensures forall i :: 0 <= i < |parts| ==> '.' !in parts[i]
    decreases |s|
  {
    var i := IndexOfCharFrom(s, '.', 0);
    if i == -1 then [s] else [s[..i]] + SplitDots(s[i + 1..])
  }

  function JoinDots(parts: seq<string>): string
    requires |parts| >= 1
  {
    if |parts| == 1 then parts[0] else parts[0] + "." + JoinDots(parts[1..])
  }

  /** Joining the pieces with dots gives the text back. */
  lemma {:induction false} JoinSplitDots(s: string)
    ensures JoinDots(SplitDots(s)) == s
    decreases |s|
  {
    var i := IndexOfCharFrom(s, '.', 0);
    if i != -1 {
      var parts := SplitDots(s);
      assert parts == [s[..i]] + SplitDots(s[i + 1..]);
      assert parts[0] == s[..i] && parts[1..] == SplitDots(s[i + 1..]);
      JoinSplitDots(s[i + 1..]);
      assert JoinDots(parts) == s[..i] + "." + s[i + 1..];
      CutAtChar(s, i);
    }
  }

  lemma CutAtChar(s: string, i: nat)
    requires i < |s|
    ensures s[..i] + [s[i]] + s[i + 1..] == s
  {
  }

  lemma SplitDotsCons(a: string, rest: string)
    requires '.' !in a
    ensures SplitDots(a + "." + rest) == [a] + SplitDots(rest)
  {
    FirstCharAfter(a, '.', rest);
  }

  lemma SplitDotsOne(a: string)
    requires '.' !in a
    ensures SplitDots(a) == [a]
  {
  }

  /** The characters OSGi's `Version.validate()` allows in a qualifier. */
  predicate QualifierChar(c: char) {
    ('A' <= c <= 'Z') || ('a' <= c <= 'z') || ('0' <= c <= '9') || c == '_' || c == '-'
  }

  /** A qualifier the tokenizer finds (something follows its dot) and that
      `validate()` accepts. */
  predicate ValidQualifier(q: string) {
    |q| > 0 && forall i :: 0 <= i < |q| ==> QualifierChar(q[i])
  }

  /** A version component: `Integer.parseInt`, with its NumberFormatException
      rethrown as an IllegalArgumentException that names the version, as OSGi's
      `Version.parseInt` does. */
  function ParseComponent(s: string): (r: Result<int>)
    ensures r.Success? <==> ParseInt(s).Success?
    ensures r.Success? ==> r.value == ParseInt(s).value
    ensures r.Failure? ==> r.error == ILLEGAL_ARGUMENT
  {
    match ParseInt(s)
    case Success(v) => Success(v)
    case Failure(_) => Failure(ILLEGAL_ARGUMENT)
  }

  /** `new Version(String)` on trimmed, non-empty text: up to three `int`
      components separated by dots, the missing ones 0, then optionally a dot and
      a qualifier, which is checked and then dropped. Components are parsed
      before the constructor checks that none is negative. */
  function ParseTrimmed(t: string): (r: Result<Version>)
    requires t != ""
    ensures r.Success? ==> InRange(r.value)
    ensures r.Failure? ==> r.error == ILLEGAL_ARGUMENT
  {
    var parts := SplitDots(t);
    var major :- ParseComponent(parts[0]);
    var minor :- if |parts| > 1 then ParseComponent(parts[1]) else Success(0);
    var micro :- if |parts| > 2 then ParseComponent(parts[2]) else Success(0);
    if major < 0 || minor < 0 || micro < 0 then Failure(ILLEGAL_ARGUMENT)
    else if |parts| > 3 && !ValidQualifier(JoinDots(parts[3..])) then Failure(ILLEGAL_ARGUMENT)
    else Success(Version(major, minor, micro))
  }

  /** `Version.parseVersion`: null, or text that is blank once trimmed, is
      0.0.0; anything else is trimmed and parsed. */
  function ParseVersion(s: Option<string>): (r: Result<Version>)
    ensures r.Success? ==> InRange(r.value)
    ensures r.Failure? ==> r.error == ILLEGAL_ARGUMENT
    ensures s == None || (s.Some? && AllBlank(s.value)) ==> r == Success(Version(0, 0, 0))
  {
    if s == None then Success(Version(0, 0, 0))
    else
      TrimEmptyIffBlank(s.value);
      var t := Trim(s.value);
      if t == "" then Success(Version(0, 0, 0)) else ParseTrimmed(t)
  }

  /** `Version.toString()` with an empty qualifier. */
  function VersionToString(v: Version): (s: string)
    ensures |s| >= 5
  {
    NatToString(v.major) + "." + NatToString(v.minor) + "." + NatToString(v.micro)
  }

  lemma ComponentToString(n: nat)
    requires n <= INT_MAX
    ensures ParseInt(NatToString(n)) == Success(n)
  {
    ParseNatToString(n);
    assert !IsDigit('-') && !IsDigit('+');
    assert NatToString(n)[0] != '-' && NatToString(n)[0] != '+';
  }

  lemma DottedAssoc(a: string, b: string, c: string)
    ensures a + "." + b + "." + c == a + "." + (b + "." + c)
  {
  }

  lemma NoDotInNat(n: nat)
    ensures '.' !in NatToString(n)
  {
    assert !IsDigit('.');
  }

  /** The three components of a printed version, as the tokenizer sees them. */
  lemma VersionTextParts(v: Version)
    ensures SplitDots(VersionToString(v)) == [NatToString(v.major), NatToString(v.minor), NatToString(v.micro)]
  {
    var a, b, c := NatToString(v.major), NatToString(v.minor), NatToString(v.micro);
    NoDotInNat(v.major);
    NoDotInNat(v.minor);
    NoDotInNat(v.micro);
    SplitDotsOne(c);
    SplitDotsCons(b, c);
    DottedAssoc(a, b, c);
    SplitDotsCons(a, b + "." + c);
  }

  lemma FourDotted(a: string, b: string, c: string, rest: string)
    ensures a + "." + b + "." + c + "." + rest == a + "." + (b + "." + (c + "." + rest))
  {
  }

  /** Three dot-free pieces, then `rest` after one more dot. */
  lemma SplitThreeThen(a: string, b: string, c: string, rest: string)
    requires '.' !in a && '.' !in b && '.' !in c
    ensures SplitDots(a + "." + b + "." + c + "." + rest) == [a, b, c] + SplitDots(rest)
  {
    var tail := c + "." + rest;
    var mid := b + "." + tail;
    SplitDotsCons(c, rest);
    SplitDotsCons(b, tail);
    SplitDotsCons(a, mid);
    FourDotted(a, b, c, rest);
    ThreeCons(a, b, c, SplitDots(rest));
  }

  lemma ThreeCons(a: string, b: string, c: string, xs: seq<string>)
    ensures [a] + ([b] + ([c] + xs)) == [a, b, c] + xs
  {
  }

  /** The pieces of a printed version, followed by `rest` after one more dot. */
  lemma SplitVersionText(v: Version, rest: string)
    ensures SplitDots(VersionToString(v) + "." + rest)
              == [NatToString(v.major), NatToString(v.minor), NatToString(v.micro)] + SplitDots(rest)
  {
    NoDotInNat(v.major);
    NoDotInNat(v.minor);
    NoDotInNat(v.micro);
    SplitThreeThen(NatToString(v.major), NatToString(v.minor), NatToString(v.micro), rest);
  }

  /** A printed version starts and ends with a digit, so `trim()` keeps it. */
  lemma VersionTextEnds(v: Version)
    ensures var text := VersionToString(v);
            IsDigit(text[0]) && IsDigit(text[|text| - 1])
  {
    var a, c := NatToString(v.major), NatToString(v.micro);
    var text := VersionToString(v);
    assert text[0] == a[0];
    assert text[|text| - 1] == c[|c| - 1];
  }

  /** Text that `trim()` keeps is parsed as it stands. */
  lemma ParseUntrimmed(t: string)
    requires |t| > 0 && t[0] > ' ' && t[|t| - 1] > ' '
    ensures ParseVersion(Some(t)) == ParseTrimmed(t)
  {
    TrimPadded("", t);
    assert "" + t + "" == t;
  }

  /** Components that print as the version's, and an acceptable qualifier if
      there is one, parse to the version. */
  lemma ParseTrimmedParts(t: string, v: Version)
    requires t != "" && InRange(v)
    requires var parts := SplitDots(t);
             && |parts| >= 3
             && parts[..3] == [NatToString(v.major), NatToString(v.minor), NatToString(v.micro)]
             && (|parts| > 3 ==> ValidQualifier(JoinDots(parts[3..])))
    ensures ParseTrimmed(t) == Success(v)
  {
    var parts := SplitDots(t);
    assert parts[0] == NatToString(v.major) && parts[1] == NatToString(v.minor) && parts[2] == NatToString(v.micro);
    ComponentToString(v.major);
    ComponentToString(v.minor);
    ComponentToString(v.micro);
  }

  /** Printing a version and parsing it back gives the version. */
  lemma ParseVersionToString(v: Version)
    requires InRange(v)
    ensures ParseVersion(Some(VersionToString(v))) == Success(v)
  {
    var text := VersionToString(v);
    VersionTextEnds(v);
    ParseUntrimmed(text);
    VersionTextParts(v);
    ParseTrimmedParts(text, v);
  }

  /** A valid qualifier after the three components is accepted and dropped. */
  lemma ParseVersionQualified(v: Version, qualifier: string)
    requires InRange(v) && ValidQualifier(qualifier)
    ensures ParseVersion(Some(VersionToString(v) + "." + qualifier)) == Success(v)
  {
    var text := VersionToString(v) + "." + qualifier;
    VersionTextEnds(v);
    assert text[0] == VersionToString(v)[0];
    assert text[|text| - 1] == qualifier[|qualifier| - 1];
    ParseUntrimmed(text);
    assert '.' !in qualifier by {
      assert !QualifierChar('.');
    }
    SplitDotsOne(qualifier);
    SplitVersionText(v, qualifier);
    ParseTrimmedParts(text, v);
  }

  /** Blanks around the text are trimmed before parsing. */
  lemma ParseVersionPadded(v: Version, pad: string)
    requires InRange(v) && AllBlank(pad)
    ensures ParseVersion(Some(pad + VersionToString(v) + pad)) == Success(v)
  {
    var text := VersionToString(v);
    VersionTextEnds(v);
    TrimPadded(pad, text);
    ParseUntrimmed(text);
    ParseVersionToString(v);
  }

  /** After the three components, a fourth part holding a character the qualifier
      rules refuse, such as a second dot, is rejected. */
  lemma ParseVersionBadQualifier(v: Version, qualifier: string)
    requires InRange(v) && |qualifier| > 0 && qualifier[|qualifier| - 1] > ' '
    requires !ValidQualifier(qualifier)
    ensures ParseVersion(Some(VersionToString(v) + "." + qualifier)) == Failure(ILLEGAL_ARGUMENT)
  {
    var text := VersionToString(v) + "." + qualifier;
    VersionTextEnds(v);
    assert text[0] == VersionToString(v)[0];
    assert text[|text| - 1] == qualifier[|qualifier| - 1];
    ParseUntrimmed(text);
    SplitVersionText(v, qualifier);
    var parts := SplitDots(text);
    JoinSplitDots(qualifier);
    assert parts[3..] == SplitDots(qualifier);
    ComponentToString(v.major);
    ComponentToString(v.minor);
    ComponentToString(v.micro);
  }
}
