/** Blowdryer's pure helpers: turning a URL into a safe file name for the download
    cache, and the checks and URL composition of the `blowdryer { github(...) }`
    configuration. */
module Blowdryer {
  import opened Wrappers
  import opened Text
  import opened SerializedValues

  const MAX_FILE_LENGTH: nat := 92
  const ABBREVIATED: nat := 40

  /** The characters the pattern `[^a-zA-Z0-9-+_\.]` leaves alone. */
  predicate SafeChar(c: char) {
    ('a' <= c <= 'z') || ('A' <= c <= 'Z') || ('0' <= c <= '9') || c == '-' || c == '+' || c == '_' || c == '.'
  }

  /** `replaceAll("[^a-zA-Z0-9-+_\\.]", "-")`. */
  function ReplaceUnsafe(s: string): (r: string)
    ensures |r| == |s|
    ensures forall i :: 0 <= i < |s| ==> r[i] == (if SafeChar(s[i]) then s[i] else '-')
  {
    if |s| == 0 then "" else [if SafeChar(s[0]) then s[0] else '-'] + ReplaceUnsafe(s[1..])
  }

  /** No two dashes in a row. */
  predicate NoDoubleDash(s: string) {
    forall i :: 0 <= i < |s| - 1 ==> !(s[i] == '-' && s[i + 1] == '-')
  }

  /** `replaceAll("-+", "-")`: each run of dashes becomes one dash. */
  function CollapseDashes(s: string): (r: string)
    ensures |r| <= |s|
    ensures |s| > 0 ==> |r| > 0 && r[0] == s[0]
    ensures forall c :: c in r ==> c in s
    ensures NoDoubleDash(r)
  {
    if |s| < 2 then s
    else if s[0] == '-' && s[1] == '-' then CollapseDashes(s[1..])
    else
      var rest := CollapseDashes(s[1..]);
      assert s[0] != '-' || rest[0] != '-';
      [s[0]] + rest
  }

  /** A text without double dashes is left as it is. */
  lemma {:induction false} CollapseNoDoubleDash(s: string)
    requires NoDoubleDash(s)
    ensures CollapseDashes(s) == s
  {
    if |s| >= 2 {
      CollapseNoDoubleDash(s[1..]);
    }
  }

  /** Collapsing keeps every character other than a dash, in order. */
  lemma {:induction false} CollapseKeepsOthers(s: string)
    ensures RemoveAll(CollapseDashes(s), '-') == RemoveAll(s, '-')
  {
    if |s| >= 2 {
      CollapseKeepsOthers(s[1..]);
      if !(s[0] == '-' && s[1] == '-') {
        assert ([s[0]] + CollapseDashes(s[1..]))[1..] == CollapseDashes(s[1..]);
      }
    }
  }

  /** The reference reading of `replaceAll("-+", "-")`, scanning left to right: a
      character is appended unless it is a dash and the last one appended is a dash. */
  function CollapseScan(acc: string, s: string): string
    decreases |s|
  {
    if |s| == 0 then acc
    else if s[0] == '-' && |acc| > 0 && acc[|acc| - 1] == '-' then CollapseScan(acc, s[1..])
    else CollapseScan(acc + [s[0]], s[1..])
  }

  /** The scan after `acc` appends the collapsed rest, less its first dash when
      that dash continues a run `acc` ends with. */
  lemma {:induction false} ScanAppendsCollapse(acc: string, s: string)
    ensures CollapseScan(acc, s)
              == acc + (if |acc| > 0 && acc[|acc| - 1] == '-' && |s| > 0 && s[0] == '-'
                        then CollapseDashes(s)[1..] else CollapseDashes(s))
    decreases |s|
  {
    if |s| == 1 {
      if s[0] == '-' && |acc| > 0 && acc[|acc| - 1] == '-' {
        assert CollapseScan(acc, s) == CollapseScan(acc, []);
      } else {
        assert CollapseScan(acc, s) == CollapseScan(acc + s, []);
      }
    } else if |s| >= 2 {
      var c, t := s[0], s[1..];
      if c == '-' && |acc| > 0 && acc[|acc| - 1] == '-' {
        ScanAppendsCollapse(acc, t);
      } else {
        var acc' := acc + [c];
        ScanAppendsCollapse(acc', t);
        if c == '-' && t[0] == '-' {
          assert CollapseDashes(s) == CollapseDashes(t);
          assert CollapseDashes(t) == [c] + CollapseDashes(t)[1..];
          AppendAssoc(acc, [c], CollapseDashes(t)[1..]);
        } else {
          assert CollapseDashes(s) == [c] + CollapseDashes(t);
          AppendAssoc(acc, [c], CollapseDashes(t));
        }
      }
    }
  }

  /** Collapsing agrees with the left-to-right scan: every run of dashes becomes
      exactly one dash and nothing else changes. */
  lemma CollapseIsScan(s: string)
    ensures CollapseDashes(s) == CollapseScan("", s)
  {
    ScanAppendsCollapse("", s);
  }

  // ---------------------------------------------------------------- hash text

  /** The four bytes of the 32-bit Murmur3 digest; the hash itself is a parameter. */
  datatype Digest = Digest(b0: byte, b1: byte, b2: byte, b3: byte)

  /** The value of one Base64 digit, as in table 1 of RFC 4648. */
  function Base64Char(v: nat): (c: char)
    requires v < 64
    ensures SafeChar(c) || c == '/'
    ensures c != '='
  {
    if v < 26 then ('A' as int + v) as char
    else if v < 52 then ('a' as int + v - 26) as char
    else if v < 62 then ('0' as int + v - 52) as char
    else if v == 62 then '+'
    else '/'
  }

  /** Standard Base64 of four bytes: a full three-byte group, then one byte and
      two padding characters. */
  function Base64(d: Digest): (s: string)
    ensures |s| == 8 && s[6..] == "=="
    ensures forall i :: 0 <= i < 6 ==> SafeChar(s[i]) || s[i] == '/'
  {
    var a, b, c, e := d.b0 as int, d.b1 as int, d.b2 as int, d.b3 as int;
    [ Base64Char(a / 4),
      Base64Char((a % 4) * 16 + b / 16),
      Base64Char((b % 16) * 4 + c / 64),
      Base64Char(c % 64),
      Base64Char(e / 4),
      Base64Char((e % 4) * 16),
      '=', '=' ]
  }

  /** `replace('/', '-').replace('=', '-')`. */
  function SlashAndPadToDash(s: string): (r: string)
    ensures |r| == |s|
    ensures forall i :: 0 <= i < |s| ==> r[i] == (if s[i] == '/' || s[i] == '=' then '-' else s[i])
  {
    if |s| == 0 then "" else [if s[0] == '/' || s[0] == '=' then '-' else s[0]] + SlashAndPadToDash(s[1..])
  }

  /** The hash text: eight safe characters, the last two of them dashes. */
  function HashText(d: Digest): (s: string)
    ensures |s| == 8 && s[6..] == "--"
    ensures AllSafe(s)
  {
    SlashAndPadToDash(Base64(d))
  }

  // ---------------------------------------------------------------- filenameSafe

  predicate AllSafe(s: string) {
    forall i :: 0 <= i < |s| ==> SafeChar(s[i])
  }

  lemma AllSafeConcat(a: string, b: string)
    requires AllSafe(a) && AllSafe(b)
    ensures AllSafe(a + b)
  {
    assert forall i :: |a| <= i < |a + b| ==> (a + b)[i] == b[i - |a|];
  }

  /** The URL with unsafe characters replaced and dash runs collapsed. */
  function Normalised(url: string): (n: string)
    ensures AllSafe(n)
    ensures NoDoubleDash(n)
  {
    var safe := ReplaceUnsafe(url);
    assert forall c :: c in safe ==> SafeChar(c);
    CollapseDashes(safe)
  }

  /** `r` is the long form of `n`: the first and last 40 characters of `n` around
      "--" and the hash text. */
  predicate AbbreviatedFrom(r: string, n: string, hashed: string)
    requires |n| > MAX_FILE_LENGTH
  {
    && |r| == 90
    && r[..ABBREVIATED] == n[..ABBREVIATED]
    && r[ABBREVIATED..ABBREVIATED + 2] == "--"
    && r[ABBREVIATED + 2..ABBREVIATED + 10] == hashed
    && r[ABBREVIATED + 10..] == n[|n| - ABBREVIATED..]
  }

  /** The long form of a name that is too long. */
  function Abbreviate(n: string, hashed: string): (r: string)
    requires AllSafe(n) && |n| > MAX_FILE_LENGTH
    requires AllSafe(hashed) && |hashed| == 8
    ensures AllSafe(r) && |r| == 90
    ensures AbbreviatedFrom(r, n, hashed)
  {
    var first := n[..ABBREVIATED];
    var end := n[|n| - ABBREVIATED..];
    assert AllSafe(first) && AllSafe(end) && AllSafe("--");
    AllSafeConcat(first, "--");
    AllSafeConcat(first + "--", hashed);
    AllSafeConcat(first + "--" + hashed, end);
    first + "--" + hashed + end
  }

  /** The middle part of a long name, which the hash digests. */
  function Middle(n: string): string
    requires |n| > MAX_FILE_LENGTH
  {
    n[ABBREVIATED..|n| - ABBREVIATED]
  }

  /** `filenameSafe(url)`: the normalised URL when it is short enough, otherwise
      its first and last 40 characters around "--" and the hash text of the middle. */
  function FilenameSafe(url: string, murmur3: string -> Digest): (r: string)
    ensures AllSafe(r)
    ensures |r| <= MAX_FILE_LENGTH
    ensures |Normalised(url)| <= MAX_FILE_LENGTH ==> r == Normalised(url)
    ensures |Normalised(url)| > MAX_FILE_LENGTH ==>
              AbbreviatedFrom(r, Normalised(url), HashText(murmur3(Middle(Normalised(url)))))
  {
    var n := Normalised(url);
    if |n| <= MAX_FILE_LENGTH then n
    else Abbreviate(n, HashText(murmur3(Middle(n))))
  }

  /** A short safe name is its own safe name. */
  lemma FilenameSafeFixedPoint(url: string, murmur3: string -> Digest)
    requires |Normalised(url)| <= MAX_FILE_LENGTH
    ensures FilenameSafe(FilenameSafe(url, murmur3), murmur3) == FilenameSafe(url, murmur3)
  {
    var n := Normalised(url);
    assert ReplaceUnsafe(n) == n;
    CollapseNoDoubleDash(n);
  }

  /** A long name always carries "--" where the middle was cut out, so it is never
      a normalised URL itself. */
  lemma LongNameIsNotNormalised(url: string, murmur3: string -> Digest)
    requires |Normalised(url)| > MAX_FILE_LENGTH
    ensures !NoDoubleDash(FilenameSafe(url, murmur3))
  {
    var r := FilenameSafe(url, murmur3);
    assert r[40] == '-' && r[41] == '-';
  }

  // ---------------------------------------------------------------- BlowdryerExtension

  const DEFAULT_REPO_SUBFOLDER: string := "src/main/resources"
  const GITHUB_RAW: string := "https://raw.githubusercontent.com/"
  const LEADING_SLASH: string := "Remove the leading slash"
  const TRAILING_SLASH: string := "Remove the trailing slash"

  /** `assertNoLeadingOrTrailingSlash(input)`: the leading slash is checked first. */
  function AssertNoLeadingOrTrailingSlash(input: Option<string>): (r: Result<string>)
    ensures r.Success? <==> input.Some? && (input.value == "" || (input.value[0] != '/' && input.value[|input.value| - 1] != '/'))
    ensures r.Success? ==> r.value == input.value
    ensures input.Some? && |input.value| > 0 && input.value[0] == '/' ==> r == Failure(LEADING_SLASH)
    ensures input.Some? && |input.value| > 0 && input.value[0] != '/' && input.value[|input.value| - 1] == '/' ==>
              r == Failure(TRAILING_SLASH)
    ensures input.None? ==> r == Failure(NULL_POINTER)
  {
    if input.None? then Failure(NULL_POINTER)
    else if input.value == "" then Success(input.value)
    else if input.value[0] == '/' then Failure(LEADING_SLASH)
    else if input.value[|input.value| - 1] == '/' then Failure(TRAILING_SLASH)
    else Success(input.value)
  }

  /** The configured part of the extension: the folder of the resources inside the repository. */
  datatype BlowdryerExtension = BlowdryerExtension(repoSubfolder: string)

  function NewExtension(): (ext: BlowdryerExtension)
    ensures AssertNoLeadingOrTrailingSlash(Some(ext.repoSubfolder)) == Success(ext.repoSubfolder)
    ensures ext.repoSubfolder == DEFAULT_REPO_SUBFOLDER
  {
    BlowdryerExtension(DEFAULT_REPO_SUBFOLDER)
  }

  /** `repoSubfolder(folder)`. */
  function SetRepoSubfolder(ext: BlowdryerExtension, repoSubfolder: Option<string>): (r: Result<BlowdryerExtension>)
    ensures r.Success? <==> AssertNoLeadingOrTrailingSlash(repoSubfolder).Success?
    ensures r.Success? ==> r.value.repoSubfolder == repoSubfolder.value
  {
    var folder :- AssertNoLeadingOrTrailingSlash(repoSubfolder);
    Success(ext.(repoSubfolder := folder))
  }

  /** `github(repoOrg, anchorType, anchor)`: the root every resource URL starts with.
      The anchor type is not used in the URL. */
  function GithubRoot(ext: BlowdryerExtension, repoOrg: Option<string>, anchor: Option<string>): (r: Result<string>)
    ensures r.Success? <==> AssertNoLeadingOrTrailingSlash(repoOrg).Success?
                            && AssertNoLeadingOrTrailingSlash(anchor).Success?
    ensures AssertNoLeadingOrTrailingSlash(repoOrg).Failure? ==> r == AssertNoLeadingOrTrailingSlash(repoOrg)
    ensures AssertNoLeadingOrTrailingSlash(repoOrg).Success? && AssertNoLeadingOrTrailingSlash(anchor).Failure? ==>
              r == AssertNoLeadingOrTrailingSlash(anchor)
    ensures r.Success? ==> r.value == GITHUB_RAW + repoOrg.value + "/" + anchor.value + "/" + ext.repoSubfolder + "/"
  {
    var org :- AssertNoLeadingOrTrailingSlash(repoOrg);
    var anc :- AssertNoLeadingOrTrailingSlash(anchor);
    Success(GITHUB_RAW + org + "/" + anc + "/" + ext.repoSubfolder + "/")
  }

  /** The URL of one resource. */
  function ResourceUrl(root: string, resource: string): string {
    root + resource
  }

  /** No two slashes in a row from position `k` on. */
  predicate NoDoubleSlashFrom(s: string, k: nat) {
    forall i :: k <= i < |s| - 1 ==> !(s[i] == '/' && s[i + 1] == '/')
  }

  predicate NoDoubleSlash(s: string) {
    NoDoubleSlashFrom(s, 0)
  }

  /** A part that passed the check, is not empty and has no double slash inside. */
  predicate CleanPart(s: string) {
    |s| > 0 && s[0] != '/' && s[|s| - 1] != '/' && NoDoubleSlash(s)
  }

  lemma JoinNoDoubleSlash(a: string, k: nat, b: string)
    requires NoDoubleSlashFrom(a, k) && NoDoubleSlash(b)
    requires |a| == 0 || |b| == 0 || a[|a| - 1] != '/' || b[0] != '/'
    ensures NoDoubleSlashFrom(a + b, k)
    ensures |b| > 0 ==> (a + b)[|a + b| - 1] == b[|b| - 1]
  {
    var s := a + b;
    forall i | k <= i < |s| - 1
      ensures !(s[i] == '/' && s[i + 1] == '/')
    {
      if i + 1 < |a| {
        assert s[i] == a[i] && s[i + 1] == a[i + 1];
      } else if i >= |a| {
        assert s[i] == b[i - |a|] && s[i + 1] == b[i + 1 - |a|];
      }
    }
  }

  /** A clean part and a slash, appended after a slash, keep the slashes single. */
  lemma AppendPartSlash(a: string, k: nat, part: string)
    requires NoDoubleSlashFrom(a, k) && |a| > 0 && a[|a| - 1] == '/' && CleanPart(part)
    ensures NoDoubleSlashFrom(a + part + "/", k)
    ensures (a + part + "/")[|a + part + "/"| - 1] == '/'
    ensures (a + part + "/")[..|a|] == a
  {
    JoinNoDoubleSlash(a, k, part);
    assert NoDoubleSlash("/");
    JoinNoDoubleSlash(a + part, k, "/");
  }

  /** With clean parts, and a resource that does not start with a slash, the URL
      has no empty path segment after its scheme: the checks keep the slashes single. */
  lemma GithubUrlHasNoEmptySegment(ext: BlowdryerExtension, repoOrg: string, anchor: string, resource: string)
    requires CleanPart(repoOrg) && CleanPart(anchor) && CleanPart(ext.repoSubfolder)
    requires NoDoubleSlash(resource) && (|resource| == 0 || resource[0] != '/')
    ensures GithubRoot(ext, Some(repoOrg), Some(anchor)).Success?
    ensures var url := ResourceUrl(GithubRoot(ext, Some(repoOrg), Some(anchor)).value, resource);
            url[..|GITHUB_RAW|] == GITHUB_RAW && NoDoubleSlashFrom(url, |"https://"|)
  {
    var k := |"https://"|;
    assert NoDoubleSlashFrom(GITHUB_RAW, k);
    var u2 := GITHUB_RAW + repoOrg + "/";
    AppendPartSlash(GITHUB_RAW, k, repoOrg);
    var u4 := u2 + anchor + "/";
    AppendPartSlash(u2, k, anchor);
    var u6 := u4 + ext.repoSubfolder + "/";
    AppendPartSlash(u4, k, ext.repoSubfolder);
    JoinNoDoubleSlash(u6, k, resource);
    PrefixThrough(GITHUB_RAW, u2, u4, u6, resource);
  }

  lemma PrefixThrough(a: string, b: string, c: string, d: string, e: string)
    requires |a| <= |b| <= |c| <= |d|
    requires b[..|a|] == a && c[..|b|] == b && d[..|c|] == c
    ensures (d + e)[..|a|] == a
  {
    assert (d + e)[..|a|] == d[..|c|][..|b|][..|a|];
  }
}
