/** The `java.lang.String` operations the changelog code relies on, over `string`
    (`seq<char>`): `indexOf` from a position, `contains`, `replace`, `trim`,
    `endsWith`, and decimal rendering and parsing of naturals. */
module Text {

  /** `needle` occurs in `s` starting at index `i`. */
  predicate OccursAt(s: string, needle: string, i: nat) {
    i <= |s| && needle <= s[i..]
  }

  /** `s.indexOf(needle, from)`: the first index at or after `from` where `needle`
      occurs, or -1. */
  function IndexOfFrom(s: string, needle: string, from: nat): (r: int)
    requires from <= |s|
    ensures -1 <= r
    ensures r >= 0 ==> from <= r && OccursAt(s, needle, r)
    ensures r >= 0 ==> forall k :: from <= k < r ==> !OccursAt(s, needle, k)
    ensures r == -1 ==> forall k :: from <= k <= |s| ==> !OccursAt(s, needle, k)
    decreases |s| - from
  {
    if OccursAt(s, needle, from) then from
    else if from == |s| then -1
    else IndexOfFrom(s, needle, from + 1)
  }

  /** `s.indexOf(c, from)` for a single character. */
  function IndexOfCharFrom(s: string, c: char, from: nat): (r: int)
    requires from <= |s|
    ensures r == -1 || (from <= r < |s| && s[r] == c)
    ensures forall k :: from <= k < |s| && (r == -1 || k < r) ==> s[k] != c
    decreases |s| - from
  {
    if from == |s| then -1
    else if s[from] == c then from
    else IndexOfCharFrom(s, c, from + 1)
  }

  /** In `a + [c] + rest` with no `c` in `a`, the first `c` is the one after `a`. */
  lemma FirstCharAfter(a: string, c: char, rest: string)
    requires c !in a
    ensures var s := a + [c] + rest;
            IndexOfCharFrom(s, c, 0) == |a| && s[..|a|] == a && s[|a| + 1..] == rest
  {
    var s := a + [c] + rest;
    assert s[|a|] == c;
    assert forall k :: 0 <= k < |a| ==> s[k] == a[k];
    assert s[..|a|] == a && s[|a| + 1..] == rest;
  }

  /** `s.contains(needle)`, which Java defines as `s.indexOf(needle) >= 0`. */
  predicate Contains(s: string, needle: string) {
    IndexOfFrom(s, needle, 0) >= 0
  }

  /** `s.endsWith(suffix)`. */
  predicate EndsWith(s: string, suffix: string) {
    |suffix| <= |s| && s[|s| - |suffix|..] == suffix
  }

  lemma ContainsIffOccurs(s: string, needle: string)
    ensures Contains(s, needle) <==> exists k :: 0 <= k <= |s| && OccursAt(s, needle, k)
  {
    if !Contains(s, needle) {
      assert forall k :: 0 <= k <= |s| ==> !OccursAt(s, needle, k);
    }
  }

  /** An occurrence inside a part is an occurrence in the whole. */
  lemma OccursShift(s: string, needle: string, k: nat, d: nat)
    requires d <= |s| && OccursAt(s[d..], needle, k)
    ensures OccursAt(s, needle, d + k)
  {
    assert s[d..][k..] == s[d + k..];
  }

  /** Containment decided on the first character and the rest. */
  lemma ContainsCons(s: string, needle: string)
    requires |s| >= 1
    ensures Contains(s, needle) <==> OccursAt(s, needle, 0) || Contains(s[1..], needle)
  {
    ContainsIffOccurs(s, needle);
    ContainsIffOccurs(s[1..], needle);
    if Contains(s[1..], needle) {
      var k :| 0 <= k <= |s[1..]| && OccursAt(s[1..], needle, k);
      OccursShift(s, needle, k, 1);
    }
    if Contains(s, needle) && !OccursAt(s, needle, 0) {
      var k :| 0 <= k <= |s| && OccursAt(s, needle, k);
      assert k >= 1;
      assert s[1..][k - 1..] == s[k..];
      assert OccursAt(s[1..], needle, k - 1);
    }
  }

  lemma ContainsCrlfCons(s: string)
    requires |s| >= 1
    ensures Contains(s, "\r\n") <==>
              (|s| >= 2 && s[0] == '\r' && s[1] == '\n') || Contains(s[1..], "\r\n")
  {
    ContainsCons(s, "\r\n");
    if |s| >= 2 {
      assert s[0..][..2] == [s[0], s[1]];
    }
  }

  /** `s.replace("\r\n", "\n")`: a left-to-right scan replacing each non-overlapping
      CRLF pair by a single LF. */
  function ReplaceCrlf(s: string): string
  {
    if |s| == 0 then s
    else if |s| >= 2 && s[0] == '\r' && s[1] == '\n' then "\n" + ReplaceCrlf(s[2..])
    else [s[0]] + ReplaceCrlf(s[1..])
  }

  /** `s.replace("\n", "\r\n")`. */
  function ReplaceLf(s: string): string
  {
    if |s| == 0 then s
    else if s[0] == '\n' then "\r\n" + ReplaceLf(s[1..])
    else [s[0]] + ReplaceLf(s[1..])
  }

  /** Replacing CRLF never lengthens the text, and shortens it exactly when the
      text holds a CRLF pair; this is how the parser detects Windows newlines. */
  lemma {:induction false} ReplaceCrlfShrinks(s: string)
    ensures |ReplaceCrlf(s)| <= |s|
    ensures |ReplaceCrlf(s)| < |s| <==> Contains(s, "\r\n")
  {
    if |s| == 0 {
      assert !OccursAt(s, "\r\n", 0);
      ContainsIffOccurs(s, "\r\n");
    } else {
      ContainsCrlfCons(s);
      if |s| >= 2 && s[0] == '\r' && s[1] == '\n' {
        ReplaceCrlfShrinks(s[2..]);
      } else {
        ReplaceCrlfShrinks(s[1..]);
      }
    }
  }

  /** Text without a CRLF pair is left as it is. */
  lemma {:induction false} ReplaceCrlfIdentity(s: string)
    ensures !Contains(s, "\r\n") ==> ReplaceCrlf(s) == s
  {
    if |s| > 0 && !Contains(s, "\r\n") {
      ContainsCrlfCons(s);
      ReplaceCrlfIdentity(s[1..]);
    }
  }

  /** Text without a LF is left as it is by the LF-to-CRLF rewrite. */
  lemma {:induction false} ReplaceLfIdentity(s: string)
    requires '\n' !in s
    ensures ReplaceLf(s) == s
  {
    if |s| > 0 {
      ReplaceLfIdentity(s[1..]);
    }
  }

  /** Turning every LF into CRLF and back restores text that had no CRLF pair. */
  lemma {:induction false} CrlfRoundTrip(s: string)
    requires !Contains(s, "\r\n")
    ensures ReplaceCrlf(ReplaceLf(s)) == s
  {
    if |s| > 0 {
      ContainsCrlfCons(s);
      CrlfRoundTrip(s[1..]);
      var w := ReplaceLf(s);
      if s[0] == '\n' {
        assert w == "\r\n" + ReplaceLf(s[1..]);
        assert w[2..] == ReplaceLf(s[1..]);
      } else {
        assert w == [s[0]] + ReplaceLf(s[1..]);
        assert w[1..] == ReplaceLf(s[1..]);
        if s[0] == '\r' && |w| >= 2 {
          // the character after a lone CR is not a LF, so it is copied as it is
          assert |s| >= 2 && s[1] != '\n';
          assert w[1] == ReplaceLf(s[1..])[0] == s[1];
        }
      }
    }
  }

  /** The LF-to-CRLF rewrite introduces a CRLF pair exactly when there is a LF. */
  lemma {:induction false} ReplaceLfShrinksBack(s: string)
    requires !Contains(s, "\r\n")
    ensures |ReplaceCrlf(ReplaceLf(s))| < |ReplaceLf(s)| <==> '\n' in s
  {
    CrlfRoundTrip(s);
    ReplaceLfLength(s);
  }

  lemma {:induction false} ReplaceLfLength(s: string)
    ensures |ReplaceLf(s)| == |s| + multiset(s)['\n']
  {
    if |s| > 0 {
      assert s == [s[0]] + s[1..];
      ReplaceLfLength(s[1..]);
    }
  }

  /** `s.replace(String.valueOf(c), "")`. */
  function RemoveAll(s: string, c: char): (r: string)
    ensures c !in r
    ensures forall x :: x in r ==> x in s
  {
    if |s| == 0 then s
    else if s[0] == c then RemoveAll(s[1..], c)
    else [s[0]] + RemoveAll(s[1..], c)
  }

  /** `String.trim()`: drops leading and trailing characters up to U+0020. */
  function Trim(s: string): string {
    TrimEnd(TrimStart(s))
  }

  function TrimStart(s: string): string {
    if |s| > 0 && s[0] <= ' ' then TrimStart(s[1..]) else s
  }

  function TrimEnd(s: string): string {
    if |s| > 0 && s[|s| - 1] <= ' ' then TrimEnd(s[..|s| - 1]) else s
  }

  /** Every character is blank in the sense of `String.trim()`. */
  predicate AllBlank(s: string) {
    forall i :: 0 <= i < |s| ==> s[i] <= ' '
  }

  lemma {:induction false} TrimStartEmpty(s: string)
    ensures TrimStart(s) == "" <==> AllBlank(s)
    ensures TrimStart(s) != "" ==> TrimStart(s)[0] > ' '
  {
    if |s| > 0 && s[0] <= ' ' {
      TrimStartEmpty(s[1..]);
      if !AllBlank(s) {
        var i :| 0 <= i < |s| && s[i] > ' ';
        assert s[1..][i - 1] > ' ';
      }
    }
  }

  lemma {:induction false} TrimEndKeepsNonBlankStart(s: string)
    requires |s| > 0 && s[0] > ' '
    ensures TrimEnd(s) != ""
  {
    if s[|s| - 1] <= ' ' {
      TrimEndKeepsNonBlankStart(s[..|s| - 1]);
    }
  }

  /** Blanks in front of a text that starts with a non-blank are trimmed away. */
  lemma {:induction false} TrimStartPad(pad: string, s: string)
    requires AllBlank(pad) && |s| > 0 && s[0] > ' '
    ensures TrimStart(pad + s) == s
    decreases |pad|
  {
    if |pad| > 0 {
      assert (pad + s)[1..] == pad[1..] + s;
      TrimStartPad(pad[1..], s);
    } else {
      assert pad + s == s;
    }
  }

  /** Blanks after a text that ends with a non-blank are trimmed away. */
  lemma {:induction false} TrimEndPad(s: string, pad: string)
    requires AllBlank(pad) && |s| > 0 && s[|s| - 1] > ' '
    ensures TrimEnd(s + pad) == s
    decreases |pad|
  {
    if |pad| > 0 {
      var shorter := pad[..|pad| - 1];
      assert (s + pad)[..|s + pad| - 1] == s + shorter;
      TrimEndPad(s, shorter);
    } else {
      assert s + pad == s;
    }
  }

  /** `trim()` takes off exactly the blanks around a text with non-blank ends. */
  lemma TrimPadded(pad: string, s: string)
    requires AllBlank(pad) && |s| > 0 && s[0] > ' ' && s[|s| - 1] > ' '
    ensures Trim(pad + s + pad) == s
  {
    var sp := s + pad;
    assert sp[0] > ' ';
    AppendAssoc(pad, s, pad);
    TrimStartPad(pad, sp);
    TrimEndPad(s, pad);
  }

  /** `s.trim().isEmpty()` holds exactly when every character is blank. */
  lemma TrimEmptyIffBlank(s: string)
    ensures Trim(s) == "" <==> AllBlank(s)
  {
    TrimStartEmpty(s);
    if TrimStart(s) != "" {
      TrimEndKeepsNonBlankStart(TrimStart(s));
    }
  }

  /** Removing LFs and trimming leaves nothing exactly when the text is blank. */
  lemma {:induction false} RemoveLfBlank(s: string)
    ensures AllBlank(RemoveAll(s, '\n')) <==> AllBlank(s)
  {
    if |s| > 0 {
      RemoveLfBlank(s[1..]);
      var r := RemoveAll(s[1..], '\n');
      assert AllBlank(s) <==> s[0] <= ' ' && AllBlank(s[1..]) by {
        if s[0] <= ' ' && AllBlank(s[1..]) {
          forall i | 0 <= i < |s| ensures s[i] <= ' ' {
            if i > 0 { assert s[i] == s[1..][i - 1]; }
          }
        }
      }
      if s[0] != '\n' {
        var t := [s[0]] + r;
        assert RemoveAll(s, '\n') == t;
        assert AllBlank(t) <==> s[0] <= ' ' && AllBlank(r) by {
          if s[0] <= ' ' && AllBlank(r) {
            forall i | 0 <= i < |t| ensures t[i] <= ' ' {
              if i > 0 { assert t[i] == r[i - 1]; }
            }
          }
          if AllBlank(t) {
            assert t[0] == s[0];
            forall i | 0 <= i < |r| ensures r[i] <= ' ' {
              assert r[i] == t[i + 1];
            }
          }
        }
      }
    }
  }

  /** The number of occurrences of `c`, counted the way a Java loop counts them. */
  function CountChar(s: string, c: char): (n: nat)
    ensures n == multiset(s)[c]
  {
    if |s| == 0 then 0
    else
      assert s == [s[0]] + s[1..];
      (if s[0] == c then 1 else 0) + CountChar(s[1..], c)
  }

  predicate IsDigit(c: char) {
    '0' <= c <= '9'
  }

  predicate IsDigits(s: string) {
    |s| > 0 && forall i :: 0 <= i < |s| ==> IsDigit(s[i])
  }

  function DigitChar(d: nat): (c: char)
    requires d < 10
    ensures IsDigit(c)
  {
    ['0', '1', '2', '3', '4', '5', '6', '7', '8', '9'][d]
  }

  function DigitValue(c: char): (d: nat)
    requires IsDigit(c)
    ensures d < 10 && DigitChar(d) == c
  {
    (c as int - '0' as int) as nat
  }

  /** Java's decimal rendering of a non-negative `int` (`"" + n`). */
  function NatToString(n: nat): (s: string)
    ensures IsDigits(s)
  {
    if n < 10 then [DigitChar(n)]
    else NatToString(n / 10) + [DigitChar(n % 10)]
  }

  /** `Integer.parseInt` on a string of decimal digits (leading zeros allowed). */
  function ParseNat(s: string): nat
    requires IsDigits(s)
    decreases |s|
  {
    if |s| == 1 then DigitValue(s[0])
    else ParseNat(s[..|s| - 1]) * 10 + DigitValue(s[|s| - 1])
  }

  /** Rendering a natural and parsing it back gives the natural. */
  lemma {:induction false} ParseNatToString(n: nat)
    ensures ParseNat(NatToString(n)) == n
  {
    if n >= 10 {
      var s := NatToString(n);
      assert s[..|s| - 1] == NatToString(n / 10);
      ParseNatToString(n / 10);
    }
  }

  lemma SliceOfSlice(s: string, i: nat, j: nat, a: nat, b: nat)
    requires i <= j <= |s|
    ensures a <= b <= j - i ==> s[i..j][a..b] == s[i + a..i + b]
  {
    if a <= b <= j - i {
      assert |s[i..j][a..b]| == |s[i + a..i + b]|;
      forall k | 0 <= k < b - a ensures s[i..j][a..b][k] == s[i + a..i + b][k] {
        assert s[i..j][a..b][k] == s[i..j][a + k] == s[i + a + k];
      }
    }
  }

  /** An occurrence inside a prefix is an occurrence in the whole text. */
  lemma PrefixOccurrence(u: string, t: string, needle: string, k: nat)
    requires u <= t && OccursAt(u, needle, k)
    ensures OccursAt(t, needle, k)
  {
    assert u[k..] <= t[k..];
  }

  /** A prefix of `t` holds no occurrence that does not start one in `t`. */
  lemma PrefixWithoutOccurrence(u: string, t: string, needle: string)
    requires |needle| > 0 && u <= t
    requires forall k :: 0 <= k < |u| ==> !OccursAt(t, needle, k)
    ensures !Contains(u, needle)
  {
    forall k | 0 <= k <= |u| ensures !OccursAt(u, needle, k) {
      if OccursAt(u, needle, k) {
        PrefixOccurrence(u, t, needle, k);
      }
    }
    ContainsIffOccurs(u, needle);
  }

  /** Without a CR there is no CRLF pair to replace. */
  lemma NoCrIdentity(s: string)
    requires '\r' !in s
    ensures ReplaceCrlf(s) == s
  {
    forall k | 0 <= k <= |s| ensures !OccursAt(s, "\r\n", k) {
      if k < |s| {
        assert s[k..][0] == s[k];
      }
    }
    ContainsIffOccurs(s, "\r\n");
    ReplaceCrlfIdentity(s);
  }

  /** `c` occurs at index `i`, as a one-character needle. */
  lemma OccursAtChar(s: string, c: char, i: nat)
    ensures OccursAt(s, [c], i) <==> i < |s| && s[i] == c
  {
    if i < |s| {
      assert s[i..][..1] == [s[i]];
    }
  }

  lemma AppendAssoc(a: string, b: string, c: string)
    ensures (a + b) + c == a + (b + c)
  {
  }

  lemma EndsWithContains(s: string, suffix: string)
    requires EndsWith(s, suffix)
    ensures Contains(s, suffix)
  {
    assert OccursAt(s, suffix, |s| - |suffix|);
  }
}
