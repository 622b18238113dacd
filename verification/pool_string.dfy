/** `PoolString`: a view `[startIndex, endIndex)` of a backing character buffer
    that slices in O(1) and appends either by widening the view (when the pieces
    are adjacent in one buffer) or by copying into a `StringBuilder` that later
    appends extend in place.

    Java compares spans by reference (`this == empty`, `base == other.base`);
    the model compares them structurally. In every branch where the two differ
    the resulting content is the same, which is what the lemmas below are about. */
module PoolStrings {
  import opened Text

  /** The Java class behind a span: an immutable `String`, or a growable
      `StringBuilder` whose current contents are `chars`. */
  datatype Base = Str(chars: string) | Builder(chars: string)

  datatype PoolStr = PoolStr(base: Base, startIndex: nat, endIndex: nat)

  /** The checks of the private constructor: `0 <= startIndex <= endIndex <= base.length()`. */
  type PoolString = p: PoolStr | p.startIndex <= p.endIndex <= |p.base.chars|
    witness PoolStr(Str(""), 0, 0)

  /** The shared empty instance. */
  const Empty: PoolString := PoolStr(Str(""), 0, 0)

  /** `toString()`: the characters the span covers. */
  function ToString(p: PoolString): string {
    p.base.chars[p.startIndex..p.endIndex]
  }

  function Length(p: PoolString): (n: nat)
    ensures n == |ToString(p)|
  {
    p.endIndex - p.startIndex
  }

  predicate IsEmpty(p: PoolString) {
    Length(p) == 0
  }

  /** `of(base, start, end)`: the empty instance for an empty range, else a view
      of the string; only the second case goes through the constructor checks. */
  function OfRange(s: string, a: nat, b: nat): (p: PoolString)
    requires a == b || (a < b && b <= |s|)
    ensures p.base.Str?
    ensures Length(p) == b - a
    ensures a < b ==> p.base == Str(s) && ToString(p) == s[a..b]
  {
    if a == b then Empty else PoolStr(Str(s), a, b)
  }

  /** `of(base)`: a view of the whole string. */
  function Of(s: string): (p: PoolString)
    ensures p.base.Str? && ToString(p) == s
    ensures s == "" ==> p == Empty
    ensures s != "" ==> p.base == Str(s) && p.endIndex == |s|
  {
    OfRange(s, 0, |s|)
  }

  /** `charAt(i)`: only the backing buffer's bounds are checked, so an index past
      the span but inside the buffer reads the buffer. */
  function CharAt(p: PoolString, i: int): char
    requires 0 <= p.startIndex + i < |p.base.chars|
  {
    p.base.chars[p.startIndex + i]
  }

  lemma CharAtIsContent(p: PoolString, i: nat)
    requires i < Length(p)
    ensures CharAt(p, i) == ToString(p)[i]
  {
  }

  /** `subSequence(a, b)`: the empty instance for equal bounds, otherwise a view of
      the same buffer; like `charAt` it is checked against the buffer, not the span. */
  function SubSequence(p: PoolString, a: nat, b: nat): (r: PoolString)
    requires a == b || (a < b && p.startIndex + b <= |p.base.chars|)
    ensures a == b ==> r == Empty
    ensures a < b ==> r.base == p.base && r.startIndex == p.startIndex + a && r.endIndex == p.startIndex + b
    ensures b <= Length(p) ==> ToString(r) == ToString(p)[a..b]
  {
    if a == b then Empty
    else
      SliceOfSlice(p.base.chars, p.startIndex, p.endIndex, a, b);
      PoolStr(p.base, p.startIndex + a, p.startIndex + b)
  }

  /** A builder-backed span that ends where its builder ends; appending to such a
      span extends exactly that span. Every string-backed span qualifies. */
  predicate AtBuilderEnd(p: PoolString) {
    p.base.Builder? ==> p.endIndex == |p.base.chars|
  }

  /** `concat(PoolString)`. A builder-backed receiver appends to its own builder but
      widens the view from its own `endIndex`. */
  function Concat(p: PoolString, other: PoolString): (r: PoolString)
    ensures p == Empty ==> r == other
    ensures p != Empty && other == Empty ==> r == p
    ensures (p != Empty && other != Empty && p.base == other.base && p.endIndex == other.startIndex)
              ==> r.base == p.base
  {
    if p == Empty then other
    else if other == Empty then p
    else if p.base == other.base && p.endIndex == other.startIndex then
      PoolStr(p.base, p.startIndex, other.endIndex)
    else match p.base
      case Builder(chars) =>
        PoolStr(Builder(chars + ToString(other)), p.startIndex, p.endIndex + Length(other))
      case Str(_) =>
        PoolStr(Builder(ToString(p) + ToString(other)), 0, Length(p) + Length(other))
  }

  /** Concatenation produces the two contents one after the other, and keeps the
      end-of-builder property, whenever the receiver sits at the end of its builder. */
  lemma ConcatContent(p: PoolString, other: PoolString)
    requires AtBuilderEnd(p)
    ensures ToString(Concat(p, other)) == ToString(p) + ToString(other)
    ensures AtBuilderEnd(other) ==> AtBuilderEnd(Concat(p, other))
  {
    if p != Empty && other != Empty && p.base == other.base && p.endIndex == other.startIndex {
      var s := p.base.chars;
      assert s[p.startIndex..other.endIndex] == s[p.startIndex..p.endIndex] + s[p.endIndex..other.endIndex];
    } else if p != Empty && other != Empty && p.base.Builder? {
      var s := p.base.chars + ToString(other);
      assert s[p.startIndex..p.endIndex + Length(other)] == ToString(p) + ToString(other);
    }
  }

  /** `ConcatContent` as an implication, for use inside function bodies. */
  lemma ConcatContentWhenAtEnd(p: PoolString, other: PoolString)
    ensures AtBuilderEnd(p) ==> ToString(Concat(p, other)) == ToString(p) + ToString(other)
    ensures AtBuilderEnd(p) && AtBuilderEnd(other) ==> AtBuilderEnd(Concat(p, other))
  {
    if AtBuilderEnd(p) {
      ConcatContent(p, other);
    }
  }

  /** What goes wrong without the end-of-builder condition: a view of "a" inside a
      builder holding "ab", concatenated with "c", reads "ab" instead of "ac". */
  lemma ConcatBuilderNotAtEnd()
    ensures var p := PoolStr(Builder("ab"), 0, 1);
            ToString(Concat(p, Of("c"))) == "ab" != ToString(p) + "c"
  {
    var p := PoolStr(Builder("ab"), 0, 1);
    var r := Concat(p, Of("c"));
    assert r == PoolStr(Builder("abc"), 0, 2);
    assert ToString(r) == "abc"[0..2] == "ab";
  }

  /** `concat(String)`: a string-backed span whose buffer already continues with
      `other` just widens; otherwise it falls back to `concat(of(other))`. */
  function ConcatString(p: PoolString, other: string): (r: PoolString)
    ensures ContinuesWith(p, other) ==> r.base == p.base && r.startIndex == p.startIndex
  {
    if ContinuesWith(p, other) then PoolStr(p.base, p.startIndex, p.endIndex + |other|)
    else Concat(p, Of(other))
  }

  /** A string-backed span whose buffer goes on with `other` right after it. */
  predicate ContinuesWith(p: PoolString, other: string) {
    p.base.Str? && p.endIndex + |other| <= |p.base.chars|
    && p.base.chars[p.endIndex..p.endIndex + |other|] == other
  }

  lemma ConcatStringContent(p: PoolString, other: string)
    requires AtBuilderEnd(p)
    ensures ToString(ConcatString(p, other)) == ToString(p) + other
    ensures AtBuilderEnd(ConcatString(p, other))
  {
    if ContinuesWith(p, other) {
      var s := p.base.chars;
      assert s[p.startIndex..p.endIndex + |other|] == s[p.startIndex..p.endIndex] + s[p.endIndex..p.endIndex + |other|];
    } else {
      ConcatContent(p, Of(other));
    }
  }

  /** One argument of the variadic `concat(CharSequence...)`: a `String` or a `PoolString`. */
  datatype Piece = Lit(s: string) | Span(p: PoolString)

  function PieceText(x: Piece): string {
    match x
    case Lit(s) => s
    case Span(p) => ToString(p)
  }

  /** The reference meaning of a list of pieces: their texts one after another. */
  function Flatten(xs: seq<Piece>): string {
    if |xs| == 0 then "" else PieceText(xs[0]) + Flatten(xs[1..])
  }

  lemma FlattenTwo(a: Piece, b: Piece)
    ensures Flatten([a, b]) == PieceText(a) + PieceText(b)
  {
    assert [a, b][1..] == [b];
    assert [b][1..] == [];
    assert Flatten([b]) == PieceText(b) + Flatten([]);
  }

  lemma FlattenFour(a: Piece, b: Piece, c: Piece, d: Piece)
    ensures Flatten([a, b, c, d]) == PieceText(a) + PieceText(b) + Flatten([c, d])
  {
    assert [a, b, c, d][1..] == [b, c, d];
    assert [b, c, d][1..] == [c, d];
  }

  lemma FlattenSix(a: Piece, b: Piece, c: Piece, d: Piece, e: Piece, f: Piece)
    ensures Flatten([a, b, c, d, e, f]) == PieceText(a) + PieceText(b) + Flatten([c, d, e, f])
  {
    assert [a, b, c, d, e, f][1..] == [b, c, d, e, f];
    assert [b, c, d, e, f][1..] == [c, d, e, f];
  }

  /** The text of two argument lists one after the other. */
  lemma {:induction false} FlattenAppend(xs: seq<Piece>, ys: seq<Piece>)
    ensures Flatten(xs + ys) == Flatten(xs) + Flatten(ys)
    decreases |xs|
  {
    if |xs| == 0 {
      assert xs + ys == ys;
    } else {
      assert (xs + ys)[1..] == xs[1..] + ys;
      FlattenAppend(xs[1..], ys);
      AppendAssoc(PieceText(xs[0]), Flatten(xs[1..]), Flatten(ys));
    }
  }

  predicate PiecesAtBuilderEnd(xs: seq<Piece>) {
    forall i :: 0 <= i < |xs| && xs[i].Span? ==> AtBuilderEnd(xs[i].p)
  }

  /** `asPool`. */
  function AsPool(x: Piece): PoolString {
    match x
    case Lit(s) => Of(s)
    case Span(p) => p
  }

  /** One step of the loop of `concat(CharSequence...)`. */
  function Append(total: PoolString, x: Piece): PoolString {
    match x
    case Lit(s) => ConcatString(total, s)
    case Span(q) => Concat(total, q)
  }

  lemma AppendContent(total: PoolString, x: Piece)
    requires AtBuilderEnd(total) && (x.Span? ==> AtBuilderEnd(x.p))
    ensures ToString(Append(total, x)) == ToString(total) + PieceText(x)
    ensures AtBuilderEnd(Append(total, x))
  {
    match x {
      case Lit(s) => ConcatStringContent(total, s);
      case Span(q) => ConcatContent(total, q);
    }
  }

  /** The loop of `concat(CharSequence...)`, appending `xs` to `total` in order. */
  function AppendAll(total: PoolString, xs: seq<Piece>): PoolString
    decreases |xs|
  {
    if |xs| == 0 then total else AppendAll(Append(total, xs[0]), xs[1..])
  }

  /** `concat(CharSequence...)`. */
  function ConcatAll(xs: seq<Piece>): PoolString {
    if |xs| == 0 then Empty else AppendAll(AsPool(xs[0]), xs[1..])
  }

  lemma PiecesTailAtBuilderEnd(xs: seq<Piece>)
    requires |xs| > 0 && PiecesAtBuilderEnd(xs)
    ensures PiecesAtBuilderEnd(xs[1..])
  {
    forall i | 0 <= i < |xs[1..]| && xs[1..][i].Span? ensures AtBuilderEnd(xs[1..][i].p) {
      assert xs[1..][i] == xs[i + 1];
    }
  }

  lemma {:induction false} AppendAllContent(total: PoolString, xs: seq<Piece>)
    requires AtBuilderEnd(total) && PiecesAtBuilderEnd(xs)
    ensures ToString(AppendAll(total, xs)) == ToString(total) + Flatten(xs)
    ensures AtBuilderEnd(AppendAll(total, xs))
    decreases |xs|
  {
    if |xs| > 0 {
      var next := Append(total, xs[0]);
      AppendContent(total, xs[0]);
      PiecesTailAtBuilderEnd(xs);
      AppendAllContent(next, xs[1..]);
      assert AppendAll(total, xs) == AppendAll(next, xs[1..]);
      assert Flatten(xs) == PieceText(xs[0]) + Flatten(xs[1..]);
      AppendAssoc(ToString(total), PieceText(xs[0]), Flatten(xs[1..]));
    }
  }

  /** The variadic concatenation spells out its pieces in order. */
  lemma ConcatAllContent(xs: seq<Piece>)
    requires PiecesAtBuilderEnd(xs)
    ensures ToString(ConcatAll(xs)) == Flatten(xs)
    ensures AtBuilderEnd(ConcatAll(xs))
  {
    if |xs| > 0 {
      PiecesTailAtBuilderEnd(xs);
      AppendAllContent(AsPool(xs[0]), xs[1..]);
    }
  }

  /** The comparison loop shared by `sameAs`, `startsWith` and `endsWith`:
      characters `offset + j` of the span against `s[j]`, for `j` from `i` on. */
  function CharsMatch(p: PoolString, s: string, offset: nat, i: nat): (b: bool)
    requires offset + |s| <= Length(p) && i <= |s|
    ensures b <==> ToString(p)[offset + i..offset + |s|] == s[i..]
    decreases |s| - i
  {
    if i == |s| then true
    else if CharAt(p, offset + i) != s[i] then
      assert ToString(p)[offset + i..offset + |s|][0] != s[i..][0];
      false
    else
      var b := CharsMatch(p, s, offset, i + 1);
      assert ToString(p)[offset + i..offset + |s|] == [s[i]] + ToString(p)[offset + i + 1..offset + |s|];
      assert s[i..] == [s[i]] + s[i + 1..];
      b
  }

  /** `sameAs(other)`. */
  function SameAs(p: PoolString, other: string): (b: bool)
    ensures b <==> ToString(p) == other
  {
    Length(p) == |other| && CharsMatch(p, other, 0, 0)
  }

  /** `startsWith(prefix)`. */
  function StartsWith(p: PoolString, prefix: string): (b: bool)
    ensures b <==> prefix <= ToString(p)
  {
    Length(p) >= |prefix| && CharsMatch(p, prefix, 0, 0)
  }

  /** `endsWith(suffix)`. */
  function EndsWithText(p: PoolString, suffix: string): (b: bool)
    ensures b <==> EndsWith(ToString(p), suffix)
  {
    Length(p) >= |suffix| && CharsMatch(p, suffix, Length(p) - |suffix|, 0)
  }

  /** `indexOf(String)`: searches the whole buffer from `startIndex` and keeps the
      first hit if it starts before `endIndex`, even when it runs past the end. */
  function IndexOf(p: PoolString, needle: string): (r: int)
    ensures -1 <= r < Length(p)
    ensures r >= 0 ==> OccursAt(p.base.chars, needle, p.startIndex + r)
    ensures r >= 0 ==> forall k :: p.startIndex <= k < p.startIndex + r ==> !OccursAt(p.base.chars, needle, k)
    ensures r == -1 ==> forall k :: p.startIndex <= k < p.endIndex ==> !OccursAt(p.base.chars, needle, k)
  {
    var result := IndexOfFrom(p.base.chars, needle, p.startIndex);
    if result == -1 || result >= p.endIndex then -1 else result - p.startIndex
  }

  /** `indexOf(char)`: like `indexOf(String)`, the first hit in the buffer from
      `startIndex` on, kept if it lies before `endIndex`. */
  function IndexOfChar(p: PoolString, c: char): (r: int)
    ensures -1 <= r < Length(p)
    ensures r >= 0 ==> ToString(p)[r] == c
    ensures forall k :: 0 <= k < Length(p) && (r == -1 || k < r) ==> ToString(p)[k] != c
  {
    var result := IndexOfCharFrom(p.base.chars, c, p.startIndex);
    if result == -1 || result >= p.endIndex then -1 else result - p.startIndex
  }

  /** An occurrence in the span's text is an occurrence in its buffer. */
  lemma ContentOccurrence(p: PoolString, needle: string, k: nat)
    requires OccursAt(ToString(p), needle, k)
    ensures OccursAt(p.base.chars, needle, p.startIndex + k)
  {
    assert ToString(p)[k..] <= p.base.chars[p.startIndex + k..];
  }

  /** A hit that fits in the span is spelled out in the span's text. */
  lemma IndexOfInside(p: PoolString, needle: string)
    requires IndexOf(p, needle) >= 0 && IndexOf(p, needle) + |needle| <= Length(p)
    ensures OccursAt(ToString(p), needle, IndexOf(p, needle))
  {
    var r := IndexOf(p, needle);
    assert ToString(p)[r..r + |needle|] == p.base.chars[p.startIndex + r..p.startIndex + r + |needle|];
  }

  /** The span stops at a LF of its buffer or at the buffer's end: what every
      span the changelog parser cuts satisfies. */
  predicate EndsAtLineBreak(p: PoolString) {
    p.endIndex == |p.base.chars| || p.base.chars[p.endIndex] == '\n'
  }

  /** A needle whose only LF is its first character is spelled out in full by
      `indexOf` in a span ending at a line break. */
  predicate LineAnchored(needle: string) {
    |needle| > 0 && forall i :: 1 <= i < |needle| ==> needle[i] != '\n'
  }

  /** No hit can run past the end of a span that is followed by a LF or by the
      end of its buffer, when the needle has no LF after its first character. */
  lemma NoStraddle(p: PoolString, needle: string)
    requires EndsAtLineBreak(p) && LineAnchored(needle)
    requires IndexOf(p, needle) >= 0
    ensures IndexOf(p, needle) + |needle| <= Length(p)
  {
    var q := p.startIndex + IndexOf(p, needle);
    if q + |needle| > p.endIndex {
      assert false;
    }
  }

  /** `until(lookingFor)`: everything before the first hit, or the whole span. */
  function Until(p: PoolString, lookingFor: string): (r: PoolString)
    ensures IndexOf(p, lookingFor) == -1 ==> r == p
    ensures IndexOf(p, lookingFor) >= 0 ==> ToString(r) == ToString(p)[..IndexOf(p, lookingFor)]
    ensures r == Empty || (r.base == p.base && r.startIndex == p.startIndex && r.endIndex <= p.endIndex)
    ensures p.base.Str? ==> r.base.Str?
  {
    var idx := IndexOf(p, lookingFor);
    if idx == -1 then p else SubSequence(p, 0, idx)
  }

  /** The precondition `after` checks: `other` is empty, or a prefix view of the
      same buffer starting at the same index. */
  predicate IsPrefixView(p: PoolString, other: PoolString) {
    IsEmpty(other) || (other.base == p.base && other.startIndex == p.startIndex && other.endIndex <= p.endIndex)
  }

  /** `after(other)`: everything following a prefix produced by `until`. */
  function After(p: PoolString, other: PoolString): (r: PoolString)
    requires IsPrefixView(p, other)
    ensures IsEmpty(other) ==> r == p
    ensures ToString(other) + ToString(r) == ToString(p)
    ensures r == Empty || (r.base == p.base && r.endIndex == p.endIndex)
    ensures p.base.Str? ==> r.base.Str?
  {
    if IsEmpty(other) then p
    else if other.endIndex == p.endIndex then Empty
    else
      var s := p.base.chars;
      assert s[p.startIndex..p.endIndex] == s[p.startIndex..other.endIndex] + s[other.endIndex..p.endIndex];
      PoolStr(p.base, other.endIndex, p.endIndex)
  }

  lemma UntilIsPrefixView(p: PoolString, lookingFor: string)
    ensures IsPrefixView(p, Until(p, lookingFor))
  {
  }

  /** `until` and `after` split a span into two parts that spell it out again. */
  lemma UntilAfter(p: PoolString, lookingFor: string)
    ensures IsPrefixView(p, Until(p, lookingFor))
    ensures ToString(Until(p, lookingFor)) + ToString(After(p, Until(p, lookingFor))) == ToString(p)
  {
  }

  /** The part `until` stops before holds no hit starting inside it, so its text
      never contains the marker. */
  lemma UntilOmitsMarker(p: PoolString, lookingFor: string)
    ensures ToString(Until(p, lookingFor)) <= ToString(p)
    ensures forall k :: 0 <= k < Length(Until(p, lookingFor)) ==> !OccursAt(ToString(p), lookingFor, k)
    ensures |lookingFor| > 0 ==> !Contains(ToString(Until(p, lookingFor)), lookingFor)
  {
    forall k | 0 <= k < Length(Until(p, lookingFor)) ensures !OccursAt(ToString(p), lookingFor, k) {
      if OccursAt(ToString(p), lookingFor, k) {
        ContentOccurrence(p, lookingFor, k);
      }
    }
    if |lookingFor| > 0 {
      CutBeforeMarker(p, Until(p, lookingFor), lookingFor);
    }
  }

  /** When `until` stops at a hit that fits in the span, the rest begins with it. */
  lemma AfterStartsWithHit(p: PoolString, lookingFor: string)
    requires IndexOf(p, lookingFor) >= 0 && IndexOf(p, lookingFor) + |lookingFor| <= Length(p)
    ensures lookingFor <= ToString(After(p, Until(p, lookingFor)))
  {
    var idx := IndexOf(p, lookingFor);
    var t := ToString(p);
    IndexOfInside(p, lookingFor);
    assert lookingFor <= t[idx..];
    UntilAfter(p, lookingFor);
    var u := Until(p, lookingFor);
    assert |ToString(u)| == idx;
    var a := ToString(After(p, u));
    assert ToString(u) + a == t;
    assert a == t[idx..];
  }

  /** Cutting before a marker that starts with a LF keeps the span ending at a line break. */
  lemma UntilEndsAtLineBreak(p: PoolString, lookingFor: string)
    requires EndsAtLineBreak(p)
    requires |lookingFor| > 0 && lookingFor[0] == '\n'
    ensures EndsAtLineBreak(Until(p, lookingFor))
  {
    var idx := IndexOf(p, lookingFor);
    if idx > 0 {
      assert p.base.chars[p.startIndex + idx..][0] == lookingFor[0];
    }
  }

  lemma AfterWholeIsEmpty(p: PoolString)
    ensures IsEmpty(After(p, p))
  {
  }

  /** Without a hit nothing is left after `until`. */
  lemma NoHitNothingAfter(p: PoolString, lookingFor: string)
    ensures IndexOf(p, lookingFor) == -1 ==> IsEmpty(After(p, Until(p, lookingFor)))
  {
    if IndexOf(p, lookingFor) == -1 {
      assert Until(p, lookingFor) == p;
      AfterWholeIsEmpty(p);
    }
  }

  /** Something is left after `until` only when the marker was hit, and in a
      span ending at a line break the hit fits inside the span. */
  lemma HitFits(p: PoolString, lookingFor: string)
    requires EndsAtLineBreak(p) && LineAnchored(lookingFor)
    requires !IsEmpty(After(p, Until(p, lookingFor)))
    ensures IndexOf(p, lookingFor) >= 0 && IndexOf(p, lookingFor) + |lookingFor| <= Length(p)
  {
    var i := IndexOf(p, lookingFor);
    if i == -1 {
      NoHitNothingAfter(p, lookingFor);
      assert false;
    }
    NoStraddle(p, lookingFor);
  }

  /** When `until` stops early in a span ending at a line break, what `after` keeps
      starts with the marker and still ends at that line break. */
  lemma SplitAtHit(p: PoolString, lookingFor: string)
    requires EndsAtLineBreak(p) && LineAnchored(lookingFor)
    requires !IsEmpty(After(p, Until(p, lookingFor)))
    ensures lookingFor <= ToString(After(p, Until(p, lookingFor)))
    ensures EndsAtLineBreak(After(p, Until(p, lookingFor)))
  {
    HitFits(p, lookingFor);
    AfterStartsWithHit(p, lookingFor);
  }

  /** In a span ending at a line break, `indexOf` of a line-anchored needle is
      the plain first occurrence in the span's text. */
  lemma IndexOfContent(p: PoolString, needle: string)
    requires EndsAtLineBreak(p) && LineAnchored(needle)
    ensures IndexOf(p, needle) == IndexOfFrom(ToString(p), needle, 0)
  {
    var r := IndexOf(p, needle);
    var t := ToString(p);
    var q := IndexOfFrom(t, needle, 0);
    if r >= 0 {
      NoStraddle(p, needle);
      IndexOfInside(p, needle);
      assert q != -1;
      if q < r {
        ContentOccurrence(p, needle, q);
      }
    } else if q >= 0 {
      assert q < Length(p);
      ContentOccurrence(p, needle, q);
    }
  }

  /** A leading piece of a span, cut before any place the marker occurs, holds no marker. */
  lemma CutBeforeMarker(p: PoolString, u: PoolString, lookingFor: string)
    requires |lookingFor| > 0 && ToString(u) <= ToString(p)
    requires forall k :: 0 <= k < Length(u) ==> !OccursAt(ToString(p), lookingFor, k)
    ensures !Contains(ToString(u), lookingFor)
  {
    PrefixWithoutOccurrence(ToString(u), ToString(p), lookingFor);
  }

  /** `PoolStringTest`: "abcdef" split around "a". */
  lemma UntilAfterExampleA()
    ensures var s := Of("abcdef");
            ToString(Until(s, "a")) == "" && ToString(After(s, Until(s, "a"))) == "abcdef"
  {
    var s := Of("abcdef");
    assert OccursAt("abcdef", "a", 0);
    UntilAfter(s, "a");
  }

  lemma IndexOfExampleC()
    ensures IndexOf(Of("abcdef"), "c") == 2
  {
    assert Of("abcdef") == PoolStr(Str("abcdef"), 0, 6);
    assert "abcdef"[2..][..1] == "c";
    assert OccursAt("abcdef", "c", 2);
    assert "abcdef"[0..][0] == 'a' && "abcdef"[1..][0] == 'b';
  }

  /** With a hit, `until` and `after` cut the text at its first occurrence. */
  lemma UntilAfterHit(p: PoolString, lookingFor: string)
    requires IndexOf(p, lookingFor) >= 0
    ensures IsPrefixView(p, Until(p, lookingFor))
    ensures ToString(Until(p, lookingFor)) == ToString(p)[..IndexOf(p, lookingFor)]
    ensures ToString(After(p, Until(p, lookingFor))) == ToString(p)[IndexOf(p, lookingFor)..]
  {
    var i := IndexOf(p, lookingFor);
    var t := ToString(p);
    UntilAfter(p, lookingFor);
    assert t == t[..i] + t[i..];
  }

  /** `PoolStringTest`: "abcdef" split around "c". */
  lemma UntilAfterExampleC()
    ensures var s := Of("abcdef");
            ToString(Until(s, "c")) == "ab" && ToString(After(s, Until(s, "c"))) == "cdef"
  {
    IndexOfExampleC();
    UntilAfterHit(Of("abcdef"), "c");
    SplitAbcdef();
  }

  lemma SplitAbcdef()
    ensures "abcdef"[..2] == "ab" && "abcdef"[2..] == "cdef"
  {
  }

  /** `PoolStringTest`: "abcdef" split around "z", which it does not contain. */
  lemma UntilAfterExampleZ()
    ensures var s := Of("abcdef");
            ToString(Until(s, "z")) == "abcdef" && ToString(After(s, Until(s, "z"))) == ""
  {
    var s := Of("abcdef");
    forall k | 0 <= k < 6 ensures !OccursAt("abcdef", "z", k) {
      assert "abcdef"[k..][0] == "abcdef"[k];
    }
    assert IndexOf(s, "z") == -1;
  }

  /** `baseLineNumberOfOffset(idx)`: checks that the buffer is still a `String`,
      then counts every LF of the whole buffer; `idx` is never consulted. */
  function BaseLineNumberOfOffset(p: PoolString, idx: nat): (line: int)
    requires p.base.Str?
    ensures line == 1 + multiset(p.base.chars)['\n']
  {
    1 + CountChar(p.base.chars, '\n')
  }

  /** `baseLineNumberStart()`. */
  function BaseLineNumberStart(p: PoolString): int
    requires p.base.Str?
  {
    BaseLineNumberOfOffset(p, p.startIndex)
  }

  /** `baseLineNumberEnd()`. */
  function BaseLineNumberEnd(p: PoolString): int
    requires p.base.Str?
  {
    BaseLineNumberOfOffset(p, p.endIndex)
  }

  /** Because the offset is ignored, the start and the end of any span report the
      same line: the number of lines of the whole buffer. */
  lemma LineNumberIgnoresOffset(p: PoolString)
    requires p.base.Str?
    ensures BaseLineNumberStart(p) == BaseLineNumberEnd(p) == 1 + multiset(p.base.chars)['\n']
  {
  }
}
