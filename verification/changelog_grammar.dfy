/** The grammar `Changelog` and its older copy `ParsedChangelog` both parse: a
    preamble up to `"\n## [Unreleased]"`, then sections made of one header line
    and the body up to the next `"\n## ["`, all before an end marker below which
    nothing is parsed. The two Java classes carry identical copies of this code
    and differ only in the end marker, so here it is written once and the marker
    is a parameter. */
module ChangelogGrammar {
  import opened Wrappers
  import opened Text
  import opened PoolStrings

  const VERSION_BEGIN: string := "\n## ["
  const UNRELEASED: string := VERSION_BEGIN + "Unreleased]"
  /** What separates the version from the date in a released header. */
  const DATE_SEPARATOR: string := "] - "
  /** `"yyyy-mm-dd".length()`. */
  const DATE_LENGTH: nat := 10
  /** What the parser searches the raw text for when the marker is not on its own line. */
  const ALMOST_UNRELEASED: string := "## [Unreleased]"

  const NEEDS_NEWLINE: string := "Needs a newline directly before '## [Unreleased]'"
  const NEEDS_UNRELEASED: string := "Needs to have '## [Unreleased]'"
  const MISSING_SEPARATOR: string := "'] - ' is missing from the expected '## [x.y.z] - yyyy-mm-dd'"
  const MISSING_DATE: string := "'yyyy-mm-dd' is missing from the expected '## [x.y.z] - yyyy-mm-dd'"
  const NEEDS_SPACE: string := "If you want to put stuff after 'yyyy-mm-dd', you need to separate it with a space"

  /** A parsed header line. Java marks the unreleased header by a null version;
      `misc` is whatever follows `[Unreleased]`, or follows the date after a space. */
  datatype Header =
    | UnreleasedHeader(misc: Option<PoolString>)
    | ReleasedHeader(version: PoolString, date: PoolString, misc: Option<PoolString>)

  /** The header parser returns a header, or records one error and returns null. */
  datatype HeaderParse = Parsed(header: Header) | HeaderError(line: int, message: string)

  datatype Section = Section(header: Header, body: PoolString)

  /** What the parse loop leaves behind: the sections, the unparsed rest after an
      error, and the errors (an insertion-ordered map from line to message). */
  datatype Tail = Tail(sections: seq<Section>, unparseable: Option<PoolString>, errors: seq<(int, string)>)

  /** The fields the constructor of either class fills in. */
  datatype Layout = Layout(
    windowsNewlines: bool,
    dontParse: PoolString,
    beforeUnreleased: PoolString,
    sections: seq<Section>,
    unparseableAfterError: Option<PoolString>,
    errors: seq<(int, string)>)

  lemma MarkersAnchored()
    ensures LineAnchored(VERSION_BEGIN) && VERSION_BEGIN[0] == '\n'
    ensures LineAnchored(UNRELEASED) && UNRELEASED[0] == '\n'
    ensures LineAnchored(DATE_SEPARATOR)
    ensures VERSION_BEGIN <= UNRELEASED
  {
    assert '\n' !in VERSION_BEGIN[1..];
    LfOnlyFirst(VERSION_BEGIN);
    assert '\n' !in UNRELEASED[1..];
    LfOnlyFirst(UNRELEASED);
    assert '\n' !in DATE_SEPARATOR[1..];
    LfOnlyFirst(DATE_SEPARATOR);
  }

  lemma LfOnlyFirst(needle: string)
    requires |needle| > 0 && '\n' !in needle[1..]
    ensures LineAnchored(needle)
  {
    forall i | 1 <= i < |needle| ensures needle[i] != '\n' {
      assert needle[i] == needle[1..][i - 1];
    }
  }

  /** The marker each header must start with: the first is the unreleased one. */
  function Expected(first: bool): string {
    if first then UNRELEASED else VERSION_BEGIN
  }

  // ---------------------------------------------------------------- header line

  /** The header line at the front of `toParse`: everything up to, not including,
      the first LF after its first character. */
  function HeaderLine(toParse: PoolString): (line: PoolString)
    requires Length(toParse) > 0
    ensures line.base == toParse.base
    ensures line.startIndex == toParse.startIndex
    ensures line.startIndex < line.endIndex <= toParse.endIndex
  {
    var tail := SubSequence(toParse, 1, Length(toParse));
    assert Length(tail) == Length(toParse) - 1;
    var lastSlash := IndexOfChar(tail, '\n');
    if lastSlash == -1 then toParse else SubSequence(toParse, 0, lastSlash + 1)
  }

  lemma HeaderLineFacts(toParse: PoolString)
    requires Length(toParse) > 0 && EndsAtLineBreak(toParse)
    ensures HeaderLine(toParse).base == toParse.base
    ensures HeaderLine(toParse).startIndex == toParse.startIndex
    ensures EndsAtLineBreak(HeaderLine(toParse))
    ensures forall i :: 1 <= i < Length(HeaderLine(toParse)) ==> ToString(toParse)[i] != '\n'
    ensures Length(HeaderLine(toParse)) < Length(toParse) ==> ToString(toParse)[Length(HeaderLine(toParse))] == '\n'
  {
    var t := ToString(toParse);
    var len := Length(toParse);
    var tail := SubSequence(toParse, 1, len);
    assert Length(tail) == len - 1;
    assert ToString(tail) == t[1..len];
    var r := IndexOfChar(tail, '\n');
    var n := Length(HeaderLine(toParse));
    forall i | 1 <= i < n ensures t[i] != '\n' {
      assert ToString(tail)[i - 1] == t[i];
    }
    if r >= 0 {
      assert ToString(tail)[r] == t[r + 1];
      assert toParse.base.chars[toParse.startIndex + r + 1] == t[r + 1];
    }
  }

  /** A marker whose only LF is its first character fits on the header line. */
  lemma HeaderLineKeepsMarker(toParse: PoolString, marker: string)
    requires Length(toParse) > 0 && EndsAtLineBreak(toParse)
    requires LineAnchored(marker) && marker <= ToString(toParse)
    ensures marker <= ToString(HeaderLine(toParse))
  {
    var line := HeaderLine(toParse);
    var t := ToString(toParse);
    var n := Length(line);
    HeaderLineFacts(toParse);
    assert ToString(line) == t[..n] by {
      assert ToString(line) + ToString(After(toParse, line)) == t;
    }
    if n < Length(toParse) {
      assert t[n] == '\n';
    }
    assert |marker| <= n;
  }

  /** What follows the header line is empty or starts with the LF that ended it. */
  lemma RestAfterHeader(toParse: PoolString)
    requires Length(toParse) > 0 && EndsAtLineBreak(toParse)
    ensures EndsAtLineBreak(After(toParse, HeaderLine(toParse)))
    ensures var rest := After(toParse, HeaderLine(toParse));
            IsEmpty(rest) || ToString(rest)[0] == '\n'
  {
    var line := HeaderLine(toParse);
    HeaderLineFacts(toParse);
    var rest := After(toParse, line);
    assert ToString(line) + ToString(rest) == ToString(toParse);
    if !IsEmpty(rest) {
      assert ToString(rest)[0] == ToString(toParse)[Length(line)];
    }
  }

  // ---------------------------------------------------------------- header parse

  /** No `"] - "` can start inside the leading `"\n## ["`. */
  lemma VersionEndAfterBegin(line: PoolString)
    requires VERSION_BEGIN <= ToString(line)
    ensures IndexOf(line, DATE_SEPARATOR) == -1 || IndexOf(line, DATE_SEPARATOR) >= |VERSION_BEGIN|
  {
    var r := IndexOf(line, DATE_SEPARATOR);
    var s := line.base.chars;
    if r >= 0 {
      assert ToString(line)[r] == ']' by {
        assert s[line.startIndex + r..][0] == DATE_SEPARATOR[0];
      }
      assert ']' !in VERSION_BEGIN;
    }
  }

  /** `VersionEntry.parse` / `VersionHeader.parse`: the first header must be the
      unreleased one and everything after the marker is its trailer; a released
      header is `"\n## [" version "] - " date` optionally followed by a space and
      a trailer, and any other shape records an error on the line the buffer
      reports. */
  function ParseHeader(line: PoolString, first: bool): (r: HeaderParse)
    requires line.base.Str?
    requires Expected(first) <= ToString(line)
    ensures r.Parsed? ==> (first <==> r.header.UnreleasedHeader?)
    ensures r.Parsed? && first ==> r.header.misc.Some?
    ensures r.Parsed? && !first ==> Length(r.header.date) == DATE_LENGTH
    ensures r.HeaderError? ==> !first && r.line == 1 + multiset(line.base.chars)['\n']
    ensures r.Parsed? ==> HeaderOnStr(r.header)
  {
    if first then
      Parsed(UnreleasedHeader(Some(SubSequence(line, |UNRELEASED|, Length(line)))))
    else
      VersionEndAfterBegin(line);
      var versionEnd := IndexOf(line, DATE_SEPARATOR);
      if versionEnd == -1 then HeaderError(BaseLineNumberStart(line), MISSING_SEPARATOR)
      else
        var startDate := versionEnd + |DATE_SEPARATOR|;
        var endDate := startDate + DATE_LENGTH;
        if endDate > Length(line) then HeaderError(BaseLineNumberStart(line), MISSING_DATE)
        else if endDate < Length(line) && CharAt(line, endDate) != ' ' then
          HeaderError(BaseLineNumberStart(line), NEEDS_SPACE)
        else
          var misc := if endDate == Length(line) then None else Some(SubSequence(line, endDate + 1, Length(line)));
          Parsed(ReleasedHeader(SubSequence(line, |VERSION_BEGIN|, versionEnd), SubSequence(line, startDate, endDate), misc))
  }

  /** Every span of the header is a view of a `String` (not of a builder). */
  predicate HeaderOnStr(h: Header) {
    match h
    case UnreleasedHeader(m) => m.Some? ==> m.value.base.Str?
    case ReleasedHeader(v, d, m) => v.base.Str? && d.base.Str? && (m.Some? ==> m.value.base.Str?)
  }

  /** A header Java can print: an unreleased header with a null trailer makes
      `toStringUnix` throw a `NullPointerException`. */
  predicate Printable(h: Header) {
    h.ReleasedHeader? || h.misc.Some?
  }

  /** The arguments `toStringUnix` hands to `PoolString.concat`. */
  function HeaderPieces(h: Header): seq<Piece>
    requires Printable(h)
  {
    match h
    case UnreleasedHeader(m) => [Lit(UNRELEASED), Span(m.value)]
    case ReleasedHeader(v, d, None) => [Lit(VERSION_BEGIN), Span(v), Lit(DATE_SEPARATOR), Span(d)]
    case ReleasedHeader(v, d, Some(m)) => [Lit(VERSION_BEGIN), Span(v), Lit(DATE_SEPARATOR), Span(d), Lit(" "), Span(m)]
  }

  /** The text of a header line, as the grammar reads it. */
  function HeaderText(h: Header): string
    requires Printable(h)
  {
    match h
    case UnreleasedHeader(m) => UNRELEASED + ToString(m.value)
    case ReleasedHeader(v, d, misc) =>
      VERSION_BEGIN + ToString(v) + DATE_SEPARATOR + ToString(d) + (if misc.Some? then " " + ToString(misc.value) else "")
  }

  /** All spans of a header sit at the end of their buffers (so `concat` is exact). */
  predicate HeaderAtBuilderEnd(h: Header) {
    match h
    case UnreleasedHeader(m) => m.Some? ==> AtBuilderEnd(m.value)
    case ReleasedHeader(v, d, m) => AtBuilderEnd(v) && AtBuilderEnd(d) && (m.Some? ==> AtBuilderEnd(m.value))
  }

  /** A span made from a string has no builder behind it. */
  lemma OfAtBuilderEnd(s: string)
    ensures AtBuilderEnd(Of(s))
  {
  }

  /** A header made from two strings has no builder behind it. */
  lemma VersionHeaderAtEnd(version: string, date: string)
    ensures HeaderAtBuilderEnd(ReleasedHeader(Of(version), Of(date), None))
  {
    OfAtBuilderEnd(version);
    OfAtBuilderEnd(date);
  }

  lemma HeaderPiecesAtEnd(h: Header)
    requires Printable(h) && HeaderAtBuilderEnd(h)
    ensures PiecesAtBuilderEnd(HeaderPieces(h))
  {
  }

  lemma HeaderPiecesText(h: Header)
    requires Printable(h)
    ensures Flatten(HeaderPieces(h)) == HeaderText(h)
  {
    match h {
      case UnreleasedHeader(m) =>
        FlattenTwo(Lit(UNRELEASED), Span(m.value));
      case ReleasedHeader(v, d, None) =>
        FlattenFour(Lit(VERSION_BEGIN), Span(v), Lit(DATE_SEPARATOR), Span(d));
        FlattenTwo(Lit(DATE_SEPARATOR), Span(d));
      case ReleasedHeader(v, d, Some(m)) =>
        FlattenSix(Lit(VERSION_BEGIN), Span(v), Lit(DATE_SEPARATOR), Span(d), Lit(" "), Span(m));
        FlattenFour(Lit(DATE_SEPARATOR), Span(d), Lit(" "), Span(m));
        FlattenTwo(Lit(" "), Span(m));
    }
  }

  /** A parsed header prints back to exactly the line it was parsed from. */
  lemma ParseHeaderRoundTrip(line: PoolString, first: bool)
    requires line.base.Str? && EndsAtLineBreak(line)
    requires Expected(first) <= ToString(line)
    ensures ParseHeader(line, first).Parsed? ==>
              Printable(ParseHeader(line, first).header)
              && HeaderText(ParseHeader(line, first).header) == ToString(line)
  {
    var t := ToString(line);
    if first {
      var m := SubSequence(line, |UNRELEASED|, Length(line));
      assert ToString(m) == t[|UNRELEASED|..];
      assert t == t[..|UNRELEASED|] + t[|UNRELEASED|..];
    } else if ParseHeader(line, false).Parsed? {
      ReleasedRoundTrip(line);
    }
  }

  /** The pieces of a released header line, cut at the first `"] - "`. */
  lemma ReleasedLineText(t: string, ve: nat)
    requires VERSION_BEGIN <= t && |VERSION_BEGIN| <= ve
    requires ve + |DATE_SEPARATOR| + DATE_LENGTH <= |t|
    requires t[ve..ve + |DATE_SEPARATOR|] == DATE_SEPARATOR
    ensures var ed := ve + |DATE_SEPARATOR| + DATE_LENGTH;
            t == VERSION_BEGIN + t[|VERSION_BEGIN|..ve] + DATE_SEPARATOR + t[ve + |DATE_SEPARATOR|..ed] + t[ed..]
  {
    var ed := ve + |DATE_SEPARATOR| + DATE_LENGTH;
    assert t[..|VERSION_BEGIN|] == VERSION_BEGIN;
    assert t == t[..|VERSION_BEGIN|] + t[|VERSION_BEGIN|..ve] + t[ve..ve + |DATE_SEPARATOR|] + t[ve + |DATE_SEPARATOR|..ed] + t[ed..];
  }

  lemma ReleasedRoundTrip(line: PoolString)
    requires line.base.Str? && EndsAtLineBreak(line)
    requires VERSION_BEGIN <= ToString(line)
    requires ParseHeader(line, false).Parsed?
    ensures HeaderText(ParseHeader(line, false).header) == ToString(line)
  {
    var t := ToString(line);
    var ve := IndexOf(line, DATE_SEPARATOR);
    ReleasedParts(line);
    ReleasedLineText(t, ve);
  }

  /** The spans of a parsed released header, as pieces of the line's text. */
  lemma ReleasedParts(line: PoolString)
    requires line.base.Str? && EndsAtLineBreak(line)
    requires VERSION_BEGIN <= ToString(line)
    requires ParseHeader(line, false).Parsed?
    ensures var t := ToString(line);
            var h := ParseHeader(line, false).header;
            var ve := IndexOf(line, DATE_SEPARATOR);
            var ed := ve + |DATE_SEPARATOR| + DATE_LENGTH;
            && |VERSION_BEGIN| <= ve && ed <= |t|
            && t[ve..ve + |DATE_SEPARATOR|] == DATE_SEPARATOR
            && ToString(h.version) == t[|VERSION_BEGIN|..ve]
            && ToString(h.date) == t[ve + |DATE_SEPARATOR|..ed]
            && (if h.misc.Some? then " " + ToString(h.misc.value) else "") == t[ed..]
  {
    var t := ToString(line);
    var h := ParseHeader(line, false).header;
    var ve := IndexOf(line, DATE_SEPARATOR);
    ReleasedSeparator(line);
    var sd := ve + |DATE_SEPARATOR|;
    var ed := sd + DATE_LENGTH;
    assert ToString(h.version) == t[|VERSION_BEGIN|..ve];
    assert ToString(h.date) == t[sd..ed];
    if h.misc.Some? {
      assert t[ed] == ' ' && ToString(h.misc.value) == t[ed + 1..];
      SpaceThenRest(t, ed);
    }
  }

  /** A parsed released header has its separator where `indexOf` found it, after
      the opening marker. */
  lemma ReleasedSeparator(line: PoolString)
    requires line.base.Str? && EndsAtLineBreak(line)
    requires VERSION_BEGIN <= ToString(line)
    requires ParseHeader(line, false).Parsed?
    ensures var ve := IndexOf(line, DATE_SEPARATOR);
            && |VERSION_BEGIN| <= ve && ve + |DATE_SEPARATOR| + DATE_LENGTH <= Length(line)
            && ToString(line)[ve..ve + |DATE_SEPARATOR|] == DATE_SEPARATOR
  {
    VersionEndAfterBegin(line);
    MarkersAnchored();
    NoStraddle(line, DATE_SEPARATOR);
    IndexOfInside(line, DATE_SEPARATOR);
  }

  lemma SpaceThenRest(t: string, i: nat)
    requires i < |t| && t[i] == ' '
    ensures " " + t[i + 1..] == t[i..]
  {
  }

  /** The three header errors in terms of the line's text, with `i` the first
      `"] - "`: none at all; fewer than ten characters after it; something other
      than a space right after those ten. */
  lemma ParseHeaderErrors(line: PoolString)
    requires line.base.Str? && EndsAtLineBreak(line)
    requires VERSION_BEGIN <= ToString(line)
    ensures var t := ToString(line);
            var i := IndexOfFrom(t, DATE_SEPARATOR, 0);
            var r := ParseHeader(line, false);
            && (r == HeaderError(1 + multiset(line.base.chars)['\n'], MISSING_SEPARATOR) <==> i == -1)
            && (r == HeaderError(1 + multiset(line.base.chars)['\n'], MISSING_DATE) <==>
                  i >= 0 && i + |DATE_SEPARATOR| + DATE_LENGTH > |t|)
            && (r == HeaderError(1 + multiset(line.base.chars)['\n'], NEEDS_SPACE) <==>
                  i >= 0 && i + |DATE_SEPARATOR| + DATE_LENGTH < |t| && t[i + |DATE_SEPARATOR| + DATE_LENGTH] != ' ')
            && (r.Parsed? <==>
                  (i >= 0 && i + |DATE_SEPARATOR| + DATE_LENGTH <= |t|
                   && (i + |DATE_SEPARATOR| + DATE_LENGTH == |t| || t[i + |DATE_SEPARATOR| + DATE_LENGTH] == ' ')))
  {
    MarkersAnchored();
    IndexOfContent(line, DATE_SEPARATOR);
  }

  // ---------------------------------------------------------------- parse loop

  /** What the loop needs of the rest it is about to parse. */
  predicate Parseable(toParse: PoolString, first: bool) {
    toParse.base.Str? && Length(toParse) > 0 && EndsAtLineBreak(toParse)
    && Expected(first) <= ToString(toParse)
  }

  /** A body as the loop cuts it: empty or starting with a LF, and free of `"\n## ["`. */
  predicate BodyShape(body: PoolString) {
    body.base.Str? &&
    (IsEmpty(body) || ToString(body)[0] == '\n') && !Contains(ToString(body), VERSION_BEGIN)
  }

  /** Section `i` holds the unreleased header exactly when it is the loop's very first. */
  predicate SectionsShape(secs: seq<Section>, first: bool) {
    forall i :: 0 <= i < |secs| ==>
      && (secs[i].header.UnreleasedHeader? <==> first && i == 0)
      && Printable(secs[i].header)
      && HeaderOnStr(secs[i].header)
      && BodyShape(secs[i].body)
  }

  /** The body after a header: up to the next version header. */
  lemma BodyFacts(rest: PoolString)
    requires rest.base.Str?
    requires IsEmpty(rest) || ToString(rest)[0] == '\n'
    ensures BodyShape(Until(rest, VERSION_BEGIN))
  {
    var body := Until(rest, VERSION_BEGIN);
    MarkersAnchored();
    UntilOmitsMarker(rest, VERSION_BEGIN);
    if !IsEmpty(body) {
      assert ToString(body)[0] == ToString(rest)[0] by {
        UntilAfter(rest, VERSION_BEGIN);
        assert ToString(body) + ToString(After(rest, body)) == ToString(rest);
      }
    }
  }

  /** What follows the header line at the front of `toParse`. */
  function Rest(toParse: PoolString): PoolString
    requires Length(toParse) > 0
  {
    After(toParse, HeaderLine(toParse))
  }

  /** The body of the front section: the rest up to the next `"\n## ["`. */
  function Body(toParse: PoolString): PoolString
    requires Length(toParse) > 0
  {
    Until(Rest(toParse), VERSION_BEGIN)
  }

  /** What the loop goes on with after the front section. */
  function Next(toParse: PoolString): PoolString
    requires Length(toParse) > 0
  {
    After(Rest(toParse), Body(toParse))
  }

  /** The header line keeps the marker the loop expects. */
  lemma StepLine(toParse: PoolString, first: bool)
    requires Parseable(toParse, first)
    ensures HeaderLine(toParse).base.Str? && EndsAtLineBreak(HeaderLine(toParse))
    ensures Expected(first) <= ToString(HeaderLine(toParse))
  {
    HeaderLineFacts(toParse);
    MarkersAnchored();
    HeaderLineKeepsMarker(toParse, Expected(first));
  }

  /** The body has the shape the loop promises. */
  lemma StepShape(toParse: PoolString)
    requires toParse.base.Str? && Length(toParse) > 0 && EndsAtLineBreak(toParse)
    ensures BodyShape(Body(toParse))
  {
    RestAfterHeader(toParse);
    BodyFacts(Rest(toParse));
  }

  /** Header line, body and what is left spell out the input. */
  lemma StepBody(toParse: PoolString)
    requires Length(toParse) > 0 && EndsAtLineBreak(toParse)
    ensures ToString(HeaderLine(toParse)) + (ToString(Body(toParse)) + ToString(Next(toParse))) == ToString(toParse)
  {
    assert ToString(HeaderLine(toParse)) + ToString(Rest(toParse)) == ToString(toParse);
    assert ToString(Body(toParse)) + ToString(Next(toParse)) == ToString(Rest(toParse));
  }

  /** Whatever is left is shorter and starts with the next version header. */
  lemma StepNext(toParse: PoolString)
    requires toParse.base.Str? && Length(toParse) > 0 && EndsAtLineBreak(toParse)
    ensures Length(Next(toParse)) < Length(toParse)
    ensures !IsEmpty(Next(toParse)) ==> Parseable(Next(toParse), false)
  {
    RestAfterHeader(toParse);
    MarkersAnchored();
    assert Length(HeaderLine(toParse)) + Length(Rest(toParse)) == Length(toParse) by {
      assert ToString(HeaderLine(toParse)) + ToString(Rest(toParse)) == ToString(toParse);
    }
    assert Length(Body(toParse)) + Length(Next(toParse)) == Length(Rest(toParse)) by {
      assert ToString(Body(toParse)) + ToString(Next(toParse)) == ToString(Rest(toParse));
    }
    if !IsEmpty(Next(toParse)) {
      SplitAtHit(Rest(toParse), VERSION_BEGIN);
    }
  }

  lemma ShapeOne(s: Section, first: bool)
    requires (s.header.UnreleasedHeader? <==> first) && Printable(s.header) && HeaderOnStr(s.header)
    requires BodyShape(s.body)
    ensures SectionsShape([s], first)
  {
  }

  lemma ShapeCons(s: Section, rest: seq<Section>, first: bool)
    requires (s.header.UnreleasedHeader? <==> first) && Printable(s.header) && HeaderOnStr(s.header)
    requires BodyShape(s.body)
    requires SectionsShape(rest, false)
    ensures SectionsShape([s] + rest, first)
  {
    forall i | 1 <= i < |rest| + 1 ensures ([s] + rest)[i] == rest[i - 1] { }
  }

  function OptionalText(p: Option<PoolString>): string {
    if p.Some? then ToString(p.value) else ""
  }

  /** Appending an optional tail adds its text, when the receiver ends its builder. */
  lemma OptionalConcat(p: PoolString, tail: Option<PoolString>)
    ensures tail.Some? ==> (AtBuilderEnd(p) ==> ToString(Concat(p, tail.value)) == ToString(p) + OptionalText(tail))
    ensures tail.Some? ==> (AtBuilderEnd(p) && AtBuilderEnd(tail.value) ==> AtBuilderEnd(Concat(p, tail.value)))
  {
    if tail.Some? {
      ConcatContentWhenAtEnd(p, tail.value);
    }
  }

  predicate AllPrintable(secs: seq<Section>) {
    forall i :: 0 <= i < |secs| ==> Printable(secs[i].header)
  }

  /** The reference text of a list of sections: header line, then body, for each. */
  function SectionsText(secs: seq<Section>): string
    requires AllPrintable(secs)
  {
    if |secs| == 0 then "" else HeaderText(secs[0].header) + ToString(secs[0].body) + SectionsText(secs[1..])
  }

  lemma SectionsTextCons(s: Section, rest: seq<Section>)
    requires Printable(s.header) && AllPrintable(rest)
    ensures AllPrintable([s] + rest)
    ensures SectionsText([s] + rest) == (HeaderText(s.header) + ToString(s.body)) + SectionsText(rest)
  {
    assert ([s] + rest)[1..] == rest;
    forall i | 1 <= i < |rest| + 1 ensures ([s] + rest)[i] == rest[i - 1] { }
  }

  lemma SectionsTextOne(s: Section, next: PoolString)
    requires Printable(s.header) && IsEmpty(next)
    ensures SectionsText([s]) + OptionalText(None) == (HeaderText(s.header) + ToString(s.body)) + ToString(next)
  {
    assert [s][1..] == [];
  }

  /** A parsed front section spells out the front of the input. */
  lemma StepText(toParse: PoolString, first: bool)
    requires Parseable(toParse, first)
    requires HeaderLine(toParse).base.Str? && Expected(first) <= ToString(HeaderLine(toParse))
    requires ParseHeader(HeaderLine(toParse), first).Parsed?
    ensures Printable(ParseHeader(HeaderLine(toParse), first).header)
    ensures (HeaderText(ParseHeader(HeaderLine(toParse), first).header) + ToString(Body(toParse)))
              + ToString(Next(toParse)) == ToString(toParse)
  {
    StepLine(toParse, first);
    ParseHeaderRoundTrip(HeaderLine(toParse), first);
    StepBody(toParse);
    AppendAssoc(ToString(HeaderLine(toParse)), ToString(Body(toParse)), ToString(Next(toParse)));
  }

  /** What the loop promises about the tail it returns for `text`: at most one
      error, recorded exactly when the loop stopped early with the unparsed rest;
      the section shapes; and sections plus rest spelling out `text`. */
  predicate TailFacts(t: Tail, text: string, first: bool) {
    && |t.errors| <= 1
    && (t.unparseable.Some? <==> t.errors != [])
    && (t.unparseable.Some? ==> t.unparseable.value.base.Str?)
    && (first ==> |t.sections| >= 1)
    && SectionsShape(t.sections, first)
    && SectionsText(t.sections) + OptionalText(t.unparseable) == text
  }

  /** A parsed section in front of a tail that keeps its promises keeps them too. */
  function ConsSection(section: Section, t: Tail, first: bool, rest: string, text: string): (r: Tail)
    requires FrontOk(section, first)
    requires TailFacts(t, rest, false)
    requires (HeaderText(section.header) + ToString(section.body)) + rest == text
    ensures TailFacts(r, text, first)
    ensures r.sections == [section] + t.sections && r.unparseable == t.unparseable
  {
    ShapeCons(section, t.sections, first);
    SectionsTextCons(section, t.sections);
    AppendAssoc(HeaderText(section.header) + ToString(section.body), SectionsText(t.sections), OptionalText(t.unparseable));
    Tail([section] + t.sections, t.unparseable, t.errors)
  }

  /** The last section: nothing follows its body. */
  function LastSection(section: Section, first: bool, next: PoolString, text: string): (r: Tail)
    requires (section.header.UnreleasedHeader? <==> first) && Printable(section.header) && HeaderOnStr(section.header)
    requires BodyShape(section.body)
    requires IsEmpty(next) && (HeaderText(section.header) + ToString(section.body)) + ToString(next) == text
    ensures TailFacts(r, text, first)
    ensures r.sections == [section] && r.unparseable == None
  {
    ShapeOne(section, first);
    SectionsTextOne(section, next);
    Tail([section], None, [])
  }

  /** A header line that does not parse stops the loop: the whole input is the
      unparsed rest, next to the one error. */
  function StopAtError(toParse: PoolString, first: bool, header: HeaderParse): (t: Tail)
    requires toParse.base.Str? && !first && header.HeaderError?
    ensures TailFacts(t, ToString(toParse), first)
    ensures t.sections == [] && t.unparseable == Some(toParse) && t.errors == [(header.line, header.message)]
  {
    Tail([], Some(toParse), [(header.line, header.message)])
  }

  /** The section parsed from the front of the input. */
  function FrontSection(toParse: PoolString, first: bool): (s: Section)
    requires Parseable(toParse, first)
    requires HeaderLine(toParse).base.Str? && Expected(first) <= ToString(HeaderLine(toParse))
    requires ParseHeader(HeaderLine(toParse), first).Parsed?
    ensures (s.header.UnreleasedHeader? <==> first) && Printable(s.header) && HeaderOnStr(s.header)
    ensures BodyShape(s.body)
    ensures (HeaderText(s.header) + ToString(s.body)) + ToString(Next(toParse)) == ToString(toParse)
  {
    StepShape(toParse);
    StepText(toParse, first);
    Section(ParseHeader(HeaderLine(toParse), first).header, Body(toParse))
  }

  /** One turn of the loop: it either ends with a tail, or yields the front
      section and goes on with what follows it. */
  datatype Step = Done(tail: Tail) | Continue(section: Section)

  /** A section that can stand in front of a tail of non-first sections. */
  predicate FrontOk(section: Section, first: bool) {
    && (section.header.UnreleasedHeader? <==> first) && Printable(section.header) && HeaderOnStr(section.header)
    && BodyShape(section.body)
  }

  /** The turn of the loop after a header that parsed. */
  function AfterHeader(toParse: PoolString, first: bool): (st: Step)
    requires Parseable(toParse, first)
    requires HeaderLine(toParse).base.Str? && Expected(first) <= ToString(HeaderLine(toParse))
    requires ParseHeader(HeaderLine(toParse), first).Parsed?
    ensures st.Done? ==> TailFacts(st.tail, ToString(toParse), first)
    ensures st.Continue? ==>
              && FrontOk(st.section, first)
              && Length(Next(toParse)) < Length(toParse) && Parseable(Next(toParse), false)
              && (HeaderText(st.section.header) + ToString(st.section.body)) + ToString(Next(toParse)) == ToString(toParse)
  {
    var section := FrontSection(toParse, first);
    if IsEmpty(Next(toParse)) then Done(LastSection(section, first, Next(toParse), ToString(toParse)))
    else
      StepNext(toParse);
      Continue(section)
  }

  function LoopStep(toParse: PoolString, first: bool): (st: Step)
    requires Parseable(toParse, first)
    ensures st.Done? ==> TailFacts(st.tail, ToString(toParse), first)
    ensures st.Continue? ==>
              && FrontOk(st.section, first)
              && Length(Next(toParse)) < Length(toParse) && Parseable(Next(toParse), false)
              && (HeaderText(st.section.header) + ToString(st.section.body)) + ToString(Next(toParse)) == ToString(toParse)
  {
    StepLine(toParse, first);
    var header := ParseHeader(HeaderLine(toParse), first);
    if header.HeaderError? then Done(StopAtError(toParse, first, header))
    else AfterHeader(toParse, first)
  }

  /** The loop of the constructor: cut a header line, parse it, take the body up
      to the next `"\n## ["`, and go on while anything is left. At most one error
      is ever recorded, exactly when the loop stops early; only the very first
      section is the unreleased one, and its header cannot fail; and the loop
      loses nothing: the sections followed by the unparsed rest spell out exactly
      what it was given. */
  function ParseSections(toParse: PoolString, first: bool): (t: Tail)
    requires Parseable(toParse, first)
    ensures TailFacts(t, ToString(toParse), first)
    decreases Length(toParse)
  {
    match LoopStep(toParse, first)
    case Done(tail) => tail
    case Continue(section) =>
      ConsSection(section, ParseSections(Next(toParse), false), first, ToString(Next(toParse)), ToString(toParse))
  }

  // ---------------------------------------------------------------- whole text

  /** An end marker the layout can cut at: it starts with a LF and has no other. */
  predicate EndMarker(marker: string) {
    LineAnchored(marker) && marker[0] == '\n'
  }

  /** A LF followed by one line of text is such a marker. */
  lemma NewlineThenLine(line: string)
    requires '\n' !in line
    ensures EndMarker("\n" + line)
  {
    assert ("\n" + line)[1..] == line;
    LfOnlyFirst("\n" + line);
  }

  /** The text with unix newlines, as one span. */
  function Unix(contentRaw: string): (r: PoolString)
    ensures r.base.Str?
  {
    Of(ReplaceCrlf(contentRaw))
  }

  /** The part that is parsed: everything before the end marker. */
  function Region(contentRaw: string, marker: string): (r: PoolString)
    ensures r.base.Str?
  {
    Until(Unix(contentRaw), marker)
  }

  /** The region up to the unreleased header. */
  function Preamble(contentRaw: string, marker: string): (r: PoolString)
    ensures r.base.Str?
  {
    Until(Region(contentRaw, marker), UNRELEASED)
  }

  /** The region from the unreleased header on. */
  function Versions(contentRaw: string, marker: string): PoolString {
    After(Region(contentRaw, marker), Preamble(contentRaw, marker))
  }

  lemma RegionFacts(contentRaw: string, marker: string)
    requires EndMarker(marker)
    ensures Region(contentRaw, marker).base.Str? && EndsAtLineBreak(Region(contentRaw, marker))
    ensures ToString(Region(contentRaw, marker)) + ToString(After(Unix(contentRaw), Region(contentRaw, marker)))
              == ReplaceCrlf(contentRaw)
  {
    UntilEndsAtLineBreak(Unix(contentRaw), marker);
  }

  lemma VersionsFacts(contentRaw: string, marker: string)
    requires EndMarker(marker)
    ensures ToString(Preamble(contentRaw, marker)) + ToString(Versions(contentRaw, marker))
              == ToString(Region(contentRaw, marker))
    ensures !IsEmpty(Versions(contentRaw, marker)) ==> Parseable(Versions(contentRaw, marker), true)
    ensures IsEmpty(Versions(contentRaw, marker)) ==> !Contains(ToString(Preamble(contentRaw, marker)), UNRELEASED)
  {
    RegionFacts(contentRaw, marker);
    MarkersAnchored();
    UntilOmitsMarker(Region(contentRaw, marker), UNRELEASED);
    if !IsEmpty(Versions(contentRaw, marker)) {
      SplitAtHit(Region(contentRaw, marker), UNRELEASED);
    }
  }

  /** The error for a text without an unreleased header on a line of its own:
      if the header is there but not after a LF, the line of the text's end;
      otherwise line -1. */
  function NoUnreleasedError(contentRaw: string): (int, string) {
    if Contains(contentRaw, ALMOST_UNRELEASED) then ((1 + multiset(contentRaw)['\n']) as int, NEEDS_NEWLINE)
    else (-1, NEEDS_UNRELEASED)
  }

  /** The single error recorded when there is no unreleased header on a line of
      its own. The line it names counts every LF of the raw text, because the
      buffer's line lookup ignores the offset it is asked about. */
  function MarkerErrors(contentRaw: string, preamble: PoolString): (errors: seq<(int, string)>)
    requires !Contains(ToString(preamble), UNRELEASED)
    ensures errors == [NoUnreleasedError(contentRaw)]
  {
    if EndsWithText(preamble, UNRELEASED) then
      EndsWithContains(ToString(preamble), UNRELEASED);
      assert false; []
    else
      var almostHadIt := IndexOfFrom(contentRaw, ALMOST_UNRELEASED, 0);
      if almostHadIt >= 0 then
        assert almostHadIt < |contentRaw| by {
          assert OccursAt(contentRaw, ALMOST_UNRELEASED, almostHadIt);
        }
        [(BaseLineNumberStart(OfRange(contentRaw, almostHadIt, almostHadIt + 1)), NEEDS_NEWLINE)]
      else
        [(-1, NEEDS_UNRELEASED)]
  }

  /** The reference text of a parsed layout: what `toStringUnix` prints. */
  function LayoutText(l: Layout): string
    requires AllPrintable(l.sections)
  {
    ToString(l.beforeUnreleased) + (SectionsText(l.sections) + OptionalText(l.unparseableAfterError))
      + ToString(l.dontParse)
  }

  /** Whether the raw text had CRLF newlines: the unix text came out shorter. */
  function WindowsNewlines(contentRaw: string): (b: bool)
    ensures b <==> Contains(contentRaw, "\r\n")
  {
    ReplaceCrlfShrinks(contentRaw);
    Length(Unix(contentRaw)) < |contentRaw|
  }

  /** Everything from the end marker on. */
  function DontParse(contentRaw: string, marker: string): (r: PoolString)
    ensures r.base.Str?
  {
    After(Unix(contentRaw), Region(contentRaw, marker))
  }

  /** The constructor when no unreleased header starts a line of the region. */
  function LayoutWithoutVersions(contentRaw: string, marker: string): (l: Layout)
    requires EndMarker(marker) && IsEmpty(Versions(contentRaw, marker))
    ensures l.sections == [] && l.unparseableAfterError == None
    ensures l.dontParse == DontParse(contentRaw, marker)
    ensures l.beforeUnreleased.base.Str? && l.dontParse.base.Str?
    ensures l.errors == [NoUnreleasedError(contentRaw)]
    ensures !Contains(ToString(Region(contentRaw, marker)), UNRELEASED)
    ensures LayoutText(l) == ReplaceCrlf(contentRaw)
  {
    NoVersions(contentRaw, marker);
    var l := Layout(WindowsNewlines(contentRaw), DontParse(contentRaw, marker), Preamble(contentRaw, marker),
                    [], None, MarkerErrors(contentRaw, Preamble(contentRaw, marker)));
    EmptyMiddle(ToString(l.beforeUnreleased), ToString(l.dontParse), l.sections, l.unparseableAfterError);
    l
  }

  /** The constructor when the region has an unreleased header: the loop runs. */
  function LayoutWithVersions(contentRaw: string, marker: string): (l: Layout)
    requires EndMarker(marker) && !IsEmpty(Versions(contentRaw, marker))
    ensures |l.errors| <= 1
    ensures SectionsShape(l.sections, true) && l.sections != []
    ensures l.dontParse == DontParse(contentRaw, marker)
    ensures l.beforeUnreleased.base.Str? && l.dontParse.base.Str?
    ensures l.unparseableAfterError.Some? ==> l.unparseableAfterError.value.base.Str?
    ensures l.unparseableAfterError.Some? <==> l.errors != []
    ensures Contains(ToString(Region(contentRaw, marker)), UNRELEASED)
    ensures LayoutText(l) == ReplaceCrlf(contentRaw)
  {
    VersionsFacts(contentRaw, marker);
    var t := ParseSections(Versions(contentRaw, marker), true);
    SomeVersionsText(contentRaw, marker, t);
    Layout(WindowsNewlines(contentRaw), DontParse(contentRaw, marker), Preamble(contentRaw, marker),
           t.sections, t.unparseable, t.errors)
  }

  /** The constructor of either class, with its end marker as a parameter: CRLF
      pairs become LF (remembering whether there were any), the text after the end
      marker is kept aside, the preamble runs to the unreleased header, and the
      loop parses the rest. Without an unreleased header on a line of its own the
      result has no sections and one error. Nothing of the unix text is lost. */
  function ParseLayout(contentRaw: string, marker: string): (l: Layout)
    requires EndMarker(marker)
    ensures |l.errors| <= 1
    ensures l.beforeUnreleased.base.Str? && l.dontParse.base.Str?
    ensures l.unparseableAfterError.Some? ==> l.unparseableAfterError.value.base.Str?
    ensures l.windowsNewlines <==> Contains(contentRaw, "\r\n")
    ensures SectionsShape(l.sections, true)
    ensures l.dontParse == DontParse(contentRaw, marker)
    ensures l.unparseableAfterError.Some? ==> l.errors != []
    ensures l.sections == [] ==> l.unparseableAfterError == None
    ensures l.sections == [] ==> l.errors == [NoUnreleasedError(contentRaw)]
    ensures l.sections == [] <==> !Contains(ToString(Region(contentRaw, marker)), UNRELEASED)
    ensures LayoutText(l) == ReplaceCrlf(contentRaw)
  {
    if IsEmpty(Versions(contentRaw, marker)) then LayoutWithoutVersions(contentRaw, marker)
    else LayoutWithVersions(contentRaw, marker)
  }

  lemma EmptyMiddle(p: string, d: string, none: seq<Section>, nothing: Option<PoolString>)
    requires none == [] && nothing == None
    ensures p + (SectionsText(none) + OptionalText(nothing)) + d == p + d
  {
    assert SectionsText(none) + OptionalText(nothing) == "";
    assert p + "" == p;
  }

  lemma PreambleIsRegion(contentRaw: string, marker: string)
    requires EndMarker(marker) && IsEmpty(Versions(contentRaw, marker))
    ensures ToString(Preamble(contentRaw, marker)) == ToString(Region(contentRaw, marker))
  {
    VersionsFacts(contentRaw, marker);
    var p := ToString(Preamble(contentRaw, marker));
    assert ToString(Versions(contentRaw, marker)) == "";
    assert p + "" == p;
  }

  /** Without versions, the preamble is the whole region and holds no unreleased header. */
  lemma NoVersions(contentRaw: string, marker: string)
    requires EndMarker(marker) && IsEmpty(Versions(contentRaw, marker))
    ensures ToString(Preamble(contentRaw, marker)) + ToString(After(Unix(contentRaw), Region(contentRaw, marker)))
              == ReplaceCrlf(contentRaw)
    ensures !Contains(ToString(Preamble(contentRaw, marker)), UNRELEASED)
    ensures !Contains(ToString(Region(contentRaw, marker)), UNRELEASED)
  {
    RegionFacts(contentRaw, marker);
    PreambleIsRegion(contentRaw, marker);
    VersionsFacts(contentRaw, marker);
  }

  lemma SomeVersionsText(contentRaw: string, marker: string, t: Tail)
    requires EndMarker(marker) && !IsEmpty(Versions(contentRaw, marker))
    requires Parseable(Versions(contentRaw, marker), true)
    requires t == ParseSections(Versions(contentRaw, marker), true)
    ensures AllPrintable(t.sections)
    ensures ToString(Preamble(contentRaw, marker)) + (SectionsText(t.sections) + OptionalText(t.unparseable))
              + ToString(After(Unix(contentRaw), Region(contentRaw, marker))) == ReplaceCrlf(contentRaw)
    ensures Contains(ToString(Region(contentRaw, marker)), UNRELEASED)
  {
    RegionFacts(contentRaw, marker);
    VersionsFacts(contentRaw, marker);
    var r := ToString(Region(contentRaw, marker));
    var p := ToString(Preamble(contentRaw, marker));
    var v := ToString(Versions(contentRaw, marker));
    assert OccursAt(r, UNRELEASED, |p|) by {
      assert r[|p|..] == v;
    }
  }

  /** The region is the unix text up to the first end marker, and what is kept
      aside is the rest from that marker on. */
  lemma RegionContent(contentRaw: string, marker: string)
    requires EndMarker(marker)
    ensures var u := ReplaceCrlf(contentRaw);
            var i := IndexOfFrom(u, marker, 0);
            && ToString(Region(contentRaw, marker)) == (if i == -1 then u else u[..i])
            && ToString(DontParse(contentRaw, marker)) == (if i == -1 then "" else u[i..])
  {
    var u := ReplaceCrlf(contentRaw);
    IndexOfContent(Unix(contentRaw), marker);
    RegionFacts(contentRaw, marker);
    var r := ToString(Region(contentRaw, marker));
    assert u[..|r|] == r;
  }
}
