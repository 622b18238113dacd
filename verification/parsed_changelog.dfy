/** `ParsedChangelog`: the older copy of the changelog class. It parses with the
    same loop but its own end marker, keeps each header next to its body, prints
    the header without the body, and cannot release. */
module ParsedChangelogs {
  import opened Wrappers
  import opened Text
  import opened PoolStrings
  import opened ChangelogGrammar

  /** Nothing below this line is parsed. */
  const DONT_PARSE_BELOW_HERE: string := "\n" + DONT_PARSE_LINE
  const DONT_PARSE_LINE: string := "<!-- do not parse below here -->"

  /** The header objects have no equality of their own, so every `put` into the
      header-to-body map adds a pair: the map is the list of sections. */
  datatype ParsedChangelog = ParsedChangelog(
    windowsNewlines: bool,
    dontParse: PoolString,
    beforeUnreleased: PoolString,
    versions: seq<Section>,
    unparseableAfterError: Option<PoolString>,
    errors: seq<(int, string)>)

  lemma DontParseIsEndMarker()
    ensures EndMarker(DONT_PARSE_BELOW_HERE)
  {
    NewlineThenLine(DONT_PARSE_LINE);
  }

  /** What the parser leaves: every span is a view of the parsed text, only the
      first section is unreleased, and every body starts a line. */
  predicate WellFormed(d: ParsedChangelog) {
    && d.beforeUnreleased.base.Str?
    && d.dontParse.base.Str?
    && (d.unparseableAfterError.Some? ==> d.unparseableAfterError.value.base.Str?)
    && SectionsShape(d.versions, true)
  }

  /** The text of the whole document. */
  function DocText(d: ParsedChangelog): string
    requires AllPrintable(d.versions)
  {
    ToString(d.beforeUnreleased) + SectionsText(d.versions) + OptionalText(d.unparseableAfterError)
      + ToString(d.dontParse)
  }

  /** `new ParsedChangelog(contentRaw)`. */
  function Parse(contentRaw: string): (d: ParsedChangelog)
    ensures |d.errors| <= 1
    ensures d.windowsNewlines <==> Contains(contentRaw, "\r\n")
    ensures WellFormed(d)
    ensures d.unparseableAfterError.Some? ==> d.errors != []
    ensures d.versions == [] ==> d.unparseableAfterError == None && d.errors == [NoUnreleasedError(contentRaw)]
    ensures d.versions == [] <==> !Contains(ToString(Region(contentRaw, DONT_PARSE_BELOW_HERE)), UNRELEASED)
    ensures d.dontParse == DontParse(contentRaw, DONT_PARSE_BELOW_HERE)
    ensures AllPrintable(d.versions) && DocText(d) == ReplaceCrlf(contentRaw)
  {
    DontParseIsEndMarker();
    var l := ParseLayout(contentRaw, DONT_PARSE_BELOW_HERE);
    AppendAssoc(ToString(l.beforeUnreleased), SectionsText(l.sections), OptionalText(l.unparseableAfterError));
    ParsedChangelog(l.windowsNewlines, l.dontParse, l.beforeUnreleased, l.sections, l.unparseableAfterError, l.errors)
  }

  /** Everything from the first end marker on is kept aside verbatim. */
  lemma ParseKeepsTail(contentRaw: string)
    ensures var u := ReplaceCrlf(contentRaw);
            var i := IndexOfFrom(u, DONT_PARSE_BELOW_HERE, 0);
            ToString(Parse(contentRaw).dontParse) == (if i == -1 then "" else u[i..])
  {
    DontParseIsEndMarker();
    RegionContent(contentRaw, DONT_PARSE_BELOW_HERE);
  }

  /** `VersionHeader.toStringUnix()`: the header line alone, without its body. */
  function HeaderToStringUnix(h: Header): (r: Result<PoolString>)
    ensures r.Success? <==> Printable(h)
    ensures r.Success? && HeaderAtBuilderEnd(h) ==> ToString(r.value) == HeaderText(h) && AtBuilderEnd(r.value)
  {
    if !Printable(h) then Failure(NULL_POINTER)
    else
      HeaderPiecesText(h);
      if HeaderAtBuilderEnd(h) then
        HeaderPiecesAtEnd(h);
        ConcatAllContent(HeaderPieces(h));
        Success(ConcatAll(HeaderPieces(h)))
      else Success(ConcatAll(HeaderPieces(h)))
  }

  predicate SectionsOnStr(secs: seq<Section>) {
    forall i :: 0 <= i < |secs| ==> HeaderOnStr(secs[i].header) && secs[i].body.base.Str?
  }

  lemma SectionsStep(secs: seq<Section>)
    requires |secs| > 0
    ensures AllPrintable(secs) <==> Printable(secs[0].header) && AllPrintable(secs[1..])
    ensures SectionsOnStr(secs) <==> HeaderOnStr(secs[0].header) && secs[0].body.base.Str? && SectionsOnStr(secs[1..])
  {
    forall i | 1 <= i < |secs| ensures secs[i] == secs[1..][i - 1] { }
  }

  /** The loop of `toStringUnix`: each header, then its body. */
  function AppendSections(total: PoolString, secs: seq<Section>): (r: Result<PoolString>)
    ensures r.Success? <==> AllPrintable(secs)
    ensures r.Success? && AtBuilderEnd(total) && SectionsOnStr(secs) ==>
              ToString(r.value) == ToString(total) + SectionsText(secs) && AtBuilderEnd(r.value)
    decreases |secs|
  {
    if |secs| == 0 then Success(total)
    else
      var header := HeaderToStringUnix(secs[0].header);
      if header.Failure? then Failure(header.error)
      else
        var withBody := Concat(Concat(total, header.value), secs[0].body);
        SectionsStep(secs);
        var r := AppendSections(withBody, secs[1..]);
        if r.Success? && AtBuilderEnd(total) && SectionsOnStr(secs) then
          HeaderThenBody(total, secs[0], header.value);
          SectionText(ToString(total), HeaderText(secs[0].header), ToString(secs[0].body), SectionsText(secs[1..]));
          r
        else r
  }

  /** One step of the loop appends the printed header and then the body. */
  lemma HeaderThenBody(total: PoolString, s: Section, header: PoolString)
    requires Printable(s.header) && AtBuilderEnd(total) && s.body.base.Str?
    requires ToString(header) == HeaderText(s.header) && AtBuilderEnd(header)
    ensures ToString(Concat(Concat(total, header), s.body)) == ToString(total) + HeaderText(s.header) + ToString(s.body)
    ensures AtBuilderEnd(Concat(Concat(total, header), s.body))
  {
    ConcatContent(total, header);
    ConcatContent(Concat(total, header), s.body);
  }

  lemma SectionText(t: string, h: string, b: string, rest: string)
    ensures t + h + b + rest == t + (h + b + rest)
  {
  }

  /** `toStringUnix()`. */
  function ToStringUnix(d: ParsedChangelog): (r: Result<string>)
    ensures r.Success? <==> AllPrintable(d.versions)
    ensures r.Success? && WellFormed(d) ==> r.value == DocText(d)
  {
    var entries := AppendSections(d.beforeUnreleased, d.versions);
    if entries.Failure? then Failure(entries.error)
    else
      var total := if d.unparseableAfterError.Some? then Concat(entries.value, d.unparseableAfterError.value)
                   else entries.value;
      OptionalConcat(entries.value, d.unparseableAfterError);
      ConcatContentWhenAtEnd(total, d.dontParse);
      Success(ToString(Concat(total, d.dontParse)))
  }

  /** `toString()`: LF turned back into CRLF when the input had CRLF. */
  function ToText(d: ParsedChangelog): (r: Result<string>)
    ensures r.Success? <==> AllPrintable(d.versions)
  {
    var unix := ToStringUnix(d);
    if unix.Failure? then unix
    else Success(if d.windowsNewlines then ReplaceLf(unix.value) else unix.value)
  }

  /** `versionLast()`: the version of the second header, null when there is none. */
  function VersionLast(d: ParsedChangelog): (r: Result<Option<string>>)
    ensures r.Success? <==> |d.versions| <= 1 || d.versions[1].header.ReleasedHeader?
    ensures r.Success? && r.value.Some? ==> |d.versions| > 1 && r.value.value == ToString(d.versions[1].header.version)
    ensures WellFormed(d) ==> r.Success? && (r.value.Some? <==> |d.versions| > 1)
  {
    if |d.versions| <= 1 then Success(None)
    else if d.versions[1].header.UnreleasedHeader? then Failure(NULL_POINTER)
    else Success(Some(ToString(d.versions[1].header.version)))
  }

  /** `unreleasedChanges()`: the first body with CRLF replaced, or empty. */
  function UnreleasedChanges(d: ParsedChangelog): (r: string)
    ensures |d.versions| == 0 ==> r == ""
    ensures |d.versions| > 0 ==> r == ReplaceCrlf(ToString(d.versions[0].body))
    ensures |d.versions| > 0 && !Contains(ToString(d.versions[0].body), "\r\n") ==> r == ToString(d.versions[0].body)
  {
    if |d.versions| == 0 then ""
    else
      var body := ToString(d.versions[0].body);
      ReplaceCrlfIdentity(body);
      ReplaceCrlf(body)
  }

  /** Parsing and printing with unix newlines gives back the input with its CRLF
      pairs replaced. */
  lemma ParseRoundTripUnix(contentRaw: string)
    ensures ToStringUnix(Parse(contentRaw)) == Success(ReplaceCrlf(contentRaw))
  {
  }

  /** A text with LF newlines prints back exactly. */
  lemma ParseRoundTripLf(contentRaw: string)
    requires !Contains(contentRaw, "\r\n")
    ensures ToText(Parse(contentRaw)) == Success(contentRaw)
  {
    ParseRoundTripUnix(contentRaw);
    ReplaceCrlfIdentity(contentRaw);
  }

  /** A text whose every LF is written CRLF prints back exactly. */
  lemma ParseRoundTripCrlf(s: string)
    requires !Contains(s, "\r\n") && '\n' in s
    ensures ToText(Parse(ReplaceLf(s))) == Success(ReplaceLf(s))
  {
    var raw := ReplaceLf(s);
    ReplaceLfShrinksBack(s);
    ReplaceCrlfShrinks(raw);
    CrlfRoundTrip(s);
    ParseRoundTripUnix(raw);
  }
}
