/** `Changelog`: a keep-a-changelog document parsed into its unreleased and
    released sections, printed back, queried, and released. */
module Changelogs {
  import opened Wrappers
  import opened Text
  import opened PoolStrings
  import opened ChangelogGrammar

  /** Nothing below this line is parsed. */
  const DONT_PARSE_BELOW_HERE: string := "\n" + DONT_PARSE_LINE
  const DONT_PARSE_LINE: string := "<!-- END CHANGELOG -->"

  /** `VersionEntry`: a header and its changes. The changes are null only in an
      entry made by `versionDate` that has not been given any yet. */
  datatype Entry = Entry(header: Header, changes: Option<PoolString>)

  datatype Changelog = Changelog(
    windowsNewlines: bool,
    dontParse: PoolString,
    beforeUnreleased: PoolString,
    versions: seq<Entry>,
    unparseableAfterError: Option<PoolString>,
    errors: seq<(int, string)>)

  lemma DontParseIsEndMarker()
    ensures EndMarker(DONT_PARSE_BELOW_HERE)
  {
    NewlineThenLine(DONT_PARSE_LINE);
  }

  // ---------------------------------------------------------------- invariants

  /** An entry `toStringUnix` can print without a `NullPointerException`. */
  predicate EntryPrintable(e: Entry) {
    Printable(e.header) && e.changes.Some?
  }

  predicate AllPrintableEntries(es: seq<Entry>) {
    forall i :: 0 <= i < |es| ==> EntryPrintable(es[i])
  }

  predicate EntryAtBuilderEnd(e: Entry) {
    HeaderAtBuilderEnd(e.header) && (e.changes.Some? ==> AtBuilderEnd(e.changes.value))
  }

  predicate AllEntriesAtBuilderEnd(es: seq<Entry>) {
    forall i :: 0 <= i < |es| ==> EntryAtBuilderEnd(es[i])
  }

  /** Every span of the document sits at the end of its buffer, so each `concat`
      of the printer appends exactly. */
  predicate SpansAtBuilderEnd(c: Changelog) {
    && AtBuilderEnd(c.beforeUnreleased)
    && AtBuilderEnd(c.dontParse)
    && (c.unparseableAfterError.Some? ==> AtBuilderEnd(c.unparseableAfterError.value))
    && AllEntriesAtBuilderEnd(c.versions)
  }

  /** An entry as the parser leaves it: it prints, its spans sit at their buffers'
      ends, it is unreleased exactly when it comes first, and its body starts with
      a LF (or is empty) and holds no version header. */
  predicate GoodEntry(e: Entry, first: bool) {
    && EntryPrintable(e)
    && EntryAtBuilderEnd(e)
    && (e.header.UnreleasedHeader? <==> first)
    && BodyShape(e.changes.value)
  }

  /** What the parser guarantees and `releaseUnreleased` keeps. */
  predicate WellFormed(c: Changelog) {
    && AtBuilderEnd(c.beforeUnreleased)
    && AtBuilderEnd(c.dontParse)
    && (c.unparseableAfterError.Some? ==> AtBuilderEnd(c.unparseableAfterError.value))
    && forall i :: 0 <= i < |c.versions| ==> GoodEntry(c.versions[i], i == 0)
  }

  lemma WellFormedPrints(c: Changelog)
    requires WellFormed(c)
    ensures SpansAtBuilderEnd(c) && AllPrintableEntries(c.versions)
  {
  }

  // ---------------------------------------------------------------- reference text

  /** The text of an entry: its header line, then its changes. */
  function EntryText(e: Entry): string
    requires EntryPrintable(e)
  {
    HeaderText(e.header) + ToString(e.changes.value)
  }

  function EntriesText(es: seq<Entry>): string
    requires AllPrintableEntries(es)
  {
    if |es| == 0 then "" else EntryText(es[0]) + EntriesText(es[1..])
  }

  /** The text of the whole document: the preamble, the entries, whatever could
      not be parsed, and the part below the end marker. */
  function DocText(c: Changelog): string
    requires AllPrintableEntries(c.versions)
  {
    ToString(c.beforeUnreleased) + EntriesText(c.versions) + OptionalText(c.unparseableAfterError)
      + ToString(c.dontParse)
  }

  // ---------------------------------------------------------------- parse

  function EntriesOf(secs: seq<Section>): (es: seq<Entry>)
    ensures |es| == |secs|
    ensures forall i :: 0 <= i < |secs| ==> es[i] == Entry(secs[i].header, Some(secs[i].body))
  {
    seq(|secs|, i requires 0 <= i < |secs| => Entry(secs[i].header, Some(secs[i].body)))
  }

  /** Entries made from parsed sections spell out the same text. */
  lemma {:induction false} EntriesOfText(secs: seq<Section>)
    requires AllPrintable(secs)
    ensures AllPrintableEntries(EntriesOf(secs))
    ensures EntriesText(EntriesOf(secs)) == SectionsText(secs)
    decreases |secs|
  {
    if |secs| > 0 {
      EntriesOfText(secs[1..]);
      assert EntriesOf(secs)[1..] == EntriesOf(secs[1..]);
    }
  }

  lemma ShapeWellFormed(c: Changelog, secs: seq<Section>)
    requires SectionsShape(secs, true) && c.versions == EntriesOf(secs)
    requires c.beforeUnreleased.base.Str? && c.dontParse.base.Str?
    requires c.unparseableAfterError.Some? ==> c.unparseableAfterError.value.base.Str?
    ensures WellFormed(c)
  {
  }

  /** `new Changelog(contentRaw)`. */
  function Parse(contentRaw: string): (c: Changelog)
    ensures |c.errors| <= 1
    ensures c.windowsNewlines <==> Contains(contentRaw, "\r\n")
    ensures WellFormed(c)
    ensures c.unparseableAfterError.Some? ==> c.errors != []
    ensures c.versions == [] ==> c.unparseableAfterError == None && c.errors == [NoUnreleasedError(contentRaw)]
    ensures c.versions == [] <==> !Contains(ToString(Region(contentRaw, DONT_PARSE_BELOW_HERE)), UNRELEASED)
    ensures c.dontParse == DontParse(contentRaw, DONT_PARSE_BELOW_HERE)
    ensures DocText(c) == ReplaceCrlf(contentRaw)
  {
    DontParseIsEndMarker();
    var l := ParseLayout(contentRaw, DONT_PARSE_BELOW_HERE);
    var c := Changelog(l.windowsNewlines, l.dontParse, l.beforeUnreleased, EntriesOf(l.sections),
                       l.unparseableAfterError, l.errors);
    ShapeWellFormed(c, l.sections);
    EntriesOfText(l.sections);
    AppendAssoc(ToString(l.beforeUnreleased), SectionsText(l.sections), OptionalText(l.unparseableAfterError));
    c
  }

  /** Everything from the first end marker on is kept aside verbatim. */
  lemma ParseKeepsTail(contentRaw: string)
    ensures var u := ReplaceCrlf(contentRaw);
            var i := IndexOfFrom(u, DONT_PARSE_BELOW_HERE, 0);
            ToString(Parse(contentRaw).dontParse) == (if i == -1 then "" else u[i..])
  {
    DontParseIsEndMarker();
    RegionContent(contentRaw, DONT_PARSE_BELOW_HERE);
  }

  // ---------------------------------------------------------------- print

  /** The arguments `VersionEntry.toStringUnix` hands to `PoolString.concat`. */
  function EntryPieces(e: Entry): seq<Piece>
    requires EntryPrintable(e)
  {
    HeaderPieces(e.header) + [Span(e.changes.value)]
  }

  lemma EntryPiecesText(e: Entry)
    requires EntryPrintable(e)
    ensures EntryAtBuilderEnd(e) ==>
              ToString(ConcatAll(EntryPieces(e))) == EntryText(e) && AtBuilderEnd(ConcatAll(EntryPieces(e)))
  {
    if EntryAtBuilderEnd(e) {
      HeaderPiecesText(e.header);
      HeaderPiecesAtEnd(e.header);
      FlattenAppend(HeaderPieces(e.header), [Span(e.changes.value)]);
      FlattenTwo(Span(e.changes.value), Lit(""));
      assert Flatten([Span(e.changes.value)]) == ToString(e.changes.value) by {
        assert [Span(e.changes.value)][1..] == [];
      }
      var xs := EntryPieces(e);
      assert PiecesAtBuilderEnd(xs) by {
        forall i | 0 <= i < |xs| && xs[i].Span? ensures AtBuilderEnd(xs[i].p) {
          if i < |HeaderPieces(e.header)| {
            assert xs[i] == HeaderPieces(e.header)[i];
          }
        }
      }
      ConcatAllContent(xs);
    }
  }

  /** `VersionEntry.toStringUnix()`: throws when the unreleased header has no
      trailer or the changes are null, and otherwise spells out the entry. */
  function EntryToStringUnix(e: Entry): (r: Result<PoolString>)
    ensures r.Success? <==> EntryPrintable(e)
    ensures r.Success? && EntryAtBuilderEnd(e) ==> ToString(r.value) == EntryText(e) && AtBuilderEnd(r.value)
  {
    if !EntryPrintable(e) then Failure(NULL_POINTER)
    else
      EntryPiecesText(e);
      Success(ConcatAll(EntryPieces(e)))
  }

  /** The loop of `Changelog.toStringUnix` over the entries. */
  function AppendEntries(total: PoolString, es: seq<Entry>): (r: Result<PoolString>)
    ensures r.Success? <==> AllPrintableEntries(es)
    ensures r.Success? && AtBuilderEnd(total) && AllEntriesAtBuilderEnd(es) ==>
              ToString(r.value) == ToString(total) + EntriesText(es) && AtBuilderEnd(r.value)
    decreases |es|
  {
    if |es| == 0 then Success(total)
    else
      var head := EntryToStringUnix(es[0]);
      if head.Failure? then Failure(head.error)
      else
        var next := Concat(total, head.value);
        ConcatContentWhenAtEnd(total, head.value);
        var r := AppendEntries(next, es[1..]);
        EntriesStep(es);
        if r.Success? then
          AppendAssoc(ToString(total), ToString(head.value), EntriesText(es[1..]));
          r
        else r
  }

  lemma EntriesStep(es: seq<Entry>)
    requires |es| > 0
    ensures AllPrintableEntries(es) <==> EntryPrintable(es[0]) && AllPrintableEntries(es[1..])
    ensures AllEntriesAtBuilderEnd(es) <==> EntryAtBuilderEnd(es[0]) && AllEntriesAtBuilderEnd(es[1..])
  {
    forall i | 1 <= i < |es| ensures es[i] == es[1..][i - 1] { }
  }

  /** `Changelog.toStringUnix()`. */
  function ToStringUnix(c: Changelog): (r: Result<string>)
    ensures r.Success? <==> AllPrintableEntries(c.versions)
    ensures r.Success? && SpansAtBuilderEnd(c) ==> r.value == DocText(c)
  {
    var entries := AppendEntries(c.beforeUnreleased, c.versions);
    if entries.Failure? then Failure(entries.error)
    else
      var total := if c.unparseableAfterError.Some? then Concat(entries.value, c.unparseableAfterError.value)
                   else entries.value;
      OptionalConcat(entries.value, c.unparseableAfterError);
      ConcatContentWhenAtEnd(total, c.dontParse);
      Success(ToString(Concat(total, c.dontParse)))
  }

  /** `Changelog.toString()`: the unix text, with LF turned back into CRLF when
      the input had CRLF. */
  function ToText(c: Changelog): (r: Result<string>)
    ensures r.Success? <==> AllPrintableEntries(c.versions)
  {
    var unix := ToStringUnix(c);
    if unix.Failure? then unix
    else Success(if c.windowsNewlines then ReplaceLf(unix.value) else unix.value)
  }

  /** Parsing and printing with unix newlines gives back the input with its CRLF
      pairs replaced. */
  lemma ParseRoundTripUnix(contentRaw: string)
    ensures ToStringUnix(Parse(contentRaw)) == Success(ReplaceCrlf(contentRaw))
  {
    WellFormedPrints(Parse(contentRaw));
  }

  /** A text with LF newlines prints back exactly. */
  lemma ParseRoundTripLf(contentRaw: string)
    requires !Contains(contentRaw, "\r\n")
    ensures ToText(Parse(contentRaw)) == Success(contentRaw)
  {
    ParseRoundTripUnix(contentRaw);
    ReplaceCrlfIdentity(contentRaw);
  }

  /** A text whose every LF is written CRLF prints back exactly. */
  lemma ParseRoundTripCrlf(s: string)
    requires !Contains(s, "\r\n") && '\n' in s
    ensures ToText(Parse(ReplaceLf(s))) == Success(ReplaceLf(s))
  {
    var raw := ReplaceLf(s);
    ReplaceLfShrinksBack(s);
    ReplaceCrlfShrinks(raw);
    CrlfRoundTrip(s);
    ParseRoundTripUnix(raw);
  }

  // ---------------------------------------------------------------- queries

  /** `versionLast()`: the version of the second entry, null when there is none;
      an unreleased second entry has a null version and throws. */
  function VersionLast(c: Changelog): (r: Result<Option<string>>)
    ensures r.Success? <==> |c.versions| <= 1 || c.versions[1].header.ReleasedHeader?
    ensures r.Success? && r.value.Some? ==> |c.versions| > 1 && r.value.value == ToString(c.versions[1].header.version)
    ensures WellFormed(c) ==> r.Success? && (r.value.Some? <==> |c.versions| > 1)
  {
    if |c.versions| <= 1 then Success(None)
    else if c.versions[1].header.UnreleasedHeader? then Failure(NULL_POINTER)
    else Success(Some(ToString(c.versions[1].header.version)))
  }

  /** Both spellings of "empty or starting a new line" that `setChanges` accepts. */
  predicate StartsLineOrEmpty(s: string) {
    |s| == 0 || s[0] == '\n'
  }

  /** `unreleasedChanges()`: empty without entries, else the changes of the first. */
  function UnreleasedChanges(c: Changelog): (r: Result<string>)
    ensures r.Success? <==> |c.versions| == 0 || c.versions[0].changes.Some?
    ensures r.Success? && |c.versions| > 0 ==> r.value == ToString(c.versions[0].changes.value)
    ensures WellFormed(c) ==> r.Success? && StartsLineOrEmpty(r.value) && !Contains(r.value, VERSION_BEGIN)
  {
    if |c.versions| == 0 then Success("")
    else if c.versions[0].changes.None? then Failure(NULL_POINTER)
    else Success(ToString(c.versions[0].changes.value))
  }

  /** `noUnreleasedChanges()`: the unreleased changes, LFs removed, trim to nothing. */
  function NoUnreleasedChanges(c: Changelog): (r: Result<bool>)
    ensures r.Success? <==> UnreleasedChanges(c).Success?
    ensures r.Success? ==> (r.value <==> AllBlank(UnreleasedChanges(c).value))
  {
    var changes :- UnreleasedChanges(c);
    RemoveLfBlank(changes);
    TrimEmptyIffBlank(RemoveAll(changes, '\n'));
    Success(Trim(RemoveAll(changes, '\n')) == "")
  }

  // ---------------------------------------------------------------- entries

  /** `version()` and `date()`: only a released entry has them. */
  function EntryVersion(e: Entry): (r: Result<string>)
    ensures r.Success? <==> e.header.ReleasedHeader?
    ensures r.Success? ==> HeaderText(e.header) == VERSION_BEGIN + r.value + DATE_SEPARATOR + ToString(e.header.date) + OptionalMiscText(e.header)
  {
    if e.header.UnreleasedHeader? then Failure(ILLEGAL_ARGUMENT)
    else Success(ToString(e.header.version))
  }

  function EntryDate(e: Entry): (r: Result<string>)
    ensures r.Success? <==> e.header.ReleasedHeader?
    ensures r.Success? ==> HeaderText(e.header) == VERSION_BEGIN + ToString(e.header.version) + DATE_SEPARATOR + r.value + OptionalMiscText(e.header)
  {
    if e.header.UnreleasedHeader? then Failure(ILLEGAL_ARGUMENT)
    else Success(ToString(e.header.date))
  }

  /** What a released header prints after its date. */
  function OptionalMiscText(h: Header): string {
    if h.misc.Some? then " " + ToString(h.misc.value) else ""
  }

  /** `headerMisc()`: what follows the date, or what follows `[Unreleased]` past its
      first character (the space), null when that is nothing. */
  function HeaderMisc(e: Entry): (r: Option<string>)
    ensures r.Some? ==> e.header.misc.Some?
    ensures e.header.ReleasedHeader? ==> (r.Some? <==> e.header.misc.Some?)
    ensures r.Some? && e.header.ReleasedHeader? ==> r.value == ToString(e.header.misc.value)
    ensures r.Some? && e.header.UnreleasedHeader? ==>
              |r.value| > 0 && |ToString(e.header.misc.value)| == |r.value| + 1
              && ToString(e.header.misc.value)[1..] == r.value
  {
    match e.header.misc
    case None => None
    case Some(m) =>
      if e.header.ReleasedHeader? then Some(ToString(m))
      else if Length(m) <= 1 then None
      else Some(ToString(SubSequence(m, 1, Length(m))))
  }

  /** `setHeaderMisc(headerMisc)`: null clears it; a line break is refused; an
      unreleased header stores a separating space in front. */
  function SetHeaderMisc(e: Entry, headerMisc: Option<string>): (r: Result<Entry>)
    ensures r.Success? <==> headerMisc.None? || '\n' !in headerMisc.value
    ensures r.Success? ==> r.value.changes == e.changes
    ensures r.Success? ==> r.value.header.UnreleasedHeader? == e.header.UnreleasedHeader?
    ensures r.Success? && e.header.ReleasedHeader? ==>
              r.value.header.version == e.header.version && r.value.header.date == e.header.date
    ensures r.Success? ==> r.value.header.misc.Some? == headerMisc.Some?
    ensures r.Success? && headerMisc.Some? && e.header.UnreleasedHeader? ==>
              HeaderText(r.value.header) == UNRELEASED + " " + headerMisc.value
    ensures r.Success? && headerMisc.Some? && e.header.ReleasedHeader? ==>
              HeaderText(r.value.header)
                == VERSION_BEGIN + ToString(e.header.version) + DATE_SEPARATOR + ToString(e.header.date) + " " + headerMisc.value
  {
    match headerMisc
    case None => Success(e.(header := e.header.(misc := None)))
    case Some(misc) =>
      if IndexOfCharFrom(misc, '\n', 0) != -1 then Failure(ILLEGAL_ARGUMENT)
      else
        var stored := if e.header.UnreleasedHeader? then " " + misc else misc;
        Success(e.(header := e.header.(misc := Some(Of(stored)))))
  }

  /** Reading the trailer back gives what was set, except that an empty trailer
      on the unreleased header reads back as null. */
  lemma HeaderMiscRoundTrip(e: Entry, headerMisc: Option<string>)
    requires headerMisc.None? || '\n' !in headerMisc.value
    ensures HeaderMisc(SetHeaderMisc(e, headerMisc).value)
              == if headerMisc == Some("") && e.header.UnreleasedHeader? then None else headerMisc
  {
    if headerMisc.Some? && e.header.UnreleasedHeader? {
      var m := SetHeaderMisc(e, headerMisc).value.header.misc.value;
      assert ToString(m) == " " + headerMisc.value;
      if headerMisc.value != "" {
        assert ToString(m)[1..] == headerMisc.value;
      }
    }
  }

  /** `VersionEntry.versionDate(version, date)`: a released header without
      trailer, and no changes yet. */
  function VersionDate(version: string, date: string): (e: Entry)
    ensures e.header.ReleasedHeader? && e.header.misc.None? && e.changes.None?
    ensures HeaderText(e.header) == VERSION_BEGIN + version + DATE_SEPARATOR + date
  {
    var v, d := Of(version), Of(date);
    var h := ReleasedHeader(v, d, None);
    assert HeaderText(h) == VERSION_BEGIN + ToString(v) + DATE_SEPARATOR + ToString(d) + "";
    Entry(h, None)
  }

  /** `asUnix`: a text holding a CR is copied with CRLF replaced by LF; any other
      is returned as it is, keeping its pooled span. */
  function AsUnix(change: Piece): (r: Piece)
    ensures PieceText(r) == ReplaceCrlf(PieceText(change))
    ensures r.Span? <==> change.Span? && '\r' !in PieceText(change)
    ensures '\r' !in PieceText(change) ==> r == change
  {
    if '\r' in PieceText(change) then Lit(ReplaceCrlf(PieceText(change)))
    else
      NoCrIdentity(PieceText(change));
      change
  }

  /** `setChanges(changesRaw)`: the unix text must be empty or start a new line; a
      pooled span is stored as it is; any other text is compared with the current
      changes (which throws when there are none) and pooled only when it differs. */
  function SetChanges(e: Entry, changesRaw: Piece): (r: Result<Entry>)
    ensures r.Success? <==>
              && StartsLineOrEmpty(ReplaceCrlf(PieceText(changesRaw)))
              && ((changesRaw.Span? && '\r' !in PieceText(changesRaw)) || e.changes.Some?)
    ensures r.Success? ==> r.value.header == e.header && r.value.changes.Some?
    ensures r.Success? ==> ToString(r.value.changes.value) == ReplaceCrlf(PieceText(changesRaw))
  {
    var unix := AsUnix(changesRaw);
    if !StartsLineOrEmpty(PieceText(unix)) then Failure(ILLEGAL_ARGUMENT)
    else if unix.Span? then Success(e.(changes := Some(unix.p)))
    else if e.changes.None? then Failure(NULL_POINTER)
    else if !SameAs(e.changes.value, unix.s) then Success(e.(changes := Some(Of(unix.s))))
    else Success(e)
  }

  /** Setting the text an entry already holds leaves the entry as it is. */
  lemma SetSameChangesKeepsEntry(e: Entry, text: string)
    requires e.changes.Some? && ToString(e.changes.value) == text
    requires StartsLineOrEmpty(text) && '\r' !in text
    ensures SetChanges(e, Lit(text)) == Success(e)
  {
  }

  // ---------------------------------------------------------------- release

  /** The unreleased changes `releaseUnreleased` can move: no CR, since a CR makes
      `asUnix` copy the text, and the fresh entry has no changes to compare it with. */
  predicate Releasable(c: Changelog) {
    && |c.versions| > 0
    && c.versions[0].header.UnreleasedHeader?
    && c.versions[0].changes.Some?
    && '\r' !in ToString(c.versions[0].changes.value)
    && StartsLineOrEmpty(ToString(c.versions[0].changes.value))
  }

  /** How a released document relates to the one it came from: a new second entry
      for the version holds the old unreleased changes, the unreleased entry keeps
      only a line break, the rest is shared, and the errors start afresh. */
  predicate ReleasedFrom(released: Changelog, c: Changelog, version: string, date: string)
    requires |c.versions| > 0 && c.versions[0].changes.Some?
  {
    && |released.versions| == |c.versions| + 1
    && released.versions[0].header == c.versions[0].header
    && released.versions[0].changes.Some?
    && ToString(released.versions[0].changes.value) == "\n"
    && (released.versions[0].changes == c.versions[0].changes || released.versions[0].changes == Some(Of("\n")))
    && released.versions[1] == Entry(ReleasedHeader(Of(version), Of(date), None), c.versions[0].changes)
    && released.versions[2..] == c.versions[1..]
    && released.errors == []
    && released.windowsNewlines == c.windowsNewlines
    && released.dontParse == c.dontParse
    && released.beforeUnreleased == c.beforeUnreleased
    && released.unparseableAfterError == c.unparseableAfterError
  }

  /** Moving pooled changes into a fresh version entry succeeds exactly when they
      hold no CR and start a line, and then stores the span itself. */
  lemma MovedEntry(version: string, date: string, p: PoolString)
    ensures var entry := SetChanges(VersionDate(version, date), Span(p));
            && (entry.Success? <==> '\r' !in ToString(p) && StartsLineOrEmpty(ToString(p)))
            && (entry.Success? ==> entry.value == Entry(ReleasedHeader(Of(version), Of(date), None), Some(p)))
  {
    var dated := VersionDate(version, date);
    assert dated.changes.None?;
    if '\r' !in ToString(p) {
      NoCrIdentity(ToString(p));
      assert AsUnix(Span(p)) == Span(p);
    }
  }

  /** Setting the changes of an entry that has some to a lone line break succeeds,
      keeping the old span when it already reads as a line break. */
  lemma ClearedEntry(e: Entry)
    requires e.changes.Some?
    ensures var cleared := SetChanges(e, Lit("\n"));
            && cleared.Success?
            && cleared.value.header == e.header
            && cleared.value.changes.Some?
            && ToString(cleared.value.changes.value) == "\n"
            && (cleared.value.changes == e.changes || cleared.value.changes == Some(Of("\n")))
  {
    NoCrIdentity("\n");
    assert AsUnix(Lit("\n")) == Lit("\n");
  }

  /** `releaseUnreleased(version, date)`. The Java list copy shares its entries, so
      clearing the unreleased changes also clears them in the receiver: the second
      component is the receiver as it is left afterwards. */
  function Release(c: Changelog, version: string, date: string): (r: Result<(Changelog, Changelog)>)
    ensures |c.versions| == 0 ==> r == Failure(INDEX_OUT_OF_BOUNDS)
    ensures r.Success? <==> Releasable(c)
    ensures r.Success? ==> ReleasedFrom(r.value.0, c, version, date)
    ensures r.Success? ==> r.value.1 == c.(versions := [r.value.0.versions[0]] + c.versions[1..])
  {
    if |c.versions| == 0 then Failure(INDEX_OUT_OF_BOUNDS)
    else
      var unreleased := c.versions[0];
      if !unreleased.header.UnreleasedHeader? then Failure(ILLEGAL_ARGUMENT)
      else if unreleased.changes.None? then Failure(NULL_POINTER)
      else
        var entry := SetChanges(VersionDate(version, date), Span(unreleased.changes.value));
        MovedEntry(version, date, unreleased.changes.value);
        if entry.Failure? then Failure(entry.error)
        else
          ClearedEntry(unreleased);
          var cleared := SetChanges(unreleased, Lit("\n")).value;
          var versions := [cleared, entry.value] + c.versions[1..];
          assert versions[2..] == c.versions[1..];
          var released := Changelog(c.windowsNewlines, c.dontParse, c.beforeUnreleased,
                                    versions, c.unparseableAfterError, []);
          Success((released, c.(versions := [cleared] + c.versions[1..])))
  }

  /** After a release the released version is the last one. */
  lemma ReleaseVersionLast(c: Changelog, version: string, date: string)
    requires Release(c, version, date).Success?
    ensures VersionLast(Release(c, version, date).value.0) == Success(Some(version))
  {
  }

  lemma ClearedHasNothingUnreleased(d: Changelog)
    requires |d.versions| > 0 && d.versions[0].changes.Some? && ToString(d.versions[0].changes.value) == "\n"
    ensures UnreleasedChanges(d) == Success("\n")
    ensures NoUnreleasedChanges(d) == Success(true)
  {
    assert AllBlank("\n");
  }

  /** After a release neither the new document nor the receiver has unreleased changes. */
  lemma ReleaseLeavesNothingUnreleased(c: Changelog, version: string, date: string)
    requires Release(c, version, date).Success?
    ensures UnreleasedChanges(Release(c, version, date).value.0) == Success("\n")
    ensures UnreleasedChanges(Release(c, version, date).value.1) == Success("\n")
    ensures NoUnreleasedChanges(Release(c, version, date).value.0) == Success(true)
    ensures NoUnreleasedChanges(Release(c, version, date).value.1) == Success(true)
  {
    var (released, mutated) := Release(c, version, date).value;
    ClearedHasNothingUnreleased(released);
    assert mutated.versions[0] == released.versions[0];
    ClearedHasNothingUnreleased(mutated);
  }

  lemma LfBodyShape(p: PoolString)
    requires p.base.Str? && ToString(p) == "\n"
    ensures BodyShape(p)
  {
    if Contains("\n", VERSION_BEGIN) {
      ContainsIffOccurs("\n", VERSION_BEGIN);
      assert false;
    }
  }

  /** The cleared unreleased entry is well formed in either case of `setChanges`. */
  lemma ClearedEntryShape(cleared: Entry, c: Changelog)
    requires WellFormed(c) && |c.versions| > 0
    requires cleared.header == c.versions[0].header && cleared.changes.Some?
    requires ToString(cleared.changes.value) == "\n"
    requires cleared.changes == c.versions[0].changes || cleared.changes == Some(Of("\n"))
    ensures GoodEntry(cleared, true)
  {
    assert GoodEntry(c.versions[0], true);
    LfBodyShape(cleared.changes.value);
  }

  /** The new version entry carries the unreleased changes, so it is well formed
      when the unreleased entry was. */
  lemma MovedEntryGood(e0: Entry, h: Header)
    requires GoodEntry(e0, true) && h.ReleasedHeader? && HeaderAtBuilderEnd(h)
    ensures GoodEntry(Entry(h, e0.changes), false)
  {
  }

  lemma ReleasedFromWellFormed(released: Changelog, c: Changelog, version: string, date: string)
    requires WellFormed(c) && Releasable(c) && ReleasedFrom(released, c, version, date)
    ensures WellFormed(released)
  {
    var es := released.versions;
    forall i | 0 <= i < |es| ensures GoodEntry(es[i], i == 0) {
      if i == 0 {
        ClearedEntryShape(es[0], c);
      } else if i == 1 {
        VersionHeaderAtEnd(version, date);
        MovedEntryGood(c.versions[0], es[1].header);
      } else {
        assert es[2..][i - 2] == c.versions[1..][i - 2];
        assert GoodEntry(c.versions[i - 1], false);
      }
    }
  }

  /** Replacing the first entry by another well-formed unreleased entry keeps a
      document well formed. */
  lemma ReplaceFirstWellFormed(c: Changelog, first: Entry)
    requires WellFormed(c) && |c.versions| > 0 && GoodEntry(first, true)
    ensures WellFormed(c.(versions := [first] + c.versions[1..]))
  {
    var es := [first] + c.versions[1..];
    forall i | 1 <= i < |es| ensures GoodEntry(es[i], false) {
      assert es[i] == c.versions[i];
    }
  }

  lemma ClearedReceiverWellFormed(mutated: Changelog, released: Changelog, c: Changelog, version: string, date: string)
    requires WellFormed(c) && Releasable(c) && ReleasedFrom(released, c, version, date)
    requires mutated == c.(versions := [released.versions[0]] + c.versions[1..])
    ensures WellFormed(mutated)
  {
    ClearedEntryShape(released.versions[0], c);
    ReplaceFirstWellFormed(c, released.versions[0]);
  }

  /** A release keeps a well-formed document well formed, and leaves the receiver
      well formed too. */
  lemma ReleaseKeepsWellFormed(c: Changelog, version: string, date: string)
    requires WellFormed(c) && Release(c, version, date).Success?
    ensures WellFormed(Release(c, version, date).value.0)
    ensures WellFormed(Release(c, version, date).value.1)
  {
    var (released, mutated) := Release(c, version, date).value;
    ReleasedFromWellFormed(released, c, version, date);
    ClearedReceiverWellFormed(mutated, released, c, version, date);
  }

  lemma EntriesTextTwo(es: seq<Entry>)
    requires |es| >= 2 && AllPrintableEntries(es)
    ensures AllPrintableEntries(es[2..])
    ensures EntriesText(es) == EntryText(es[0]) + (EntryText(es[1]) + EntriesText(es[2..]))
  {
    EntriesStep(es);
    EntriesStep(es[1..]);
    assert es[1..][1..] == es[2..];
  }

  lemma ReleasedEntryText(v: PoolString, d: PoolString, changes: PoolString)
    ensures EntryText(Entry(ReleasedHeader(v, d, None), Some(changes)))
              == (VERSION_BEGIN + ToString(v) + DATE_SEPARATOR + ToString(d)) + ToString(changes)
  {
    var h := ReleasedHeader(v, d, None);
    assert HeaderText(h) == VERSION_BEGIN + ToString(v) + DATE_SEPARATOR + ToString(d) + "";
  }

  lemma MovedEntryText(version: string, date: string, changes: PoolString)
    ensures EntryText(Entry(ReleasedHeader(Of(version), Of(date), None), Some(changes)))
              == (VERSION_BEGIN + version + DATE_SEPARATOR + date) + ToString(changes)
  {
    ReleasedEntryText(Of(version), Of(date), changes);
  }

  lemma ReleasedEntriesText(released: Changelog, c: Changelog, version: string, date: string)
    requires Releasable(c) && ReleasedFrom(released, c, version, date)
    requires AllPrintableEntries(released.versions) && AllPrintableEntries(c.versions[1..])
    ensures EntriesText(released.versions)
              == (HeaderText(c.versions[0].header) + "\n")
                 + ((VERSION_BEGIN + version + DATE_SEPARATOR + date)
                    + ToString(c.versions[0].changes.value)
                    + EntriesText(c.versions[1..]))
  {
    var es := released.versions;
    EntriesTextTwo(es);
    assert EntryText(es[0]) == HeaderText(c.versions[0].header) + "\n";
    MovedEntryText(version, date, c.versions[0].changes.value);
  }

  /** The released document prints as the receiver did, with the version header
      inserted between the unreleased header and the changes it used to hold, and
      a lone line break left under the unreleased header. */
  lemma ReleaseText(c: Changelog, version: string, date: string)
    requires WellFormed(c) && Release(c, version, date).Success?
    ensures ToStringUnix(Release(c, version, date).value.0)
              == Success(ToString(c.beforeUnreleased)
                         + ((HeaderText(c.versions[0].header) + "\n")
                            + ((VERSION_BEGIN + version + DATE_SEPARATOR + date)
                               + ToString(c.versions[0].changes.value)
                               + EntriesText(c.versions[1..])))
                         + OptionalText(c.unparseableAfterError)
                         + ToString(c.dontParse))
  {
    var released := Release(c, version, date).value.0;
    ReleaseKeepsWellFormed(c, version, date);
    WellFormedPrints(c);
    WellFormedPrints(released);
    EntriesStep(c.versions);
    ReleasedEntriesText(released, c, version, date);
  }
}
