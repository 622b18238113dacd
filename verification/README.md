# spotless-changelog core, modelled in Dafny

This project models the core of spotless-changelog and the small Blowdryer helper that ships beside it. It covers five things.

- **`PoolString`** is a zero-copy view into a `String` or a `StringBuilder`. It supports slicing, `until`/`after`, `indexOf`, concatenation that sometimes extends a builder in place, and line-number lookup.
- **The changelog parser** appears twice, in `Changelog` and in the older `ParsedChangelog`. It cuts a keep-a-changelog document into:
  - a preamble;
  - an `[Unreleased]` entry;
  - released entries `## [x.y.z] - yyyy-mm-dd`;
  - an unparsed rest after the first bad header;
  - a tail below an end marker.
  The printers give the text back exactly when its line breaks are all LF or all CRLF; a text that mixes the two comes back with every line break as CRLF. The model also covers the document-level operations: `versionLast`, `unreleasedChanges`, `noUnreleasedChanges`, the entry accessors and setters, and `releaseUnreleased`.
- **The next-version rules** exist in three generations:
  - the `NextVersionFunction` family: `Semver`, `SemverBrandPrefix`, `SemverCondense__X_Y_0__to__X_Y` and `NonSemver`;
  - the older `VersionBumpFunction` family;
  - the oldest rule, inside `ChangelogModel`.
  The model covers these rules, OSGi `Version.parseVersion`, which they rely on, and Java `int` arithmetic, wrap-around included.
- **`ChangelogAndNext`** chooses the next version: forced, then `0.1.0`, then unchanged, then bumped, then the `-SNAPSHOT` step. Its per-file cache is keyed by the bytes of a `Serialized` input.
- **Configuration and utilities:**
  - `GitCfg` and `PushCfg`, with commit-message validation;
  - `MoreIterables.toSortedSet`;
  - Blowdryer's `filenameSafe` and `BlowdryerExtension`'s slash checks and GitHub root URL.

## How the model is organised

The modules follow the Java classes:

| module | models |
|---|---|
| `Wrappers` | `Option` and `Result`, where a Java exception becomes a `Failure` carrying the exception's class name |
| `Text` | the `java.lang.String` operations the code uses |
| `PoolStrings` | `PoolString` |
| `ChangelogGrammar` | the parser both changelog classes share, parameterised by the end marker |
| `Changelogs` | `Changelog` |
| `ParsedChangelogs` | `ParsedChangelog` |
| `VersionNumbers` | OSGi `Version` and Java `int` |
| `NextVersionFunctions` | `NextVersionFunction` |
| `VersionBumpFunctions` | `VersionBumpFunction` |
| `ChangelogModel` | `ChangelogModel`, plus its nested `PushCfg`, which has the same fields and check as `PushCfg.java` |
| `ChangelogAndNext` | `ChangelogAndNext` |
| `SerializedValues` | `Serialized` |
| `GitConfig` | `GitCfg` |
| `MoreIterables` | `MoreIterables` |
| `Blowdryer` | `Blowdryer.filenameSafe` and `BlowdryerExtension` |

Java null becomes `Option`. A Java method that mutates its receiver becomes a function that returns the new value. `releaseUnreleased` returns two documents: the released one, and the receiver as the shared list entry leaves it.

## Where the model follows the code rather than the evident intent

- **Line numbers.** `baseLineNumberOfOffset` is meant to count the line breaks before an offset, but it counts every LF of the whole buffer and never reads the offset. The model does the same (`PoolStrings.BaseLineNumberOfOffset`, `PoolStrings.LineNumberIgnoresOffset`). So a header error reports the number of lines in the whole text, not the line of the header.
- **`releaseUnreleased` mutates its receiver.** It is meant to leave the receiver untouched. But it copies the entry list shallowly and then calls `setChanges("\n")` on the shared unreleased entry. `Changelogs.Release` returns the receiver as it is left, with its unreleased changes cleared. The new document also starts with no errors, because the copy constructor does not copy them.
- **`concat` on a builder.** When the receiver's builder extends past the view, `concat` appends at the end of the builder but widens the view from its own end. The contents then come out wrong. `PoolStrings.ConcatBuilderNotAtEnd` shows this. Every content lemma therefore carries the condition that the receiver ends where its builder ends. Every span the parser makes satisfies that condition.
- **`ChangelogModel.calculate` and `noUnreleasedChanges`.** `ChangelogModel.calculate` calls `parsed.noUnreleasedChanges()`, which `ParsedChangelog` does not declare. The model gives it the meaning `Changelog.noUnreleasedChanges` has: the unreleased changes, without line breaks, trim to nothing.

## Model

| member | source | states |
|---|---|---|
| PoolStrings.Length | spotless-changelog-lib/src/main/java/com/diffplug/spotless/changelog/PoolString.java:51-53 | the length of a span is the length of the text it shows |
| PoolStrings.OfRange | spotless-changelog-lib/src/main/java/com/diffplug/spotless/changelog/PoolString.java:30-36 | an empty range gives the shared empty span; any other range is a view of the string showing exactly `s[a..b]` |
| PoolStrings.Of | spotless-changelog-lib/src/main/java/com/diffplug/spotless/changelog/PoolString.java:26-28 | a view of a whole string shows that string, and the empty string gives the shared empty span |
| PoolStrings.CharAtIsContent | spotless-changelog-lib/src/main/java/com/diffplug/spotless/changelog/PoolString.java:56-58 | inside the span, `charAt(i)` is character `i` of the shown text |
| PoolStrings.SubSequence | spotless-changelog-lib/src/main/java/com/diffplug/spotless/changelog/PoolString.java:61-66 | equal bounds give the empty span; otherwise the result is a view of the same buffer that shows the requested slice of the text |
| PoolStrings.Concat | spotless-changelog-lib/src/main/java/com/diffplug/spotless/changelog/PoolString.java:73-96 | the empty span is an identity on either side, and adjacent views of one buffer fuse without copying |
| PoolStrings.ConcatContent | spotless-changelog-lib/src/main/java/com/diffplug/spotless/changelog/PoolString.java:73-96 | when the receiver ends where its builder ends, the result shows the two texts one after the other, and keeps that property |
| PoolStrings.ConcatBuilderNotAtEnd | spotless-changelog-lib/src/main/java/com/diffplug/spotless/changelog/PoolString.java:83-94 | a view of "a" in a builder holding "ab", concatenated with "c", shows "ab" and not "ac" |
| PoolStrings.ConcatString | spotless-changelog-lib/src/main/java/com/diffplug/spotless/changelog/PoolString.java:98-109 | when the string buffer already continues with the argument, the view just widens over the same buffer |
| PoolStrings.ConcatStringContent | spotless-changelog-lib/src/main/java/com/diffplug/spotless/changelog/PoolString.java:98-109 | appending a string shows the span's text followed by the string, on both the widening path and the copying path |
| PoolStrings.AppendAllContent | spotless-changelog-lib/src/main/java/com/diffplug/spotless/changelog/PoolString.java:115-124 | the variadic loop appends every piece's text in order |
| PoolStrings.ConcatAllContent | spotless-changelog-lib/src/main/java/com/diffplug/spotless/changelog/PoolString.java:111-125 | `concat(CharSequence...)` shows the texts of its arguments one after another |
| PoolStrings.CharsMatch | spotless-changelog-lib/src/main/java/com/diffplug/spotless/changelog/PoolString.java:147-152 | the character-comparison loop succeeds exactly when that part of the span equals that part of the argument |
| PoolStrings.SameAs | spotless-changelog-lib/src/main/java/com/diffplug/spotless/changelog/PoolString.java:131-141 | true exactly when the span's text equals the argument |
| PoolStrings.StartsWith | spotless-changelog-lib/src/main/java/com/diffplug/spotless/changelog/PoolString.java:143-153 | true exactly when the argument is a prefix of the span's text |
| PoolStrings.EndsWithText | spotless-changelog-lib/src/main/java/com/diffplug/spotless/changelog/PoolString.java:155-166 | true exactly when the argument is a suffix of the span's text |
| PoolStrings.IndexOf | spotless-changelog-lib/src/main/java/com/diffplug/spotless/changelog/PoolString.java:168-180 | the first buffer occurrence at or after the span start, relative to that start, kept only when it starts before the span end (it may run past the end); -1 when no occurrence starts inside the span |
| PoolStrings.IndexOfChar | spotless-changelog-lib/src/main/java/com/diffplug/spotless/changelog/PoolString.java:182-194 | the first position in the span holding the character, or -1 when the span has none |
| PoolStrings.NoStraddle | spotless-changelog-lib/src/main/java/com/diffplug/spotless/changelog/PoolString.java:175-179 | in a span that ends at a line break, a needle whose only LF is its first character never runs past the span end |
| PoolStrings.IndexOfContent | spotless-changelog-lib/src/main/java/com/diffplug/spotless/changelog/PoolString.java:168-180 | in such a span, `indexOf` agrees with a plain first-occurrence search of the span's text |
| PoolStrings.Until | spotless-changelog-lib/src/main/java/com/diffplug/spotless/changelog/PoolString.java:201-208 | the whole span when there is no hit, otherwise the text before the first hit, as a prefix view of the same buffer |
| PoolStrings.After | spotless-changelog-lib/src/main/java/com/diffplug/spotless/changelog/PoolString.java:216-227 | for a prefix view, the prefix text followed by the result's text is the span's text |
| PoolStrings.UntilAfter | spotless-changelog-lib/src/main/java/com/diffplug/spotless/changelog/PoolString.java:201-227 | `until` always yields a prefix `after` accepts, and the two parts spell the span out again |
| PoolStrings.UntilAfterHit | spotless-changelog-lib/src/main/java/com/diffplug/spotless/changelog/PoolString.java:201-227 | with a hit, `until` and `after` cut the text exactly at the first occurrence |
| PoolStrings.UntilOmitsMarker | spotless-changelog-lib/src/main/java/com/diffplug/spotless/changelog/PoolString.java:201-208 | no occurrence of the marker starts inside what `until` returns, so that text never contains the marker |
| PoolStrings.SplitAtHit | spotless-changelog-lib/src/main/java/com/diffplug/spotless/changelog/PoolString.java:216-227 | when something is left after `until` in a span ending at a line break, the rest starts with the marker and still ends at that line break |
| PoolStrings.AfterStartsWithHit | spotless-changelog-lib/src/main/java/com/diffplug/spotless/changelog/PoolString.java:216-227 | when the hit fits in the span, what `after` keeps begins with the marker |
| PoolStrings.HitFits | spotless-changelog-lib/src/main/java/com/diffplug/spotless/changelog/PoolString.java:201-227 | in a span ending at a line break, something is left after `until` only when the marker was hit inside the span |
| PoolStrings.UntilAfterExampleA | spotless-changelog-lib/src/test/java/com/diffplug/spotless/changelog/PoolStringTest.java:25-29 | "abcdef" split at "a" gives "" and "abcdef" |
| PoolStrings.UntilAfterExampleC | spotless-changelog-lib/src/test/java/com/diffplug/spotless/changelog/PoolStringTest.java:31-33 | "abcdef" split at "c" gives "ab" and "cdef" |
| PoolStrings.IndexOfExampleC | spotless-changelog-lib/src/test/java/com/diffplug/spotless/changelog/PoolStringTest.java:31-33 | the first "c" in "abcdef" is at index 2 |
| PoolStrings.UntilAfterExampleZ | spotless-changelog-lib/src/test/java/com/diffplug/spotless/changelog/PoolStringTest.java:39-41 | "abcdef" split at a missing "z" gives "abcdef" and "" |
| PoolStrings.BaseLineNumberOfOffset | spotless-changelog-lib/src/main/java/com/diffplug/spotless/changelog/PoolString.java:249-258 | one plus the number of LFs in the whole string buffer, whatever the offset |
| PoolStrings.LineNumberIgnoresOffset | spotless-changelog-lib/src/main/java/com/diffplug/spotless/changelog/PoolString.java:235-247 | the start and end line numbers of any span are equal: the line count of the whole buffer |
| Text.CountChar | spotless-changelog-lib/src/main/java/com/diffplug/spotless/changelog/PoolString.java:251-256 | the counting loop gives the number of occurrences of the character in the string |
| Text.IndexOfFrom | spotless-changelog-lib/src/main/java/com/diffplug/spotless/changelog/Changelog.java:59 | `String.indexOf(needle, from)`: the first occurrence at or after `from`, or -1 when there is none |
| Text.ReplaceCrlfShrinks | spotless-changelog-lib/src/main/java/com/diffplug/spotless/changelog/Changelog.java:47-48 | replacing CRLF by LF makes the text shorter exactly when it held a CRLF, which is how `windowsNewlines` is detected |
| Text.CrlfRoundTrip | spotless-changelog-lib/src/main/java/com/diffplug/spotless/changelog/Changelog.java:116-119 | turning every LF into CRLF and back gives the text again, when it had no CRLF |
| Text.TrimEmptyIffBlank | spotless-changelog-lib/src/main/java/com/diffplug/spotless/changelog/Changelog.java:139-141 | `trim()` gives nothing exactly when every character is at most a space |
| Text.RemoveLfBlank | spotless-changelog-lib/src/main/java/com/diffplug/spotless/changelog/Changelog.java:139-141 | removing LFs first does not change whether a text is blank |
| ChangelogGrammar.MarkersAnchored | spotless-changelog-lib/src/main/java/com/diffplug/spotless/changelog/Changelog.java:35-36 | both header markers start with a LF and hold no other LF, and the unreleased marker extends the version marker |
| ChangelogGrammar.HeaderLine | spotless-changelog-lib/src/main/java/com/diffplug/spotless/changelog/Changelog.java:71-72 | the header line is a non-empty view of the same buffer that starts where the rest starts |
| ChangelogGrammar.HeaderLineFacts | spotless-changelog-lib/src/main/java/com/diffplug/spotless/changelog/Changelog.java:71-72 | the header line holds no LF after its first character and ends at the next LF or at the end |
| ChangelogGrammar.RestAfterHeader | spotless-changelog-lib/src/main/java/com/diffplug/spotless/changelog/Changelog.java:78 | what follows the header line is empty or starts with a LF, and still ends at a line break |
| ChangelogGrammar.VersionEndAfterBegin | spotless-changelog-lib/src/main/java/com/diffplug/spotless/changelog/Changelog.java:252 | the "] - " separator is never found inside the leading "\n## [", so the version cut is well defined |
| ChangelogGrammar.ParseHeader | spotless-changelog-lib/src/main/java/com/diffplug/spotless/changelog/Changelog.java:244-283 | the first header parses as the unreleased one, with a trailer; a released header has a 10-character date; an error is reported on the buffer's line number |
| ChangelogGrammar.ParseHeaderErrors | spotless-changelog-lib/src/main/java/com/diffplug/spotless/changelog/Changelog.java:252-277 | each error message appears exactly in its case: no "] - ", too short for the date, or no space after the date; otherwise the header parses |
| ChangelogGrammar.ParseHeaderRoundTrip | spotless-changelog-lib/src/main/java/com/diffplug/spotless/changelog/Changelog.java:285-294 | a parsed header prints back to exactly the line it came from |
| ChangelogGrammar.ReleasedRoundTrip | spotless-changelog-lib/src/main/java/com/diffplug/spotless/changelog/Changelog.java:279-292 | the version, date and trailer of a released header, printed with their separators, are its line again |
| ChangelogGrammar.ReleasedParts | spotless-changelog-lib/src/main/java/com/diffplug/spotless/changelog/Changelog.java:258-281 | the version is the text between "\n## [" and "] - ", the date the next ten characters, and the trailer what follows the space after them |
| ChangelogGrammar.BodyFacts | spotless-changelog-lib/src/main/java/com/diffplug/spotless/changelog/Changelog.java:79 | the changes under a header are empty or start with a LF, and hold no version header |
| ChangelogGrammar.StepNext | spotless-changelog-lib/src/main/java/com/diffplug/spotless/changelog/Changelog.java:78-85 | each turn of the loop leaves a strictly shorter rest, which starts with the next version header |
| ChangelogGrammar.StopAtError | spotless-changelog-lib/src/main/java/com/diffplug/spotless/changelog/Changelog.java:73-76 | a header that does not parse ends the loop: no more sections, the whole rest kept as unparseable, and the one error recorded |
| ChangelogGrammar.FrontSection | spotless-changelog-lib/src/main/java/com/diffplug/spotless/changelog/Changelog.java:73-80 | the front section is well shaped, and its header line, its changes and what follows spell out the rest |
| ChangelogGrammar.LoopStep | spotless-changelog-lib/src/main/java/com/diffplug/spotless/changelog/Changelog.java:70-86 | one turn of the loop either ends with a tail that keeps its promises or yields a section and a shorter rest that can be parsed |
| ChangelogGrammar.AfterHeader | spotless-changelog-lib/src/main/java/com/diffplug/spotless/changelog/Changelog.java:78-85 | after a header that parsed, the loop either ends with a well-formed last section or yields a section and a shorter rest that starts with a version header |
| ChangelogGrammar.ParseSections | spotless-changelog-lib/src/main/java/com/diffplug/spotless/changelog/Changelog.java:70-86 | the loop yields sections in which only the first is unreleased; at most one error, paired with an unparsed rest; and sections plus rest spell out the input |
| ChangelogGrammar.MarkerErrors | spotless-changelog-lib/src/main/java/com/diffplug/spotless/changelog/Changelog.java:58-66 | without an unreleased header the one error is "Needs a newline..." when "## [Unreleased]" occurs at all, and "Needs to have..." on line -1 otherwise |
| ChangelogGrammar.WindowsNewlines | spotless-changelog-lib/src/main/java/com/diffplug/spotless/changelog/Changelog.java:47-48 | the document is marked as having Windows newlines exactly when the raw text holds a CRLF |
| ChangelogGrammar.RegionFacts | spotless-changelog-lib/src/main/java/com/diffplug/spotless/changelog/Changelog.java:50-51 | the parsed region ends at a line break, and the region followed by what comes after it is the text with CRLF replaced |
| ChangelogGrammar.RegionContent | spotless-changelog-lib/src/main/java/com/diffplug/spotless/changelog/Changelog.java:50-51 | the parsed region is the unix text up to the first end marker, and the kept tail is the rest from that marker on |
| ChangelogGrammar.VersionsFacts | spotless-changelog-lib/src/main/java/com/diffplug/spotless/changelog/Changelog.java:53-54 | the preamble and the versions spell out the region, and the versions start with the unreleased header when there are any |
| ChangelogGrammar.LayoutWithoutVersions | spotless-changelog-lib/src/main/java/com/diffplug/spotless/changelog/Changelog.java:56-68 | with no unreleased header there are no sections and exactly one document-level error, and nothing of the text is lost |
| ChangelogGrammar.LayoutWithVersions | spotless-changelog-lib/src/main/java/com/diffplug/spotless/changelog/Changelog.java:70-86 | with an unreleased header the sections start with it, there is at most one error, and the pieces spell out the unix text |
| ChangelogGrammar.ParseLayout | spotless-changelog-lib/src/main/java/com/diffplug/spotless/changelog/Changelog.java:45-87 | the constructor's result: at most one error; no sections exactly when the parsed region does not contain "\n## [Unreleased]"; preamble, sections, unparsed rest and tail spell out the unix text |
| Changelogs.DontParseIsEndMarker | spotless-changelog-lib/src/main/java/com/diffplug/spotless/changelog/Changelog.java:37 | "\n<!-- END CHANGELOG -->" is a marker the layout can cut at |
| Changelogs.Parse | spotless-changelog-lib/src/main/java/com/diffplug/spotless/changelog/Changelog.java:45-87 | `new Changelog(text)` is well formed, has at most one error, detects Windows newlines, and its pieces spell out the text with CRLF replaced |
| Changelogs.ParseKeepsTail | spotless-changelog-lib/src/main/java/com/diffplug/spotless/changelog/Changelog.java:50-51 | everything from the first "\n<!-- END CHANGELOG -->" on is kept aside verbatim |
| Changelogs.EntriesOfText | spotless-changelog-lib/src/main/java/com/diffplug/spotless/changelog/Changelog.java:79-80 | entries built from the parsed sections print the same text as the sections |
| Changelogs.EntryPiecesText | spotless-changelog-lib/src/main/java/com/diffplug/spotless/changelog/Changelog.java:285-294 | the arguments an entry hands to `concat` spell out its header line followed by its changes |
| Changelogs.EntryToStringUnix | spotless-changelog-lib/src/main/java/com/diffplug/spotless/changelog/Changelog.java:285-294 | printing an entry fails exactly when an unreleased header has no trailer or the changes are null, and otherwise gives header then changes |
| Changelogs.AppendEntries | spotless-changelog-lib/src/main/java/com/diffplug/spotless/changelog/Changelog.java:104-106 | the printing loop succeeds exactly when every entry is printable, and appends their texts in order |
| Changelogs.ToStringUnix | spotless-changelog-lib/src/main/java/com/diffplug/spotless/changelog/Changelog.java:102-112 | the printed document is preamble, entries, unparsed rest and tail |
| Changelogs.ToText | spotless-changelog-lib/src/main/java/com/diffplug/spotless/changelog/Changelog.java:116-119 | `toString()` succeeds exactly when `toStringUnix()` does |
| Changelogs.ParseRoundTripUnix | spotless-changelog-lib/src/main/java/com/diffplug/spotless/changelog/Changelog.java:102-112 | parsing and printing with unix newlines gives the input back with CRLF replaced by LF |
| Changelogs.ParseRoundTripLf | spotless-changelog-lib/src/main/java/com/diffplug/spotless/changelog/Changelog.java:116-119 | a text without CRLF prints back exactly |
| Changelogs.ParseRoundTripCrlf | spotless-changelog-lib/src/main/java/com/diffplug/spotless/changelog/Changelog.java:116-119 | a text whose every line break is a CRLF prints back exactly |
| Changelogs.VersionLast | spotless-changelog-lib/src/main/java/com/diffplug/spotless/changelog/Changelog.java:122-128 | null with fewer than two entries, otherwise the second entry's version; it throws only if that entry is unreleased, which a parsed document never has |
| Changelogs.UnreleasedChanges | spotless-changelog-lib/src/main/java/com/diffplug/spotless/changelog/Changelog.java:131-136 | empty without entries, otherwise the first entry's changes; for a parsed document these are empty or start with a LF, and hold no version header |
| Changelogs.NoUnreleasedChanges | spotless-changelog-lib/src/main/java/com/diffplug/spotless/changelog/Changelog.java:139-141 | true exactly when the unreleased changes are blank |
| Changelogs.EntryVersion | spotless-changelog-lib/src/main/java/com/diffplug/spotless/changelog/Changelog.java:182-185 | defined exactly for a released entry, where it is the text between "\n## [" and "] - " of the header line |
| Changelogs.EntryDate | spotless-changelog-lib/src/main/java/com/diffplug/spotless/changelog/Changelog.java:188-191 | defined exactly for a released entry, where it is the date in the header line |
| Changelogs.HeaderMisc | spotless-changelog-lib/src/main/java/com/diffplug/spotless/changelog/Changelog.java:194-205 | a released entry's trailer as stored; for the unreleased entry, the stored trailer less its leading space, and null when nothing follows that space |
| Changelogs.SetHeaderMisc | spotless-changelog-lib/src/main/java/com/diffplug/spotless/changelog/Changelog.java:208-216 | refuses a trailer with a line break; otherwise the header line becomes the old header plus a space and the trailer, or loses its trailer for null, and nothing else changes |
| Changelogs.HeaderMiscRoundTrip | spotless-changelog-lib/src/main/java/com/diffplug/spotless/changelog/Changelog.java:194-216 | reading the trailer back gives what was set, except that an empty trailer on the unreleased entry reads back as null |
| Changelogs.VersionDate | spotless-changelog-lib/src/main/java/com/diffplug/spotless/changelog/Changelog.java:169-174 | a released entry whose header line is "\n## [" version "] - " date, with no trailer and no changes yet |
| Changelogs.AsUnix | spotless-changelog-lib/src/main/java/com/diffplug/spotless/changelog/Changelog.java:235-242 | the text with CRLF replaced; the argument itself is kept whenever it holds no CR |
| Changelogs.SetChanges | spotless-changelog-lib/src/main/java/com/diffplug/spotless/changelog/Changelog.java:224-233 | succeeds exactly when the unix text is empty or starts with a LF and the call does not hit the NullPointerException, which happens when a text that is not a CR-free span goes to an entry with no changes yet; the entry then holds that text under the same header |
| Changelogs.SetSameChangesKeepsEntry | spotless-changelog-lib/src/main/java/com/diffplug/spotless/changelog/Changelog.java:229-231 | setting the text an entry already holds leaves the entry unchanged |
| Changelogs.MovedEntry | spotless-changelog-lib/src/main/java/com/diffplug/spotless/changelog/Changelog.java:313-314 | handing a span to a fresh entry works exactly when the span has no CR and starts a line; the span itself is then stored |
| Changelogs.ClearedEntry | spotless-changelog-lib/src/main/java/com/diffplug/spotless/changelog/Changelog.java:315 | setting the changes to "\n" always succeeds, and keeps the old span when it already reads "\n" |
| Changelogs.Release | spotless-changelog-lib/src/main/java/com/diffplug/spotless/changelog/Changelog.java:308-318 | fails on an empty document and whenever the first entry is not an unreleased one with CR-free changes that start a line; otherwise returns the released document and the mutated receiver |
| Changelogs.ReleaseVersionLast | spotless-changelog-lib/src/main/java/com/diffplug/spotless/changelog/Changelog.java:308-318 | after a release, `versionLast` is the released version |
| Changelogs.ReleaseLeavesNothingUnreleased | spotless-changelog-lib/src/main/java/com/diffplug/spotless/changelog/Changelog.java:308-318 | after a release, neither the new document nor the receiver has unreleased changes |
| Changelogs.ReleaseKeepsWellFormed | spotless-changelog-lib/src/main/java/com/diffplug/spotless/changelog/Changelog.java:308-318 | a release keeps a well-formed document well formed, and leaves the receiver well formed too |
| Changelogs.ReleaseText | spotless-changelog-lib/src/main/java/com/diffplug/spotless/changelog/Changelog.java:308-318 | the released document prints as the old one with a lone line break under the unreleased header and the new version entry, holding the old changes, inserted after it |
| Changelogs.WellFormedPrints | spotless-changelog-lib/src/main/java/com/diffplug/spotless/changelog/Changelog.java:285-294 | every entry of a well-formed document can be printed, and every span sits at the end of its buffer |
| ParsedChangelogs.DontParseIsEndMarker | spotless-changelog-lib/src/main/java/com/diffplug/spotless/changelog/ParsedChangelog.java:35 | "\n<!-- do not parse below here -->" is a marker the layout can cut at |
| ParsedChangelogs.Parse | spotless-changelog-lib/src/main/java/com/diffplug/spotless/changelog/ParsedChangelog.java:45-86 | `new ParsedChangelog(text)` has the same guarantees as the newer parser, with its own end marker |
| ParsedChangelogs.ParseKeepsTail | spotless-changelog-lib/src/main/java/com/diffplug/spotless/changelog/ParsedChangelog.java:49-50 | everything from the first end marker on is kept aside verbatim |
| ParsedChangelogs.HeaderToStringUnix | spotless-changelog-lib/src/main/java/com/diffplug/spotless/changelog/ParsedChangelog.java:183-192 | a header prints, without its body, exactly when it is printable, and then gives its line |
| ParsedChangelogs.AppendSections | spotless-changelog-lib/src/main/java/com/diffplug/spotless/changelog/ParsedChangelog.java:91-93 | the loop succeeds exactly when every header is printable, and appends each header line and then its body |
| ParsedChangelogs.HeaderThenBody | spotless-changelog-lib/src/main/java/com/diffplug/spotless/changelog/ParsedChangelog.java:92 | appending a header line and then its body shows the header text followed by the body |
| ParsedChangelogs.ToStringUnix | spotless-changelog-lib/src/main/java/com/diffplug/spotless/changelog/ParsedChangelog.java:89-99 | the printed document is preamble, sections, unparsed rest and tail |
| ParsedChangelogs.ToText | spotless-changelog-lib/src/main/java/com/diffplug/spotless/changelog/ParsedChangelog.java:103-106 | `toString()` succeeds exactly when `toStringUnix()` does |
| ParsedChangelogs.VersionLast | spotless-changelog-lib/src/main/java/com/diffplug/spotless/changelog/ParsedChangelog.java:109-115 | null with fewer than two sections, otherwise the second header's version |
| ParsedChangelogs.UnreleasedChanges | spotless-changelog-lib/src/main/java/com/diffplug/spotless/changelog/ParsedChangelog.java:118-123 | empty without sections, otherwise the first body with CRLF replaced, which is the body itself when it has no CRLF |
| ParsedChangelogs.ParseRoundTripUnix | spotless-changelog-lib/src/main/java/com/diffplug/spotless/changelog/ParsedChangelog.java:89-99 | parsing and printing with unix newlines gives the input back with CRLF replaced by LF |
| ParsedChangelogs.ParseRoundTripLf | spotless-changelog-lib/src/main/java/com/diffplug/spotless/changelog/ParsedChangelog.java:103-106 | a text without CRLF prints back exactly |
| ParsedChangelogs.ParseRoundTripCrlf | spotless-changelog-lib/src/main/java/com/diffplug/spotless/changelog/ParsedChangelog.java:103-106 | a text whose every line break is a CRLF prints back exactly |
| VersionNumbers.Inc | spotless-changelog-lib/src/main/java/com/diffplug/spotless/changelog/NextVersionFunction.java:107 | Java `int` increment: one more, except that the largest `int` wraps to the smallest |
| VersionNumbers.IntToString | spotless-changelog-lib/src/main/java/com/diffplug/spotless/changelog/NextVersionFunction.java:107 | an `int` in string concatenation is never empty, holds no dot, and is the decimal digits of a non-negative value |
| VersionNumbers.ParseInt | spotless-changelog-lib/src/main/java/com/diffplug/spotless/changelog/NextVersionFunction.java:136 | `Integer.parseInt` accepts only an optional sign and digits, and its value fits an `int` |
| VersionNumbers.ParseIntToString | spotless-changelog-lib/src/main/java/com/diffplug/spotless/changelog/NextVersionFunction.java:136 | printing an `int` and parsing it back gives the `int` |
| VersionNumbers.JoinSplitDots | spotless-changelog-lib/src/main/java/com/diffplug/spotless/changelog/NextVersionFunction.java:102 | the pieces the version tokenizer cuts at the dots, joined with dots, are the text again |
| VersionNumbers.ParseVersion | spotless-changelog-lib/src/main/java/com/diffplug/spotless/changelog/NextVersionFunction.java:102 | `Version.parseVersion`: null and blank text give 0.0.0, any version it accepts has components that fit an `int`, and every refusal is an IllegalArgumentException |
| VersionNumbers.ParseVersionToString | spotless-changelog-lib/src/main/java/com/diffplug/spotless/changelog/NextVersionFunction.java:102 | a printed version parses back to itself |
| VersionNumbers.ParseVersionQualified | spotless-changelog-lib/src/main/java/com/diffplug/spotless/changelog/NextVersionFunction.java:102 | a valid qualifier after the third component is accepted and dropped |
| VersionNumbers.ParseVersionPadded | spotless-changelog-lib/src/main/java/com/diffplug/spotless/changelog/NextVersionFunction.java:102 | blanks around a version are trimmed before parsing |
| VersionNumbers.ParseVersionBadQualifier | spotless-changelog-lib/src/main/java/com/diffplug/spotless/changelog/NextVersionFunction.java:102 | a qualifier with a character outside letters, digits, '_' and '-' is an IllegalArgumentException |
| NextVersionFunctions.AnyMatch | spotless-changelog-lib/src/main/java/com/diffplug/spotless/changelog/NextVersionFunction.java:104-105 | true exactly when some trigger occurs in the text |
| NextVersionFunctions.Apply | spotless-changelog-lib/src/main/java/com/diffplug/spotless/changelog/NextVersionFunction.java:107-120 | a bump raises the chosen component by one, resets the ones below to zero, and always gives a larger version |
| NextVersionFunctions.Dotted | spotless-changelog-lib/src/main/java/com/diffplug/spotless/changelog/NextVersionFunction.java:107-120 | the concatenated text of three non-negative `int`s is the printed version |
| NextVersionFunctions.SemverBelowOne | spotless-changelog-lib/src/main/java/com/diffplug/spotless/changelog/NextVersionFunction.java:103-110 | below 1.0.0 a breaking change or an added feature bumps the minor component and anything else the micro one; a null added list throws once it is consulted |
| NextVersionFunctions.SemverFromOne | spotless-changelog-lib/src/main/java/com/diffplug/spotless/changelog/NextVersionFunction.java:111-121 | from 1.0.0 on a breaking change bumps the major component, an added feature the minor one, anything else the micro one |
| NextVersionFunctions.SemverNext | spotless-changelog-lib/src/main/java/com/diffplug/spotless/changelog/NextVersionFunction.java:101-122 | fails when the last version does not parse or the breaking list is null; otherwise, without wrap-around, it is the printed bump of the last version |
| NextVersionFunctions.NewSemver | spotless-changelog-lib/src/main/java/com/diffplug/spotless/changelog/NextVersionFunction.java:87-88 | a new function reacts to "**BREAKING**" and "### Added" |
| NextVersionFunctions.IfFoundBumpBreaking | spotless-changelog-lib/src/main/java/com/diffplug/spotless/changelog/NextVersionFunction.java:91-93 | a `Semver` replaces its breaking triggers with a non-null list; null, or any `NonSemver`, is refused |
| NextVersionFunctions.IfFoundBumpAdded | spotless-changelog-lib/src/main/java/com/diffplug/spotless/changelog/NextVersionFunction.java:96-98 | a `Semver` replaces its added triggers with a non-null list; null, or any `NonSemver`, is refused |
| NextVersionFunctions.BrandPrefixNext | spotless-changelog-lib/src/main/java/com/diffplug/spotless/changelog/NextVersionFunction.java:134-139 | it can only succeed when the last version has a dot to cut the brand at |
| NextVersionFunctions.BrandPrefixKeepsBrand | spotless-changelog-lib/src/main/java/com/diffplug/spotless/changelog/NextVersionFunction.java:134-139 | the brand before the first dot survives, and the rest is what plain semver makes of the rest |
| NextVersionFunctions.CondenseNext | spotless-changelog-lib/src/main/java/com/diffplug/spotless/changelog/NextVersionFunction.java:149-156 | it succeeds exactly when plain semver does, and differs from it at most by one dropped ".0" |
| NextVersionFunctions.MicroZeroText | spotless-changelog-lib/src/main/java/com/diffplug/spotless/changelog/NextVersionFunction.java:151-152 | a printed version ends in ".0" exactly when its micro component is zero, and dropping it leaves major.minor |
| NextVersionFunctions.CondenseDropsZeroMicro | spotless-changelog-lib/src/main/java/com/diffplug/spotless/changelog/NextVersionFunction.java:149-156 | the condensed rule prints major.minor after a minor or major bump and the full version after a micro bump |
| NextVersionFunctions.NextVersion | spotless-changelog-lib/src/main/java/com/diffplug/spotless/changelog/NextVersionFunction.java:100-156 | a plain `Semver` runs the semver rule on its triggers, and a `NonSemver` runs its own rule |
| NextVersionFunctions.NextVersionOf | spotless-changelog-lib/src/main/java/com/diffplug/spotless/changelog/NextVersionFunction.java:41-43 | on a parsed changelog, the rule is applied to its unreleased changes and last version |
| NextVersionFunctions.SemverNextIncreases | spotless-changelog-lib/src/main/java/com/diffplug/spotless/changelog/NextVersionFunction.java:101-122 | every semver bump succeeds, is larger than the last version, and parses back to exactly the bump the triggers call for |
| VersionBumpFunctions.NewSemver | spotless-changelog-lib/src/main/java/com/diffplug/spotless/changelog/VersionBumpFunction.java:59-61 | a new function reacts to "**BREAKING**" and "### Added" |
| VersionBumpFunctions.IfFoundBumpBreaking | spotless-changelog-lib/src/main/java/com/diffplug/spotless/changelog/VersionBumpFunction.java:64-66 | a `Semver` stores the list, null included, and keeps everything else; a `NonSemver` throws an IllegalArgumentException |
| VersionBumpFunctions.IfFoundBumpAdded | spotless-changelog-lib/src/main/java/com/diffplug/spotless/changelog/VersionBumpFunction.java:69-71 | a `Semver` stores the list, null included, and keeps everything else; a `NonSemver` throws an IllegalArgumentException |
| VersionBumpFunctions.BrandPrefixNext | spotless-changelog-lib/src/main/java/com/diffplug/spotless/changelog/VersionBumpFunction.java:107-112 | a null last version is a NullPointerException, and one without a dot a StringIndexOutOfBoundsException |
| VersionBumpFunctions.NextVersion | spotless-changelog-lib/src/main/java/com/diffplug/spotless/changelog/VersionBumpFunction.java:74-95 | the plain `Semver` follows the same semver rule as the newer class, possibly-null lists included, and a `NonSemver` runs its own rule |
| VersionBumpFunctions.AgreesWithCurrent | spotless-changelog-lib/src/main/java/com/diffplug/spotless/changelog/VersionBumpFunction.java:73-112 | with non-null trigger lists, the older and the newer function give the same result on every input |
| VersionBumpFunctions.BrandPrefixAgrees | spotless-changelog-lib/src/main/java/com/diffplug/spotless/changelog/VersionBumpFunction.java:107-112 | the two copies of the brand-prefix rule give the same result |
| VersionBumpFunctions.SettersAgreeWithCurrent | spotless-changelog-lib/src/main/java/com/diffplug/spotless/changelog/VersionBumpFunction.java:63-71 | given a non-null list, the older setters succeed exactly when the newer ones do, and leave the same function behind |
| VersionBumpFunctions.NullTriggers | spotless-changelog-lib/src/main/java/com/diffplug/spotless/changelog/VersionBumpFunction.java:76-89 | a null breaking list always fails; a null added list fails exactly when no breaking trigger fires |
| ChangelogModel.DefaultNextVersionCfg | spotless-changelog-lib/src/main/java/com/diffplug/spotless/changelog/ChangelogModel.java:35-39 | the default triggers are "### Added" for a minor bump and "**BREAKING**" for a major one, with no forced version |
| ChangelogModel.DefaultPushCfg | spotless-changelog-lib/src/main/java/com/diffplug/spotless/changelog/ChangelogModel.java:41-46 | the defaults are "release/", "origin" and "master"; the commit message is "Published release/{version}", which passes the check |
| ChangelogModel.RequirePlaceholder | spotless-changelog-lib/src/main/java/com/diffplug/spotless/changelog/ChangelogModel.java:52-57 | a message is returned unchanged exactly when it holds the placeholder, and refused with an IllegalArgumentException otherwise |
| ChangelogModel.ValidateCommitMessage | spotless-changelog-lib/src/main/java/com/diffplug/spotless/changelog/ChangelogModel.java:52-57 | a message is returned unchanged exactly when it holds "{version}", and refused with an IllegalArgumentException otherwise |
| ChangelogModel.NewVersion | spotless-changelog-lib/src/main/java/com/diffplug/spotless/changelog/ChangelogModel.java:89-102 | `new Version(a, b, c)` succeeds exactly when no component is negative |
| ChangelogModel.ModelBelowOne | spotless-changelog-lib/src/main/java/com/diffplug/spotless/changelog/ChangelogModel.java:85-92 | below 1.0.0 the result is larger than the last version and is the semver bump; null minor triggers throw when consulted |
| ChangelogModel.ModelFromOne | spotless-changelog-lib/src/main/java/com/diffplug/spotless/changelog/ChangelogModel.java:93-103 | from 1.0.0 on the result is larger than the last version and is the semver bump |
| ChangelogModel.ModelNextVersion | spotless-changelog-lib/src/main/java/com/diffplug/spotless/changelog/ChangelogModel.java:84-104 | any result is larger than the last version; without wrap-around and with both lists, it is the semver bump; null major triggers always fail |
| ChangelogModel.ModelAgreesWithSemver | spotless-changelog-lib/src/main/java/com/diffplug/spotless/changelog/ChangelogModel.java:84-104 | the oldest rule prints exactly the text of the newer `Semver` rule whenever no component is at the `int` limit |
| ChangelogModel.WrapRejected | spotless-changelog-lib/src/main/java/com/diffplug/spotless/changelog/ChangelogModel.java:102 | where a micro bump would wrap to a negative number, the `Version` constructor throws an IllegalArgumentException |
| ChangelogModel.NoUnreleasedChanges | spotless-changelog-lib/src/main/java/com/diffplug/spotless/changelog/ChangelogModel.java:75 | true exactly when the unreleased changes are blank |
| ChangelogModel.Calculate | spotless-changelog-lib/src/main/java/com/diffplug/spotless/changelog/ChangelogModel.java:67-104 | the forced version, else "0.1.0" with no release, else the last version when nothing is unreleased, else the bump of the last version; an unparseable last version fails with IllegalArgumentException, and null major triggers fail with NullPointerException |
| ChangelogModel.ModelTextAgrees | spotless-changelog-lib/src/main/java/com/diffplug/spotless/changelog/ChangelogModel.java:79 | the `toString()` of the bumped `Version` is the text the newer `Semver` rule gives for the same last version |
| ChangelogAndNext.ChooseNext | spotless-changelog-lib/src/main/java/com/diffplug/spotless/changelog/ChangelogAndNext.java:61-71 | the forced version, else "0.1.0" with no release, else the last version when nothing is unreleased, else what the function computes |
| ChangelogAndNext.AppendSnapshot | spotless-changelog-lib/src/main/java/com/diffplug/spotless/changelog/ChangelogAndNext.java:72-78 | the suffix is appended once; a version that already ends with it is refused with a message naming the version |
| ChangelogAndNext.SnapshotOnce | spotless-changelog-lib/src/main/java/com/diffplug/spotless/changelog/ChangelogAndNext.java:72-78 | a snapshot version cannot be made a snapshot again |
| ChangelogAndNext.Calculate | spotless-changelog-lib/src/main/java/com/diffplug/spotless/changelog/ChangelogAndNext.java:58-80 | succeeds exactly when choosing and suffixing succeed; then it carries the parsed changelog, its last version and the chosen next version |
| ChangelogAndNext.ForcedWins | spotless-changelog-lib/src/main/java/com/diffplug/spotless/changelog/ChangelogAndNext.java:62-63 | a forced version is used as given, even with no release yet |
| ChangelogAndNext.FirstVersion | spotless-changelog-lib/src/main/java/com/diffplug/spotless/changelog/ChangelogAndNext.java:64-65 | with no release and nothing forced the next version is "0.1.0", with the suffix when asked for |
| ChangelogAndNext.CacheRead | spotless-changelog-lib/src/main/java/com/diffplug/spotless/changelog/ChangelogAndNext.java:152-161 | a hit needs an entry under the canonical path whose stored input has the same bytes, and gives that entry's versions |
| ChangelogAndNext.CacheStore | spotless-changelog-lib/src/main/java/com/diffplug/spotless/changelog/ChangelogAndNext.java:163-167 | the entry under the path is replaced, and every other entry stays |
| ChangelogAndNext.StoreThenRead | spotless-changelog-lib/src/main/java/com/diffplug/spotless/changelog/ChangelogAndNext.java:152-167 | a stored input with bytes is read back |
| ChangelogAndNext.StoreKeepsOtherPaths | spotless-changelog-lib/src/main/java/com/diffplug/spotless/changelog/ChangelogAndNext.java:163-167 | storing under one path leaves the reads of every other path unchanged |
| ChangelogAndNext.CalculateUsingCache | spotless-changelog-lib/src/main/java/com/diffplug/spotless/changelog/ChangelogAndNext.java:132-150 | a hit returns the stored versions and leaves the cache alone; a miss calculates and stores the result so it reads back |
| ChangelogAndNext.UsingCacheAgrees | spotless-changelog-lib/src/main/java/com/diffplug/spotless/changelog/ChangelogAndNext.java:124-131 | through a faithful cache the result is exactly what `calculate` gives, and the cache stays faithful |
| ChangelogAndNext.SecondCallHits | spotless-changelog-lib/src/main/java/com/diffplug/spotless/changelog/ChangelogAndNext.java:132-150 | a second call with the same file and configuration hits the entry the first stored, and returns the same result and cache |
| SerializedValues.FromValue | spotless-changelog-lib/src/main/java/com/diffplug/spotless/changelog/Serialized.java:90-96 | the bytes are the value's serialization, kept beside the value |
| SerializedValues.FromFile | spotless-changelog-lib/src/main/java/com/diffplug/spotless/changelog/Serialized.java:72-88 | a missing file, or bytes that do not read back as a value, give neither bytes nor value; otherwise both |
| SerializedValues.NullNotReflexive | spotless-changelog-lib/src/main/java/com/diffplug/spotless/changelog/Serialized.java:49-50 | without bytes a value equals nothing, not even itself |
| SerializedValues.EqualsIffSameBytes | spotless-changelog-lib/src/main/java/com/diffplug/spotless/changelog/Serialized.java:48-57 | with bytes on both sides, two values are equal exactly when their bytes are, whatever the values, and equality is symmetric |
| SerializedValues.EqualsTransitive | spotless-changelog-lib/src/main/java/com/diffplug/spotless/changelog/Serialized.java:48-57 | equality of serialized values is transitive |
| SerializedValues.NeverEqualsOther | spotless-changelog-lib/src/main/java/com/diffplug/spotless/changelog/Serialized.java:54-55 | a serialized value never equals an object of another class |
| SerializedValues.EqualHash | spotless-changelog-lib/src/main/java/com/diffplug/spotless/changelog/Serialized.java:59-62 | equal values have equal hash codes |
| SerializedValues.FromValueRoundTrip | spotless-changelog-lib/src/main/java/com/diffplug/spotless/changelog/Serialized.java:43-45 | `value()` gives the value back, and two serializations of equal values are equal |
| MoreIterables.ToNullHostileList | spotless-changelog-lib/src/main/java/com/diffplug/spotless/changelog/MoreIterables.java:31-39 | fails exactly when some element is null; otherwise the same elements in the same order |
| MoreIterables.Insert | spotless-changelog-lib/src/main/java/com/diffplug/spotless/changelog/MoreIterables.java:45 | inserting into a sorted list keeps it sorted and adds exactly that element |
| MoreIterables.Sort | spotless-changelog-lib/src/main/java/com/diffplug/spotless/changelog/MoreIterables.java:45 | the result is sorted and is a permutation of the input |
| MoreIterables.RemoveDuplicates | spotless-changelog-lib/src/main/java/com/diffplug/spotless/changelog/MoreIterables.java:47-58 | the kept elements strictly increase, come from the input, and cover every key of the input; lists of at most one element are untouched |
| MoreIterables.ToSortedSet | spotless-changelog-lib/src/main/java/com/diffplug/spotless/changelog/MoreIterables.java:42-60 | fails exactly on a null element; otherwise strictly increasing, made of input elements, and covering every input key |
| GitConfig.DefaultGitCfg | spotless-changelog-lib/src/main/java/com/diffplug/spotless/changelog/GitCfg.java:28-35 | the defaults are "release/", "origin", "main" and "yes"; the tag is lightweight; the commit message is "Published release/{{version}}", which passes the check |
| GitConfig.ValidateCommitMessage | spotless-changelog-lib/src/main/java/com/diffplug/spotless/changelog/GitCfg.java:43-48 | a message is returned unchanged exactly when it holds "{{version}}", and refused with an IllegalArgumentException otherwise |
| GitConfig.SetTagMessage | spotless-changelog-lib/src/main/java/com/diffplug/spotless/changelog/GitCfg.java:51-53 | the tag message reads back as set, and no other field changes |
| GitConfig.TagMessageRoundTrip | spotless-changelog-lib/src/main/java/com/diffplug/spotless/changelog/GitCfg.java:50-62 | a set message reads back; the tag is annotated exactly when there is a message; setting the old message back restores the configuration |
| GitConfig.GitMessagePassesPush | spotless-changelog-lib/src/main/java/com/diffplug/spotless/changelog/GitCfg.java:43-48 | a message `GitCfg` accepts also passes the older "{version}" check |
| GitConfig.PushMessageNotGit | spotless-changelog-lib/src/main/java/com/diffplug/spotless/changelog/GitCfg.java:44 | "{version}" alone passes the older check but not `GitCfg`'s |
| Blowdryer.ReplaceUnsafe | src/main/java/com/diffplug/blowdryer/Blowdryer.java:152 | every character outside `[a-zA-Z0-9-+_.]` becomes a dash and every other one is kept |
| Blowdryer.CollapseDashes | src/main/java/com/diffplug/blowdryer/Blowdryer.java:153 | the result is no longer than the input, keeps its first character, and has no two dashes in a row |
| Blowdryer.CollapseNoDoubleDash | src/main/java/com/diffplug/blowdryer/Blowdryer.java:153 | a text without double dashes is left as it is |
| Blowdryer.CollapseKeepsOthers | src/main/java/com/diffplug/blowdryer/Blowdryer.java:153 | every character other than a dash is kept, in order |
| Blowdryer.CollapseIsScan | src/main/java/com/diffplug/blowdryer/Blowdryer.java:153 | collapsing equals the left-to-right reading where each run of dashes becomes exactly one dash |
| Blowdryer.Base64 | src/main/java/com/diffplug/blowdryer/Blowdryer.java:164 | four bytes encode to six Base64 digits and "==" |
| Blowdryer.Base64Char | src/main/java/com/diffplug/blowdryer/Blowdryer.java:164 | every Base64 digit is a safe character or a slash, and never the padding character |
| Blowdryer.SlashAndPadToDash | src/main/java/com/diffplug/blowdryer/Blowdryer.java:164-165 | every '/' and '=' becomes a dash and nothing else changes |
| Blowdryer.HashText | src/main/java/com/diffplug/blowdryer/Blowdryer.java:161-165 | the hash text is eight safe characters, the last two dashes |
| Blowdryer.Normalised | src/main/java/com/diffplug/blowdryer/Blowdryer.java:152-153 | the URL, normalised, has only safe characters and no two dashes in a row |
| Blowdryer.Abbreviate | src/main/java/com/diffplug/blowdryer/Blowdryer.java:157-166 | a long name becomes its first 40 characters, "--", the hash text and its last 40: 90 safe characters |
| Blowdryer.FilenameSafe | src/main/java/com/diffplug/blowdryer/Blowdryer.java:151-168 | always safe and at most 92 characters: the normalised URL when short enough, otherwise its abbreviation around the hash of the middle |
| Blowdryer.FilenameSafeFixedPoint | src/main/java/com/diffplug/blowdryer/Blowdryer.java:154-155 | a short safe name is its own safe name |
| Blowdryer.LongNameIsNotNormalised | src/main/java/com/diffplug/blowdryer/Blowdryer.java:166 | an abbreviated name always holds "--", so it can never be a normalised URL |
| Blowdryer.AssertNoLeadingOrTrailingSlash | src/main/java/com/diffplug/blowdryer/BlowdryerExtension.java:69-81 | null throws; the empty string passes; otherwise a leading slash, then a trailing slash, is refused with its own message, and anything else is returned unchanged |
| Blowdryer.NewExtension | src/main/java/com/diffplug/blowdryer/BlowdryerExtension.java:35 | the default folder is "src/main/resources", which passes the slash check |
| Blowdryer.SetRepoSubfolder | src/main/java/com/diffplug/blowdryer/BlowdryerExtension.java:45-48 | a folder is stored exactly when it passes the slash check |
| Blowdryer.GithubRoot | src/main/java/com/diffplug/blowdryer/BlowdryerExtension.java:55-60 | succeeds exactly when organisation and anchor pass the check, reporting the first failure; the root is the raw GitHub URL of organisation, anchor and folder, ending in a slash |
| Blowdryer.GithubUrlHasNoEmptySegment | src/main/java/com/diffplug/blowdryer/BlowdryerExtension.java:58-59 | with clean parts, no resource URL has two slashes in a row after its scheme |

## Left out

- File system. The model leaves out `calculate(File, …)` in `ChangelogAndNext` and `ChangelogModel`, `assertChangelogFileExists`, `FileSignature.sign`, `Serialized.writeTo`, and the reading of files in `Serialized.fromFile`. The file contents and the file signature are parameters instead.
- Java serialization. `ObjectOutputStream` is the `serialize` parameter of `SerializedValues.FromValue` and `ChangelogAndNext.CalculateUsingCache`. Deserialization is the `deserialize` parameter of `SerializedValues.FromFile`.
- The `synchronized` blocks around the cache. The cache is a value that is passed in and returned, and the model has no concurrency.
- Object identity. Three things become plain values:
  - the `StringBuilder` behind a concatenated `PoolString` (the model keeps only its current contents);
  - the identity of the `Versions` object returned from the cache;
  - the lazy, memoized changelog `Supplier` on a cache hit, which becomes the parsed changelog itself.
- Blowdryer.SetRepoSubfolder: does not model the IllegalStateException that `assertPluginNotSet` throws once a plugin is set, because the plugin is a process-wide singleton.
- Blowdryer.GithubRoot: returns the root URL the plugin would be built with. It does not model the IllegalStateException that `setResourcePlugin` throws when a plugin is already set, for the same reason.
- Blowdryer's `devLocal`, `applyFrom`, `file`, `prop`, `immutableUrl`, the download, the property files and `wipeEntireCache` are left out, because they are I/O.
- Blowdryer.FilenameSafe: the 32-bit Murmur3 hash of the middle part is the `murmur3` parameter, because Guava's hashing is foreign code. So the concrete file name in Blowdryer's own test is not derived.
- Null elements inside trigger lists. Java's `contains(null)` throws a NullPointerException, but a `seq<string>` cannot hold a null. A null list is modelled; a null element is not.
- Exception messages. Every IllegalArgumentException from `Preconditions.checkArgument` and from the `Version` class becomes `Failure(ILLEGAL_ARGUMENT)`. That includes a non-numeric version component: the model follows the OSGi `Version` class of release 5 and later, which catches `Integer.parseInt`'s NumberFormatException and throws an IllegalArgumentException instead. The other exception classes are treated the same way. The message text is kept only where the code builds it for the user: the parser's error map, the `-SNAPSHOT` refusal and Blowdryer's slash messages.
- `NonSemver` rules. The user-written rule of a `NonSemver` subclass is a function parameter. The `getClass()` text in the message that `NonSemver`'s setters throw is not modelled.
- MoreIterables.Sort: proves that the result is sorted by an integer key and is a permutation of the input, but not that equal elements keep their order as `Collections.sort` does.
- MoreIterables.ToSortedSet: because the sort's stability is not stated, it does not pin down which element of a group that compares equal survives. `toSortedSet` keeps the first of each group.
- `compareTo`. An element's `compareTo` is modelled as comparing integer keys. A `Comparable` that is not consistent with such a key is not modelled.
- NextVersionFunctions.SemverNext: states the result only when no component is at the `int` limit. The function itself applies Java's wrap-around through `VersionNumbers.Inc`, but no contract says what text it prints then.
- VersionNumbers.ParseVersion: accepts only the digits '0'-'9'. OSGi's tokenizer goes through `Integer.parseInt`, which also accepts non-ASCII decimal digits; Unicode digit classes are outside the model.
- PoolStrings.BaseLineNumberOfOffset: requires a `String` buffer. Java's `assertStringBased` throws an IllegalArgumentException for a builder buffer, and that error path is not modelled. Every span the parser asks for a line number is a view of the parsed string.
- ChangelogGrammar.ParseHeader: counts the length of text in Unicode scalars, as a Dafny `string` does, where Java's `length()`, `charAt` and `subSequence` count UTF-16 code units. The date is the ten characters after "] - ", and the line is too short for it when fewer than ten remain. On a header that holds a character outside the Basic Multilingual Plane, Java counts that character twice, so it can accept a date the model refuses, or take a different date.
- ChangelogGrammar.ParseHeaderErrors: its "too short for the date" case compares scalar lengths, not Java's UTF-16 lengths, for the reason given for `ChangelogGrammar.ParseHeader`.
- ChangelogGrammar.ReleasedParts: "the ten characters after the separator" are ten Unicode scalars, where Java takes ten UTF-16 code units, for the same reason.
- Changelogs.EntryDate: the stored date is ten Unicode scalars, where Java stores ten UTF-16 code units, for the same reason.
- Changelogs.HeaderMisc: the `length() <= 1` test and `subSequence(1, …)` count Unicode scalars. A trailer that is one character outside the Basic Multilingual Plane therefore gives null here, where Java gives its lone low surrogate.
- `GitAnchorType`. The anchor type is not used in the URL, so `Blowdryer.GithubRoot` does not take it.
- The helpers in `Misc.java`, and the Gradle plugin classes that call this core, are not part of this model.
