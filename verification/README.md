# Moby-Dick chapter segmenter, in Dafny

This project models `split_moby_dick` from `split-pg2701-txt.py`. The script
reads the Project Gutenberg plain-text edition of *Moby-Dick* and cuts it
into chapter records. Each record holds a number, a title, the offset of its
heading line, the offset of its body text and the offset where the body ends.

The model has three parts.

- **Recognising headings.** The multi-line chapter pattern becomes a line
  splitter plus a per-line parser. The line splitter plays the part of `^`
  and `$` under `re.MULTILINE`: the lines are the pieces of the text between
  newlines.
  - A chapter heading is a whole line of the form `CHAPTER <digits>. <title><t>`,
    where `<t>` is `.`, `!` or `?`.
  - The recorded title keeps a `!` or `?` and drops a `.`.
  - An Epilogue heading is a line that is exactly `Epilogue`.
  - The end of the book is the first occurrence of `*** END`.
- **The two loops, as left folds.** Both loops share the `contents` map.
  - In the chapter loop, the first sighting of a number stores its title.
    Every later sighting appends a record and ends the previous record one
    character before the new heading.
  - The Epilogue loop does the same under the fixed key 136.
  - The last statement ends the Epilogue record one character before the
    end marker.
- **The arithmetic of a record.** This covers its length and its text slice
  (`__len__` and `guts`).

The run returns either the list of records or the reason the script would
crash. Line 85 uses a previous chapter that was never set, which gives
`NoPreviousChapter`. Line 91 calls `start()` on a failed search, which gives
`NoEndMarker`. Line 91 also uses an Epilogue record that was never made,
which gives `NoEpilogue`.

The fold is proved equal to an independent two-pass description,
`Spans.Expected`:

1. Pick out every heading sighting that is not the first of its number,
   and the Epilogue lines that make records.
2. Give each record the span that reaches one character short of the next
   record's heading.

The properties of a run are proved on that description and carried over to
the fold.

Modules, in dependency order:

| module | file | contents |
|---|---|---|
| `Wrappers` | `wrappers.dfy` | `Option` and `Result` |
| `Text` | `text.dfy` | line splitting, substring search, Python slices |
| `Heading` | `heading.dfy` | the chapter-heading line parser |
| `Chapters` | `chapters.dfy` | the record, its length and its text |
| `Scan` | `scan.dfy` | heading lines of a document, as `finditer` yields them |
| `Segmenter` | `segmenter.dfy` | the two loops and the closing statement |
| `Spans` | `spans.dfy` | the two-pass reference description |
| `Correctness` | `correctness.dfy` | the fold equals the reference |
| `Properties` | `properties.dfy` | what a run promises |

Some consequences of the code that a reader might not expect:

- There is no pass for the `ETYMOLOGY` or `EXTRACTS` front matter. Only
  `CHAPTER` headings and `Epilogue` lines make records.
- Every sighting of a chapter number after the first appends a record, not
  just the second. The `contents` entry stored at the first sighting is
  never removed. The same holds for `Epilogue` lines under key 136.
- The list holds all chapter records first, then all Epilogue records,
  whatever their offsets. Title offsets therefore increase within each kind
  but need not increase across the boundary between them.
- With more than two `Epilogue` lines:
  - the earlier Epilogue records keep end offset 0;
  - the previous-chapter reference never moves during the Epilogue loop, so
    the last chapter record ends one before the *last* `Epilogue` line.
- An `Epilogue` line that makes a record when no chapter record exists
  crashes at line 85.

## Model

| member | source | states |
|---|---|---|
| `Chapters.Length` | split-pg2701-txt.py:25-28 | The length is positive exactly when the end offset lies past the text offset, and then text offset plus length is the end offset. |
| `Chapters.Guts` | split-pg2701-txt.py:33-36 | A record of length 0 has empty text. A record with offsets inside the document has text of exactly its length, equal to the document between its text and end offsets. The text is never longer than the length. |
| `Chapters.Open` | split-pg2701-txt.py:65-68 | A newly made record is open: its length is 0 until it is closed. |
| `Chapters.OpenHasNoText` | split-pg2701-txt.py:23-36 | The text of an open record is empty in every document. |
| `Text.PySlice` | split-pg2701-txt.py:35 | A Python slice is never longer than the sequence or than `b - a`, and equals `s[a..b]` when `0 <= a <= b <= len(s)`. |
| `Text.LinesSpec` | split-pg2701-txt.py:48-49 | The split lines are whole lines of the document, separated by single newlines, in strictly increasing order. Every position where a line begins starts one of them. |
| `Text.JoinLines` | split-pg2701-txt.py:49 | Joining the split lines with newlines gives back the document: splitting loses nothing. |
| `Text.FindFrom` | split-pg2701-txt.py:89-90 | The search returns an occurrence of the pattern with no earlier occurrence at or after the start, or it returns nothing and there is no occurrence. |
| `Heading.ParseChapterLine` | split-pg2701-txt.py:48 | A recognised line is the rendering of a valid heading: `CHAPTER `, one or more digits, `. `, a title of at least one character with no newline, then a terminator. |
| `Heading.ParseRender` | split-pg2701-txt.py:48 | Every rendering of a valid heading is recognised, with all three groups intact. |
| `Heading.TitleOfLine` | split-pg2701-txt.py:55-58 | The recorded title is the whole text after `CHAPTER N. ` with a closing `.` dropped, or with a closing `!` or `?` kept as its last character. It is never empty. |
| `Heading.LeadingZero` | split-pg2701-txt.py:54 | A leading zero does not change the number `int()` reads, so `CHAPTER 01.` and `CHAPTER 1.` sight the same chapter. |
| `Heading.PeriodDropped` | split-pg2701-txt.py:55-58 | `CHAPTER 1. Loomings.` parses to number 1 and title `Loomings`. |
| `Heading.QuestionKept` | split-pg2701-txt.py:54-58 | `CHAPTER 12. Ahoy?` parses to number 12 and title `Ahoy?`. |
| `Heading.NotHeadings` | split-pg2701-txt.py:48 | Lines without a terminator, without digits, or without `. ` after the number are not headings. |
| `Scan.HeadingStartsSpec` | split-pg2701-txt.py:49-53 | The heading starts are exactly the offsets where a heading line begins, with none missed, in strictly increasing order. |
| `Scan.ChapterMatchesSpec` | split-pg2701-txt.py:53-58 | Every chapter match is the parse of the heading line at its start. Every heading line is matched. Matches come in document order. |
| `Scan.ChapterMatches` | split-pg2701-txt.py:53 | There is one match per chapter heading start, and the i-th match starts at the i-th heading start. |
| `Scan.MatchAt` | split-pg2701-txt.py:53-55 | A match starts at its heading line and ends at that line's newline or at the end of the document. |
| `Scan.MatchAtParses` | split-pg2701-txt.py:53-58 | The text a match spans is the rendering of a well-formed heading, and the match records that heading's number and title. |
| `Segmenter.ChapterStep` | split-pg2701-txt.py:62-72 | One chapter iteration adds the heading's number to the keys of `contents` and never touches the Epilogue record. A first sighting stores its title and changes no record. A later sighting: leaves `contents` alone; appends an open record at the heading's start with text two past the line's end; ends the previous record one before the heading; changes no other record; makes the new record the previous one. |
| `Segmenter.ChapterPass` | split-pg2701-txt.py:50-53 | After the chapter loop the keys of `contents` are exactly the chapter numbers sighted, and there is no Epilogue record. |
| `Segmenter.PrevIsLastRecord` | split-pg2701-txt.py:52-72 | After the chapter loop `prev_chapter` is the last record appended, and it is `None` exactly when no record was made. |
| `Segmenter.EpilogueStep` | split-pg2701-txt.py:78-86 | An Epilogue iteration fails with `NoPreviousChapter` exactly when key 136 is taken and no chapter record exists. Otherwise: it adds 136 to the keys; it never moves the previous chapter. The first sighting of key 136 only stores it. A later `Epilogue` line: appends an open record at the line with text ten past it; makes that record the Epilogue record; ends the previous chapter one before the line; changes no other record. |
| `Segmenter.EpiloguePass` | split-pg2701-txt.py:77-86 | A successful Epilogue loop keeps the state well formed and never moves the previous chapter. |
| `Segmenter.Finish` | split-pg2701-txt.py:89-91 | With no marker the run fails with `NoEndMarker`. With a marker and no Epilogue record it fails with `NoEpilogue`. Otherwise the Epilogue record ends one before the marker and no other record changes. |
| `Segmenter.RunShape` | split-pg2701-txt.py:50-91 | `Run` fails without a marker and without `Epilogue` lines. It fails with `NoPreviousChapter` only when the chapter loop made no record. A successful run ends with the Epilogue record, closed one before the marker. |
| `Segmenter.SegmentShape` | split-pg2701-txt.py:38-91 | `Segment`, the run on a document, fails when the document has no `*** END` or no `Epilogue` line. When it succeeds the last record is the Epilogue record, ending one before the first `*** END`. |
| `Correctness.ChapterPassIsSpans` | split-pg2701-txt.py:53-72 | After the chapter loop the records are the reference chapter spans of the repeat sightings. The previous chapter is the last of them. |
| `Correctness.EpiloguePassSpec` | split-pg2701-txt.py:77-86 | The Epilogue loop fails exactly when an Epilogue line makes a record and there is no chapter record. Otherwise: it adds the reference Epilogue records; it ends the previous chapter one before the last of them; it marks the last one as the Epilogue record. |
| `Correctness.RunIsExpected` | split-pg2701-txt.py:50-91 | The fold, on any headings, Epilogue lines and marker, gives the same records or the same failure as the two-pass reference. |
| `Correctness.SegmentIsTwoPass` | split-pg2701-txt.py:48-91 | The whole run on a document equals the two-pass reference on that document. |
| `Properties.FirstTitlesKept` | split-pg2701-txt.py:62-63 | For every chapter number, `contents` holds the title of its first sighting. Later sightings never overwrite it. |
| `Properties.RepeatCount` | split-pg2701-txt.py:60-72 | The number of chapter records is the number of headings less the number of distinct chapter numbers. |
| `Properties.RepeatsAreSightings` | split-pg2701-txt.py:62-71 | A heading makes a record if and only if it is not the first sighting of its number. |
| `Properties.RepeatsIncreasing` | split-pg2701-txt.py:53-71 | Headings in document order give records in document order. |
| `Properties.SegmentRecords` | split-pg2701-txt.py:65-86 | A successful run has at least one chapter record and at least one Epilogue record. The chapter records come first, each the record of a chapter heading line: same number and title, text two past the line's end. Each Epilogue record is the record of an `Epilogue` line. |
| `Properties.SegmentEnds` | split-pg2701-txt.py:69-91 | In a successful run: each chapter record ends one before the next chapter record's heading; the last chapter record ends one before the last Epilogue heading; every other Epilogue record stays open; the last record ends one before the first `*** END` in the document. |
| `Properties.SegmentOrdered` | split-pg2701-txt.py:53-86 | In a successful run, chapter records appear in strictly increasing order of their heading offsets, and so do Epilogue records. Order across the two kinds is not promised, because all chapter records come before all Epilogue records whatever their offsets. |
| `Properties.RunFailures` | split-pg2701-txt.py:77-91 | The fold fails with `NoPreviousChapter` exactly when an Epilogue line makes a record and no heading does. Otherwise it fails with `NoEndMarker` exactly when there is no marker. It fails with `NoEpilogue` exactly when there is a marker and no Epilogue line makes a record. It succeeds exactly when both kinds of record exist and there is a marker. |
| `Properties.SegmentFailures` | split-pg2701-txt.py:85-91 | A run fails with `NoPreviousChapter` exactly when an Epilogue line makes a record before any chapter record. Otherwise it fails with `NoEndMarker` exactly when the document has no `*** END`. Otherwise it fails with `NoEpilogue` exactly when no Epilogue line makes a record. |

## Left out

- Reading the file (lines 41-42) and the `__main__` entry point (lines 99-100). The document is a parameter of `Segmenter.Segment`. The global `MOBY_STR` becomes the `doc` parameter of `Chapters.Guts`.
- Printing: the banner (line 43), `__repr__` (lines 30-31) and the debug listing (lines 93-97). The script prints the records and returns nothing. The model returns them instead.
- The `re` engine. Each pattern is modelled by what it matches on a line of text. Only `\n` ends a line, as in Python's `MULTILINE` mode.
- Heading.ParseChapterLine: Python's `\d` also matches non-ASCII decimal digits, and `int()` reads them. The model accepts ASCII digits only.
- A crash is a `Result` failure rather than an exception. Which Python exception would be raised is not modelled.
- `Chapter.end_offset` defaults to 0 (line 23). It is modelled as `Chapters.Open` with end offset 0.
- Heading.ParseChapterLine: `int()` at line 54 raises `ValueError` for a numeral longer than CPython's integer-string conversion limit (4300 digits by default since 3.11). The model reads numerals of any length and has no failure for this case, because the limit is an interpreter setting rather than part of the script.
