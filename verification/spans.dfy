/** An independent two-pass description of the records the segmenter
    produces: first pick out the headings that make records, then give each
    record the span that reaches one character short of the next heading,
    with the final record closed at the end-of-book marker. */
module Spans {
  import opened Wrappers
  import opened Text
  import opened Heading
  import opened Chapters
  import opened Scan
  import opened Segmenter

  /** The chapter headings that make a record: every sighting of a number
      that was already sighted earlier. */
  function Repeats(ms: seq<ChapterMatch>): seq<ChapterMatch>
    decreases |ms|
  {
    if |ms| == 0 then []
    else
      var init := ms[..|ms| - 1];
      var m := ms[|ms| - 1];
      Repeats(init) + (if m.number in Sighted(init) then [m] else [])
  }

  /** The `Epilogue` lines that make a record: all of them when key 136 was
      already taken by a chapter heading, otherwise all but the first. */
  function EpilogueRecordStarts(ms: seq<ChapterMatch>, es: seq<nat>): seq<nat> {
    if EpilogueNumber in Sighted(ms) || |es| == 0 then es else es[1..]
  }

  /** Chapter records for the headings `rs`, each closed one character
      before the next, the last one at `last`. */
  function ChapterSpans(rs: seq<ChapterMatch>, last: int): (cs: seq<Chapter>)
    ensures |cs| == |rs|
  {
    seq(|rs|, i requires 0 <= i < |rs| =>
      Open(rs[i].number, rs[i].title, rs[i].start, rs[i].end).(endOffset := if i + 1 < |rs| then rs[i + 1].start - 1 else last))
  }

  /** Epilogue records for the lines at `es`: all still open except the
      last, which is closed at `last`. */
  function EpilogueSpans(es: seq<nat>, last: int): (cs: seq<Chapter>)
    ensures |cs| == |es|
  {
    seq(|es|, j requires 0 <= j < |es| =>
      Open(EpilogueNumber, EpilogueLine, es[j], es[j] + |EpilogueLine|).(endOffset := if j + 1 < |es| then 0 else last))
  }

  /** All records when the chapter headings `rs` and the `Epilogue` lines
      `cr` make records and the first end marker is at `q`. */
  function Records(rs: seq<ChapterMatch>, cr: seq<nat>, q: nat): seq<Chapter>
    requires |cr| > 0
  {
    ChapterSpans(rs, cr[|cr| - 1] as int - 1) + EpilogueSpans(cr, q - 1)
  }

  /** The records for chapter headings `ms`, `Epilogue` lines at `es` and
      first end marker `marker`, or the reason there are none. */
  function Expected(ms: seq<ChapterMatch>, es: seq<nat>, marker: Option<nat>): Result<seq<Chapter>, Error> {
    var rs := Repeats(ms);
    var eps := EpilogueRecordStarts(ms, es);
    if |eps| > 0 && |rs| == 0 then Failure(NoPreviousChapter)
    else
      match marker
      case None => Failure(NoEndMarker)
      case Some(q) =>
        if |eps| == 0 then Failure(NoEpilogue)
        else Success(Records(rs, eps, q))
  }

  /** The records of document `doc`, or the reason there are none. */
  function TwoPass(doc: string): Result<seq<Chapter>, Error> {
    Expected(ChapterMatches(doc), HeadingStarts(doc, EpilogueKind), Find(doc, EndMarker))
  }
}
