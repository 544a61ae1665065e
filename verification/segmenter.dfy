/** The segmenter of `split-pg2701-txt.py`, step for step: a left fold over the chapter
    headings that fills the `contents` map on a first sighting and appends a
    record on every later one, back-filling the previous record's end; then
    the same fold over the `Epilogue` lines under the fixed key 136; then
    the end of the last record at the end-of-book marker. */
module Segmenter {
  import opened Wrappers
  import opened Text
  import opened Heading
  import opened Chapters
  import opened Scan

  /** The `contents` key and record number used for the Epilogue. */
  const EpilogueNumber: nat := 136

  /** The end-of-book marker of the plain-text edition. */
  const EndMarker: string := "*** END"

  /** The ways a run fails. Each is a use of a missing object in
      `split_moby_dick`: the previous chapter when an Epilogue record is made, the end
      marker's match, and the Epilogue record itself. */
  datatype Error = NoPreviousChapter | NoEndMarker | NoEpilogue

  /** The fold state: the `contents` map, the records so far, the index of
      the previous chapter record and the index of the Epilogue record. */
  datatype State = State(contents: map<nat, string>, chapters: seq<Chapter>, prev: Option<nat>, epilogue: Option<nat>) {
    predicate Valid() {
      && (prev.Some? ==> prev.value < |chapters|)
      && (epilogue.Some? ==> epilogue.value < |chapters|)
    }

    /** The Epilogue record, when there is one, is the last record. */
    predicate EpilogueIsLast() {
      epilogue.Some? ==>
        && epilogue.value == |chapters| - 1
        && chapters[epilogue.value].number == EpilogueNumber
        && chapters[epilogue.value].title == EpilogueLine
    }
  }

  const Initial: State := State(map[], [], None, None)

  /** Record `i`, when there is one, closed at `endOffset`. */
  function CloseAt(cs: seq<Chapter>, i: Option<nat>, endOffset: int): seq<Chapter>
    requires i.Some? ==> i.value < |cs|
  {
    if i.Some? then cs[i.value := cs[i.value].(endOffset := endOffset)] else cs
  }

  /** One iteration of the chapter loop. A first sighting of a number
      stores its title and changes no record. A later sighting keeps
      `contents` unchanged, appends an open record whose title offset is the
      heading's start and whose text offset is two past the heading line's
      end, sets the previous record's end to one before the new heading,
      leaves every other record alone and makes the new record the previous
      one. */
  function ChapterStep(s: State, m: ChapterMatch): (r: State)
    requires s.Valid()
    ensures r.Valid() && r.epilogue == s.epilogue
    ensures r.contents.Keys == s.contents.Keys + {m.number}
    ensures m.number !in s.contents ==>
              r.contents[m.number] == m.title && r.chapters == s.chapters && r.prev == s.prev
    ensures m.number in s.contents ==>
              && r.contents == s.contents
              && |r.chapters| == |s.chapters| + 1
              && r.chapters[|s.chapters|] == Chapter(m.number, m.title, m.start, m.end + 2, 0)
              && r.prev == Some(|s.chapters|)
              && (forall j :: 0 <= j < |s.chapters| && s.prev != Some(j) ==> r.chapters[j] == s.chapters[j])
              && (s.prev.Some? ==> r.chapters[s.prev.value] == s.chapters[s.prev.value].(endOffset := m.start - 1))
  {
    if m.number !in s.contents then
      s.(contents := s.contents[m.number := m.title])
    else
      var ch := Open(m.number, m.title, m.start, m.end);
      s.(chapters := CloseAt(s.chapters, s.prev, ch.titleOffset - 1) + [ch], prev := Some(|s.chapters|))
  }

  /** The chapter loop over the headings `ms`, in order. */
  function ChapterPass(ms: seq<ChapterMatch>): (s: State)
    ensures s.Valid() && s.epilogue.None?
    ensures s.contents.Keys == Sighted(ms)
    decreases |ms|
  {
    if |ms| == 0 then Initial
    else
      var init := ms[..|ms| - 1];
      assert ms == init + [ms[|ms| - 1]];
      SightedSnoc(init, ms[|ms| - 1]);
      ChapterStep(ChapterPass(init), ms[|ms| - 1])
  }

  /** After the chapter loop the previous chapter is the last record the
      loop made, and there is none when it made no record. */
  lemma {:induction false} PrevIsLastRecord(ms: seq<ChapterMatch>)
    ensures ChapterPass(ms).prev.None? <==> |ChapterPass(ms).chapters| == 0
    ensures ChapterPass(ms).prev.Some? ==> ChapterPass(ms).prev.value == |ChapterPass(ms).chapters| - 1
    decreases |ms|
  {
    if |ms| > 0 {
      PrevIsLastRecord(ms[..|ms| - 1]);
    }
  }

  /** One iteration of the Epilogue loop for an `Epilogue` line at `p`. It
      fails exactly when key 136 is already taken and there is no previous
      chapter record. Otherwise the first sighting of key 136 only stores
      it, and a later line appends an open Epilogue record at offsets `p`
      and `p + 10`, makes it the Epilogue record, ends the previous chapter
      record one before it and leaves every other record alone; the
      previous chapter stays where it is. */
  function EpilogueStep(s: State, p: nat): (r: Result<State, Error>)
    requires s.Valid()
    ensures r.Failure? <==> EpilogueNumber in s.contents && s.prev.None?
    ensures r.Failure? ==> r.error == NoPreviousChapter
    ensures r.Success? ==> r.value.Valid() && r.value.prev == s.prev
    ensures r.Success? ==> r.value.contents.Keys == s.contents.Keys + {EpilogueNumber}
    ensures r.Success? && EpilogueNumber !in s.contents ==>
              && r.value.contents[EpilogueNumber] == EpilogueLine
              && r.value.chapters == s.chapters
              && r.value.epilogue == s.epilogue
    ensures r.Success? && EpilogueNumber in s.contents ==>
              && r.value.contents == s.contents
              && |r.value.chapters| == |s.chapters| + 1
              && r.value.chapters[|s.chapters|] == Chapter(EpilogueNumber, EpilogueLine, p, p + |EpilogueLine| + 2, 0)
              && r.value.epilogue == Some(|s.chapters|)
              && r.value.chapters[s.prev.value] == s.chapters[s.prev.value].(endOffset := p - 1)
              && (forall j :: 0 <= j < |s.chapters| && s.prev != Some(j) ==> r.value.chapters[j] == s.chapters[j])
  {
    if EpilogueNumber !in s.contents then
      Success(s.(contents := s.contents[EpilogueNumber := EpilogueLine]))
    else if s.prev.None? then
      Failure(NoPreviousChapter)
    else
      var ep := Open(EpilogueNumber, EpilogueLine, p, p + |EpilogueLine|);
      Success(s.(chapters := CloseAt(s.chapters, s.prev, ep.titleOffset - 1) + [ep], epilogue := Some(|s.chapters|)))
  }

  /** The Epilogue loop over the `Epilogue` lines at `ps`, in order. */
  function EpiloguePass(s: State, ps: seq<nat>): (r: Result<State, Error>)
    requires s.Valid()
    ensures r.Success? ==> r.value.Valid() && r.value.prev == s.prev
    ensures r.Failure? ==> r.error == NoPreviousChapter && s.prev.None?
    ensures r.Success? && s.EpilogueIsLast() ==> r.value.EpilogueIsLast()
    ensures r.Success? && |ps| == 0 ==> r.value == s
    decreases |ps|
  {
    if |ps| == 0 then Success(s)
    else
      var t :- EpiloguePass(s, ps[..|ps| - 1]);
      EpilogueStep(t, ps[|ps| - 1])
  }

  /** The last statement of the run: the Epilogue record ends one before
      the first end marker, and no other record changes. A missing marker
      is reported before a missing Epilogue record, because the marker's
      offset is computed before the record is updated. */
  function Finish(s: State, marker: Option<nat>): (r: Result<seq<Chapter>, Error>)
    requires s.Valid()
    ensures marker.None? ==> r == Failure(NoEndMarker)
    ensures marker.Some? && s.epilogue.None? ==> r == Failure(NoEpilogue)
    ensures marker.Some? && s.epilogue.Some? ==>
              && r.Success? && |r.value| == |s.chapters|
              && r.value[s.epilogue.value] == s.chapters[s.epilogue.value].(endOffset := marker.value - 1)
              && (forall i :: 0 <= i < |s.chapters| && i != s.epilogue.value ==> r.value[i] == s.chapters[i])
  {
    match marker
    case None => Failure(NoEndMarker)
    case Some(q) =>
      match s.epilogue
      case None => Failure(NoEpilogue)
      case Some(e) => Success(s.chapters[e := s.chapters[e].(endOffset := q - 1)])
  }

  /** The run on chapter headings `ms`, `Epilogue` lines at `es` and the
      first end marker at `marker`: the list of records, or the reason the
      run fails. */
  function Run(ms: seq<ChapterMatch>, es: seq<nat>, marker: Option<nat>): Result<seq<Chapter>, Error> {
    var s :- EpiloguePass(ChapterPass(ms), es);
    Finish(s, marker)
  }

  /** A run cannot succeed without a marker or an `Epilogue` line; it fails
      for want of a previous chapter only when the chapter loop made no
      record; and a successful run ends with the Epilogue record, closed
      one before the marker. */
  lemma RunShape(ms: seq<ChapterMatch>, es: seq<nat>, marker: Option<nat>)
    ensures marker.None? ==> Run(ms, es, marker).Failure?
    ensures |es| == 0 ==> Run(ms, es, marker).Failure?
    ensures Run(ms, es, marker) == Failure(NoPreviousChapter) ==> |ChapterPass(ms).chapters| == 0
    ensures Run(ms, es, marker).Success? ==>
              && |Run(ms, es, marker).value| > 0
              && Run(ms, es, marker).value[|Run(ms, es, marker).value| - 1].number == EpilogueNumber
              && Run(ms, es, marker).value[|Run(ms, es, marker).value| - 1].title == EpilogueLine
              && Run(ms, es, marker).value[|Run(ms, es, marker).value| - 1].endOffset == marker.value - 1
  {
    PrevIsLastRecord(ms);
  }

  /** The whole run on document `doc`. */
  function Segment(doc: string): Result<seq<Chapter>, Error> {
    Run(ChapterMatches(doc), HeadingStarts(doc, EpilogueKind), Find(doc, EndMarker))
  }

  /** A run on a document fails when the document has no end marker or no
      `Epilogue` line; when it succeeds the last record is the Epilogue
      record, ending one before the first end marker. */
  lemma SegmentShape(doc: string)
    ensures (forall p :: !OccursAt(doc, EndMarker, p)) ==> Segment(doc).Failure?
    ensures (forall p :: !HeadingAt(doc, p, EpilogueKind)) ==> Segment(doc).Failure?
    ensures Segment(doc).Success? ==> SuccessEndsAtMarker(doc, Segment(doc).value)
  {
    FirstHeading(doc, EpilogueKind);
    RunOnDocument(doc, ChapterMatches(doc), HeadingStarts(doc, EpilogueKind));
  }

  /** `cs` ends with the Epilogue record, closed one before the first end
      marker of `doc`. */
  predicate SuccessEndsAtMarker(doc: string, cs: seq<Chapter>) {
    && |cs| > 0
    && cs[|cs| - 1].number == EpilogueNumber
    && cs[|cs| - 1].endOffset + 1 >= 0
    && OccursAt(doc, EndMarker, cs[|cs| - 1].endOffset + 1)
    && (forall p :: 0 <= p <= cs[|cs| - 1].endOffset ==> !OccursAt(doc, EndMarker, p))
  }

  /** What `Run` promises, read against the document the marker and the
      `Epilogue` lines come from. */
  lemma RunOnDocument(doc: string, ms: seq<ChapterMatch>, es: seq<nat>)
    requires |es| > 0 ==> HeadingAt(doc, es[0], EpilogueKind)
    ensures (forall p :: !OccursAt(doc, EndMarker, p)) ==> Run(ms, es, Find(doc, EndMarker)).Failure?
    ensures (forall p :: !HeadingAt(doc, p, EpilogueKind)) ==> Run(ms, es, Find(doc, EndMarker)).Failure?
    ensures Run(ms, es, Find(doc, EndMarker)).Success? ==> SuccessEndsAtMarker(doc, Run(ms, es, Find(doc, EndMarker)).value)
  {
    var marker := Find(doc, EndMarker);
    RunShape(ms, es, marker);
    if marker.Some? {
      assert OccursAt(doc, EndMarker, marker.value);
    }
    if |es| > 0 {
      assert HeadingAt(doc, es[0], EpilogueKind);
    }
  }
}
