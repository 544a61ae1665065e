/** What a run promises, stated on the two-pass description and carried
    over to the segmenter through `Correctness.SegmentIsTwoPass`. */
module Properties {
  import opened Wrappers
  import opened Text
  import opened Heading
  import opened Chapters
  import opened Scan
  import opened Segmenter
  import opened Spans
  import opened Correctness

  /** Heading `i` is the first sighting of its chapter number. */
  predicate FirstSighting(ms: seq<ChapterMatch>, i: nat)
    requires i < |ms|
  {
    forall j :: 0 <= j < i ==> ms[j].number != ms[i].number
  }

  lemma FirstSightingSnoc(ms: seq<ChapterMatch>)
    requires |ms| > 0
    ensures FirstSighting(ms, |ms| - 1) <==> ms[|ms| - 1].number !in Sighted(ms[..|ms| - 1])
  {
    var init := ms[..|ms| - 1];
    if ms[|ms| - 1].number in Sighted(init) {
      var j :| 0 <= j < |init| && init[j].number == ms[|ms| - 1].number;
      assert ms[j] == init[j];
    }
  }

  lemma FirstSightingInit(ms: seq<ChapterMatch>, i: nat)
    requires i < |ms| - 1 && FirstSighting(ms, i)
    ensures FirstSighting(ms[..|ms| - 1], i) && ms[..|ms| - 1][i] == ms[i]
  {
  }

  /** `contents` keeps, for every chapter number, the title of its first
      sighting: later sightings never overwrite it. */
  lemma {:induction false} FirstTitlesKept(ms: seq<ChapterMatch>)
    ensures KeepsFirstTitles(ms, ChapterPass(ms).contents)
    decreases |ms|
  {
    if |ms| > 0 {
      var init := ms[..|ms| - 1];
      var m := ms[|ms| - 1];
      FirstTitlesKept(init);
      ContentsAfterStep(ChapterPass(init), m);
      FirstSightingSnoc(ms);
      KeepsFirstTitlesSnoc(ms, ChapterPass(init).contents, ChapterPass(ms).contents);
    }
  }

  /** Every first sighting in `ms` has its title stored in `c`. */
  predicate KeepsFirstTitles(ms: seq<ChapterMatch>, c: map<nat, string>) {
    forall i :: 0 <= i < |ms| && FirstSighting(ms, i) ==> ms[i].number in c && c[ms[i].number] == ms[i].title
  }

  lemma KeepsFirstTitlesSnoc(ms: seq<ChapterMatch>, before: map<nat, string>, after: map<nat, string>)
    requires |ms| > 0 && KeepsFirstTitles(ms[..|ms| - 1], before)
    requires FirstSighting(ms, |ms| - 1) ==> ms[|ms| - 1].number !in before
    requires after == if ms[|ms| - 1].number in before then before else before[ms[|ms| - 1].number := ms[|ms| - 1].title]
    ensures KeepsFirstTitles(ms, after)
  {
    forall i | 0 <= i < |ms| && FirstSighting(ms, i)
      ensures ms[i].number in after && after[ms[i].number] == ms[i].title
    {
      if i < |ms| - 1 {
        FirstSightingInit(ms, i);
      }
    }
  }

  lemma ContentsAfterStep(s: State, m: ChapterMatch)
    requires s.Valid()
    ensures ChapterStep(s, m).contents == if m.number in s.contents then s.contents else s.contents[m.number := m.title]
  {
  }

  /** Every sighting but the first makes a record: the number of chapter
      records is the number of headings less the number of distinct chapter
      numbers. */
  lemma {:induction false} RepeatCount(ms: seq<ChapterMatch>)
    ensures |Repeats(ms)| + |Sighted(ms)| == |ms|
    decreases |ms|
  {
    if |ms| > 0 {
      var init := ms[..|ms| - 1];
      var m := ms[|ms| - 1];
      assert ms == init + [m];
      RepeatCount(init);
      SightedSnoc(init, m);
      if m.number in Sighted(init) {
        assert Repeats(ms) == Repeats(init) + [m];
        assert Sighted(ms) == Sighted(init);
      } else {
        assert Repeats(ms) == Repeats(init);
        assert |Sighted(ms)| == |Sighted(init)| + 1;
      }
    }
  }

  /** Records are made from headings in the order they were scanned. */
  lemma {:induction false} RepeatsAreSightings(ms: seq<ChapterMatch>)
    ensures forall x :: x in Repeats(ms) ==> exists i :: 0 <= i < |ms| && ms[i] == x && !FirstSighting(ms, i)
    ensures forall i :: 0 <= i < |ms| && !FirstSighting(ms, i) ==> ms[i] in Repeats(ms)
    decreases |ms|
  {
    if |ms| > 0 {
      var init := ms[..|ms| - 1];
      var m := ms[|ms| - 1];
      RepeatsAreSightings(init);
      FirstSightingSnoc(ms);
      forall x | x in Repeats(ms)
        ensures exists i :: 0 <= i < |ms| && ms[i] == x && !FirstSighting(ms, i)
      {
        if x in Repeats(init) {
          var i :| 0 <= i < |init| && init[i] == x && !FirstSighting(init, i);
          var j :| 0 <= j < i && init[j].number == init[i].number;
          assert ms[i] == x && ms[j] == init[j];
        } else {
          assert x == m;
        }
      }
      forall i | 0 <= i < |ms| && !FirstSighting(ms, i)
        ensures ms[i] in Repeats(ms)
      {
        if i < |init| {
          var j :| 0 <= j < i && ms[j].number == ms[i].number;
          assert ms[i] == init[i] && ms[j] == init[j];
          assert !FirstSighting(init, i);
        }
      }
    }
  }

  /** Headings scanned left to right give records in increasing title
      offset. */
  lemma {:induction false} RepeatsIncreasing(ms: seq<ChapterMatch>)
    requires forall i, j :: 0 <= i < j < |ms| ==> ms[i].start < ms[j].start
    ensures forall i, j :: 0 <= i < j < |Repeats(ms)| ==> Repeats(ms)[i].start < Repeats(ms)[j].start
    decreases |ms|
  {
    if |ms| > 0 {
      var init := ms[..|ms| - 1];
      var m := ms[|ms| - 1];
      var rs := Repeats(ms);
      var rs0 := Repeats(init);
      RepeatsIncreasing(init);
      RepeatsAreSightings(init);
      if m.number in Sighted(init) {
        assert rs == rs0 + [m];
        forall i, j | 0 <= i < j < |rs|
          ensures rs[i].start < rs[j].start
        {
          assert rs[i] == rs0[i];
          if j < |rs0| {
            assert rs[j] == rs0[j];
          } else {
            assert rs[j] == m;
            assert rs[i] in Repeats(init);
            var k :| 0 <= k < |init| && init[k] == rs[i] && !FirstSighting(init, k);
            assert ms[k] == init[k];
            assert ms[k].start < ms[|ms| - 1].start;
          }
        }
      } else {
        assert rs == rs0;
      }
    }
  }

  /** The number of chapter records a run on `doc` makes. */
  function ChapterRecordCount(doc: string): nat {
    |Repeats(ChapterMatches(doc))|
  }

  /** The `Epilogue` lines of `doc` that make a record. */
  function EpilogueRecordLines(doc: string): seq<nat> {
    EpilogueRecordStarts(ChapterMatches(doc), HeadingStarts(doc, EpilogueKind))
  }

  /** `c` is the record of the chapter heading line at its title offset:
      same number and title, body two characters past the line's end. */
  predicate ChapterRecordOf(doc: string, c: Chapter) {
    && c.titleOffset >= 0
    && HeadingAt(doc, c.titleOffset, ChapterKind)
    && c.number == MatchAt(doc, c.titleOffset).number
    && c.title == MatchAt(doc, c.titleOffset).title
    && c.textOffset == LineEnd(doc, c.titleOffset) + 2
  }

  /** `c` is the record of the `Epilogue` line at its title offset. */
  predicate EpilogueRecordOf(doc: string, c: Chapter) {
    && c.titleOffset >= 0
    && HeadingAt(doc, c.titleOffset, EpilogueKind)
    && c.number == EpilogueNumber
    && c.title == EpilogueLine
    && c.textOffset == c.titleOffset + |EpilogueLine| + 2
  }

  lemma EpilogueRecordStartsIn(ms: seq<ChapterMatch>, es: seq<nat>)
    ensures forall j :: 0 <= j < |EpilogueRecordStarts(ms, es)| ==> EpilogueRecordStarts(ms, es)[j] in es
    ensures (forall i, j :: 0 <= i < j < |es| ==> es[i] < es[j]) ==>
              (forall i, j :: 0 <= i < j < |EpilogueRecordStarts(ms, es)| ==>
                 EpilogueRecordStarts(ms, es)[i] < EpilogueRecordStarts(ms, es)[j])
  {
    var cr := EpilogueRecordStarts(ms, es);
    if cr != es {
      assert forall j :: 0 <= j < |cr| ==> cr[j] == es[j + 1];
    }
  }

  /** The records of the two-pass description, one by one: record `i < |rs|`
      is made from heading `rs[i]`, the rest from the `Epilogue` lines `cr`,
      in order. */
  lemma RecordsShape(rs: seq<ChapterMatch>, cr: seq<nat>, q: nat)
    requires |cr| > 0
    ensures |Records(rs, cr, q)| == |rs| + |cr|
    ensures forall i :: 0 <= i < |rs| ==>
              && Records(rs, cr, q)[i].number == rs[i].number
              && Records(rs, cr, q)[i].title == rs[i].title
              && Records(rs, cr, q)[i].titleOffset == rs[i].start
              && Records(rs, cr, q)[i].textOffset == rs[i].end + 2
    ensures forall i :: |rs| <= i < |rs| + |cr| ==>
              && Records(rs, cr, q)[i].number == EpilogueNumber
              && Records(rs, cr, q)[i].title == EpilogueLine
              && Records(rs, cr, q)[i].titleOffset == cr[i - |rs|]
              && Records(rs, cr, q)[i].textOffset == cr[i - |rs|] + |EpilogueLine| + 2
  {
    var cs := Records(rs, cr, q);
    var last := cr[|cr| - 1] as int - 1;
    forall i | 0 <= i < |rs|
      ensures cs[i] == ChapterSpans(rs, last)[i]
    {
    }
    forall i | |rs| <= i < |cs|
      ensures cs[i] == EpilogueSpans(cr, q - 1)[i - |rs|]
    {
    }
  }

  /** Headings in increasing order give records in increasing order. */
  lemma RecordsOrdered(rs: seq<ChapterMatch>, cr: seq<nat>, q: nat)
    requires |cr| > 0
    requires forall i, j :: 0 <= i < j < |rs| ==> rs[i].start < rs[j].start
    requires forall i, j :: 0 <= i < j < |cr| ==> cr[i] < cr[j]
    ensures forall i, j :: 0 <= i < j < |rs| ==> Records(rs, cr, q)[i].titleOffset < Records(rs, cr, q)[j].titleOffset
    ensures forall i, j :: |rs| <= i < j < |rs| + |cr| ==> Records(rs, cr, q)[i].titleOffset < Records(rs, cr, q)[j].titleOffset
  {
    RecordsShape(rs, cr, q);
  }

  /** Where the two-pass records end: each chapter record one before the
      next record's heading, the last chapter record one before the last
      Epilogue record's heading, the other Epilogue records open, and the
      last record one before `q`. */
  lemma RecordsEnds(rs: seq<ChapterMatch>, cr: seq<nat>, q: nat)
    requires |rs| > 0 && |cr| > 0
    ensures |Records(rs, cr, q)| == |rs| + |cr|
    ensures forall i :: 0 < i < |rs| ==> Records(rs, cr, q)[i - 1].endOffset == Records(rs, cr, q)[i].titleOffset - 1
    ensures Records(rs, cr, q)[|rs| - 1].endOffset == Records(rs, cr, q)[|rs| + |cr| - 1].titleOffset - 1
    ensures forall i :: |rs| <= i < |rs| + |cr| - 1 ==> Records(rs, cr, q)[i].endOffset == 0
    ensures Records(rs, cr, q)[|rs| + |cr| - 1].endOffset == q - 1
  {
    var cs := Records(rs, cr, q);
    var last := cr[|cr| - 1] as int - 1;
    forall i | 0 <= i < |rs|
      ensures cs[i] == ChapterSpans(rs, last)[i]
    {
    }
    forall i | |rs| <= i < |cs|
      ensures cs[i] == EpilogueSpans(cr, q - 1)[i - |rs|]
    {
    }
  }

  /** A successful run yields the two-pass records of its document. */
  lemma SegmentSucceeds(doc: string, cs: seq<Chapter>)
    requires Segment(doc) == Success(cs)
    ensures ChapterRecordCount(doc) > 0 && |EpilogueRecordLines(doc)| > 0 && Find(doc, EndMarker).Some?
    ensures cs == Records(Repeats(ChapterMatches(doc)), EpilogueRecordLines(doc), Find(doc, EndMarker).value)
  {
    SegmentIsTwoPass(doc);
  }

  /** A chapter heading `m` as matched in `doc`. */
  predicate IsMatchOf(doc: string, m: ChapterMatch) {
    HeadingAt(doc, m.start, ChapterKind) && m == MatchAt(doc, m.start)
  }

  /** Every heading that makes a record is a heading matched in `doc`, and
      every `Epilogue` line that makes a record is an `Epilogue` line. */
  lemma RecordSourcesIn(doc: string)
    ensures forall i :: 0 <= i < ChapterRecordCount(doc) ==> IsMatchOf(doc, Repeats(ChapterMatches(doc))[i])
    ensures forall j :: 0 <= j < |EpilogueRecordLines(doc)| ==> HeadingAt(doc, EpilogueRecordLines(doc)[j], EpilogueKind)
    ensures forall i, j :: 0 <= i < j < ChapterRecordCount(doc) ==>
              Repeats(ChapterMatches(doc))[i].start < Repeats(ChapterMatches(doc))[j].start
    ensures forall i, j :: 0 <= i < j < |EpilogueRecordLines(doc)| ==>
              EpilogueRecordLines(doc)[i] < EpilogueRecordLines(doc)[j]
  {
    var ms := ChapterMatches(doc);
    var es := HeadingStarts(doc, EpilogueKind);
    var rs := Repeats(ms);
    ChapterMatchesSpec(doc);
    HeadingStartsSpec(doc, EpilogueKind);
    RepeatsAreSightings(ms);
    RepeatsIncreasing(ms);
    EpilogueRecordStartsIn(ms, es);
    forall i | 0 <= i < |rs|
      ensures IsMatchOf(doc, rs[i])
    {
      assert rs[i] in rs;
      var k :| 0 <= k < |ms| && ms[k] == rs[i] && !FirstSighting(ms, k);
    }
  }

  /** The two-pass records of matched headings are records of those
      headings. */
  lemma RecordsOf(doc: string, rs: seq<ChapterMatch>, cr: seq<nat>, q: nat)
    requires |cr| > 0
    requires forall i :: 0 <= i < |rs| ==> IsMatchOf(doc, rs[i])
    requires forall j :: 0 <= j < |cr| ==> HeadingAt(doc, cr[j], EpilogueKind)
    ensures forall i :: 0 <= i < |rs| ==> ChapterRecordOf(doc, Records(rs, cr, q)[i])
    ensures forall i :: |rs| <= i < |rs| + |cr| ==> EpilogueRecordOf(doc, Records(rs, cr, q)[i])
  {
    RecordsShape(rs, cr, q);
  }

  /** A successful run on `doc` makes at least one chapter record and at
      least one Epilogue record; the chapter records come first and each is
      the record of a chapter heading line of `doc`, then each Epilogue
      record is the record of an `Epilogue` line. */
  lemma SegmentRecords(doc: string, cs: seq<Chapter>)
    requires Segment(doc) == Success(cs)
    ensures 0 < ChapterRecordCount(doc) < |cs|
    ensures |cs| == ChapterRecordCount(doc) + |EpilogueRecordLines(doc)|
    ensures forall i :: 0 <= i < ChapterRecordCount(doc) ==> ChapterRecordOf(doc, cs[i])
    ensures forall i :: ChapterRecordCount(doc) <= i < |cs| ==> EpilogueRecordOf(doc, cs[i])
  {
    var rs := Repeats(ChapterMatches(doc));
    var cr := EpilogueRecordLines(doc);
    var q := Find(doc, EndMarker).value;
    SegmentSucceeds(doc, cs);
    RecordSourcesIn(doc);
    RecordsShape(rs, cr, q);
    RecordsOf(doc, rs, cr, q);
  }

  /** Where the records of a successful run end: each chapter record one
      character before the next chapter record's heading, the last chapter
      record one before the last Epilogue record's heading, every Epilogue
      record but the last still open, and the last one character before
      the first end marker of the document. */
  lemma SegmentEnds(doc: string, cs: seq<Chapter>)
    requires Segment(doc) == Success(cs)
    ensures 0 < ChapterRecordCount(doc) < |cs|
    ensures forall i :: 0 < i < ChapterRecordCount(doc) ==> cs[i - 1].endOffset == cs[i].titleOffset - 1
    ensures cs[ChapterRecordCount(doc) - 1].endOffset == cs[|cs| - 1].titleOffset - 1
    ensures forall i :: ChapterRecordCount(doc) <= i < |cs| - 1 ==> cs[i].endOffset == 0
    ensures cs[|cs| - 1].endOffset + 1 >= 0
    ensures OccursAt(doc, EndMarker, cs[|cs| - 1].endOffset + 1)
    ensures forall p :: 0 <= p < cs[|cs| - 1].endOffset + 1 ==> !OccursAt(doc, EndMarker, p)
  {
    var rs := Repeats(ChapterMatches(doc));
    var cr := EpilogueRecordLines(doc);
    var q := Find(doc, EndMarker).value;
    SegmentSucceeds(doc, cs);
    RecordsEnds(rs, cr, q);
    assert OccursAt(doc, EndMarker, q);
  }

  /** The chapter records, and likewise the Epilogue records, appear in
      strictly increasing order of their headings in the document. Nothing
      is promised across the two kinds: the list holds every chapter record
      before every Epilogue record, whatever their offsets. */
  lemma SegmentOrdered(doc: string, cs: seq<Chapter>)
    requires Segment(doc) == Success(cs)
    ensures ChapterRecordCount(doc) < |cs|
    ensures forall i, j :: 0 <= i < j < ChapterRecordCount(doc) ==> cs[i].titleOffset < cs[j].titleOffset
    ensures forall i, j :: ChapterRecordCount(doc) <= i < j < |cs| ==> cs[i].titleOffset < cs[j].titleOffset
  {
    var rs := Repeats(ChapterMatches(doc));
    var cr := EpilogueRecordLines(doc);
    var q := Find(doc, EndMarker).value;
    SegmentSucceeds(doc, cs);
    RecordSourcesIn(doc);
    RecordsShape(rs, cr, q);
    RecordsOrdered(rs, cr, q);
  }

  /** When the fold fails, and why: an Epilogue record with no chapter
      record before it, then a missing end marker, then a missing Epilogue
      record; it succeeds in every other case. */
  lemma RunFailures(ms: seq<ChapterMatch>, es: seq<nat>, marker: Option<nat>)
    ensures Run(ms, es, marker) == Failure(NoPreviousChapter)
        <==> |EpilogueRecordStarts(ms, es)| > 0 && |Repeats(ms)| == 0
    ensures Run(ms, es, marker) == Failure(NoEndMarker)
        <==> !(|EpilogueRecordStarts(ms, es)| > 0 && |Repeats(ms)| == 0) && marker.None?
    ensures Run(ms, es, marker) == Failure(NoEpilogue)
        <==> |EpilogueRecordStarts(ms, es)| == 0 && marker.Some?
    ensures Run(ms, es, marker).Success?
        <==> |EpilogueRecordStarts(ms, es)| > 0 && |Repeats(ms)| > 0 && marker.Some?
  {
    RunIsExpected(ms, es, marker);
  }

  /** When a run fails, and why: an Epilogue record with no chapter record
      before it, then a missing end marker, then a missing Epilogue record. */
  lemma SegmentFailures(doc: string)
    ensures Segment(doc) == Failure(NoPreviousChapter)
        <==> |EpilogueRecordLines(doc)| > 0 && ChapterRecordCount(doc) == 0
    ensures Segment(doc) == Failure(NoEndMarker)
        <==> !(|EpilogueRecordLines(doc)| > 0 && ChapterRecordCount(doc) == 0)
             && forall p :: !OccursAt(doc, EndMarker, p)
    ensures Segment(doc) == Failure(NoEpilogue)
        <==> |EpilogueRecordLines(doc)| == 0 && exists p :: OccursAt(doc, EndMarker, p)
  {
    RunFailures(ChapterMatches(doc), HeadingStarts(doc, EpilogueKind), Find(doc, EndMarker));
    var f := Find(doc, EndMarker);
    if f.Some? {
      assert OccursAt(doc, EndMarker, f.value);
    }
  }
}
