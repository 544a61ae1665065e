/** The fold of `Segmenter` computes exactly the two-pass description. */
module Correctness {
  import opened Wrappers
  import opened Text
  import opened Heading
  import opened Chapters
  import opened Scan
  import opened Segmenter
  import opened Spans

  lemma ChapterSpansSnoc(rs: seq<ChapterMatch>, m: ChapterMatch, last: int)
    ensures ChapterSpans(rs + [m], last)
         == ChapterSpans(rs, m.start - 1) + [Open(m.number, m.title, m.start, m.end).(endOffset := last)]
  {
    var a := ChapterSpans(rs + [m], last);
    var b := ChapterSpans(rs, m.start - 1) + [Open(m.number, m.title, m.start, m.end).(endOffset := last)];
    assert |a| == |b|;
    forall i | 0 <= i < |a|
      ensures a[i] == b[i]
    {
      if i < |rs| {
        assert (rs + [m])[i] == rs[i];
        if i + 1 < |rs| {
          assert (rs + [m])[i + 1] == rs[i + 1];
        } else {
          assert (rs + [m])[i + 1] == m;
        }
      } else {
        assert (rs + [m])[i] == m;
      }
    }
  }

  /** Closing the last record of `ChapterSpans(rs, x)` again just changes
      where it ends. */
  lemma ChapterSpansReclose(rs: seq<ChapterMatch>, x: int, y: int)
    requires |rs| > 0
    ensures CloseAt(ChapterSpans(rs, x), Some(|rs| - 1), y) == ChapterSpans(rs, y)
  {
  }

  lemma EpilogueSpansSnoc(es: seq<nat>, p: nat)
    ensures EpilogueSpans(es + [p], 0)
         == EpilogueSpans(es, 0) + [Open(EpilogueNumber, EpilogueLine, p, p + |EpilogueLine|)]
  {
    var a := EpilogueSpans(es + [p], 0);
    var b := EpilogueSpans(es, 0) + [Open(EpilogueNumber, EpilogueLine, p, p + |EpilogueLine|)];
    assert |a| == |b|;
    forall i | 0 <= i < |a|
      ensures a[i] == b[i]
    {
      if i < |es| {
        assert (es + [p])[i] == es[i];
      } else {
        assert (es + [p])[i] == p;
      }
    }
  }

  lemma CloseAtAppend(a: seq<Chapter>, b: seq<Chapter>, i: Option<nat>, v: int)
    requires i.Some? ==> i.value < |a|
    ensures CloseAt(a + b, i, v) == CloseAt(a, i, v) + b
  {
  }

  lemma CloseAtTwice(a: seq<Chapter>, i: Option<nat>, v: int, w: int)
    requires i.Some? ==> i.value < |a|
    ensures CloseAt(CloseAt(a, i, v), i, w) == CloseAt(a, i, w)
  {
  }

  /** The chapter loop produces the chapter records of the two-pass
      description, all still open at the end, with the last one as the
      previous chapter. */
  lemma {:induction false} ChapterPassIsSpans(ms: seq<ChapterMatch>)
    ensures ChapterPassInvariant(ChapterPass(ms), Repeats(ms))
    decreases |ms|
  {
    if |ms| > 0 {
      var init := ms[..|ms| - 1];
      var m := ms[|ms| - 1];
      var s := ChapterPass(init);
      ChapterPassIsSpans(init);
      assert ChapterPass(ms) == ChapterStep(s, m);
      assert Repeats(ms) == if m.number in s.contents then Repeats(init) + [m] else Repeats(init);
      ChapterStepSpans(s, Repeats(init), m);
    }
  }

  /** After the chapter loop has made the records for headings `rs`: they
      are the two-pass records, still open at the end, and the last of them
      is the previous chapter. */
  ghost predicate ChapterPassInvariant(s: State, rs: seq<ChapterMatch>) {
    && s.chapters == ChapterSpans(rs, 0)
    && s.prev == (if |rs| == 0 then None else Some(|rs| - 1))
  }

  /** One chapter iteration extends the two-pass records by the heading
      when it is a repeat and leaves them alone otherwise. */
  lemma ChapterStepSpans(s: State, rs: seq<ChapterMatch>, m: ChapterMatch)
    requires s.Valid() && ChapterPassInvariant(s, rs)
    ensures ChapterPassInvariant(ChapterStep(s, m), if m.number in s.contents then rs + [m] else rs)
  {
    if m.number in s.contents {
      var ch := Open(m.number, m.title, m.start, m.end);
      assert ChapterStep(s, m) == s.(chapters := CloseAt(s.chapters, s.prev, m.start - 1) + [ch], prev := Some(|s.chapters|));
      ChapterSpansSnoc(rs, m, 0);
      if |rs| > 0 {
        ChapterSpansReclose(rs, 0, m.start - 1);
      }
    } else {
      assert ChapterStep(s, m) == s.(contents := s.contents[m.number := m.title]);
    }
  }

  /** Which `Epilogue` lines make a record, given whether key 136 is taken
      when the loop starts. */
  function Creating(taken: bool, ps: seq<nat>): seq<nat> {
    if taken || |ps| == 0 then ps else ps[1..]
  }

  lemma CreatingSnoc(taken: bool, ps: seq<nat>, p: nat)
    ensures Creating(taken, ps + [p])
         == if taken || |ps| > 0 then Creating(taken, ps) + [p] else Creating(taken, ps)
  {
    if !taken && |ps| > 0 {
      assert (ps + [p])[1..] == ps[1..] + [p];
    }
  }

  /** The Epilogue loop: every creating line appends an open Epilogue
      record; the previous chapter ends one before the last of them; the run
      fails exactly when such a line comes with no previous chapter. */
  lemma {:induction false} EpiloguePassSpec(s: State, ps: seq<nat>)
    requires s.Valid() && s.epilogue.None?
    ensures EpiloguePassInvariant(s, Creating(EpilogueNumber in s.contents, ps), |ps| > 0, EpiloguePass(s, ps))
    decreases |ps|
  {
    if |ps| > 0 {
      var taken := EpilogueNumber in s.contents;
      var init := ps[..|ps| - 1];
      var p := ps[|ps| - 1];
      assert ps == init + [p];
      EpiloguePassSpec(s, init);
      CreatingSnoc(taken, init, p);
      EpilogueStepSpans(s, Creating(taken, init), |init| > 0, EpiloguePass(s, init), p);
    }
  }

  /** What holds after the Epilogue loop has seen some lines, of which `cr`
      made records; `seen` says whether any line was seen at all. */
  ghost predicate EpiloguePassInvariant(s: State, cr: seq<nat>, seen: bool, r: Result<State, Error>)
    requires s.Valid()
  {
    && (r.Failure? <==> |cr| > 0 && s.prev.None?)
    && (r.Failure? ==> r.error == NoPreviousChapter)
    && (r.Success? ==>
          && r.value.Valid()
          && r.value.prev == s.prev
          && r.value.chapters == (if |cr| > 0 then CloseAt(s.chapters, s.prev, cr[|cr| - 1] as int - 1) else s.chapters)
                                 + EpilogueSpans(cr, 0)
          && r.value.epilogue == (if |cr| > 0 then Some(|s.chapters| + |cr| - 1) else None)
          && (EpilogueNumber in r.value.contents <==> EpilogueNumber in s.contents || seen))
  }

  /** One more Epilogue line keeps the invariant. */
  lemma EpilogueStepSpans(s: State, cr: seq<nat>, seen: bool, r: Result<State, Error>, p: nat)
    requires s.Valid() && s.epilogue.None?
    requires EpiloguePassInvariant(s, cr, seen, r)
    requires !seen ==> |cr| == 0
    ensures var creates := EpilogueNumber in s.contents || seen;
      var r' := if r.Failure? then r else EpilogueStep(r.value, p);
      EpiloguePassInvariant(s, if creates then cr + [p] else cr, true, r')
  {
    if r.Success? && EpilogueNumber in r.value.contents && r.value.prev.Some? {
      EpilogueCreateSpans(s, cr, seen, r.value, p);
    }
  }

  /** The invariant after an `Epilogue` line that makes a record. */
  lemma EpilogueCreateSpans(s: State, cr: seq<nat>, seen: bool, t: State, p: nat)
    requires s.Valid() && s.epilogue.None?
    requires EpiloguePassInvariant(s, cr, seen, Success(t))
    requires EpilogueNumber in t.contents && t.prev.Some?
    ensures EpiloguePassInvariant(s, cr + [p], true, EpilogueStep(t, p))
  {
    var ep := Open(EpilogueNumber, EpilogueLine, p, p + |EpilogueLine|);
    var t' := t.(chapters := CloseAt(t.chapters, t.prev, p as int - 1) + [ep], epilogue := Some(|t.chapters|));
    assert EpilogueStep(t, p) == Success(t');
    CreatedRecords(s, cr, p, t.chapters);
    CreatedInvariant(s, cr, p, t');
  }

  /** Closing the previous chapter at a new creating line and appending its
      open record extends the two-pass records by that line. */
  lemma CreatedRecords(s: State, cr: seq<nat>, p: nat, before: seq<Chapter>)
    requires s.Valid() && s.prev.Some?
    requires before == (if |cr| > 0 then CloseAt(s.chapters, s.prev, cr[|cr| - 1] as int - 1) else s.chapters)
                       + EpilogueSpans(cr, 0)
    ensures |before| == |s.chapters| + |cr|
    ensures CloseAt(before, s.prev, p as int - 1) + [Open(EpilogueNumber, EpilogueLine, p, p + |EpilogueLine|)]
         == CloseAt(s.chapters, s.prev, p as int - 1) + EpilogueSpans(cr + [p], 0)
  {
    var base := if |cr| > 0 then CloseAt(s.chapters, s.prev, cr[|cr| - 1] as int - 1) else s.chapters;
    CloseAtAppend(base, EpilogueSpans(cr, 0), s.prev, p as int - 1);
    if |cr| > 0 {
      CloseAtTwice(s.chapters, s.prev, cr[|cr| - 1] as int - 1, p as int - 1);
    }
    EpilogueSpansSnoc(cr, p);
  }

  /** The invariant holds of a state whose records are the two-pass records
      with one more creating line. */
  lemma CreatedInvariant(s: State, cr: seq<nat>, p: nat, t': State)
    requires s.Valid() && s.prev.Some? && t'.Valid() && t'.prev == s.prev
    requires t'.chapters == CloseAt(s.chapters, s.prev, p as int - 1) + EpilogueSpans(cr + [p], 0)
    requires t'.epilogue == Some(|s.chapters| + |cr|)
    requires EpilogueNumber in t'.contents
    ensures EpiloguePassInvariant(s, cr + [p], true, Success(t'))
  {
  }

  /** The last Epilogue record is the one the end marker closes. */
  lemma CloseLastEpilogue(a: seq<Chapter>, es: seq<nat>, v: int)
    requires |es| > 0
    ensures var cs := a + EpilogueSpans(es, 0);
      var e := |a| + |es| - 1;
      cs[e := cs[e].(endOffset := v)] == a + EpilogueSpans(es, v)
  {
    var cs := a + EpilogueSpans(es, 0);
    var e := |a| + |es| - 1;
    var l := cs[e := cs[e].(endOffset := v)];
    var r := a + EpilogueSpans(es, v);
    assert |l| == |r|;
    forall i | 0 <= i < |l|
      ensures l[i] == r[i]
    {
      if i >= |a| {
        assert r[i] == EpilogueSpans(es, v)[i - |a|];
        assert cs[i] == EpilogueSpans(es, 0)[i - |a|];
      }
    }
  }

  /** The fold computes the two-pass description for all inputs: the same
      records when it succeeds and the same failure otherwise. */
  lemma RunIsExpected(ms: seq<ChapterMatch>, es: seq<nat>, marker: Option<nat>)
    ensures Run(ms, es, marker) == Expected(ms, es, marker)
  {
    var s0 := ChapterPass(ms);
    var rs := Repeats(ms);
    ChapterPassIsSpans(ms);
    EpiloguePassSpec(s0, es);
    var cr := Creating(EpilogueNumber in s0.contents, es);
    assert cr == EpilogueRecordStarts(ms, es);
    var r := EpiloguePass(s0, es);
    assert s0.prev.None? <==> |rs| == 0;
    assert Run(ms, es, marker) == if r.Failure? then Failure(r.error) else Finish(r.value, marker);
    if r.Failure? {
      assert Expected(ms, es, marker) == Failure(NoPreviousChapter);
    } else if marker.None? {
      assert Expected(ms, es, marker) == Failure(NoEndMarker);
    } else if |cr| == 0 {
      assert Expected(ms, es, marker) == Failure(NoEpilogue);
    } else {
      assert Expected(ms, es, marker) == Success(Records(rs, cr, marker.value));
      RunRecords(ms, es, marker.value);
    }
  }

  /** When both kinds of heading make records, the run yields the two-pass
      records. */
  lemma RunRecords(ms: seq<ChapterMatch>, es: seq<nat>, q: nat)
    requires |Repeats(ms)| > 0 && |EpilogueRecordStarts(ms, es)| > 0
    ensures Run(ms, es, Some(q)) == Success(Records(Repeats(ms), EpilogueRecordStarts(ms, es), q))
  {
    var s0 := ChapterPass(ms);
    ChapterPassIsSpans(ms);
    assert EpilogueRecordStarts(ms, es) == Creating(EpilogueNumber in s0.contents, es);
    FinishAfterPasses(s0, Repeats(ms), es, EpilogueRecordStarts(ms, es), q);
  }

  /** Both loops followed by the closing step, from a state that holds the
      chapter records of the repeats `rs`. */
  lemma FinishAfterPasses(s0: State, rs: seq<ChapterMatch>, es: seq<nat>, cr: seq<nat>, q: nat)
    requires s0.Valid() && s0.epilogue.None? && ChapterPassInvariant(s0, rs) && |rs| > 0
    requires cr == Creating(EpilogueNumber in s0.contents, es) && |cr| > 0
    ensures EpiloguePass(s0, es).Success?
    ensures Finish(EpiloguePass(s0, es).value, Some(q)) == Success(Records(rs, cr, q))
  {
    AfterBothPasses(s0, es, cr);
    FinishSpans(s0, EpiloguePass(s0, es).value, rs, cr, q);
  }

  /** The Epilogue loop, started with a previous chapter and no Epilogue
      record, succeeds, closes the previous chapter one before the last
      creating line and makes the last of its records the Epilogue record. */
  lemma AfterBothPasses(s0: State, es: seq<nat>, cr: seq<nat>)
    requires s0.Valid() && s0.epilogue.None? && s0.prev.Some?
    requires cr == Creating(EpilogueNumber in s0.contents, es) && |cr| > 0
    ensures EpiloguePass(s0, es).Success?
    ensures EpiloguePass(s0, es).value.Valid()
    ensures EpiloguePass(s0, es).value.chapters
         == CloseAt(s0.chapters, s0.prev, cr[|cr| - 1] as int - 1) + EpilogueSpans(cr, 0)
    ensures EpiloguePass(s0, es).value.epilogue == Some(|s0.chapters| + |cr| - 1)
  {
    EpiloguePassSpec(s0, es);
  }

  /** After both loops, closing the Epilogue record at the marker yields the
      two-pass records. */
  lemma FinishSpans(s0: State, s1: State, rs: seq<ChapterMatch>, cr: seq<nat>, q: nat)
    requires s0.Valid() && ChapterPassInvariant(s0, rs) && |rs| > 0 && |cr| > 0
    requires s1.Valid()
    requires s1.chapters == CloseAt(s0.chapters, s0.prev, cr[|cr| - 1] as int - 1) + EpilogueSpans(cr, 0)
    requires s1.epilogue == Some(|s0.chapters| + |cr| - 1)
    ensures Finish(s1, Some(q)) == Success(Records(rs, cr, q))
  {
    var last := cr[|cr| - 1] as int - 1;
    assert |s0.chapters| == |rs|;
    ChapterSpansReclose(rs, 0, last);
    CloseLastEpilogue(ChapterSpans(rs, last), cr, q - 1);
  }

  /** The segmenter as written computes the two-pass description on every
      document. */
  lemma SegmentIsTwoPass(doc: string)
    ensures Segment(doc) == TwoPass(doc)
  {
    RunIsExpected(ChapterMatches(doc), HeadingStarts(doc, EpilogueKind), Find(doc, EndMarker));
  }
}
