/** Finding heading lines in document order: the model of iterating over
    the matches of a multi-line regular expression. */
module Scan {
  import opened Text
  import opened Heading

  datatype Kind = ChapterKind | EpilogueKind

  /** Whether a single line is a heading of the given kind. */
  predicate LineMatches(line: string, kind: Kind) {
    match kind
    case ChapterKind => ParseChapterLine(line).Some?
    case EpilogueKind => IsEpilogueLine(line)
  }

  /** A heading of the given kind is the whole line beginning at `p`. */
  predicate HeadingAt(doc: string, p: nat, kind: Kind) {
    BeginsLine(doc, p) && LineMatches(LineAt(doc, p).text, kind)
  }

  /** Start offsets of the lines in `ls` that are headings of `kind`. */
  function StartsIn(ls: seq<Line>, kind: Kind): seq<nat> {
    if |ls| == 0 then []
    else if LineMatches(ls[0].text, kind) then [ls[0].start] + StartsIn(ls[1..], kind)
    else StartsIn(ls[1..], kind)
  }

  /** Each start found is the start of a matching line of `ls`. */
  lemma {:induction false} StartsInSound(ls: seq<Line>, kind: Kind, i: nat)
    requires i < |StartsIn(ls, kind)|
    ensures exists j :: 0 <= j < |ls| && ls[j].start == StartsIn(ls, kind)[i] && LineMatches(ls[j].text, kind)
  {
    var ps := StartsIn(ls, kind);
    var rest := StartsIn(ls[1..], kind);
    if LineMatches(ls[0].text, kind) && i == 0 {
      assert ls[0].start == ps[0];
    } else {
      var i' := if LineMatches(ls[0].text, kind) then i - 1 else i;
      assert ps[i] == rest[i'];
      StartsInSound(ls[1..], kind, i');
      var j :| 0 <= j < |ls[1..]| && ls[1..][j].start == rest[i'] && LineMatches(ls[1..][j].text, kind);
      assert ls[j + 1] == ls[1..][j];
    }
  }

  /** Every matching line of `ls` contributes its start. */
  lemma {:induction false} StartsInComplete(ls: seq<Line>, kind: Kind, j: nat)
    requires j < |ls| && LineMatches(ls[j].text, kind)
    ensures exists i :: 0 <= i < |StartsIn(ls, kind)| && StartsIn(ls, kind)[i] == ls[j].start
  {
    var ps := StartsIn(ls, kind);
    if j == 0 {
      assert ps[0] == ls[0].start;
    } else {
      var rest := StartsIn(ls[1..], kind);
      assert ls[1..][j - 1] == ls[j];
      StartsInComplete(ls[1..], kind, j - 1);
      var i :| 0 <= i < |rest| && rest[i] == ls[j].start;
      if LineMatches(ls[0].text, kind) {
        assert ps == [ls[0].start] + rest;
        assert ps[i + 1] == rest[i];
      } else {
        assert ps == rest;
      }
    }
  }

  /** Starts come out in the order of `ls`. */
  lemma {:induction false} StartsInIncreasing(ls: seq<Line>, kind: Kind)
    requires forall i, j :: 0 <= i < j < |ls| ==> ls[i].start < ls[j].start
    ensures forall i, j :: 0 <= i < j < |StartsIn(ls, kind)| ==> StartsIn(ls, kind)[i] < StartsIn(ls, kind)[j]
  {
    if |ls| > 0 {
      var tail := ls[1..];
      var rest := StartsIn(tail, kind);
      assert forall i, j :: 0 <= i < j < |tail| ==> tail[i].start < tail[j].start by {
        forall i, j | 0 <= i < j < |tail|
          ensures tail[i].start < tail[j].start
        {
          assert tail[i] == ls[i + 1] && tail[j] == ls[j + 1];
        }
      }
      StartsInIncreasing(tail, kind);
      if LineMatches(ls[0].text, kind) {
        assert forall i :: 0 <= i < |tail| ==> ls[0].start < tail[i].start by {
          forall i | 0 <= i < |tail|
            ensures ls[0].start < tail[i].start
          {
            assert tail[i] == ls[i + 1];
          }
        }
        StartsInAbove(tail, kind, ls[0].start);
        ConsIncreasing(ls[0].start, rest);
        assert StartsIn(ls, kind) == [ls[0].start] + rest;
      } else {
        assert StartsIn(ls, kind) == rest;
      }
    }
  }

  /** Every start found in `ls` is above a bound below every line start. */
  lemma StartsInAbove(ls: seq<Line>, kind: Kind, x: int)
    requires forall i :: 0 <= i < |ls| ==> x < ls[i].start
    ensures forall i :: 0 <= i < |StartsIn(ls, kind)| ==> x < StartsIn(ls, kind)[i]
  {
    forall i | 0 <= i < |StartsIn(ls, kind)|
      ensures x < StartsIn(ls, kind)[i]
    {
      StartsInSound(ls, kind, i);
    }
  }

  /** Putting a smaller element in front keeps a sequence increasing. */
  lemma ConsIncreasing(x: nat, rest: seq<nat>)
    requires forall i, j :: 0 <= i < j < |rest| ==> rest[i] < rest[j]
    requires forall i :: 0 <= i < |rest| ==> x < rest[i]
    ensures forall i, j :: 0 <= i < j < |[x] + rest| ==> ([x] + rest)[i] < ([x] + rest)[j]
  {
    var ps := [x] + rest;
    forall i, j | 0 <= i < j < |ps|
      ensures ps[i] < ps[j]
    {
      assert ps[j] == rest[j - 1];
      if i > 0 {
        assert ps[i] == rest[i - 1];
      }
    }
  }

  /** The first start found, if any, is a heading. */
  lemma FirstHeading(doc: string, kind: Kind)
    ensures |HeadingStarts(doc, kind)| > 0 ==> HeadingAt(doc, HeadingStarts(doc, kind)[0], kind)
  {
    if |HeadingStarts(doc, kind)| > 0 {
      HeadingStartsSpec(doc, kind);
    }
  }

  /** The start offsets of all headings of `kind`, in document order. */
  function HeadingStarts(doc: string, kind: Kind): seq<nat> {
    StartsIn(Lines(doc), kind)
  }

  /** `HeadingStarts` finds exactly the headings of `kind`, each once, in
      strictly increasing order. */
  lemma HeadingStartsSpec(doc: string, kind: Kind)
    ensures var ps := HeadingStarts(doc, kind);
      && (forall i :: 0 <= i < |ps| ==> HeadingAt(doc, ps[i], kind))
      && (forall p :: HeadingAt(doc, p, kind) ==> exists i :: 0 <= i < |ps| && ps[i] == p)
      && (forall i, j :: 0 <= i < j < |ps| ==> ps[i] < ps[j])
  {
    var ls := Lines(doc);
    var ps := HeadingStarts(doc, kind);
    LinesSpec(doc);
    StartsInIncreasing(ls, kind);
    forall i | 0 <= i < |ps|
      ensures HeadingAt(doc, ps[i], kind)
    {
      StartsInSound(ls, kind, i);
      var j :| 0 <= j < |ls| && ls[j].start == ps[i] && LineMatches(ls[j].text, kind);
      assert IsLine(doc, ls[j]);
    }
    forall p | HeadingAt(doc, p, kind)
      ensures exists i :: 0 <= i < |ps| && ps[i] == p
    {
      var j :| 0 <= j < |ls| && ls[j].start == p;
      assert IsLine(doc, ls[j]);
      StartsInComplete(ls, kind, j);
    }
  }

  /** One recognised chapter heading: where its line starts and ends, and
      the chapter number and title read from it. */
  datatype ChapterMatch = ChapterMatch(start: nat, end: nat, number: nat, title: string)

  function MatchAt(doc: string, p: nat): (m: ChapterMatch)
    requires HeadingAt(doc, p, ChapterKind)
    ensures m.start == p && p <= m.end <= |doc|
    ensures m.end < |doc| ==> doc[m.end] == '\n'
  {
    var h := ParseChapterLine(LineAt(doc, p).text).value;
    ChapterMatch(p, LineEnd(doc, p), h.Number(), h.Title())
  }

  /** The text a match spans is a well-formed heading line, and the match
      carries that heading's number and title. */
  lemma MatchAtParses(doc: string, p: nat)
    requires HeadingAt(doc, p, ChapterKind)
    ensures ParseChapterLine(doc[p..MatchAt(doc, p).end]).Some?
    ensures MatchAt(doc, p).number == ParseChapterLine(doc[p..MatchAt(doc, p).end]).value.Number()
    ensures MatchAt(doc, p).title == ParseChapterLine(doc[p..MatchAt(doc, p).end]).value.Title()
    ensures exists h: ChapterHeading ::
              && h.Valid() && doc[p..MatchAt(doc, p).end] == Render(h)
              && MatchAt(doc, p).number == h.Number() && MatchAt(doc, p).title == h.Title()
  {
    var h := ParseChapterLine(doc[p..MatchAt(doc, p).end]).value;
    assert h.Valid() && doc[p..MatchAt(doc, p).end] == Render(h);
  }

  /** The chapter headings of the document in order, as `finditer` yields
      them. */
  function ChapterMatches(doc: string): (ms: seq<ChapterMatch>)
    ensures |ms| == |HeadingStarts(doc, ChapterKind)|
    ensures forall i :: 0 <= i < |ms| ==> ms[i].start == HeadingStarts(doc, ChapterKind)[i]
  {
    var ps := HeadingStarts(doc, ChapterKind);
    HeadingStartsSpec(doc, ChapterKind);
    seq(|ps|, i requires 0 <= i < |ps| => MatchAt(doc, ps[i]))
  }

  /** Every chapter match is the heading at its start, and together they are
      all the chapter headings, in strictly increasing order. */
  lemma ChapterMatchesSpec(doc: string)
    ensures var ms := ChapterMatches(doc);
      && (forall i :: 0 <= i < |ms| ==> HeadingAt(doc, ms[i].start, ChapterKind) && ms[i] == MatchAt(doc, ms[i].start))
      && (forall p :: HeadingAt(doc, p, ChapterKind) ==> exists i :: 0 <= i < |ms| && ms[i].start == p)
      && (forall i, j :: 0 <= i < j < |ms| ==> ms[i].start < ms[j].start)
  {
    HeadingStartsSpec(doc, ChapterKind);
    var ms := ChapterMatches(doc);
    var ps := HeadingStarts(doc, ChapterKind);
    forall p | HeadingAt(doc, p, ChapterKind)
      ensures exists i :: 0 <= i < |ms| && ms[i].start == p
    {
      var i :| 0 <= i < |ps| && ps[i] == p;
      assert ms[i].start == p;
    }
  }

  /** The chapter numbers sighted among `ms`. */
  function Sighted(ms: seq<ChapterMatch>): set<nat> {
    set i | 0 <= i < |ms| :: ms[i].number
  }

  lemma SightedSnoc(ms: seq<ChapterMatch>, m: ChapterMatch)
    ensures Sighted(ms + [m]) == Sighted(ms) + {m.number}
  {
    var ms' := ms + [m];
    assert ms'[|ms|] == m;
    forall x | x in Sighted(ms)
      ensures x in Sighted(ms')
    {
      var i :| 0 <= i < |ms| && ms[i].number == x;
      assert ms'[i] == ms[i];
    }
  }
}
