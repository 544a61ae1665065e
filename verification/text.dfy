/** Operations on the in-memory document: line structure (what the `^` and
    `$` anchors of a multi-line regular expression see), substring search,
    and Python's slice semantics. */
module Text {
  import opened Wrappers

  /** Position `p` is where a line begins: the start of the document or the
      position just after a newline. */
  predicate BeginsLine(doc: string, p: nat) {
    p <= |doc| && (p == 0 || doc[p - 1] == '\n')
  }

  /** The end of the line that contains position `p`: the first newline at
      or after `p`, or the end of the document. */
  function LineEnd(doc: string, p: nat): (k: nat)
    requires p <= |doc|
    ensures p <= k <= |doc|
    ensures k < |doc| ==> doc[k] == '\n'
    ensures forall i :: p <= i < k ==> doc[i] != '\n'
    decreases |doc| - p
  {
    if p == |doc| || doc[p] == '\n' then p else LineEnd(doc, p + 1)
  }

  datatype Line = Line(start: nat, text: string)

  /** The line beginning at `p`, without its newline. */
  function LineAt(doc: string, p: nat): Line
    requires p <= |doc|
  {
    Line(p, doc[p..LineEnd(doc, p)])
  }

  /** The lines of `doc[p..]`, split at every newline (so a trailing newline
      yields a final empty line), each tagged with its start offset. */
  function LinesFrom(doc: string, p: nat): (ls: seq<Line>)
    requires p <= |doc|
    ensures |ls| > 0 && ls[0] == LineAt(doc, p)
    decreases |doc| - p
  {
    var k := LineEnd(doc, p);
    if k == |doc| then [LineAt(doc, p)] else [LineAt(doc, p)] + LinesFrom(doc, k + 1)
  }

  function Lines(doc: string): seq<Line> {
    LinesFrom(doc, 0)
  }

  /** Each split line is a whole line of the document, and consecutive lines
      are separated by exactly one newline. */
  ghost predicate WellSplit(doc: string, ls: seq<Line>) {
    && (forall i :: 0 <= i < |ls| ==> IsLine(doc, ls[i]))
    && (forall i :: 0 <= i < |ls| - 1 ==> ls[i + 1].start == ls[i].start + |ls[i].text| + 1)
  }

  ghost predicate IsLine(doc: string, l: Line) {
    BeginsLine(doc, l.start) && l == LineAt(doc, l.start)
  }

  lemma {:induction false} LinesFromWellSplit(doc: string, p: nat)
    requires BeginsLine(doc, p)
    ensures WellSplit(doc, LinesFrom(doc, p))
    decreases |doc| - p
  {
    var k := LineEnd(doc, p);
    var ls := LinesFrom(doc, p);
    var first := LineAt(doc, p);
    if k < |doc| {
      var rest := LinesFrom(doc, k + 1);
      LinesFromWellSplit(doc, k + 1);
      assert ls == [first] + rest;
      assert IsLine(doc, first);
      assert first.start + |first.text| + 1 == rest[0].start;
      WellSplitCons(doc, first, rest);
    } else {
      assert ls == [first];
    }
  }

  lemma WellSplitCons(doc: string, first: Line, rest: seq<Line>)
    requires IsLine(doc, first) && WellSplit(doc, rest)
    requires |rest| > 0 && first.start + |first.text| + 1 == rest[0].start
    ensures WellSplit(doc, [first] + rest)
  {
    var ls := [first] + rest;
    forall i | 0 <= i < |ls| - 1
      ensures ls[i + 1].start == ls[i].start + |ls[i].text| + 1
    {
      if i > 0 {
        assert ls[i] == rest[i - 1] && ls[i + 1] == rest[i];
      }
    }
  }

  /** The start offsets of the split lines strictly increase. */
  lemma {:induction false} WellSplitIncreasing(doc: string, ls: seq<Line>)
    requires WellSplit(doc, ls)
    ensures forall i, j :: 0 <= i < j < |ls| ==> ls[i].start < ls[j].start
  {
    if |ls| > 1 {
      WellSplitIncreasing(doc, ls[1..]);
      assert WellSplit(doc, ls[1..]) by {
        forall i | 0 <= i < |ls[1..]| - 1
          ensures ls[1..][i + 1].start == ls[1..][i].start + |ls[1..][i].text| + 1
        {
          assert ls[1..][i] == ls[i + 1] && ls[1..][i + 1] == ls[i + 2];
        }
      }
      forall i, j | 0 <= i < j < |ls|
        ensures ls[i].start < ls[j].start
      {
        if i > 0 {
          assert ls[i] == ls[1..][i - 1] && ls[j] == ls[1..][j - 1];
        } else if j > 1 {
          assert ls[1] == ls[1..][0] && ls[j] == ls[1..][j - 1];
        }
      }
    }
  }

  /** Joins line texts with newlines: the inverse of splitting. */
  function Join(ls: seq<Line>): string {
    if |ls| == 0 then ""
    else if |ls| == 1 then ls[0].text
    else ls[0].text + ['\n'] + Join(ls[1..])
  }

  /** Splitting loses nothing: joining the lines gives back the text. */
  lemma {:induction false} JoinLinesFrom(doc: string, p: nat)
    requires BeginsLine(doc, p)
    ensures Join(LinesFrom(doc, p)) == doc[p..]
    decreases |doc| - p
  {
    var k := LineEnd(doc, p);
    var first := LineAt(doc, p);
    if k < |doc| {
      var rest := LinesFrom(doc, k + 1);
      JoinLinesFrom(doc, k + 1);
      JoinCons(first, rest);
      CutAtNewline(doc, p, k);
    }
  }

  lemma JoinCons(first: Line, rest: seq<Line>)
    requires |rest| > 0
    ensures Join([first] + rest) == first.text + ['\n'] + Join(rest)
  {
    assert ([first] + rest)[1..] == rest;
  }

  lemma CutAtNewline(doc: string, p: nat, k: nat)
    requires p <= k < |doc| && doc[k] == '\n'
    ensures doc[p..] == doc[p..k] + ['\n'] + doc[k + 1..]
  {
  }

  lemma JoinLines(doc: string)
    ensures Join(Lines(doc)) == doc
  {
    JoinLinesFrom(doc, 0);
  }

  /** Every line beginning at or after `p` is one of the split lines. */
  lemma {:induction false} LinesFromComplete(doc: string, p: nat, q: nat)
    requires BeginsLine(doc, p) && BeginsLine(doc, q) && p <= q
    ensures exists i :: 0 <= i < |LinesFrom(doc, p)| && LinesFrom(doc, p)[i].start == q
    decreases |doc| - p
  {
    var ls := LinesFrom(doc, p);
    if q == p {
      assert ls[0].start == q;
    } else {
      var k := LineEnd(doc, p);
      assert doc[q - 1] == '\n';
      assert k < |doc| && k + 1 <= q;
      LinesFromComplete(doc, k + 1, q);
      var i :| 0 <= i < |LinesFrom(doc, k + 1)| && LinesFrom(doc, k + 1)[i].start == q;
      assert ls[i + 1].start == q;
    }
  }

  /** The split lines are exactly the lines of the document, in order. */
  lemma LinesSpec(doc: string)
    ensures WellSplit(doc, Lines(doc))
    ensures forall i, j :: 0 <= i < j < |Lines(doc)| ==> Lines(doc)[i].start < Lines(doc)[j].start
    ensures forall q :: BeginsLine(doc, q) ==> exists i :: 0 <= i < |Lines(doc)| && Lines(doc)[i].start == q
  {
    LinesFromWellSplit(doc, 0);
    WellSplitIncreasing(doc, Lines(doc));
    forall q | BeginsLine(doc, q)
      ensures exists i :: 0 <= i < |Lines(doc)| && Lines(doc)[i].start == q
    {
      LinesFromComplete(doc, 0, q);
    }
  }

  /** `pat` occurs in `doc` starting at offset `q`. */
  predicate OccursAt(doc: string, pat: string, q: nat) {
    q + |pat| <= |doc| && doc[q..q + |pat|] == pat
  }

  /** The first occurrence of `pat` at or after offset `p`, if any. */
  function FindFrom(doc: string, pat: string, p: nat): (r: Option<nat>)
    ensures r.Some? ==> p <= r.value && OccursAt(doc, pat, r.value)
    ensures r.Some? ==> forall q :: p <= q < r.value ==> !OccursAt(doc, pat, q)
    ensures r.None? ==> forall q :: p <= q ==> !OccursAt(doc, pat, q)
    decreases |doc| - p
  {
    if p + |pat| > |doc| then None
    else if doc[p..p + |pat|] == pat then Some(p)
    else FindFrom(doc, pat, p + 1)
  }

  /** The first occurrence of `pat` in `doc`, like an unanchored regex search
      for a literal pattern. */
  function Find(doc: string, pat: string): Option<nat> {
    FindFrom(doc, pat, 0)
  }

  /** How Python normalises a slice bound `i` for a sequence of length `n`:
      a negative bound counts from the end, and the result is clamped to
      `0..n`. */
  function SliceBound(i: int, n: nat): (k: nat)
    ensures k <= n
    ensures 0 <= i <= n ==> k == i
    ensures i < 0 && n + i >= 0 ==> k == n + i
  {
    if i < 0 then (if n + i < 0 then 0 else n + i)
    else if i > n then n
    else i
  }

  /** Python's `s[a:b]`. */
  function PySlice(s: string, a: int, b: int): (r: string)
    ensures |r| <= |s|
    ensures b >= a ==> |r| <= b - a
    ensures 0 <= a <= b <= |s| ==> r == s[a..b]
  {
    var i, j := SliceBound(a, |s|), SliceBound(b, |s|);
    if i < j then s[i..j] else []
  }
}
