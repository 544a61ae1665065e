/** Recognising heading lines. A chapter heading is a whole line of the form
    `CHAPTER <digits>. <title><terminator>` where the terminator is `.`, `!`
    or `?` and is the last character of the line; the Epilogue heading is a
    line that is exactly `Epilogue`. */
module Heading {
  import opened Wrappers

  const ChapterPrefix: string := "CHAPTER "
  const NumberSeparator: string := ". "
  const EpilogueLine: string := "Epilogue"

  predicate IsDigit(c: char) {
    '0' <= c <= '9'
  }

  predicate AllDigits(s: string) {
    forall i :: 0 <= i < |s| ==> IsDigit(s[i])
  }

  predicate IsTerminator(c: char) {
    c == '.' || c == '!' || c == '?'
  }

  /** The value of a decimal numeral, as Python's `int()` reads it. */
  function DecimalValue(ds: string): nat
    requires AllDigits(ds)
  {
    if |ds| == 0 then 0
    else 10 * DecimalValue(ds[..|ds| - 1]) + (ds[|ds| - 1] as int - '0' as int)
  }

  /** The three captured groups of a chapter heading line. */
  datatype ChapterHeading = ChapterHeading(digits: string, body: string, terminator: char) {

    /** What the pattern admits: at least one digit, at least one title
        character (none of them a newline), and a terminator. */
    predicate Valid() {
      && |digits| > 0 && AllDigits(digits)
      && |body| > 0 && '\n' !in body
      && IsTerminator(terminator)
    }

    function Number(): nat
      requires Valid()
    {
      DecimalValue(digits)
    }

    /** The recorded title: `!` and `?` are kept, a closing `.` is dropped. */
    function Title(): string {
      if terminator == '!' || terminator == '?' then body + [terminator] else body
    }
  }

  /** The line a heading was read from. */
  function Render(h: ChapterHeading): string {
    ChapterPrefix + h.digits + NumberSeparator + h.body + [h.terminator]
  }

  /** The end of the maximal run of digits in `s` starting at `i`. */
  function DigitRun(s: string, i: nat): (k: nat)
    requires i <= |s|
    ensures i <= k <= |s|
    ensures AllDigits(s[i..k])
    ensures k < |s| ==> !IsDigit(s[k])
    decreases |s| - i
  {
    if i < |s| && IsDigit(s[i]) then DigitRun(s, i + 1) else i
  }

  /** Matches one line against the chapter-heading pattern. The digit run is
      maximal because a `.` must follow it, and since neither `.+` nor the
      terminator may cross a newline the terminator is the line's last
      character and the title is everything between `". "` and it. */
  function ParseChapterLine(line: string): (r: Option<ChapterHeading>)
    ensures r.Some? ==> r.value.Valid() && Render(r.value) == line
  {
    var n := |ChapterPrefix|;
    if |line| < n || line[..n] != ChapterPrefix then None
    else
      var k := DigitRun(line, n);
      if k == n || |line| < k + 4 || line[k..k + 2] != NumberSeparator then None
      else
        var h := ChapterHeading(line[n..k], line[k + 2..|line| - 1], line[|line| - 1]);
        if !IsTerminator(h.terminator) || '\n' in h.body then None
        else
          assert line == ChapterPrefix + h.digits + NumberSeparator + h.body + [h.terminator];
          Some(h)
  }

  /** Every line of the heading form is recognised, with its parts intact:
      together with the postcondition of `ParseChapterLine`, a line is
      recognised exactly when it is the rendering of a valid heading. */
  lemma ParseRender(h: ChapterHeading)
    requires h.Valid()
    ensures ParseChapterLine(Render(h)) == Some(h)
  {
    var line := Render(h);
    var n := |ChapterPrefix|;
    var k := n + |h.digits|;
    assert line[..n] == ChapterPrefix;
    assert line[n..k] == h.digits;
    assert line[k] == '.';
    DigitRunOver(line, n, k);
    assert line[k..k + 2] == NumberSeparator;
    assert line[k + 2..|line| - 1] == h.body;
  }

  /** A digit run starting at `i` stops at the first non-digit `k`. */
  lemma {:induction false} DigitRunOver(s: string, i: nat, k: nat)
    requires i <= k < |s| && AllDigits(s[i..k]) && !IsDigit(s[k])
    ensures DigitRun(s, i) == k
    decreases k - i
  {
    if i < k {
      assert s[i] == s[i..k][0];
      assert s[i + 1..k] == s[i..k][1..];
      DigitRunOver(s, i + 1, k);
    }
  }

  /** The recorded title is the whole text between `CHAPTER N. ` and the end
      of the line, with a closing `.` dropped and a closing `!` or `?` kept. */
  lemma TitleOfLine(line: string)
    requires ParseChapterLine(line).Some?
    ensures var h := ParseChapterLine(line).value;
      && |h.Title()| > 0
      && (h.terminator == '.' ==> line == ChapterPrefix + h.digits + NumberSeparator + h.Title() + ".")
      && (h.terminator != '.' ==> line == ChapterPrefix + h.digits + NumberSeparator + h.Title()
                                  && h.Title()[|h.Title()| - 1] == h.terminator)
  {
  }

  /** Leading zeros do not change a chapter number, so `CHAPTER 01.` and
      `CHAPTER 1.` are sightings of the same chapter. */
  lemma {:induction false} LeadingZero(ds: string)
    requires AllDigits(ds)
    ensures AllDigits("0" + ds) && DecimalValue("0" + ds) == DecimalValue(ds)
    decreases |ds|
  {
    var zs := "0" + ds;
    if |ds| > 0 {
      var init := ds[..|ds| - 1];
      assert zs[..|zs| - 1] == "0" + init;
      assert zs[|zs| - 1] == ds[|ds| - 1];
      LeadingZero(init);
    } else {
      assert zs[..|zs| - 1] == "";
    }
  }

  /** Worked case: a closing `.` is dropped from the title. */
  lemma PeriodDropped()
    ensures ParseChapterLine("CHAPTER 1. Loomings.") == Some(ChapterHeading("1", "Loomings", '.'))
    ensures ChapterHeading("1", "Loomings", '.').Title() == "Loomings"
  {
    var h := ChapterHeading("1", "Loomings", '.');
    assert Render(h) == "CHAPTER 1. Loomings.";
    ParseRender(h);
  }

  /** Worked case: a closing `?` is kept in the title. */
  lemma QuestionKept()
    ensures ParseChapterLine("CHAPTER 12. Ahoy?") == Some(ChapterHeading("12", "Ahoy", '?'))
    ensures ChapterHeading("12", "Ahoy", '?').Title() == "Ahoy?"
    ensures ChapterHeading("12", "Ahoy", '?').Number() == 12
  {
    var h := ChapterHeading("12", "Ahoy", '?');
    assert Render(h) == "CHAPTER 12. Ahoy?";
    ParseRender(h);
    assert DecimalValue("12") == 10 * DecimalValue("1") + 2;
  }

  /** Worked cases: a line with no terminator, no digits, or no `. ` after
      the number is not a heading. */
  lemma NotHeadings()
    ensures ParseChapterLine("CHAPTER 1. Loomings") == None
    ensures ParseChapterLine("CHAPTER . Loomings.") == None
    ensures ParseChapterLine("CHAPTER 1 Loomings.") == None
  {
  }

  /** The Epilogue heading is a line that is exactly `Epilogue`. */
  predicate IsEpilogueLine(line: string) {
    line == EpilogueLine
  }
}
