/** The chapter record and the two quantities derived from it. */
module Chapters {
  import opened Text

  /** One titled section of the book. Offsets index the document: the
      heading line starts at `titleOffset`, the body at `textOffset`, and
      `endOffset` is the body's end, 0 while the section is still open. */
  datatype Chapter = Chapter(number: nat, title: string, titleOffset: int, textOffset: int, endOffset: int)

  /** The body length: positive exactly when the record has been closed
      beyond its text offset, and then the distance between the two. */
  function Length(c: Chapter): (n: nat)
    ensures n > 0 <==> c.endOffset > c.textOffset
    ensures n > 0 ==> c.textOffset + n == c.endOffset
  {
    if c.endOffset > c.textOffset then c.endOffset - c.textOffset else 0
  }

  /** The body text, sliced out of the document with Python's slice rules
      when the length is positive and empty otherwise. Within the document
      it is exactly the span between the two offsets. */
  function Guts(doc: string, c: Chapter): (g: string)
    ensures |g| <= Length(c)
    ensures Length(c) == 0 ==> g == ""
    ensures 0 <= c.textOffset && c.endOffset <= |doc| ==>
              |g| == Length(c) && (Length(c) > 0 ==> g == doc[c.textOffset..c.endOffset])
  {
    if Length(c) > 0 then PySlice(doc, c.textOffset, c.endOffset) else ""
  }

  /** The skip from the end of a heading line to the start of its body: the
      newline ending the heading and the blank line after it. */
  const BodySkip: nat := 2

  /** A freshly created record for a heading line spanning `start..lineEnd`:
      still open, with its body two characters past the line end. Until it
      is closed it has no length. */
  function Open(number: nat, title: string, start: nat, lineEnd: nat): (c: Chapter)
    ensures Length(c) == 0
  {
    Chapter(number, title, start, lineEnd + BodySkip, 0)
  }

  /** An open record has no text, whatever the document. */
  lemma OpenHasNoText(doc: string, number: nat, title: string, start: nat, lineEnd: nat)
    ensures Guts(doc, Open(number, title, start, lineEnd)) == ""
  {
  }
}
