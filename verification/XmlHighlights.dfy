// When the recorded span of an element, read by the viewer, covers exactly the
// element's markup. Spans count columns in bytes and end one past the bracket;
// the viewer counts characters and takes the end column as the last included.
module XmlHighlights {
  import opened Prelude
  import opened XmlElements
  import opened LineColumns
  import opened XmlSpans
  import opened XmlSpanIndex
  import opened XmlExtents
  import opened Highlighting
  import opened Utf8

  // A character of some displayed line: no newline, and no carriage return before one.
  predicate Shown(text: string, p: nat) {
    p < |text| && text[p] != '\n' && !(text[p] == '\r' && p + 1 < |text| && text[p + 1] == '\n')
  }

  predicate Highlighted(text: string, span: SourceSpan, p: nat) {
    var (line, col) := PositionOf(text, p);
    Contains(span, line, col)
  }

  // Of what is shown, exactly the characters from i to k are highlighted.
  ghost predicate ShowsExactly(text: string, span: SourceSpan, i: nat, k: nat) {
    forall p: nat | Shown(text, p) :: Highlighted(text, span, p) <==> i <= p <= k
  }

  predicate EndsLine(text: string, k: nat) {
    !Shown(text, k + 1)
  }

  // The span recorded from character i to the bracket at character k.
  function SpanOfChars(text: string, i: nat, k: nat): SourceSpan
    requires i <= k < |text|
  {
    SpanAt(Encode(text), ByteOffset(text, i), ByteOffset(text, k))
  }

  predicate Precedes(a: (int, int), b: (int, int)) {
    a.0 < b.0 || (a.0 == b.0 && a.1 < b.1)
  }

  lemma SpanBounds(text: string, i: nat, k: nat)
    requires i <= k < |text|
    ensures var span := SpanOfChars(text, i, k);
            var (line, col) := PositionOf(text, i);
            var (endLine, endCol) := PositionOf(text, k);
            && span.startLine == line && span.startCol >= col && (span.startCol == col <==> AsciiBefore(text, i))
            && span.endLine == endLine && span.endCol >= endCol + 1
  {
    hide PositionOf, Encode, OffsetToLineCol, AllLineStarts, AsciiBefore;
    BytePosition(text, i);
    BytePosition(text, k);
    BytePositions(text, i, k);
  }

  lemma BytePositions(text: string, i: nat, k: nat)
    requires i <= k < |text|
    ensures var span := SpanOfChars(text, i, k);
            var (line, col) := BytePositionOf(text, i);
            var (endLine, endCol) := BytePositionOf(text, k);
            span == SourceSpan(line, col, endLine, endCol + 1)
  {
  }

  lemma PositionsGrow(text: string, p: nat, q: nat)
    requires p < q <= |text|
    ensures Precedes(PositionOf(text, p), PositionOf(text, q))
  {
    LineColMonotone(text, p, q);
  }

  // The next character stands in the next column, or after a newline on the next line.
  lemma NextPosition(text: string, p: nat)
    requires p < |text|
    ensures var (line, col) := PositionOf(text, p);
            var (nextLine, nextCol) := PositionOf(text, p + 1);
            if text[p] == '\n' then nextLine == line + 1 else nextLine == line && nextCol == col + 1
  {
    hide OffsetToLineCol, AllLineStarts;
    LineColExact(text, p);
    LineColExact(text, p + 1);
    assert text[..p + 1][..p] == text[..p];
    var (line, col) := PositionOf(text, p);
    var (nextLine, nextCol) := PositionOf(text, p + 1);
    StartIsUnique(text, p - (col - 1), if text[p] == '\n' then p - (col - 1) else p + 1 - (nextCol - 1), p);
  }

  // Past a bracket that ends its line, everything shown is on a later line.
  lemma AfterLineEnd(text: string, k: nat, p: nat)
    requires k < p && Shown(text, k) && Shown(text, p) && EndsLine(text, k)
    ensures PositionOf(text, k).0 < PositionOf(text, p).0
  {
    hide PositionOf;
    var newline := if text[k + 1] == '\n' then k + 1 else k + 2;
    NextPosition(text, k);
    NextPosition(text, k + 1);
    NextPosition(text, newline);
    if newline + 1 < p {
      PositionsGrow(text, newline + 1, p);
    }
  }

  lemma StartHighlighted(text: string, i: nat, k: nat)
    requires i <= k < |text| && Shown(text, i)
    ensures Highlighted(text, SpanOfChars(text, i, k), i) <==> AsciiBefore(text, i)
  {
    hide PositionOf, SpanOfChars, AsciiBefore;
    SpanBounds(text, i, k);
    if i < k {
      PositionsGrow(text, i, k);
    }
  }

  // Once the start is highlighted, so is everything up to and including the
  // character after the bracket, when that is on its line.
  lemma UpToNextHighlighted(text: string, i: nat, k: nat, p: nat)
    requires i <= p <= k + 1 && i <= k < |text| && Shown(text, k) && Shown(text, p) && AsciiBefore(text, i)
    ensures Highlighted(text, SpanOfChars(text, i, k), p)
  {
    hide PositionOf, SpanOfChars, AsciiBefore;
    SpanBounds(text, i, k);
    NextPosition(text, k);
    if i < p {
      PositionsGrow(text, i, p);
    }
    if p < k {
      PositionsGrow(text, p, k);
    }
  }

  lemma BeforeNotHighlighted(text: string, i: nat, k: nat, p: nat)
    requires p < i <= k < |text|
    ensures !Highlighted(text, SpanOfChars(text, i, k), p)
  {
    hide PositionOf, SpanOfChars, AsciiBefore;
    SpanBounds(text, i, k);
    PositionsGrow(text, p, i);
  }

  lemma PastLineEndNotHighlighted(text: string, i: nat, k: nat, p: nat)
    requires i <= k < p && Shown(text, k) && Shown(text, p) && EndsLine(text, k)
    ensures !Highlighted(text, SpanOfChars(text, i, k), p)
  {
    hide PositionOf, SpanOfChars, AsciiBefore;
    SpanBounds(text, i, k);
    AfterLineEnd(text, k, p);
  }

  // The viewer shows exactly the characters recorded if and only if nothing
  // but ASCII stands before them on their first line and the bracket is the
  // last character of its line.
  lemma ShowsExactlyIff(text: string, i: nat, k: nat)
    requires i <= k < |text| && Shown(text, i) && Shown(text, k)
    ensures ShowsExactly(text, SpanOfChars(text, i, k), i, k) <==> AsciiBefore(text, i) && EndsLine(text, k)
  {
    hide Highlighted, SpanOfChars, AsciiBefore;
    var span := SpanOfChars(text, i, k);
    StartHighlighted(text, i, k);
    if AsciiBefore(text, i) {
      if EndsLine(text, k) {
        forall p: nat | Shown(text, p)
          ensures Highlighted(text, span, p) <==> i <= p <= k
        {
          if p < i {
            BeforeNotHighlighted(text, i, k, p);
          } else if p <= k {
            UpToNextHighlighted(text, i, k, p);
          } else {
            PastLineEndNotHighlighted(text, i, k, p);
          }
        }
      } else {
        UpToNextHighlighted(text, i, k, k + 1);
      }
    }
  }

  // -- For the elements of a document --

  // Where an element's markup lies in the text.
  ghost predicate MarkupAt(text: string, e: Element, position: nat, i: nat, k: nat) {
    && i <= k < |text| && ByteOffset(text, i) == position && ByteOffset(text, k) == position + |Source(e)| - 1
    && text[i] == '<' && text[k] == '>' && Encode(text[i..k + 1]) == Source(e)
  }

  lemma EndsWithBracket(e: Element)
    requires WellWritten(e)
    ensures Source(e)[0] == '<' && Source(e)[|Source(e)| - 1] == '>'
  {
    assert e.form.close == "" ==> ChildrenSource(e, |e.children|) == "";
  }

  lemma MarkupFound(text: string, e: Element, position: nat) returns (i: nat, k: nat)
    requires TextAt(Encode(text), position, Source(e)) && WellWritten(e)
    ensures MarkupAt(text, e, position, i, k)
  {
    hide Encode, Source;
    var bytes, last := Encode(text), position + |Source(e)| - 1;
    EndsWithBracket(e);
    assert bytes[position..position + |Source(e)|] == Source(e);
    assert bytes[position] == '<' && bytes[last] == '>';
    i := AsciiByte(text, position);
    k := AsciiByte(text, last);
    OffsetsOrdered(text, k, i);
    ByteOfAscii(text, k);
    OffsetsGrow(text, i, k + 1);
    Encoded(text, k + 1);
    Encoded(text[..k + 1], i);
    assert text[..k + 1][..i] == text[..i] && text[..k + 1][i..] == text[i..k + 1];
    assert bytes[..last + 1][position..] == bytes[position..last + 1];
  }

  // A recorded element is highlighted exactly, if and only if it has an end
  // tag, its bracket ends a line and only ASCII precedes it on its first line.
  lemma ElementShownIff(text: string, e: Element, position: nat, i: nat, k: nat)
    requires TextAt(Encode(text), position, Source(e)) && WellWritten(e) && MarkupAt(text, e, position, i, k)
    requires FoundSpan(e, position, Encode(text)).Some?
    ensures var span := FoundSpan(e, position, Encode(text)).value;
            ShowsExactly(text, span, i, k) <==> e.form.close != "" && AsciiBefore(text, i) && EndsLine(text, k)
  {
    hide Encode, Source, SpanAt, EndPosition, ShowsExactly, AsciiBefore;
    EndTagEnds(e, position);
    if e.form.close != "" {
      FoundAtEndTag(Encode(text), e, position);
      ShowsExactlyIff(text, i, k);
    } else {
      var close := FindClose(Encode(text), EndPosition(e, position)).value;
      var m := AsciiByte(text, close);
      OffsetsOrdered(text, m, k);
      OvershootNotExact(text, i, k, m);
    }
  }

  // A span that reaches to a later bracket also covers that bracket.
  lemma OvershootNotExact(text: string, i: nat, k: nat, m: nat)
    requires i <= k < m < |text| && Shown(text, i) && Shown(text, m)
    ensures !ShowsExactly(text, SpanOfChars(text, i, m), i, k)
  {
    hide Highlighted, SpanOfChars, AsciiBefore;
    StartHighlighted(text, i, m);
    if AsciiBefore(text, i) {
      UpToNextHighlighted(text, i, m, m);
    }
  }

  // In <r><a>x</a>y</r> the highlight of a also covers y.
  lemma NextCharacterHighlighted()
    ensures var text := "<r><a>x</a>y</r>";
            && text[3..11] == "<a>x</a>" && text[11] == 'y'
            && Highlighted(text, SpanOfChars(text, 3, 10), 11) && !ShowsExactly(text, SpanOfChars(text, 3, 10), 3, 10)
  {
    hide Highlighted, SpanOfChars, AsciiBefore;
    var text := "<r><a>x</a>y</r>";
    assert Shown(text, 3) && Shown(text, 10) && Shown(text, 11);
    AllAscii(text, 3);
    UpToNextHighlighted(text, 3, 10, 11);
  }

  lemma AllAscii(text: string, i: nat)
    requires i <= |text| && forall q | 0 <= q < i :: IsAscii(text[q])
    ensures AsciiBefore(text, i)
  {
  }
}
