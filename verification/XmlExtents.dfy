// What the end handler's search for a bracket finds: the end of an element's
// own end tag, or, past an empty-element tag, the end of whatever comes next.
module XmlExtents {
  import opened Prelude
  import opened XmlElements
  import opened LineColumns
  import opened XmlSpans
  import opened XmlSpanIndex

  lemma EndTagEnds(e: Element, position: nat)
    ensures EndPosition(e, position) + |e.form.close| == position + |Source(e)|
  {
  }

  lemma {:induction false} ChildrenSourceGrows(e: Element, i: nat, j: nat)
    requires i <= j <= |e.children|
    ensures ChildrenSource(e, i) <= ChildrenSource(e, j)
    decreases j
  {
    if i == j {
    } else {
      ChildrenSourceGrows(e, i, j - 1);
    }
  }

  // A child ends before its parent's end tag starts.
  lemma ChildEnds(e: Element, i: nat, position: nat)
    requires i < |e.children|
    ensures ChildPosition(e, i, position) + |Source(e.children[i])| <= EndPosition(e, position)
    ensures EndPosition(e.children[i], ChildPosition(e, i, position)) <= EndPosition(e, position)
  {
    hide Source;
    ChildrenSourceGrows(e, i + 1, |e.children|);
    EndTagEnds(e.children[i], ChildPosition(e, i, position));
  }

  lemma {:induction false} ChildrenWritten(doc: string, e: Element, i: nat, start: nat)
    requires i < |e.children| && TextAt(doc, start, ChildrenSource(e, |e.children|))
    ensures TextAt(doc, start + |ChildrenSource(e, i)|, Source(e.children[i]))
  {
    hide Source;
    var all, before, child := ChildrenSource(e, |e.children|), ChildrenSource(e, i), Source(e.children[i]);
    ChildrenSourceGrows(e, i + 1, |e.children|);
    assert ChildrenSource(e, i + 1) == before + (child + e.children[i].form.trail);
    var rest := all[|ChildrenSource(e, i + 1)|..];
    assert all == before + (child + (e.children[i].form.trail + rest));
    SplitTextAt(doc, start, before, child + (e.children[i].form.trail + rest));
    SplitTextAt(doc, start + |before|, child, e.children[i].form.trail + rest);
  }

  // A child is written where its position says.
  lemma ChildWritten(doc: string, e: Element, i: nat, position: nat)
    requires i < |e.children| && TextAt(doc, position, Source(e))
    ensures TextAt(doc, ChildPosition(e, i, position), Source(e.children[i]))
  {
    var open, lead, inner, close := e.form.open, e.form.lead, ChildrenSource(e, |e.children|), e.form.close;
    assert Source(e) == open + (lead + (inner + close));
    SplitTextAt(doc, position, open, lead + (inner + close));
    SplitTextAt(doc, position + |open|, lead, inner + close);
    SplitTextAt(doc, position + |open| + |lead|, inner, close);
    ChildrenWritten(doc, e, i, position + |open| + |lead|);
  }

  lemma EndTagWritten(doc: string, e: Element, position: nat)
    requires TextAt(doc, position, Source(e))
    ensures TextAt(doc, EndPosition(e, position), e.form.close)
  {
    var before := e.form.open + e.form.lead + ChildrenSource(e, |e.children|);
    assert Source(e) == before + e.form.close;
    SplitTextAt(doc, position, before, e.form.close);
  }

  lemma RootWritten(d: Document)
    ensures TextAt(Bytes(d), |d.prolog|, Source(d.root))
  {
    var doc, start := Bytes(d), |d.prolog|;
    assert doc == d.prolog + (Source(d.root) + d.epilog);
    assert TextAt(doc, 0, d.prolog + (Source(d.root) + d.epilog));
    SplitTextAt(doc, 0, d.prolog, Source(d.root) + d.epilog);
    SplitTextAt(doc, start, Source(d.root), d.epilog);
  }

  // An element with an end tag ends at that tag's bracket.
  lemma FoundAtEndTag(doc: string, e: Element, position: nat)
    requires TextAt(doc, position, Source(e)) && IsEndTag(e.form.close)
    ensures FindClose(doc, EndPosition(e, position)) == Some(position + |Source(e)| - 1)
  {
    hide Source, EndPosition;
    EndTagWritten(doc, e, position);
    EndTagEnds(e, position);
    var end, close := EndPosition(e, position), e.form.close;
    assert doc[end + |close| - 1] == '>';
    assert forall k | end <= k < end + |close| - 1 :: doc[k] == close[k - end];
  }

  // Spans with different ends are different.
  lemma SpansDiffer(doc: string, open: nat, a: nat, b: nat)
    requires a < b <= |doc|
    ensures SpanAt(doc, open, a) != SpanAt(doc, open, b)
  {
    hide OffsetToLineCol, AllLineStarts;
    LineColMonotone(doc, a, b);
  }

  // What is recorded for an element is the span of its own bytes exactly if it
  // has an end tag. Past an empty-element tag the next bracket is taken.
  lemma FoundIsOwnIff(doc: string, e: Element, position: nat)
    requires TextAt(doc, position, Source(e)) && WellWritten(e)
    ensures FoundSpan(e, position, doc) == Some(OwnSpanAt(e, position, doc)) <==> e.form.close != ""
  {
    hide Source, SpanAt, EndPosition;
    EndTagEnds(e, position);
    if e.form.close != "" {
      FoundAtEndTag(doc, e, position);
    } else {
      var close := FindClose(doc, EndPosition(e, position));
      if close.Some? {
        SpansDiffer(doc, position, position + |Source(e)| - 1, close.value);
      }
    }
  }

  // -- A bracket past the end of an element is past the end of all it holds --

  ghost predicate BracketPast(doc: string, e: Element, position: nat, last: nat) {
    EndPosition(e, position) <= last < |doc| && doc[last] == '>'
  }

  lemma BracketFound(doc: string, e: Element, position: nat, last: nat)
    requires BracketPast(doc, e, position, last)
    ensures FoundSpan(e, position, doc).Some?
  {
  }

  lemma BracketPastChild(doc: string, e: Element, i: nat, position: nat, last: nat)
    requires i < |e.children| && BracketPast(doc, e, position, last)
    ensures BracketPast(doc, e.children[i], ChildPosition(e, i, position), last)
  {
    ChildEnds(e, i, position);
  }

  // Then every numbered element has its span recorded.
  lemma {:induction false} AllFound(e: Element, path: Option<Path>, position: nat, r: Reading, last: nat)
    requires BracketPast(r.doc, e, position, last)
    ensures Numbered(e, path, position, r).Keys == Numbered(e, path, position, r.(found := false)).Keys
    decreases e, |e.children| + 1
  {
    hide BracketPast, FoundSpan, OwnSpanAt;
    if path.Some? {
      BracketFound(r.doc, e, position, last);
      ChildrenFound(e, |e.children|, path.value, position, r, last);
    }
  }

  lemma {:induction false} ChildrenFound(e: Element, i: nat, path: Path, position: nat, r: Reading, last: nat)
    requires i <= |e.children| && BracketPast(r.doc, e, position, last)
    ensures NumberedChildren(e, i, path, position, r).Keys
          == NumberedChildren(e, i, path, position, r.(found := false)).Keys
    decreases e, i
  {
    hide BracketPast, Numbered, ChildPosition, ChildStep;
    if i == 0 {
    } else {
      ChildrenFound(e, i - 1, path, position, r, last);
      BracketPastChild(r.doc, e, i - 1, position, last);
      AllFound(e.children[i - 1], ChildPath(e, i - 1, path, r), ChildPosition(e, i - 1, position), r, last);
    }
  }

  // -- The span of an empty-element tag in front of another element --

  const EMPTY := Element(Tag(Src, "a"), "", "", [], "", None, [], Form("<a/>", "", "", ""))
  const FULL := Element(Tag(Src, "b"), "", "x", [], "", None, [], Form("<b>", "x", "</b>", ""))
  const EMPTY_FIRST := Element(Tag(Src, "r"), "", "", [EMPTY, FULL], "", None, [], Form("<r>", "", "</r>", ""))

  lemma SpellEmptyFirst()
    ensures Source(EMPTY_FIRST) == "<r><a/><b>x</b></r>"
    ensures ChildPosition(EMPTY_FIRST, 0, 0) == 3 && ChildPosition(EMPTY_FIRST, 1, 0) == 7
  {
    assert ChildrenSource(EMPTY, 0) == "" && ChildrenSource(FULL, 0) == "" && ChildrenSource(EMPTY_FIRST, 0) == "";
    assert Source(EMPTY) == "<a/>" && Source(FULL) == "<b>x</b>";
    assert EMPTY_FIRST.children[0] == EMPTY && EMPTY_FIRST.children[1] == FULL;
    assert ChildrenSource(EMPTY_FIRST, 1) == "<a/>";
    assert ChildrenSource(EMPTY_FIRST, 2) == "<a/><b>x</b>";
  }

  // In <r><a/><b>x</b></r> the span of a, which ends at offset 6, is recorded up
  // to offset 9, the end of the start tag of b.
  lemma EmptyTagOvershoots()
    ensures var doc := Source(EMPTY_FIRST);
            && OwnSpanAt(EMPTY, 3, doc) == SpanAt(doc, 3, 6) == SourceSpan(1, 4, 1, 8)
            && FoundSpan(EMPTY, 3, doc) == Some(SpanAt(doc, 3, 9)) == Some(SourceSpan(1, 4, 1, 11))
  {
    hide Source;
    SpellEmptyFirst();
    var doc := "<r><a/><b>x</b></r>";
    EndTagEnds(EMPTY, 3);
    assert |Source(EMPTY)| == 4 by {
      SpellEmpty();
    }
    assert doc[7] == '<' && doc[8] == 'b' && doc[9] == '>';
    assert FindClose(doc, 7) == Some(9);
    OneLine(doc, 3);
    OneLine(doc, 6);
    OneLine(doc, 9);
  }

  lemma SpellEmpty()
    ensures Source(EMPTY) == "<a/>"
  {
    assert ChildrenSource(EMPTY, 0) == "";
  }

  lemma OneLine(doc: string, offset: nat)
    requires '\n' !in doc && offset <= |doc|
    ensures OffsetToLineCol(offset, AllLineStarts(doc)) == (1, offset + 1)
  {
    LineColExact(doc, offset);
    NoNewlines(doc[..offset]);
  }

  lemma {:induction false} NoNewlines(text: string)
    requires '\n' !in text
    ensures CountNewlines(text) == 0
  {
    if text == "" {
    } else {
      NoNewlines(text[..|text| - 1]);
    }
  }
}
