// The source view: lines of a revision split into highlighted segments.
module SourceView {
  import opened Prelude
  import opened Highlighting

  function StyleOf(highlight: Option<Slice>): Style {
    match highlight
    case None => Style(Plain, false, None, None, None)
    case Some(slice) => Style(slice.mark.kind, true, Some(slice.mark.nodeId), slice.mark.moveId, None)
  }

  // How a character is to look: the preferred slice over it decides.
  function StyleAt(slices: seq<Slice>, offset: nat): Style {
    StyleOf(Preferred(Covering(slices, offset)))
  }

  function Styles(slices: seq<Slice>, n: nat): (styles: seq<Style>)
    ensures |styles| == n && forall o | 0 <= o < n :: styles[o] == StyleAt(slices, o)
  {
    seq(n, o requires 0 <= o < n => StyleAt(slices, o))
  }

  predicate SameLook(a: Style, b: Style) {
    a.kind == b.kind && a.nodeId == b.nodeId && a.moveId == b.moveId
  }

  // Neighbouring segments look different.
  ghost predicate Maximal(segments: seq<Segment>) {
    forall i | 0 < i < |segments| :: !SameLook(segments[i - 1].style, segments[i].style)
  }

  ghost predicate Plausible(style: Style) {
    (style.highlighted <==> style.nodeId.Some?) && style.regions == None
  }

  ghost predicate Tidy(segments: seq<Segment>) {
    Maximal(segments) && forall i | 0 <= i < |segments| :: Plausible(segments[i].style)
  }

  lemma MergeTidies(front: seq<Segment>, last: Segment, text: string)
    requires Tidy(front + [last])
    ensures Tidy(front + [Segment(last.text + text, last.style)]) && Plausible(last.style)
  {
    var before, merged := front + [last], front + [Segment(last.text + text, last.style)];
    assert forall i | 0 <= i < |merged| :: merged[i].style == before[i].style;
    assert before[|front|] == last;
  }

  method BuildHighlightedSegments(line: string, slices: seq<Slice>) returns (segments: seq<Segment>)
    requires InLine(slices, |line|)
    ensures line != "" ==> Painted(segments) == PaintedLine(line, Styles(slices, |line|)) && TextOf(segments) == line
    ensures line == "" ==> segments == [Segment(" ", StyleOf(Preferred(slices)))]
    ensures Maximal(segments)
  {
    if |line| == 0 {
      return [Segment(" ", StyleOf(Preferred(slices)))];
    }
    segments := PaintLine(line, slices);
    PaintedSpells(line, Styles(slices, |line|), segments);
    var cells := PaintedLine(line, Styles(slices, |line|));
    assert cells[..|line|] == cells;
  }

  method PaintLine(line: string, slices: seq<Slice>) returns (segments: seq<Segment>)
    requires InLine(slices, |line|) && line != ""
    ensures PaintedTo(segments, line, Styles(slices, |line|), |line|) && Maximal(segments)
  {
    hide Boundaries, PaintedTo, Preferred, InLine, Spanning, Tidy, Styles;
    var boundaries := Boundaries(slices, |line|);
    BoundariesShape(slices, |line|);
    segments := [];
    NothingPainted(line, slices);
    for index := 0 to |boundaries| - 1
      invariant PaintedTo(segments, line, Styles(slices, |line|), boundaries[index]) && Tidy(segments)
    {
      var start, end := boundaries[index], boundaries[index + 1];
      StretchStyled(line, slices, index);
      var segment := Segment(line[start..end], StyleOf(Preferred(Spanning(slices, start, end))));
      if segments != [] && SameLook(segments[|segments| - 1].style, segment.style) {
        var front, previous := segments[..|segments| - 1], segments[|segments| - 1];
        assert segments == front + [previous];
        MergeTidies(front, previous, segment.text);
        MergeStretch(front, previous, line, Styles(slices, |line|), start, end);
        segments := front + [Segment(previous.text + segment.text, previous.style)];
      } else {
        PushStretch(segments, line, Styles(slices, |line|), start, end, segment.style);
        PushTidies(segments, segment);
        segments := segments + [segment];
      }
    }
    TidyIsMaximal(segments);
  }

  lemma PushTidies(segments: seq<Segment>, segment: Segment)
    requires Tidy(segments) && Plausible(segment.style)
    requires segments != [] ==> !SameLook(segments[|segments| - 1].style, segment.style)
    ensures Tidy(segments + [segment])
  {
  }

  lemma TidyIsMaximal(segments: seq<Segment>)
    requires Tidy(segments)
    ensures Maximal(segments)
  {
  }

  lemma NothingPainted(line: string, slices: seq<Slice>)
    ensures PaintedTo([], line, Styles(slices, |line|), 0) && Tidy([])
  {
  }

  lemma StretchStyled(line: string, slices: seq<Slice>, index: nat)
    requires InLine(slices, |line|) && line != "" && index + 1 < |Boundaries(slices, |line|)|
    ensures var start, end := Boundaries(slices, |line|)[index], Boundaries(slices, |line|)[index + 1];
            && start < end <= |line|
            && forall o | start <= o < end ::
                 Styles(slices, |line|)[o] == StyleOf(Preferred(Spanning(slices, start, end)))
  {
    hide Boundaries, InLine, Preferred, Spanning, Covering;
    var boundaries := Boundaries(slices, |line|);
    BoundariesShape(slices, |line|);
    var start, end := boundaries[index], boundaries[index + 1];
    forall o | start <= o < end
      ensures StyleAt(slices, o) == StyleOf(Preferred(Spanning(slices, start, end)))
    {
      StretchIsUniform(slices, |line|, index, o);
    }
  }

  // -- From spans to slices of one line --

  function Clamp(value: int, low: int, high: int): int {
    Max(low, Min(value, high))
  }

  // The part of a highlight's span on a line it touches.
  function LineSpan(span: SourceSpan, number: int, line: string): SourceSpan {
    SourceSpan(number, if number == span.startLine then span.startCol else 1,
         number, if number == span.endLine then span.endCol else Max(|line|, 1))
  }

  function SliceOf(mark: Mark, line: string, lineSpan: SourceSpan): (slice: Slice)
    ensures slice.start <= slice.end <= |line| && slice.mark == mark
  {
    var start := Clamp(lineSpan.startCol - 1, 0, |line|);
    var end := Clamp(lineSpan.endCol, start, |line|);
    Slice(mark, start, end, end - start)
  }

  function LineSlices(marks: seq<Mark>, number: int, line: string): (slices: seq<Slice>)
    ensures InLine(slices, |line|)
  {
    if marks == [] then []
    else
      var last := marks[|marks| - 1];
      LineSlices(marks[..|marks| - 1], number, line)
      + if number < last.span.startLine
          || number > last.span.endLine then [] else [SliceOf(last, line, LineSpan(last.span, number, line))]
  }

  lemma SliceCovers(mark: Mark, number: int, line: string, offset: nat)
    requires mark.span.startLine <= number <= mark.span.endLine && offset < |line|
    ensures var slice := SliceOf(mark, line, LineSpan(mark.span, number, line));
            slice.start <= offset < slice.end <==> Contains(mark.span, number, offset + 1)
  {
  }

  // The slices over a character are those of the marks whose span contains its position.
  lemma {:induction false} CoveringIsContaining(marks: seq<Mark>, number: int, line: string, offset: nat)
    requires offset < |line|
    ensures MarksOf(Covering(LineSlices(marks, number, line), offset)) == MarksAt(marks, number, offset + 1)
  {
    hide Contains, LineSpan, SliceOf, Covering, MarksOf;
    if marks == [] {
      NothingCovers(offset);
    } else {
      var front, last := marks[..|marks| - 1], marks[|marks| - 1];
      CoveringIsContaining(front, number, line, offset);
      if last.span.startLine <= number <= last.span.endLine {
        SliceCovers(last, number, line, offset);
        CoverOneMore(LineSlices(front, number, line), SliceOf(last, line, LineSpan(last.span, number, line)), offset);
      } else {
        OtherLine(last.span, number, offset + 1);
        assert LineSlices(front, number, line) + [] == LineSlices(front, number, line);
      }
    }
  }

  lemma OtherLine(span: SourceSpan, number: int, col: int)
    requires !(span.startLine <= number <= span.endLine)
    ensures !Contains(span, number, col)
  {
  }

  // -- build_source_view: every character of every line --

  datatype ViewerLine = ViewerLine(number: int, segments: seq<Segment>, hasHighlight: bool)

  method BuildViewerLine(line: string, number: int, marks: seq<Mark>) returns (viewed: ViewerLine)
    ensures viewed.number == number
    ensures line != "" ==>
      && Painted(viewed.segments) == PaintedLine(line, Styles(LineSlices(marks, number, line), |line|))
      && TextOf(viewed.segments) == line
    ensures line == "" ==> viewed.segments == [Segment(" ", StyleOf(Preferred(LineSlices(marks, number, line))))]
    ensures Maximal(viewed.segments)
    ensures viewed.hasHighlight <==>
      exists i :: 0 <= i < |marks| && marks[i].span.startLine <= number <= marks[i].span.endLine
  {
    var slices := LineSlices(marks, number, line);
    SlicesExist(marks, number, line);
    if slices == [] {
      var text := if line == "" then " " else line;
      viewed := ViewerLine(number, [Segment(text, StyleOf(None))], false);
      PushPaints([], Segment(text, StyleOf(None)));
      assert [] + [Segment(text, StyleOf(None))] == [Segment(text, StyleOf(None))];
    } else {
      var segments := BuildHighlightedSegments(line, slices);
      viewed := ViewerLine(number, segments, true);
    }
  }

  lemma {:induction false} SlicesExist(marks: seq<Mark>, number: int, line: string)
    ensures LineSlices(marks, number, line) != [] <==>
      exists i :: 0 <= i < |marks| && marks[i].span.startLine <= number <= marks[i].span.endLine
  {
    if marks == [] {
    } else {
      hide SliceOf;
      var front, last := marks[..|marks| - 1], marks[|marks| - 1];
      SlicesExist(front, number, line);
      if last.span.startLine <= number <= last.span.endLine {
        assert marks[|marks| - 1].span == last.span;
      } else {
        assert forall i | 0 <= i < |front| :: front[i] == marks[i];
      }
    }
  }

  // A character shows the best of the highlights whose span contains it: the
  // highest priority, then the shortest part on this line, then the first.
  lemma CharacterShowsBestMark(marks: seq<Mark>, number: int, line: string, offset: nat)
    requires offset < |line|
    ensures var style, covering :=
      StyleAt(LineSlices(marks, number, line), offset), Covering(LineSlices(marks, number, line), offset);
            && MarksOf(covering) == MarksAt(marks, number, offset + 1)
            && (covering == [] ==> style == StyleOf(None))
            && (covering != [] ==>
                  exists i: nat :: i < |covering| && IsBest(covering, i) && style == StyleOf(Some(covering[i])))
  {
    CoveringIsContaining(marks, number, line, offset);
    PreferredIsBest(Covering(LineSlices(marks, number, line), offset));
  }
}
