// Painting a line of text from overlapping slices: which slice a character
// shows, and why the boundaries of the slices are enough to decide it.
module Highlighting {
  import opened Prelude
  import opened Forests
  import opened Sorting

  datatype Kind = Move | Common | Inserted | Deleted | Plain

  // Lines and columns count from 1; the end column is the last one included.
  datatype Mark = Mark(kind: Kind, nodeId: string, moveId: Option<string>, diffKind: Option<Kind>, span: SourceSpan)

  // The part of a line a mark covers; smaller sizes win among equal priorities.
  datatype Slice = Slice(mark: Mark, start: nat, end: nat, size: int)

  datatype Region = Region(nodeId: string, kind: Kind)

  datatype Style = Style(kind: Kind, highlighted: bool, nodeId: Option<string>, moveId: Option<string>,
      regions: Option<seq<Region>>)

  datatype Segment = Segment(text: string, style: Style)

  predicate Contains(span: SourceSpan, line: int, col: int) {
    && (span.startLine < line || (span.startLine == line && span.startCol <= col))
    && (line < span.endLine || (line == span.endLine && col <= span.endCol))
  }

  // -- Preference --

  function Priority(kind: Kind): nat {
    match kind
    case Move => 2
    case Plain => 0
    case _ => 1
  }

  predicate Better(a: Slice, b: Slice) {
    var p, q := Priority(a.mark.kind), Priority(b.mark.kind);
    p > q || (p == q && a.size < b.size)
  }

  // Best first.
  predicate NoWorse(a: Slice, b: Slice) {
    !Better(b, a)
  }

  function Preferred(slices: seq<Slice>): Option<Slice> {
    if slices == [] then None else Some(Sort(slices, NoWorse)[0])
  }

  // Nothing beats it, and it beats everything listed before it.
  ghost predicate IsBest(slices: seq<Slice>, i: nat)
    requires i < |slices|
  {
    && (forall j | 0 <= j < |slices| :: !Better(slices[j], slices[i]))
    && (forall j | 0 <= j < i :: Better(slices[i], slices[j]))
  }

  lemma {:induction false} InsertFirst(sorted: seq<Slice>, slice: Slice)
    requires forall s | s in sorted :: !Better(s, sorted[0])
    ensures Insert(sorted, slice, NoWorse)[0] == if sorted == [] || Better(slice, sorted[0]) then slice else sorted[0]
    ensures forall s | s in Insert(sorted, slice, NoWorse) :: s in sorted || s == slice
  {
    if sorted == [] {
    } else {
      var front, last := sorted[..|sorted| - 1], sorted[|sorted| - 1];
      assert sorted == front + [last];
      assert last in sorted && !Better(last, sorted[0]);
      if Better(slice, last) {
        InsertFirst(front, slice);
      }
    }
  }

  lemma {:induction false} SortedFirst(slices: seq<Slice>) returns (i: nat)
    requires slices != []
    ensures i < |slices| && IsBest(slices, i) && Sort(slices, NoWorse)[0] == slices[i]
    ensures forall s | s in Sort(slices, NoWorse) :: s in slices
  {
    hide Better, Insert, IsBest;
    var front, last := slices[..|slices| - 1], slices[|slices| - 1];
    assert slices == front + [last];
    if front == [] {
      i := 0;
      OnlyBest(last);
      assert Sort(front, NoWorse) == [];
      InsertFirst([], last);
    } else {
      var j := SortedFirst(front);
      NoneBetter(front, j, Sort(front, NoWorse));
      InsertFirst(Sort(front, NoWorse), last);
      i := if Better(last, front[j]) then |front| else j;
      BestExtends(front, j, last);
    }
  }

  lemma OnlyBest(slice: Slice)
    ensures IsBest([slice], 0)
  {
  }

  lemma NoneBetter(slices: seq<Slice>, i: nat, sorted: seq<Slice>)
    requires i < |slices| && IsBest(slices, i) && sorted != [] && sorted[0] == slices[i]
    requires forall s | s in sorted :: s in slices
    ensures forall s | s in sorted :: !Better(s, sorted[0])
  {
  }

  lemma BestExtends(front: seq<Slice>, j: nat, last: Slice)
    requires j < |front| && IsBest(front, j)
    ensures IsBest(front + [last], if Better(last, front[j]) then |front| else j)
  {
  }

  // The slice shown is the best one, the earliest among equals.
  lemma PreferredIsBest(slices: seq<Slice>)
    ensures Preferred(slices).None? <==> slices == []
    ensures slices != [] ==> exists i: nat :: i < |slices| && IsBest(slices, i) && Preferred(slices) == Some(slices[i])
  {
    if slices != [] {
      var i := SortedFirst(slices);
    }
  }

  // -- Covering --

  predicate InLine(slices: seq<Slice>, length: nat) {
    forall i | 0 <= i < |slices| :: slices[i].start <= slices[i].end <= length
  }

  // Slices around a stretch from `start` up to `end`, in their order.
  function Spanning(slices: seq<Slice>, start: nat, end: nat): seq<Slice> {
    if slices == [] then []
    else
      var last := slices[|slices| - 1];
      Spanning(slices[..|slices| - 1], start, end) + if last.start <= start && last.end >= end then [last] else []
  }

  // Slices over one character.
  function Covering(slices: seq<Slice>, offset: nat): seq<Slice> {
    Spanning(slices, offset, offset + 1)
  }

  function Edges(slices: seq<Slice>, length: nat): set<nat> {
    {0, length} + (set i | 0 <= i < |slices| :: slices[i].start) + (set i | 0 <= i < |slices| :: slices[i].end)
  }

  // Sorted distinct boundaries of a line.
  function Boundaries(slices: seq<Slice>, length: nat): seq<nat> {
    Between(Edges(slices, length), 0, length + 1)
  }

  lemma {:induction false} SpanningIsCovering(slices: seq<Slice>, start: nat, end: nat, offset: nat)
    requires start <= offset < end
    requires forall i | 0 <= i < |slices| ::
      (slices[i].start <= start || slices[i].start >= end) && (slices[i].end <= start || slices[i].end >= end)
    ensures Spanning(slices, start, end) == Covering(slices, offset)
  {
    if slices == [] {
    } else {
      SpanningIsCovering(slices[..|slices| - 1], start, end, offset);
    }
  }

  lemma BoundariesShape(slices: seq<Slice>, length: nat)
    requires InLine(slices, length) && length > 0
    ensures var b := Boundaries(slices, length);
            && |b| >= 2 && b[0] == 0 && b[|b| - 1] == length && Ascending(b)
            && forall x: nat :: x in b <==> x in Edges(slices, length)
  {
    var b := Boundaries(slices, length);
    BetweenShape(Edges(slices, length), 0, length + 1);
    assert 0 in b && length in b;
    var i :| 0 <= i < |b| && b[i] == 0;
    var j :| 0 <= j < |b| && b[j] == length;
    assert b[0] in b && b[|b| - 1] in b;
  }

  // Between neighbouring boundaries every character is covered alike.
  lemma StretchIsUniform(slices: seq<Slice>, length: nat, index: nat, offset: nat)
    requires InLine(slices, length) && length > 0
    requires index + 1 < |Boundaries(slices, length)|
    requires Boundaries(slices, length)[index] <= offset < Boundaries(slices, length)[index + 1]
    ensures Spanning(slices, Boundaries(slices, length)[index], Boundaries(slices, length)[index + 1])
          == Covering(slices, offset)
  {
    hide Boundaries;
    var b := Boundaries(slices, length);
    BoundariesShape(slices, length);
    forall x | x in Edges(slices, length)
      ensures x <= b[index] || x >= b[index + 1]
    {
      assert x in b;
      var k :| 0 <= k < |b| && b[k] == x;
    }
    forall i | 0 <= i < |slices|
      ensures slices[i].start in Edges(slices, length) && slices[i].end in Edges(slices, length)
    {
    }
    SpanningIsCovering(slices, b[index], b[index + 1], offset);
  }

  // The marks whose span contains a character, in their order.
  function MarksAt(marks: seq<Mark>, number: int, col: int): seq<Mark> {
    if marks == [] then []
    else
      var last := marks[|marks| - 1];
      MarksAt(marks[..|marks| - 1], number, col) + if Contains(last.span, number, col) then [last] else []
  }

  function MarksOf(slices: seq<Slice>): seq<Mark> {
    if slices == [] then [] else MarksOf(slices[..|slices| - 1]) + [slices[|slices| - 1].mark]
  }

  lemma CoverOneMore(slices: seq<Slice>, slice: Slice, offset: nat)
    ensures MarksOf(Covering(slices + [slice], offset))
         == MarksOf(Covering(slices, offset)) + if slice.start <= offset < slice.end then [slice.mark] else []
  {
    var before := Covering(slices, offset);
    assert (slices + [slice])[..|slices|] == slices;
    if slice.start <= offset < slice.end {
      assert Covering(slices + [slice], offset) == before + [slice];
      assert (before + [slice])[..|before|] == before;
    } else {
      assert Covering(slices + [slice], offset) == before + [] == before;
      assert MarksOf(before) + [] == MarksOf(before);
    }
  }

  lemma NothingCovers(offset: nat)
    ensures MarksOf(Covering([], offset)) == []
  {
  }

  // -- Segments as painted characters --

  datatype Cell = Cell(character: char, style: Style)

  function Cells(text: string, style: Style): (cells: seq<Cell>)
    ensures |cells| == |text|
    ensures forall i | 0 <= i < |text| :: cells[i] == Cell(text[i], style)
  {
    seq(|text|, i requires 0 <= i < |text| => Cell(text[i], style))
  }

  function Painted(segments: seq<Segment>): seq<Cell> {
    if segments == [] then []
    else Painted(segments[..|segments| - 1]) + Cells(segments[|segments| - 1].text, segments[|segments| - 1].style)
  }

  function TextOf(segments: seq<Segment>): string {
    if segments == [] then "" else TextOf(segments[..|segments| - 1]) + segments[|segments| - 1].text
  }

  lemma PushPaints(segments: seq<Segment>, segment: Segment)
    ensures Painted(segments + [segment]) == Painted(segments) + Cells(segment.text, segment.style)
  {
    assert (segments + [segment])[..|segments|] == segments;
  }

  // Text joined to the last segment is painted in that segment's style.
  lemma MergePaints(front: seq<Segment>, last: Segment, text: string)
    ensures Painted(front + [Segment(last.text + text, last.style)])
          == Painted(front + [last]) + Cells(text, last.style)
  {
    hide *;
    var all, first, more := Cells(last.text + text, last.style), Cells(last.text, last.style), Cells(text, last.style);
    PushPaints(front, last);
    PushPaints(front, Segment(last.text + text, last.style));
    CellsAppend(last.text, text, last.style);
    AppendAssociates(Painted(front), first, more);
  }

  lemma AppendAssociates(a: seq<Cell>, b: seq<Cell>, c: seq<Cell>)
    ensures a + (b + c) == a + b + c
  {
  }

  lemma CellsAppend(a: string, b: string, style: Style)
    ensures Cells(a + b, style) == Cells(a, style) + Cells(b, style)
  {
  }

  lemma {:induction false} PaintedText(segments: seq<Segment>)
    ensures |Painted(segments)| == |TextOf(segments)|
    ensures forall i | 0 <= i < |TextOf(segments)| :: Painted(segments)[i].character == TextOf(segments)[i]
  {
    if segments == [] {
    } else {
      PaintedText(segments[..|segments| - 1]);
    }
  }

  // -- A line painted character by character --

  function PaintedLine(text: string, styles: seq<Style>): (cells: seq<Cell>)
    requires |styles| == |text|
    ensures |cells| == |text| && forall i | 0 <= i < |text| :: cells[i] == Cell(text[i], styles[i])
  {
    seq(|text|, i requires 0 <= i < |text| => Cell(text[i], styles[i]))
  }

  // The segments paint the first n characters.
  ghost predicate PaintedTo(segments: seq<Segment>, text: string, styles: seq<Style>, n: nat) {
    |styles| == |text| && n <= |text| && Painted(segments) == PaintedLine(text, styles)[..n]
  }

  // Extending the painting by a stretch of one style.
  lemma StretchPainted(text: string, styles: seq<Style>, start: nat, end: nat, style: Style)
    requires |styles| == |text| && start <= end <= |text| && forall o | start <= o < end :: styles[o] == style
    ensures PaintedLine(text, styles)[..end] == PaintedLine(text, styles)[..start] + Cells(text[start..end], style)
  {
  }

  lemma PushStretch(segments: seq<Segment>, text: string, styles: seq<Style>, start: nat, end: nat, style: Style)
    requires PaintedTo(segments, text, styles, start) && start <= end <= |text| && forall o | start <= o < end ::
      styles[o] == style
    ensures PaintedTo(segments + [Segment(text[start..end], style)], text, styles, end)
  {
    hide Painted, PaintedLine, Cells;
    PushPaints(segments, Segment(text[start..end], style));
    StretchPainted(text, styles, start, end, style);
  }

  lemma MergeStretch(front: seq<Segment>, last: Segment, text: string, styles: seq<Style>, start: nat, end: nat)
    requires PaintedTo(front + [last], text, styles, start) && start <= end <= |text|
    requires forall o | start <= o < end :: styles[o] == last.style
    ensures PaintedTo(front + [Segment(last.text + text[start..end], last.style)], text, styles, end)
  {
    hide Painted, PaintedLine, Cells;
    MergePaints(front, last, text[start..end]);
    StretchPainted(text, styles, start, end, last.style);
  }

  // Fully painted segments spell the line.
  lemma PaintedSpells(text: string, styles: seq<Style>, segments: seq<Segment>)
    requires PaintedTo(segments, text, styles, |text|)
    ensures TextOf(segments) == text
  {
    PaintedText(segments);
    assert PaintedLine(text, styles)[..|text|] == PaintedLine(text, styles);
  }
}
