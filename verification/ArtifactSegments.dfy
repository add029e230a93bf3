// The same painting for artifact lines, where segments also carry the diff
// regions around them and spans come with the line.
module ArtifactSegments {
  import opened Prelude
  import opened Sorting
  import opened Highlighting

  function SpanSize(span: SourceSpan): int {
    (span.endLine - span.startLine) * 1000000 + span.endCol - span.startCol
  }

  // The part of the line an anchor covers, if any.
  function LineSlice(anchor: Mark, number: int, text: string): Option<Slice> {
    var start := if number == anchor.span.startLine then Max(0, anchor.span.startCol - 1) else 0;
    var end := if number == anchor.span.endLine then Min(|text|, anchor.span.endCol) else |text|;
    if end > start then Some(Slice(anchor, start, end, SpanSize(anchor.span))) else None
  }

  function LineSlices(anchors: seq<Mark>, number: int, text: string): (slices: seq<Slice>)
    ensures InLine(slices, |text|)
  {
    if anchors == [] then []
    else
      LineSlices(anchors[..|anchors| - 1], number, text)
      + match LineSlice(anchors[|anchors| - 1], number, text) case None => [] case Some(slice) => [slice]
  }

  // An anchor attached to its line covers a character exactly when its span contains the position.
  lemma SliceCovers(anchor: Mark, number: int, text: string, offset: nat)
    requires anchor.span.startLine <= number <= anchor.span.endLine && offset < |text|
    ensures var slice := LineSlice(anchor, number, text);
            (slice.Some? && slice.value.start <= offset < slice.value.end) <==>
              Contains(anchor.span, number, offset + 1)
  {
  }

  // Anchors attached to a line touch it.
  predicate Attached(anchors: seq<Mark>, number: int) {
    forall i | 0 <= i < |anchors| :: anchors[i].span.startLine <= number <= anchors[i].span.endLine
  }

  lemma {:induction false} CoveringIsContaining(anchors: seq<Mark>, number: int, text: string, offset: nat)
    requires Attached(anchors, number) && offset < |text|
    ensures MarksOf(Covering(LineSlices(anchors, number, text), offset)) == MarksAt(anchors, number, offset + 1)
  {
    hide Contains, LineSlice, Covering, MarksOf;
    if anchors == [] {
      NothingCovers(offset);
    } else {
      var front, last := anchors[..|anchors| - 1], anchors[|anchors| - 1];
      CoveringIsContaining(front, number, text, offset);
      SliceCovers(last, number, text, offset);
      var slices, slice := LineSlices(front, number, text), LineSlice(last, number, text);
      if slice.Some? {
        CoverOneMore(slices, slice.value, offset);
        OwnMark(last, number, text);
      } else {
        assert slices + [] == slices;
      }
    }
  }

  lemma OwnMark(anchor: Mark, number: int, text: string)
    ensures LineSlice(anchor, number, text).Some? ==> LineSlice(anchor, number, text).value.mark == anchor
  {
  }

  // -- Diff regions --

  predicate Larger(a: Slice, b: Slice) {
    SpanSize(a.mark.span) > SpanSize(b.mark.span)
  }

  predicate NoSmaller(a: Slice, b: Slice) {
    !Larger(b, a)
  }

  function OuterFirst(slices: seq<Slice>): seq<Slice> {
    Sort(slices, NoSmaller)
  }

  function RegionKind(mark: Mark): Option<Kind> {
    if mark.diffKind.Some? then mark.diffKind
    else if mark.kind in {Common, Deleted, Inserted} then Some(mark.kind)
    else None
  }

  // Map.set: a known key keeps its place and takes the new value.
  function SetRegion(regions: seq<Region>, region: Region): seq<Region> {
    if regions == [] then [region]
    else if regions[0].nodeId == region.nodeId then [region] + regions[1..]
    else [regions[0]] + SetRegion(regions[1..], region)
  }

  function AddRegions(slices: seq<Slice>): seq<Region> {
    if slices == [] then []
    else
      var mark := slices[|slices| - 1].mark;
      var before := AddRegions(slices[..|slices| - 1]);
      if RegionKind(mark).Some? then SetRegion(before, Region(mark.nodeId, RegionKind(mark).value)) else before
  }

  function DiffRegions(slices: seq<Slice>): seq<Region> {
    AddRegions(OuterFirst(slices))
  }

  predicate Distinct(regions: seq<Region>) {
    forall i, j | 0 <= i < j < |regions| :: regions[i].nodeId != regions[j].nodeId
  }

  lemma {:induction false} SetRegionKeys(regions: seq<Region>, region: Region)
    requires Distinct(regions)
    ensures Distinct(SetRegion(regions, region))
    ensures forall r | r in SetRegion(regions, region) :: r == region || r in regions
  {
    if regions == [] {
    } else {
      assert regions == [regions[0]] + regions[1..];
      if regions[0].nodeId != region.nodeId {
        SetRegionKeys(regions[1..], region);
        var rest := SetRegion(regions[1..], region);
        assert forall i | 0 <= i < |rest| :: rest[i] in rest;
      }
    }
  }

  // Every node contributes one region at most.
  lemma {:induction false} RegionsAreDistinct(slices: seq<Slice>)
    ensures Distinct(AddRegions(slices))
  {
    if slices == [] {
    } else {
      hide Distinct;
      RegionsAreDistinct(slices[..|slices| - 1]);
      var mark := slices[|slices| - 1].mark;
      if RegionKind(mark).Some? {
        SetRegionKeys(AddRegions(slices[..|slices| - 1]), Region(mark.nodeId, RegionKind(mark).value));
      }
    }
  }

  lemma NoSmallerIsOrder()
    ensures IsOrder(NoSmaller)
  {
  }

  // Regions are collected from outer to inner, from all slices.
  lemma OuterFirstShape(slices: seq<Slice>)
    ensures Sorted(OuterFirst(slices), NoSmaller) && multiset(OuterFirst(slices)) == multiset(slices)
  {
    NoSmallerIsOrder();
    SortSorts(slices, NoSmaller);
  }

  lemma {:induction false} SetRegionFinds(regions: seq<Region>, region: Region)
    requires Distinct(regions)
    ensures forall r :: r in SetRegion(regions, region) <==> r == region || (r in regions && r.nodeId != region.nodeId)
  {
    if regions == [] {
    } else {
      assert regions == [regions[0]] + regions[1..];
      if regions[0].nodeId != region.nodeId {
        SetRegionFinds(regions[1..], region);
      }
    }
  }

  function StatesKind(nodeId: string): Slice -> bool {
    (slice: Slice) => slice.mark.nodeId == nodeId && RegionKind(slice.mark).Some?
  }

  // A node's region has the kind stated last.
  lemma {:induction false} LastStated(slices: seq<Slice>, region: Region)
    ensures region in AddRegions(slices) <==>
      var last := LastOf(slices, StatesKind(region.nodeId));
      last.Some? && RegionKind(last.value.mark) == Some(region.kind)
  {
    if slices == [] {
    } else {
      var front, last := slices[..|slices| - 1], slices[|slices| - 1];
      LastStated(front, region);
      RegionsAreDistinct(front);
      if RegionKind(last.mark).Some? {
        SetRegionFinds(AddRegions(front), Region(last.mark.nodeId, RegionKind(last.mark).value));
      }
    }
  }

  // The slice at i states the region's kind, and every other slice of the node
  // that states one is larger, or as large and earlier.
  ghost predicate Innermost(slices: seq<Slice>, i: nat, region: Region) {
    && i < |slices| && slices[i].mark.nodeId == region.nodeId && RegionKind(slices[i].mark) == Some(region.kind)
    && forall j | 0 <= j < |slices| && j != i && slices[j].mark.nodeId == region.nodeId
         && RegionKind(slices[j].mark).Some? ::
         Larger(slices[j], slices[i]) || (j < i && SpanSize(slices[j].mark.span) == SpanSize(slices[i].mark.span))
  }

  // A node's region has the kind that its innermost slice states.
  lemma RegionsAreInnermost(slices: seq<Slice>, region: Region)
    ensures region in DiffRegions(slices) <==> exists i: nat :: Innermost(slices, i, region)
  {
    hide RegionKind, AddRegions, Sort;
    var states := StatesKind(region.nodeId);
    NoSmallerIsOrder();
    LastStated(OuterFirst(slices), region);
    SortedLast(slices, NoSmaller, states);
    var last := LastOf(Sort(slices, NoSmaller), states);
    if last.Some? {
      var i: nat :| i < |slices| && IsLast(slices, i, NoSmaller, states) && last == Some(slices[i]);
      OneInnermost(slices, i, region);
    } else {
      NoneInnermost(slices, region);
    }
  }

  lemma NoneInnermost(slices: seq<Slice>, region: Region)
    requires forall slice | slice in slices :: !StatesKind(region.nodeId)(slice)
    ensures forall i: nat :: !Innermost(slices, i, region)
  {
    forall i: nat
      ensures !Innermost(slices, i, region)
    {
      assert i < |slices| ==> slices[i] in slices;
    }
  }

  lemma OneInnermost(slices: seq<Slice>, i: nat, region: Region)
    requires i < |slices| && IsLast(slices, i, NoSmaller, StatesKind(region.nodeId))
    ensures RegionKind(slices[i].mark) == Some(region.kind) <==> exists k: nat :: Innermost(slices, k, region)
  {
    if RegionKind(slices[i].mark) == Some(region.kind) {
      assert Innermost(slices, i, region);
    } else {
      forall k: nat
        ensures !Innermost(slices, k, region)
      {
        assert k < |slices| && k != i && StatesKind(region.nodeId)(slices[k]) ==>
          if k <= i then NoSmaller(slices[k], slices[i]) else !NoSmaller(slices[i], slices[k]);
      }
    }
  }

  // -- Painting --

  function StyleOf(anchor: Option<Slice>, regions: seq<Region>): Style {
    var marked := if regions == [] then None else Some(regions);
    match anchor
    case None => Style(Plain, false, None, None, marked)
    case Some(slice) => Style(slice.mark.kind, true, Some(slice.mark.nodeId), slice.mark.moveId, marked)
  }

  function StyleOfAll(slices: seq<Slice>): Style {
    StyleOf(Preferred(slices), DiffRegions(slices))
  }

  function StyleAt(slices: seq<Slice>, offset: nat): Style {
    StyleOfAll(Covering(slices, offset))
  }

  function Styles(slices: seq<Slice>, n: nat): (styles: seq<Style>)
    ensures |styles| == n && forall o | 0 <= o < n :: styles[o] == StyleAt(slices, o)
  {
    seq(n, o requires 0 <= o < n => StyleAt(slices, o))
  }

  // Two absent region lists compare as different, so such neighbours stay apart.
  predicate Joins(a: Style, b: Style) {
    a.kind == b.kind && a.nodeId == b.nodeId && a.moveId == b.moveId && a.regions.Some? && a.regions == b.regions
  }

  ghost predicate Plausible(style: Style) {
    style.highlighted <==> style.nodeId.Some?
  }

  ghost predicate AllPlausible(segments: seq<Segment>) {
    forall i | 0 <= i < |segments| :: Plausible(segments[i].style)
  }

  lemma StretchStyled(text: string, slices: seq<Slice>, index: nat)
    requires InLine(slices, |text|) && text != "" && index + 1 < |Boundaries(slices, |text|)|
    ensures var start, end := Boundaries(slices, |text|)[index], Boundaries(slices, |text|)[index + 1];
            && start < end <= |text|
            && forall o | start <= o < end :: Styles(slices, |text|)[o] == StyleOfAll(Spanning(slices, start, end))
  {
    hide Boundaries, InLine, Spanning, Covering, StyleOfAll;
    var boundaries := Boundaries(slices, |text|);
    BoundariesShape(slices, |text|);
    var start, end := boundaries[index], boundaries[index + 1];
    forall o | start <= o < end
      ensures StyleAt(slices, o) == StyleOfAll(Spanning(slices, start, end))
    {
      StretchIsUniform(slices, |text|, index, o);
    }
  }

  lemma NothingPainted(text: string, slices: seq<Slice>)
    ensures PaintedTo([], text, Styles(slices, |text|), 0)
  {
  }

  method PaintLine(text: string, slices: seq<Slice>) returns (segments: seq<Segment>)
    requires InLine(slices, |text|) && text != ""
    ensures PaintedTo(segments, text, Styles(slices, |text|), |text|)
  {
    hide Boundaries, PaintedTo, InLine, Spanning, Preferred, DiffRegions, Styles;
    var boundaries := Boundaries(slices, |text|);
    BoundariesShape(slices, |text|);
    segments := [];
    NothingPainted(text, slices);
    for index := 0 to |boundaries| - 1
      invariant PaintedTo(segments, text, Styles(slices, |text|), boundaries[index]) && AllPlausible(segments)
    {
      var start, end := boundaries[index], boundaries[index + 1];
      StretchStyled(text, slices, index);
      var over := Spanning(slices, start, end);
      var segment := Segment(text[start..end], StyleOf(Preferred(over), DiffRegions(over)));
      if segments != [] && Joins(segments[|segments| - 1].style, segment.style) {
        var front, previous := segments[..|segments| - 1], segments[|segments| - 1];
        assert segments == front + [previous];
        MergeStretch(front, previous, text, Styles(slices, |text|), start, end);
        segments := front + [Segment(previous.text + segment.text, previous.style)];
      } else {
        PushStretch(segments, text, Styles(slices, |text|), start, end, segment.style);
        segments := segments + [segment];
      }
    }
  }

  function WholeSlices(anchors: seq<Mark>): seq<Slice> {
    if anchors == [] then []
    else
      var last := anchors[|anchors| - 1];
      WholeSlices(anchors[..|anchors| - 1]) + [Slice(last, 0, 0, SpanSize(last.span))]
  }

  method BuildArtifactLineSegments(text: string, number: int, anchors: seq<Mark>) returns (segments: seq<Segment>)
    ensures text != "" ==>
      && Painted(segments) == PaintedLine(text, Styles(LineSlices(anchors, number, text), |text|))
      && TextOf(segments) == text
    ensures text == "" ==> segments == [Segment(" ", StyleOfAll(WholeSlices(anchors)))]
  {
    if |text| == 0 {
      return [Segment(" ", StyleOfAll(WholeSlices(anchors)))];
    }
    var slices := LineSlices(anchors, number, text);
    segments := PaintLine(text, slices);
    PaintedSpells(text, Styles(slices, |text|), segments);
    var cells := PaintedLine(text, Styles(slices, |text|));
    assert cells[..|text|] == cells;
  }

  // A character shows the best of the anchors whose span contains it: the
  // highest priority, then the smallest span, then the first.
  lemma CharacterShowsBestAnchor(anchors: seq<Mark>, number: int, text: string, offset: nat)
    requires Attached(anchors, number) && offset < |text|
    ensures var style, covering :=
      StyleAt(LineSlices(anchors, number, text), offset), Covering(LineSlices(anchors, number, text), offset);
            && MarksOf(covering) == MarksAt(anchors, number, offset + 1)
            && (covering == [] ==> !style.highlighted)
            && (covering != [] ==>
                  exists i: nat ::
                    i < |covering| && IsBest(covering, i) && style == StyleOf(Some(covering[i]), DiffRegions(covering)))
  {
    CoveringIsContaining(anchors, number, text, offset);
    PreferredIsBest(Covering(LineSlices(anchors, number, text), offset));
  }
}
