// The span index of a whole document, and when its paths are those of the
// recursive traversal.
module XmlSpanIndex {
  import opened Prelude
  import opened XmlElements
  import opened LineColumns
  import opened XmlSpans

  // What stands before and after the root element belongs to no element.
  datatype Document = Document(prolog: string, root: Element, epilog: string)

  function Bytes(d: Document): string {
    d.prolog + Source(d.root) + d.epilog
  }

  // The tags are well formed: an end tag has its one bracket at its end, and an
  // empty-element tag encloses nothing.
  predicate WellWritten(e: Element) {
    && e.form.open[0] == '<' && e.form.open[|e.form.open| - 1] == '>'
    && (if e.form.close == "" then e.children == [] && e.form.lead == "" && e.text == "" else IsEndTag(e.form.close))
    && forall i | 0 <= i < |e.children| :: WellWritten(e.children[i])
  }

  predicate IsEndTag(close: string) {
    close != "" && close[0] == '<' && close[|close| - 1] == '>' && forall k | 0 <= k < |close| - 1 :: close[k] != '>'
  }

  predicate IsFileUnit(root: Element) {
    root.tag == SRC_UNIT && root.filename != ""
  }

  // Unit children are recognised by qualified tag in the tree, by spelling in the parser.
  predicate IsUnit(e: Element, exact: bool) {
    if exact then e.tag == SRC_UNIT else PrefixedName(e.tag) == UNIT_NAME
  }

  function UnitCount(root: Element, i: nat, exact: bool): nat
    requires i <= |root.children|
  {
    if i == 0 then 0 else UnitCount(root, i - 1, exact) + if IsUnit(root.children[i - 1], exact) then 1 else 0
  }

  // The numbered archive units among the first i children of the root.
  function UnitSpans(d: Document, i: nat, exact: bool, r: Reading): SpanMap
    requires i <= |d.root.children|
  {
    if i == 0 then map[] else UnitSpans(d, i - 1, exact, r) + UnitSpan(d, i - 1, exact, r)
  }

  function UnitPosition(d: Document, i: nat): nat
    requires i <= |d.root.children|
  {
    ChildPosition(d.root, i, |d.prolog|)
  }

  function UnitSpan(d: Document, i: nat, exact: bool, r: Reading): SpanMap
    requires i < |d.root.children|
  {
    var unit := d.root.children[i];
    Numbered(unit, if IsUnit(unit, exact) then
      Some(UnitPath(UnitCount(d.root, i, exact) + 1)) else None, UnitPosition(d, i), r)
  }

  function RootSpans(d: Document, r: Reading): SpanMap {
    Numbered(d.root, Some(UnitPath(1)), |d.prolog|, r)
  }

  // The units the parser handlers number ...
  function ParserSpans(d: Document, r: Reading): SpanMap {
    if IsFileUnit(d.root) then RootSpans(d, r)
    else if PrefixedName(d.root.tag) == UNIT_NAME then UnitSpans(d, |d.root.children|, false, r)
    else map[]
  }

  // ... and those of get_srcdiff_file_unit_elements.
  function TraversalSpans(d: Document, r: Reading): SpanMap {
    if UnitCount(d.root, |d.root.children|, true) > 0 then UnitSpans(d, |d.root.children|, true, r)
    else if IsFileUnit(d.root) then RootSpans(d, r)
    else map[]
  }

  function Found(d: Document, includeSkipped: bool): Reading {
    Reading(Bytes(d), includeSkipped, true)
  }

  function Own(d: Document, includeSkipped: bool): Reading {
    Reading(Bytes(d), includeSkipped, false)
  }

  // What the parser handlers end up with.
  function XmlSpanMap(d: Document, includeSkipped: bool): SpanMap {
    ParserSpans(d, Found(d, includeSkipped))
  }

  // Every element the traversal visits, with the span of its own bytes.
  function TreeSpanMap(d: Document, includeSkipped: bool): SpanMap {
    TraversalSpans(d, Own(d, includeSkipped))
  }

  const FRESH := Machine([], map[], 0)

  function ModeOf(d: Document, includeSkipped: bool): Mode {
    Mode(IsFileUnit(d.root), Found(d, includeSkipped))
  }

  function DocumentEvents(d: Document): seq<ParseEvent> {
    Events(d.root, |d.prolog|)
  }

  // The machine over a whole document computes the recursive numbering.
  lemma DocumentFed(d: Document, includeSkipped: bool)
    ensures Feed(FRESH, DocumentEvents(d), ModeOf(d, includeSkipped)).spans == XmlSpanMap(d, includeSkipped)
  {
    hide Feed, ChildEvents, Numbered, UnitSpans, EndPosition, SpanAt, Found;
    var mode := ModeOf(d, includeSkipped);
    FoundReads(d, includeSkipped);
    if IsFileUnit(d.root) {
      ElementFed(FRESH, d.root, |d.prolog|, mode);
      MergeAssociates(map[], XmlSpanMap(d, includeSkipped), map[]);
    } else {
      ArchiveFed(d, |d.root.children|, mode);
      FeedElement(FRESH, d.root, |d.prolog|, mode);
      assert OnEvent(InArchive(d, |d.root.children|, mode.reading), End(EndPosition(d.root, |d.prolog|)), mode).spans
          == XmlSpanMap(d, includeSkipped);
    }
  }

  lemma FoundReads(d: Document, includeSkipped: bool)
    ensures Found(d, includeSkipped).found && Found(d, includeSkipped).includeSkipped == includeSkipped
  {
  }

  // The machine inside a root without a path, after i of its children: direct
  // units are numbered and nothing else is.
  function InArchive(d: Document, i: nat, r: Reading): Machine
    requires i <= |d.root.children|
  {
    var stack := [Frame(PrefixedName(d.root.tag), None, |d.prolog|, map[])];
    if PrefixedName(d.root.tag) == UNIT_NAME then
      Machine(stack, UnitSpans(d, i, false, r), UnitCount(d.root, i, false))
    else Machine(stack, map[], 0)
  }

  lemma {:induction false} ArchiveFed(d: Document, i: nat, mode: Mode)
    requires i <= |d.root.children| && !mode.rootIsFileUnit && mode.reading.found
    ensures Feed(OnStart(FRESH, d.root.tag, |d.prolog|, mode), ChildEvents(d.root, i, |d.prolog|), mode)
          == InArchive(d, i, mode.reading)
  {
    hide Feed, InArchive, OnStart, ChildEvents;
    if i == 0 {
      ArchiveEntered(d, mode);
    } else {
      ArchiveFed(d, i - 1, mode);
      ArchiveStep(d, i - 1, mode);
      OneMoreChildFed(OnStart(FRESH, d.root.tag, |d.prolog|, mode), d, i - 1, mode);
    }
  }

  lemma ArchiveEntered(d: Document, mode: Mode)
    requires !mode.rootIsFileUnit
    ensures Feed(OnStart(FRESH, d.root.tag, |d.prolog|, mode), ChildEvents(d.root, 0, |d.prolog|), mode)
          == InArchive(d, 0, mode.reading)
  {
  }

  lemma OneMoreChildFed(m: Machine, d: Document, i: nat, mode: Mode)
    requires i < |d.root.children|
    ensures Feed(m, ChildEvents(d.root, i + 1, |d.prolog|), mode)
         == Feed(Feed(m, ChildEvents(d.root, i, |d.prolog|), mode), Events(d.root.children[i], UnitPosition(d, i)),
             mode)
  {
    hide Feed;
    FeedAppend(m, ChildEvents(d.root, i, |d.prolog|), Events(d.root.children[i], UnitPosition(d, i)), mode);
  }

  lemma ArchiveStep(d: Document, i: nat, mode: Mode)
    requires i < |d.root.children| && !mode.rootIsFileUnit && mode.reading.found
    ensures Feed(InArchive(d, i, mode.reading), Events(d.root.children[i], UnitPosition(d, i)), mode)
         == InArchive(d, i + 1, mode.reading)
  {
    hide Feed, UnitSpan, UnitPosition;
    ArchiveChildFed(InArchive(d, i, mode.reading), d, i, mode);
  }

  lemma ArchiveChildFed(m: Machine, d: Document, i: nat, mode: Mode)
    requires i < |d.root.children| && !mode.rootIsFileUnit && mode.reading.found
    requires m.stack == [Frame(PrefixedName(d.root.tag), None, |d.prolog|, map[])]
    requires PrefixedName(d.root.tag) == UNIT_NAME ==> m.nestedUnits == UnitCount(d.root, i, false)
    ensures var archive := PrefixedName(d.root.tag) == UNIT_NAME;
            Feed(m, Events(d.root.children[i], UnitPosition(d, i)), mode) ==
              Machine(m.stack,
                      m.spans + (if archive then UnitSpan(d, i, false, mode.reading) else map[]),
                      if archive then UnitCount(d.root, i + 1, false) else m.nestedUnits)
  {
    hide Feed, Numbered, UnitPosition;
    var child := d.root.children[i];
    ElementFed(m, child, UnitPosition(d, i), mode);
    var entered := OnStart(m, child.tag, UnitPosition(d, i), mode);
    assert entered.stack[..1] == m.stack;
    NothingNumbered(child, UnitPosition(d, i), mode.reading);
  }

  lemma NothingNumbered(e: Element, position: nat, r: Reading)
    ensures Numbered(e, None, position, r) == map[]
  {
  }

  // The parser with its two handlers and their shared variables.
  class SpanIndexer {
    const mode: Mode
    const starts: seq<nat>
    var stack: seq<Frame>
    var spans: SpanMap
    var nestedUnits: nat

    ghost function Contents(): Machine
      reads this
    {
      Machine(stack, spans, nestedUnits)
    }

    ghost predicate Valid()
      reads this
    {
      starts == AllLineStarts(mode.reading.doc)
    }

    constructor (mode: Mode)
      ensures Valid() && this.mode == mode && Contents() == FRESH
    {
      this.mode := mode;
      stack, spans, nestedUnits := [], map[], 0;
      var lineStarts := ComputeLineStarts(mode.reading.doc);
      starts := lineStarts;
    }

    method StartElement(tag: Tag, position: nat)
      requires Valid()
      modifies this
      ensures Valid() && Contents() == OnStart(old(Contents()), tag, position, mode)
    {
      var name := PrefixedName(tag);
      var path: Option<Path> := None;
      if stack == [] {
        if mode.rootIsFileUnit && name == UNIT_NAME {
          path := Some(UnitPath(1));
        }
      } else if !mode.rootIsFileUnit && |stack| == 1 && stack[0].name == UNIT_NAME && name == UNIT_NAME {
        nestedUnits := nestedUnits + 1;
        path := Some(UnitPath(nestedUnits));
      } else if stack[|stack| - 1].path.Some? && !Hidden(name, mode) {
        var parent := stack[|stack| - 1];
        var counts := Bump(parent.counts, name);
        stack := stack[..|stack| - 1] + [parent.(counts := counts)];
        path := Some(parent.path.value + [Step(name, counts[name])]);
      }
      stack := stack + [Frame(name, path, position, map[])];
    }

    method EndElement(position: nat)
      requires Valid() && stack != []
      modifies this
      ensures Valid() && Contents() == OnEnd(old(Contents()), position, mode.reading.doc)
    {
      var frame := stack[|stack| - 1];
      stack := stack[..|stack| - 1];
      if frame.path.None? {
        return;
      }
      var close := FindClose(mode.reading.doc, position);
      if close.None? {
        return;
      }
      var (startLine, startCol) := OffsetToLineCol(frame.open, starts);
      var (endLine, endCol) := OffsetToLineCol(close.value, starts);
      spans := spans[frame.path.value := SourceSpan(startLine, startCol, endLine, endCol + 1)];
    }
  }

  method BuildXmlSpanIndex(d: Document, includeSkipped: bool) returns (spans: SpanMap)
    ensures spans == XmlSpanMap(d, includeSkipped)
  {
    hide Bytes, OnStart, OnEnd;
    var mode := ModeOf(d, includeSkipped);
    var parser := new SpanIndexer(mode);
    var events := DocumentEvents(d);
    assert events[..0] == [];
    for k := 0 to |events|
      invariant parser.Valid() && parser.mode == mode
      invariant parser.Contents() == Feed(FRESH, events[..k], mode)
    {
      assert events[..k + 1][..k] == events[..k];
      match events[k] {
        case Start(tag, at) => parser.StartElement(tag, at);
        case End(at) =>
          if parser.stack != [] {
            parser.EndElement(at);
          }
      }
    }
    assert events[..|events|] == events;
    DocumentFed(d, includeSkipped);
    spans := parser.spans;
  }

  // -- No two elements share a path --

  function CountNumbered(e: Element, includeSkipped: bool): nat
    decreases e, |e.children| + 1
  {
    1 + CountChildren(e, |e.children|, includeSkipped)
  }

  function CountChildren(e: Element, i: nat, includeSkipped: bool): nat
    requires i <= |e.children|
    decreases e, i
  {
    if i == 0 then 0
    else
      CountChildren(e, i - 1, includeSkipped)
      + if Skipped(e.children[i - 1], includeSkipped) then 0 else CountNumbered(e.children[i - 1], includeSkipped)
  }

  // Every path numbered for an element's subtree extends the element's own path.
  ghost predicate AllBelow(spans: SpanMap, path: Path) {
    forall p | p in spans :: path <= p
  }

  // Every path of the first i children continues with the step of one of them.
  ghost predicate BelowChildren(spans: SpanMap, e: Element, i: nat, path: Path, includeSkipped: bool)
    requires i <= |e.children|
  {
    forall p | p in spans :: path <= p && |path| < |p| && StepOfChild(p[|path|], e, i, includeSkipped)
  }

  ghost predicate StepOfChild(step: Step, e: Element, i: nat, includeSkipped: bool)
    requires i <= |e.children|
  {
    exists j :: 0 <= j < i && !Skipped(e.children[j], includeSkipped)
        && step == ChildStep(e.children, j, includeSkipped)
  }

  lemma {:induction false} NumberedBelow(e: Element, path: Path, position: nat, r: Reading)
    ensures AllBelow(Numbered(e, Some(path), position, r), path)
    decreases e, |e.children| + 1
  {
    hide StepOfChild;
    ChildrenNumberedBelow(e, |e.children|, path, position, r);
  }

  lemma {:induction false} ChildrenNumberedBelow(e: Element, i: nat, path: Path, position: nat, r: Reading)
    requires i <= |e.children|
    ensures BelowChildren(NumberedChildren(e, i, path, position, r), e, i, path, r.includeSkipped)
    decreases e, i
  {
    hide Numbered, ChildStep;
    if i == 0 {
    } else {
      ChildrenNumberedBelow(e, i - 1, path, position, r);
      var earlier := NumberedChildren(e, i - 1, path, position, r);
      var last := Numbered(e.children[i - 1], ChildPath(e, i - 1, path, r), ChildPosition(e, i - 1, position), r);
      if Skipped(e.children[i - 1], r.includeSkipped) {
        NothingNumbered(e.children[i - 1], ChildPosition(e, i - 1, position), r);
      } else {
        NumberedBelow(e.children[i - 1], path
            + [ChildStep(e.children, i - 1, r.includeSkipped)], ChildPosition(e, i - 1, position), r);
        LastChildBelow(last, e, i - 1, path, r.includeSkipped);
      }
      MoreChildrenBelow(earlier, last, e, i - 1, path, r.includeSkipped);
    }
  }

  lemma LastChildBelow(spans: SpanMap, e: Element, i: nat, path: Path, includeSkipped: bool)
    requires i < |e.children| && !Skipped(e.children[i], includeSkipped)
    requires AllBelow(spans, path + [ChildStep(e.children, i, includeSkipped)])
    ensures BelowChildren(spans, e, i + 1, path, includeSkipped)
    ensures forall p | p in spans :: |path| < |p| && p[|path|] == ChildStep(e.children, i, includeSkipped)
  {
    var step := ChildStep(e.children, i, includeSkipped);
    forall p | p in spans
      ensures path <= p && |path| < |p| && p[|path|] == step
    {
      assert path == (path + [step])[..|path|] && (path + [step])[|path|] == step;
    }
  }

  lemma MoreChildrenBelow(earlier: SpanMap, last: SpanMap, e: Element, i: nat, path: Path, includeSkipped: bool)
    requires i < |e.children|
    requires BelowChildren(earlier, e, i, path, includeSkipped) && BelowChildren(last, e, i + 1, path, includeSkipped)
    ensures BelowChildren(earlier + last, e, i + 1, path, includeSkipped)
  {
  }

  lemma DisjointSize(a: SpanMap, b: SpanMap)
    requires a.Keys !! b.Keys
    ensures |(a + b).Keys| == |a.Keys| + |b.Keys|
  {
    assert (a + b).Keys == a.Keys + b.Keys;
  }

  // There are as many paths as numbered elements.
  lemma {:induction false} NumberedSize(e: Element, path: Path, position: nat, r: Reading)
    requires !r.found
    ensures |Numbered(e, Some(path), position, r).Keys| == CountNumbered(e, r.includeSkipped)
    decreases e, |e.children| + 1
  {
    hide StepOfChild;
    ChildrenNumberedSize(e, |e.children|, path, position, r);
    ChildrenNumberedBelow(e, |e.children|, path, position, r);
  }

  lemma {:induction false} ChildrenNumberedSize(e: Element, i: nat, path: Path, position: nat, r: Reading)
    requires !r.found && i <= |e.children|
    ensures |NumberedChildren(e, i, path, position, r).Keys| == CountChildren(e, i, r.includeSkipped)
    decreases e, i
  {
    hide *;
    if i == 0 {
      assert |NumberedChildren(e, 0, path, position, r).Keys| == 0 == CountChildren(e, 0, r.includeSkipped) by {
        NoneNumbered(e, path, position, r);
      }
    } else {
      ChildrenNumberedSize(e, i - 1, path, position, r);
      ChildNumberedSize(e, i - 1, path, position, r);
      OneMoreNumbered(e, i - 1, path, position, r);
    }
  }

  lemma NoneNumbered(e: Element, path: Path, position: nat, r: Reading)
    ensures |NumberedChildren(e, 0, path, position, r).Keys| == 0 == CountChildren(e, 0, r.includeSkipped)
  {
  }

  // Another child contributes its own paths, none of which occurred before.
  lemma OneMoreNumbered(e: Element, i: nat, path: Path, position: nat, r: Reading)
    requires i < |e.children|
    ensures |NumberedChildren(e, i + 1, path, position, r).Keys|
         == |NumberedChildren(e, i, path, position, r).Keys|
            + |Numbered(e.children[i], ChildPath(e, i, path, r), ChildPosition(e, i, position), r).Keys|
    ensures CountChildren(e, i + 1, r.includeSkipped) == CountChildren(e, i, r.includeSkipped)
            + if Skipped(e.children[i], r.includeSkipped) then 0 else CountNumbered(e.children[i], r.includeSkipped)
  {
    hide ChildStep, ChildPosition, CountNumbered;
    var last := Numbered(e.children[i], ChildPath(e, i, path, r), ChildPosition(e, i, position), r);
    if Skipped(e.children[i], r.includeSkipped) {
      NothingNumbered(e.children[i], ChildPosition(e, i, position), r);
    } else {
      SiblingsDisjoint(e, i, path, position, r);
    }
    DisjointSize(NumberedChildren(e, i, path, position, r), last);
  }

  lemma {:induction false} ChildNumberedSize(e: Element, i: nat, path: Path, position: nat, r: Reading)
    requires !r.found && i < |e.children|
    ensures var spans := Numbered(e.children[i], ChildPath(e, i, path, r), ChildPosition(e, i, position), r);
            |spans.Keys| == if Skipped(e.children[i], r.includeSkipped) then
              0 else CountNumbered(e.children[i], r.includeSkipped)
    decreases e, i, 0
  {
    if !Skipped(e.children[i], r.includeSkipped) {
      NumberedSize(e.children[i], path
          + [ChildStep(e.children, i, r.includeSkipped)], ChildPosition(e, i, position), r);
    }
  }

  lemma SiblingsDisjoint(e: Element, i: nat, path: Path, position: nat, r: Reading)
    requires i < |e.children| && !Skipped(e.children[i], r.includeSkipped)
    ensures NumberedChildren(e, i, path, position, r).Keys
         !! Numbered(e.children[i], ChildPath(e, i, path, r), ChildPosition(e, i, position), r).Keys
  {
    hide Numbered, NumberedChildren, ChildStep;
    var step := ChildStep(e.children, i, r.includeSkipped);
    ChildrenNumberedBelow(e, i, path, position, r);
    NumberedBelow(e.children[i], path + [step], ChildPosition(e, i, position), r);
    LastChildBelow(Numbered(e.children[i], Some(path + [step]), ChildPosition(e, i, position), r), e, i, path,
        r.includeSkipped);
    StepsApart(e, i, r.includeSkipped);
  }

  lemma StepsApart(e: Element, i: nat, includeSkipped: bool)
    requires i < |e.children| && !Skipped(e.children[i], includeSkipped)
    ensures !StepOfChild(ChildStep(e.children, i, includeSkipped), e, i, includeSkipped)
  {
    forall j | 0 <= j < i && !Skipped(e.children[j], includeSkipped)
      ensures ChildStep(e.children, j, includeSkipped) != ChildStep(e.children, i, includeSkipped)
    {
      ChildStepsDiffer(e.children, j, i, includeSkipped);
    }
  }

}
