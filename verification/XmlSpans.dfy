// The span index: a stack machine over parse events that assigns every
// element its path and its span, against the recursive numbering of the
// element tree.
//
// A document is the string of its bytes; the parser reports where each start
// tag begins and where each end tag begins. An empty-element tag has no end
// tag: its end is reported just after it.
module XmlSpans {
  import opened Prelude
  import opened XmlElements
  import opened LineColumns

  datatype ParseEvent = Start(tag: Tag, at: nat) | End(at: nat)

  type SpanMap = map<Path, SourceSpan>

  // The bytes of an element, from its start tag to its end tag.
  function Source(e: Element): (bytes: string)
    ensures bytes != ""
    decreases e, |e.children| + 1
  {
    e.form.open + e.form.lead + ChildrenSource(e, |e.children|) + e.form.close
  }

  function ChildrenSource(e: Element, i: nat): string
    requires i <= |e.children|
    decreases e, i
  {
    if i == 0 then ""
    else ChildrenSource(e, i - 1) + Source(e.children[i - 1]) + e.children[i - 1].form.trail
  }

  // Where child i of an element that starts at `position` starts.
  function ChildPosition(e: Element, i: nat, position: nat): nat
    requires i <= |e.children|
  {
    position + |e.form.open| + |e.form.lead| + |ChildrenSource(e, i)|
  }

  // Where the end of an element is reported.
  function EndPosition(e: Element, position: nat): nat {
    ChildPosition(e, |e.children|, position)
  }

  // What the parser reports for an element that starts at `position`.
  function Events(e: Element, position: nat): (events: seq<ParseEvent>)
    decreases e, |e.children| + 1
  {
    [Start(e.tag, position)] + ChildEvents(e, |e.children|, position) + [End(EndPosition(e, position))]
  }

  function ChildEvents(e: Element, i: nat, position: nat): seq<ParseEvent>
    requires i <= |e.children|
    decreases e, i
  {
    if i == 0 then []
    else ChildEvents(e, i - 1, position) + Events(e.children[i - 1], ChildPosition(e, i - 1, position))
  }

  // -- Spans --

  // xml_bytes.find(b">", from)
  function FindClose(doc: string, from: nat): (found: Option<nat>)
    ensures found.Some? ==>
      && from <= found.value < |doc| && doc[found.value] == '>'
      && forall k | from <= k < found.value :: doc[k] != '>'
    ensures found.None? ==> forall k | from <= k < |doc| :: doc[k] != '>'
    decreases |doc| - from
  {
    if from >= |doc| then None
    else if doc[from] == '>' then Some(from)
    else FindClose(doc, from + 1)
  }

  // The span recorded for the bytes from `open` to the bracket at `close`.
  function SpanAt(doc: string, open: nat, close: nat): SourceSpan {
    var starts := AllLineStarts(doc);
    var (startLine, startCol) := OffsetToLineCol(open, starts);
    var (endLine, endCol) := OffsetToLineCol(close, starts);
    SourceSpan(startLine, startCol, endLine, endCol + 1)
  }

  // What the end handler records for an element, if it finds a bracket.
  function FoundSpan(e: Element, position: nat, doc: string): Option<SourceSpan> {
    match FindClose(doc, EndPosition(e, position))
    case None => None
    case Some(close) => Some(SpanAt(doc, position, close))
  }

  // The span of the element's own bytes.
  function OwnSpanAt(e: Element, position: nat, doc: string): SourceSpan {
    SpanAt(doc, position, position + |Source(e)| - 1)
  }

  // -- The machine --

  datatype Frame = Frame(name: Name, path: Option<Path>, open: nat, counts: map<Name, nat>)

  // The stack grows to the right.
  datatype Machine = Machine(stack: seq<Frame>, spans: SpanMap, nestedUnits: nat)

  // How a numbering reads a document: whether it numbers skipped tags, and
  // whether its spans are those found by the end handler or the elements' own.
  datatype Reading = Reading(doc: string, includeSkipped: bool, found: bool)

  datatype Mode = Mode(rootIsFileUnit: bool, reading: Reading)

  predicate Hidden(name: Name, mode: Mode) {
    !mode.reading.includeSkipped && name == WHITESPACE_NAME
  }

  // A direct unit child of an archive root gets a number of its own.
  predicate OpensNestedUnit(stack: seq<Frame>, name: Name, mode: Mode) {
    !mode.rootIsFileUnit && |stack| == 1 && stack[0].name == UNIT_NAME && name == UNIT_NAME
  }

  function OnStart(m: Machine, tag: Tag, position: nat, mode: Mode): Machine {
    var name := PrefixedName(tag);
    if m.stack == [] then
      var path := if mode.rootIsFileUnit && name == UNIT_NAME then Some(UnitPath(1)) else None;
      m.(stack := [Frame(name, path, position, map[])])
    else if OpensNestedUnit(m.stack, name, mode) then
      m.(stack := m.stack + [Frame(name, Some(UnitPath(m.nestedUnits + 1)), position, map[])], nestedUnits :=
        m.nestedUnits + 1)
    else
      var top := m.stack[|m.stack| - 1];
      if top.path.Some? && !Hidden(name, mode) then
        var counts := Bump(top.counts, name);
        m.(stack := m.stack[..|m.stack| - 1]
                    + [top.(counts := counts),
                        Frame(name, Some(top.path.value + [Step(name, counts[name])]), position, map[])])
      else m.(stack := m.stack + [Frame(name, None, position, map[])])
  }

  function OnEnd(m: Machine, position: nat, doc: string): Machine
    requires m.stack != []
  {
    var frame := m.stack[|m.stack| - 1];
    var popped := m.(stack := m.stack[..|m.stack| - 1]);
    match frame.path
    case None => popped
    case Some(path) =>
      match FindClose(doc, position)
      case None => popped
      case Some(close) => popped.(spans := m.spans[path := SpanAt(doc, frame.open, close)])
  }

  function OnEvent(m: Machine, event: ParseEvent, mode: Mode): Machine {
    match event
    case Start(tag, at) => OnStart(m, tag, at, mode)
    case End(at) => if m.stack == [] then m else OnEnd(m, at, mode.reading.doc)
  }

  function Feed(m: Machine, events: seq<ParseEvent>, mode: Mode): Machine {
    if events == [] then m
    else OnEvent(Feed(m, events[..|events| - 1], mode), events[|events| - 1], mode)
  }

  lemma {:induction false} FeedAppend(m: Machine, a: seq<ParseEvent>, b: seq<ParseEvent>, mode: Mode)
    ensures Feed(m, a + b, mode) == Feed(Feed(m, a, mode), b, mode)
  {
    hide OnEvent;
    if b == [] {
      assert a + b == a;
    } else {
      assert (a + b)[..|a + b| - 1] == a + b[..|b| - 1];
      FeedAppend(m, a, b[..|b| - 1], mode);
    }
  }

  lemma FeedOne(m: Machine, event: ParseEvent, mode: Mode)
    ensures Feed(m, [event], mode) == OnEvent(m, event, mode)
  {
    assert [event][..0] == [];
  }

  // -- The recursive numbering --

  function ReadSpan(e: Element, position: nat, r: Reading): Option<SourceSpan> {
    if r.found then FoundSpan(e, position, r.doc) else Some(OwnSpanAt(e, position, r.doc))
  }

  function WithOwn(below: SpanMap, path: Path, span: Option<SourceSpan>): SpanMap {
    match span case None => below case Some(s) => below[path := s]
  }

  // Paths and spans of an element and everything numbered below it.
  function Numbered(e: Element, path: Option<Path>, position: nat, r: Reading): SpanMap
    decreases e, |e.children| + 1
  {
    match path
    case None => map[]
    case Some(p) => WithOwn(NumberedChildren(e, |e.children|, p, position, r), p, ReadSpan(e, position, r))
  }

  function NumberedChildren(e: Element, i: nat, path: Path, position: nat, r: Reading): SpanMap
    requires i <= |e.children|
    decreases e, i
  {
    if i == 0 then map[]
    else
      NumberedChildren(e, i - 1, path, position, r)
      + Numbered(e.children[i - 1], ChildPath(e, i - 1, path, r), ChildPosition(e, i - 1, position), r)
  }

  function ChildPath(e: Element, i: nat, path: Path, r: Reading): Option<Path>
    requires i < |e.children|
  {
    if Skipped(e.children[i], r.includeSkipped) then None else Some(path + [ChildStep(e.children, i, r.includeSkipped)])
  }

  // -- The machine computes the numbering --

  // Below the top frame no element opens a nested unit.
  predicate Settled(stack: seq<Frame>, mode: Mode) {
    stack != [] && (mode.rootIsFileUnit || |stack| >= 2)
  }

  // The stack after children of the element in the top frame were fed.
  ghost predicate SameButCounts(before: seq<Frame>, after: seq<Frame>) {
    && before != [] && |after| == |before|
    && after[..|after| - 1] == before[..|before| - 1]
    && after[|after| - 1].(counts := before[|before| - 1].counts) == before[|before| - 1]
  }

  // One child of the element in the top frame.
  lemma {:induction false} ChildFed(m: Machine, e: Element, i: nat, position: nat, mode: Mode)
    requires mode.reading.found && i < |e.children| && Settled(m.stack, mode)
    requires var top := m.stack[|m.stack| - 1];
             top.path.Some? ==> CountsUpTo(top.counts, e.children, i, mode.reading.includeSkipped)
    ensures var top := m.stack[|m.stack| - 1];
            var after := Feed(m, Events(e.children[i], position), mode);
            && SameButCounts(m.stack, after.stack) && after.nestedUnits == m.nestedUnits
            && (top.path.Some? ==>
                  CountsUpTo(after.stack[|after.stack| - 1].counts, e.children, i + 1, mode.reading.includeSkipped))
            && after.spans == m.spans + Numbered(e.children[i],
                 if top.path.Some? then ChildPath(e, i, top.path.value, mode.reading) else None, position, mode.reading)
    decreases e, i, 0
  {
    var child := e.children[i];
    var top := m.stack[|m.stack| - 1];
    hide Feed, Numbered, OnStart;
    if top.path.Some? {
      BumpCounts(top.counts, e.children, i, mode.reading.includeSkipped);
    }
    EnterChild(m, child, position, mode);
    ElementFed(m, child, position, mode);
  }

  // A settled machine gives a child the next step below its parent's path, or none.
  lemma EnterChild(m: Machine, child: Element, position: nat, mode: Mode)
    requires Settled(m.stack, mode)
    ensures var top := m.stack[|m.stack| - 1];
            var entered := OnStart(m, child.tag, position, mode);
            var name := PrefixedName(child.tag);
            var numbered := top.path.Some? && !Skipped(child, mode.reading.includeSkipped);
            && SameButCounts(m.stack, entered.stack[..|entered.stack| - 1])
            && entered.spans == m.spans && entered.nestedUnits == m.nestedUnits
            && entered.stack[|entered.stack| - 2].counts == (if numbered then Bump(top.counts, name) else top.counts)
            && entered.stack[|entered.stack| - 1] ==
                 Frame(name, if numbered then
                   Some(top.path.value + [Step(name, Bump(top.counts, name)[name])]) else None, position, map[])
  {
    SkippedBySpelling(child, mode.reading.includeSkipped);
  }

  lemma FeedElement(m: Machine, e: Element, position: nat, mode: Mode)
    ensures var inside := Feed(OnStart(m, e.tag, position, mode), ChildEvents(e, |e.children|, position), mode);
            Feed(m, Events(e, position), mode) == OnEvent(inside, End(EndPosition(e, position)), mode)
  {
    hide Feed, OnStart, ChildEvents, EndPosition;
    var body, start, end :=
      ChildEvents(e, |e.children|, position), Start(e.tag, position), End(EndPosition(e, position));
    var inside := Feed(OnStart(m, e.tag, position, mode), body, mode);
    FeedOne(m, start, mode);
    FeedAppend(m, [start], body, mode);
    FeedAppend(m, [start] + body, [end], mode);
    FeedOne(inside, end, mode);
  }

  // An element fed from its start event to its end event leaves the stack as
  // it was, and adds the numbering below the path its start event was given.
  lemma {:induction false} ElementFed(m: Machine, e: Element, position: nat, mode: Mode)
    requires mode.reading.found && (m.stack == [] ==> mode.rootIsFileUnit)
    ensures var entered := OnStart(m, e.tag, position, mode);
            var frame := entered.stack[|entered.stack| - 1];
            Feed(m, Events(e, position), mode) ==
              Machine(entered.stack[..|entered.stack| - 1],
                      m.spans + Numbered(e, frame.path, position, mode.reading), entered.nestedUnits)
    decreases e, |e.children| + 1, 0
  {
    hide Feed, OnEvent, Numbered, SpansOfChildren, CountsUpTo;
    var entered := OnStart(m, e.tag, position, mode);
    var inside := Feed(entered, ChildEvents(e, |e.children|, position), mode);
    ChildrenFed(entered, e, |e.children|, position, mode);
    FeedElement(m, e, position, mode);
    EndCloses(entered, inside, e, position, mode);
  }

  lemma EndCloses(entered: Machine, inside: Machine, e: Element, position: nat, mode: Mode)
    requires mode.reading.found && SameButCounts(entered.stack, inside.stack)
          && inside.nestedUnits == entered.nestedUnits
    requires entered.stack[|entered.stack| - 1].open == position
    requires var path := entered.stack[|entered.stack| - 1].path;
             inside.spans == entered.spans + SpansOfChildren(e, |e.children|, path, position, mode.reading)
    ensures var frame := entered.stack[|entered.stack| - 1];
            OnEvent(inside, End(EndPosition(e, position)), mode) ==
              Machine(entered.stack[..|entered.stack| - 1],
                      entered.spans + Numbered(e, frame.path, position, mode.reading), entered.nestedUnits)
  {
    hide EndPosition, SpanAt;
    var frame := inside.stack[|inside.stack| - 1];
    assert frame.path == entered.stack[|entered.stack| - 1].path && frame.open == position;
    if frame.path.None? {
      assert entered.spans + map[] == entered.spans;
    }
  }

  lemma MergeAssociates(a: SpanMap, b: SpanMap, c: SpanMap)
    ensures a + b + c == a + (b + c)
    ensures a + map[] == a
  {
  }

  lemma {:induction false} ChildrenFed(m: Machine, e: Element, i: nat, position: nat, mode: Mode)
    requires mode.reading.found && i <= |e.children| && Settled(m.stack, mode) && m.stack[|m.stack| - 1].counts == map[]
    ensures var top := m.stack[|m.stack| - 1];
            var after := Feed(m, ChildEvents(e, i, position), mode);
            && SameButCounts(m.stack, after.stack) && after.nestedUnits == m.nestedUnits
            && (top.path.Some? ==>
                  CountsUpTo(after.stack[|after.stack| - 1].counts, e.children, i, mode.reading.includeSkipped))
            && after.spans == m.spans + SpansOfChildren(e, i, top.path, position, mode.reading)
    decreases e, i, 2
  {
    hide Feed, CountsUpTo, SpansOfChildren;
    if i == 0 {
      NoChildFed(m, e, position, mode);
    } else {
      ChildrenFed(m, e, i - 1, position, mode);
      OneMoreChild(m, e, i - 1, position, mode);
    }
  }

  lemma NoChildFed(m: Machine, e: Element, position: nat, mode: Mode)
    requires m.stack != [] && m.stack[|m.stack| - 1].counts == map[]
    ensures Feed(m, ChildEvents(e, 0, position), mode) == m && SameButCounts(m.stack, m.stack)
    ensures CountsUpTo(map[], e.children, 0, mode.reading.includeSkipped)
    ensures m.spans == m.spans + SpansOfChildren(e, 0, m.stack[|m.stack| - 1].path, position, mode.reading)
  {
    MergeAssociates(m.spans, map[], map[]);
  }

  // What ChildrenFed says of i children, and one more child, is what it says of i + 1.
  lemma OneMoreChild(m: Machine, e: Element, i: nat, position: nat, mode: Mode)
    requires mode.reading.found && i < |e.children| && Settled(m.stack, mode)
    requires var top := m.stack[|m.stack| - 1];
             var after := Feed(m, ChildEvents(e, i, position), mode);
             && SameButCounts(m.stack, after.stack) && after.nestedUnits == m.nestedUnits
             && (top.path.Some? ==>
                   CountsUpTo(after.stack[|after.stack| - 1].counts, e.children, i, mode.reading.includeSkipped))
             && after.spans == m.spans + SpansOfChildren(e, i, top.path, position, mode.reading)
    ensures var top := m.stack[|m.stack| - 1];
            var after := Feed(m, ChildEvents(e, i + 1, position), mode);
            && SameButCounts(m.stack, after.stack) && after.nestedUnits == m.nestedUnits
            && (top.path.Some? ==>
                  CountsUpTo(after.stack[|after.stack| - 1].counts, e.children, i + 1, mode.reading.includeSkipped))
            && after.spans == m.spans + SpansOfChildren(e, i + 1, top.path, position, mode.reading)
    decreases e, i, 1
  {
    hide Feed, OnStart, CountsUpTo, Numbered;
    var top := m.stack[|m.stack| - 1];
    var before := Feed(m, ChildEvents(e, i, position), mode);
    FeedAppend(m, ChildEvents(e, i, position), Events(e.children[i], ChildPosition(e, i, position)), mode);
    ChildFed(before, e, i, ChildPosition(e, i, position), mode);
    var added := SpansOfChild(e, i, top.path, position, mode.reading);
    MergeAssociates(m.spans, SpansOfChildren(e, i, top.path, position, mode.reading), added);
    SpansOneMore(e, i, top.path, position, mode.reading);
  }

  function SpansOfChild(e: Element, i: nat, path: Option<Path>, position: nat, r: Reading): SpanMap
    requires i < |e.children|
  {
    Numbered(e.children[i], if path.Some? then ChildPath(e, i, path.value, r) else None,
             ChildPosition(e, i, position), r)
  }

  lemma SpansOneMore(e: Element, i: nat, path: Option<Path>, position: nat, r: Reading)
    requires i < |e.children|
    ensures SpansOfChildren(e, i + 1, path, position, r)
         == SpansOfChildren(e, i, path, position, r) + SpansOfChild(e, i, path, position, r)
  {
    MergeAssociates(map[], map[], map[]);
  }

  function SpansOfChildren(e: Element, i: nat, path: Option<Path>, position: nat, r: Reading): SpanMap
    requires i <= |e.children|
  {
    match path
    case None => map[]
    case Some(p) => NumberedChildren(e, i, p, position, r)
  }
}
