// The revision spans of tree nodes: an element's own positions, or else the
// hull of its children's spans, and when the builder's checks reject a tree.
module TreeSpans {
  import opened Prelude
  import opened XmlElements

  datatype DiffKind = CommonDiff | DeleteDiff | InsertDiff

  datatype NodeKind = MoveNode | CommonNode | DeleteNode | InsertNode | PlainNode

  function DiffKindOf(e: Element): Option<DiffKind> {
    var name := PrefixedName(e.tag);
    if name == Name(DiffPrefix, "common") then Some(CommonDiff)
    else if name == Name(DiffPrefix, "delete") then Some(DeleteDiff)
    else if name == Name(DiffPrefix, "insert") then Some(InsertDiff)
    else None
  }

  function NodeKindOf(e: Element): NodeKind {
    if e.moveId.Some? && e.moveId.value != "" then MoveNode
    else
      match DiffKindOf(e)
      case Some(CommonDiff) => CommonNode
      case Some(DeleteDiff) => DeleteNode
      case Some(InsertDiff) => InsertNode
      case None => PlainNode
  }

  // -- spans_for_element --

  predicate PositionsOk(e: Element) {
    e.positions != [] && DiffKindOf(e) !in {Some(DeleteDiff), Some(InsertDiff)} ==> |e.positions| <= 2
  }

  function OwnSpan(e: Element, rev: Revision): Option<SourceSpan> {
    if e.positions == [] then None
    else
      match DiffKindOf(e)
      case Some(DeleteDiff) => if rev == Rev0 then Some(e.positions[0]) else None
      case Some(InsertDiff) => if rev == Rev1 then Some(e.positions[0]) else None
      case _ => if rev == Rev0 || |e.positions| == 1 then Some(e.positions[0]) else Some(e.positions[1])
  }

  // -- merge_child_spans --

  predicate NotAfter(line: int, col: int, otherLine: int, otherCol: int) {
    line < otherLine || (line == otherLine && col <= otherCol)
  }

  predicate StartsBy(a: SourceSpan, b: SourceSpan) {
    NotAfter(a.startLine, a.startCol, b.startLine, b.startCol)
  }

  predicate EndsBy(a: SourceSpan, b: SourceSpan) {
    NotAfter(a.endLine, a.endCol, b.endLine, b.endCol)
  }

  predicate CoversSpan(outer: SourceSpan, inner: SourceSpan) {
    StartsBy(outer, inner) && EndsBy(inner, outer)
  }

  function Earliest(spans: seq<SourceSpan>): SourceSpan
    requires spans != []
  {
    if |spans| == 1 then spans[0]
    else
      var first, last := Earliest(spans[..|spans| - 1]), spans[|spans| - 1];
      if StartsBy(first, last) then first else last
  }

  function Latest(spans: seq<SourceSpan>): SourceSpan
    requires spans != []
  {
    if |spans| == 1 then spans[0]
    else
      var furthest, last := Latest(spans[..|spans| - 1]), spans[|spans| - 1];
      if EndsBy(last, furthest) then furthest else last
  }

  function Hull(spans: seq<SourceSpan>): Option<SourceSpan> {
    if spans == [] then None
    else
      var start, end := Earliest(spans), Latest(spans);
      Some(SourceSpan(start.startLine, start.startCol, end.endLine, end.endCol))
  }

  lemma {:induction false} EarliestIsFirst(spans: seq<SourceSpan>)
    requires spans != []
    ensures Earliest(spans) in spans && forall s | s in spans :: StartsBy(Earliest(spans), s)
  {
    if |spans| == 1 {
    } else {
      var front, last := spans[..|spans| - 1], spans[|spans| - 1];
      EarliestIsFirst(front);
      assert spans == front + [last];
    }
  }

  lemma {:induction false} LatestIsLast(spans: seq<SourceSpan>)
    requires spans != []
    ensures Latest(spans) in spans && forall s | s in spans :: EndsBy(s, Latest(spans))
  {
    if |spans| == 1 {
    } else {
      var front, last := spans[..|spans| - 1], spans[|spans| - 1];
      LatestIsLast(front);
      assert spans == front + [last];
    }
  }

  // The merged span is the least one that covers all the spans it merges.
  lemma HullIsLeast(spans: seq<SourceSpan>)
    ensures Hull(spans).None? <==> spans == []
    ensures Hull(spans).Some? ==>
      && (forall s | s in spans :: CoversSpan(Hull(spans).value, s))
      && (forall other | forall s | s in spans :: CoversSpan(other, s) :: CoversSpan(other, Hull(spans).value))
  {
    if spans == [] {
    } else {
      EarliestIsFirst(spans);
      LatestIsLast(spans);
    }
  }

  // -- The spans of a whole tree --

  predicate Merges(e: Element, rev: Revision) {
    match DiffKindOf(e)
    case Some(DeleteDiff) => rev == Rev0
    case Some(InsertDiff) => rev == Rev1
    case _ => true
  }

  function SpanOf(e: Element, rev: Revision, includeSkipped: bool): Option<SourceSpan>
    decreases e, |e.children| + 1
  {
    if OwnSpan(e, rev).Some? then OwnSpan(e, rev)
    else if Merges(e, rev) then Hull(ChildSpans(e, |e.children|, rev, includeSkipped))
    else None
  }

  function ChildSpans(e: Element, i: nat, rev: Revision, includeSkipped: bool): seq<SourceSpan>
    requires i <= |e.children|
    decreases e, i
  {
    if i == 0 then []
    else
      ChildSpans(e, i - 1, rev, includeSkipped)
      + if Skipped(e.children[i - 1], includeSkipped) then
        [] else Listed(SpanOf(e.children[i - 1], rev, includeSkipped))
  }

  function Listed(span: Option<SourceSpan>): seq<SourceSpan> {
    match span case None => [] case Some(s) => [s]
  }

  // s is the span of one of the first i children, skipped ones aside.
  predicate SpansChild(e: Element, i: nat, rev: Revision, includeSkipped: bool, s: SourceSpan)
    requires i <= |e.children|
  {
    exists j :: 0 <= j < i && !Skipped(e.children[j], includeSkipped)
        && SpanOf(e.children[j], rev, includeSkipped) == Some(s)
  }

  lemma SpansChildNext(e: Element, i: nat, rev: Revision, includeSkipped: bool, s: SourceSpan)
    requires i < |e.children|
    ensures SpansChild(e, i + 1, rev, includeSkipped, s) <==>
      || SpansChild(e, i, rev, includeSkipped, s)
      || (!Skipped(e.children[i], includeSkipped) && SpanOf(e.children[i], rev, includeSkipped) == Some(s))
  {
    hide SpanOf, Skipped;
  }

  lemma {:induction false} ChildSpansListed(e: Element, i: nat, rev: Revision, includeSkipped: bool)
    requires i <= |e.children|
    ensures forall s :: s in ChildSpans(e, i, rev, includeSkipped) <==> SpansChild(e, i, rev, includeSkipped, s)
  {
    hide SpanOf, Skipped;
    if i == 0 {
    } else {
      ChildSpansListed(e, i - 1, rev, includeSkipped);
      forall s
        ensures s in ChildSpans(e, i, rev, includeSkipped) <==> SpansChild(e, i, rev, includeSkipped, s)
      {
        SpansChildNext(e, i - 1, rev, includeSkipped, s);
      }
    }
  }

  // Without a span of its own, an element spans exactly what its children do.
  lemma SpanIsLeastCover(e: Element, rev: Revision, includeSkipped: bool)
    requires OwnSpan(e, rev).None? && Merges(e, rev)
    ensures var span, n := SpanOf(e, rev, includeSkipped), |e.children|;
      && (span.None? <==> forall s :: !SpansChild(e, n, rev, includeSkipped, s))
      && (span.Some? ==> forall s | SpansChild(e, n, rev, includeSkipped, s) :: CoversSpan(span.value, s))
      && (span.Some? ==>
            forall other | forall s | SpansChild(e, n, rev, includeSkipped, s) :: CoversSpan(other, s) ::
              CoversSpan(other, span.value))
  {
    hide SpansChild, ChildSpans, Hull, CoversSpan;
    var spans := ChildSpans(e, |e.children|, rev, includeSkipped);
    ChildSpansListed(e, |e.children|, rev, includeSkipped);
    HullIsLeast(spans);
    assert spans != [] ==> spans[0] in spans;
  }

  // -- assert_expected_spans --

  // By kind, the spans of a node and whether a child has one.
  predicate Expected(kind: Option<DiffKind>, span0: bool, span1: bool, child0: bool, child1: bool) {
    if !span0 && !span1 && !child0 && !child1 then true
    else
      match kind
      case Some(DeleteDiff) => span0 && !span1
      case Some(InsertDiff) => !span0 && span1
      case _ => (child0 ==> span0) && (child1 ==> span1)
  }

  predicate SpansExpected(e: Element, includeSkipped: bool) {
    var n := |e.children|;
    Expected(DiffKindOf(e), SpanOf(e, Rev0, includeSkipped).Some?, SpanOf(e, Rev1, includeSkipped).Some?,
             ChildSpans(e, n, Rev0, includeSkipped) != [], ChildSpans(e, n, Rev1, includeSkipped) != [])
  }

  // The other revision's spans are all that a node of one revision finds below it.
  predicate OnlyOtherSpans(e: Element, includeSkipped: bool) {
    var n := |e.children|;
    && e.positions == []
    && match DiffKindOf(e)
       case Some(DeleteDiff) => ChildSpans(e, n, Rev0, includeSkipped) == []
           && ChildSpans(e, n, Rev1, includeSkipped) != []
       case Some(InsertDiff) => ChildSpans(e, n, Rev1, includeSkipped) == []
           && ChildSpans(e, n, Rev0, includeSkipped) != []
       case _ => false
  }

  // The only way to fail the check is a deleted or inserted node without
  // positions whose children have spans in the other revision alone.
  lemma UnexpectedIff(e: Element, includeSkipped: bool)
    ensures SpansExpected(e, includeSkipped) <==> !OnlyOtherSpans(e, includeSkipped)
  {
    hide Earliest, Latest, ChildSpans;
    HullIsLeast(ChildSpans(e, |e.children|, Rev0, includeSkipped));
    HullIsLeast(ChildSpans(e, |e.children|, Rev1, includeSkipped));
  }

  // No element of the tree trips an assertion.
  predicate Buildable(e: Element, includeSkipped: bool) {
    && PositionsOk(e) && SpansExpected(e, includeSkipped)
    && forall i | 0 <= i < |e.children| && !Skipped(e.children[i], includeSkipped) ::
         Buildable(e.children[i], includeSkipped)
  }

  // A deleted node around nothing but a positioned insertion.
  const POSITIONED_INSERT := Element(Tag(Diff, "insert"), "", "", [], "", None, [SourceSpan(1, 1, 1, 1)],
                                   Form("<diff:insert pos:start=\"1:1\""
                                       + " pos:end=\"1:1\">", "", "</diff:insert>", ""))
  const UNPOSITIONED_DELETE := Element(Tag(Diff, "delete"), "", "", [POSITIONED_INSERT], "", None, [],
                                     Form("<diff:delete>", "", "</diff:delete>", ""))

  lemma DeleteAroundInsertIsRejected(includeSkipped: bool)
    ensures !Buildable(UNPOSITIONED_DELETE, includeSkipped)
  {
    var e := UNPOSITIONED_DELETE;
    assert e.children[0] == POSITIONED_INSERT;
    assert ChildSpans(POSITIONED_INSERT, 0, Rev0, includeSkipped) == [];
    assert ChildSpans(e, 0, Rev0, includeSkipped) == [] && ChildSpans(e, 0, Rev1, includeSkipped) == [];
    assert SpanOf(POSITIONED_INSERT, Rev0, includeSkipped) == None;
    assert ChildSpans(e, 1, Rev0, includeSkipped) == [];
    assert ChildSpans(e, 1, Rev1, includeSkipped) == [SourceSpan(1, 1, 1, 1)];
    UnexpectedIff(e, includeSkipped);
  }

  // -- tree_has_positions --

  // Some element of the tree, skipped ones aside, has positions.
  predicate AnyPositions(e: Element, includeSkipped: bool) {
    || e.positions != []
    || exists i :: 0 <= i < |e.children| && !Skipped(e.children[i], includeSkipped)
         && AnyPositions(e.children[i], includeSkipped)
  }
}
