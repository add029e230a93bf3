// The tree payload: recursive path numbering, kinds and revision spans, extents
// looked up by path, and the check that parser and payload name the same paths.
module TreeIndex {
  import opened Prelude
  import opened XmlElements
  import opened TreeSpans
  import opened XmlSpans
  import opened XmlSpanIndex
  import opened XmlExtents
  import opened XmlPathSets

  datatype TreeNode = TreeNode(
    path: Path, name: Name, kind: NodeKind, moveId: Option<string>, span: Option<SourceSpan>,
    revision0: Option<SourceSpan>, revision1: Option<SourceSpan>, children: seq<TreeNode>)

  // The payload node of an element, with its span looked up in the index.
  function NodeOf(e: Element, path: Path, spans: SpanMap, includeSkipped: bool): TreeNode
    decreases e, |e.children| + 1
  {
    TreeNode(path, PrefixedName(e.tag), NodeKindOf(e), e.moveId, if path in spans then Some(spans[path]) else None,
             SpanOf(e, Rev0, includeSkipped), SpanOf(e, Rev1, includeSkipped),
             ChildNodes(e, |e.children|, path, spans, includeSkipped))
  }

  function ChildNodes(e: Element, i: nat, path: Path, spans: SpanMap, includeSkipped: bool): seq<TreeNode>
    requires i <= |e.children|
    decreases e, i
  {
    if i == 0 then []
    else if Skipped(e.children[i - 1], includeSkipped) then ChildNodes(e, i - 1, path, spans, includeSkipped)
    else
      ChildNodes(e, i - 1, path, spans, includeSkipped)
      + [NodeOf(e.children[i - 1], path + [ChildStep(e.children, i - 1, includeSkipped)], spans, includeSkipped)]
  }

  function RevisionSpan(node: TreeNode, rev: Revision): Option<SourceSpan> {
    if rev == Rev0 then node.revision0 else node.revision1
  }

  function NodeSpans(nodes: seq<TreeNode>, rev: Revision): (spans: seq<SourceSpan>)
    ensures spans == [] <==> forall i | 0 <= i < |nodes| :: RevisionSpan(nodes[i], rev).None?
  {
    if nodes == [] then []
    else NodeSpans(nodes[..|nodes| - 1], rev) + Listed(RevisionSpan(nodes[|nodes| - 1], rev))
  }

  lemma {:induction false} NodeSpansAreChildSpans(
      e: Element, i: nat, path: Path, spans: SpanMap, includeSkipped: bool, rev: Revision)
    requires i <= |e.children|
    ensures NodeSpans(ChildNodes(e, i, path, spans, includeSkipped), rev) == ChildSpans(e, i, rev, includeSkipped)
  {
    hide NodeOf, SpanOf, ChildStep, NodeSpans, Listed;
    if i == 0 {
      NoNodeSpans(rev);
    } else {
      NodeSpansAreChildSpans(e, i - 1, path, spans, includeSkipped, rev);
      if !Skipped(e.children[i - 1], includeSkipped) {
        var earlier := ChildNodes(e, i - 1, path, spans, includeSkipped);
        var childPath := path + [ChildStep(e.children, i - 1, includeSkipped)];
        NodeSpansNext(earlier, NodeOf(e.children[i - 1], childPath, spans, includeSkipped), rev);
        NodeSpan(e.children[i - 1], childPath, spans, includeSkipped, rev);
      }
    }
  }

  lemma NoNodeSpans(rev: Revision)
    ensures NodeSpans([], rev) == []
  {
  }

  lemma NodeSpansNext(nodes: seq<TreeNode>, node: TreeNode, rev: Revision)
    ensures NodeSpans(nodes + [node], rev) == NodeSpans(nodes, rev) + Listed(RevisionSpan(node, rev))
  {
    assert (nodes + [node])[..|nodes|] == nodes;
  }

  lemma NodeSpan(e: Element, path: Path, spans: SpanMap, includeSkipped: bool, rev: Revision)
    ensures RevisionSpan(NodeOf(e, path, spans, includeSkipped), rev) == SpanOf(e, rev, includeSkipped)
  {
  }

  method MergeChildSpans(children: seq<TreeNode>, rev: Revision) returns (merged: Option<SourceSpan>)
    ensures merged == Hull(NodeSpans(children, rev))
  {
    var spans: seq<SourceSpan> := [];
    for i := 0 to |children|
      invariant spans == NodeSpans(children[..i], rev)
    {
      assert children[..i + 1][..i] == children[..i];
      var span := RevisionSpan(children[i], rev);
      if span.Some? {
        spans := spans + [span.value];
      }
    }
    assert children[..|children|] == children;
    merged := Hull(spans);
  }

  // None stands for a failed assertion.
  method BuildTreeNode(e: Element, path: Path, spans: SpanMap, includeSkipped: bool) returns (built: Option<TreeNode>)
    ensures built.Some? <==> Buildable(e, includeSkipped)
    ensures built.Some? ==> built.value == NodeOf(e, path, spans, includeSkipped)
    decreases e, 1
  {
    hide Hull, OwnSpan, PositionsOk, ChildNodes, ExpectedSpans, SpansExpected;
    if !PositionsOk(e) {
      return None;
    }
    var children := BuildChildren(e, path, spans, includeSkipped);
    if children.None? {
      return None;
    }
    var revision0, revision1 := OwnSpan(e, Rev0), OwnSpan(e, Rev1);
    NodeSpansAreChildSpans(e, |e.children|, path, spans, includeSkipped, Rev0);
    NodeSpansAreChildSpans(e, |e.children|, path, spans, includeSkipped, Rev1);
    if revision0.None? && Merges(e, Rev0) {
      revision0 := MergeChildSpans(children.value, Rev0);
    }
    if revision1.None? && Merges(e, Rev1) {
      revision1 := MergeChildSpans(children.value, Rev1);
    }
    assert revision0 == SpanOf(e, Rev0, includeSkipped) && revision1 == SpanOf(e, Rev1, includeSkipped);
    ExpectedOfChildren(e, path, spans, includeSkipped);
    if !ExpectedSpans(DiffKindOf(e), revision0, revision1, children.value) {
      return None;
    }
    built := Some(TreeNode(path, PrefixedName(e.tag), NodeKindOf(e), e.moveId, if path in spans then
      Some(spans[path]) else None,
                           revision0, revision1, children.value));
  }

  predicate ExpectedSpans(
      kind: Option<DiffKind>, revision0: Option<SourceSpan>, revision1: Option<SourceSpan>, children: seq<TreeNode>) {
    Expected(kind, revision0.Some?, revision1.Some?,
             exists i :: 0 <= i < |children| && RevisionSpan(children[i], Rev0).Some?,
             exists i :: 0 <= i < |children| && RevisionSpan(children[i], Rev1).Some?)
  }

  lemma ExpectedOfChildren(e: Element, path: Path, spans: SpanMap, includeSkipped: bool)
    ensures ExpectedSpans(DiffKindOf(e), SpanOf(e, Rev0, includeSkipped), SpanOf(e, Rev1, includeSkipped),
                          ChildNodes(e, |e.children|, path, spans, includeSkipped))
       <==> SpansExpected(e, includeSkipped)
  {
    hide SpanOf, ChildSpans, ChildNodes, Expected;
    NodeSpansAreChildSpans(e, |e.children|, path, spans, includeSkipped, Rev0);
    NodeSpansAreChildSpans(e, |e.children|, path, spans, includeSkipped, Rev1);
  }

  // The counting loop over the children.
  method BuildChildren(e: Element, path: Path, spans: SpanMap, includeSkipped: bool)
    returns (built: Option<seq<TreeNode>>)
    ensures built.Some? <==>
      forall i | 0 <= i < |e.children| && !Skipped(e.children[i], includeSkipped) ::
        Buildable(e.children[i], includeSkipped)
    ensures built.Some? ==> built.value == ChildNodes(e, |e.children|, path, spans, includeSkipped)
    decreases e, 0
  {
    hide Buildable, NodeOf;
    var children: seq<TreeNode> := [];
    var counts: map<Name, nat> := map[];
    for i := 0 to |e.children|
      invariant CountsUpTo(counts, e.children, i, includeSkipped)
      invariant forall k | 0 <= k < i && !Skipped(e.children[k], includeSkipped) ::
        Buildable(e.children[k], includeSkipped)
      invariant children == ChildNodes(e, i, path, spans, includeSkipped)
    {
      BumpCounts(counts, e.children, i, includeSkipped);
      var child := e.children[i];
      if !Skipped(child, includeSkipped) {
        var name := PrefixedName(child.tag);
        counts := Bump(counts, name);
        var node := BuildTreeNode(child, path + [Step(name, counts[name])], spans, includeSkipped);
        if node.None? {
          return None;
        }
        children := children + [node.value];
      }
    }
    built := Some(children);
  }

  // -- tree_has_positions --

  predicate HasPositions(node: TreeNode) {
    || node.revision0.Some? || node.revision1.Some?
    || exists i :: 0 <= i < |node.children| && HasPositions(node.children[i])
  }

  predicate AnyNode(nodes: seq<TreeNode>) {
    exists i :: 0 <= i < |nodes| && HasPositions(nodes[i])
  }

  // A tree shows spans exactly if one of its elements has positions.
  lemma {:induction false} HasPositionsIff(e: Element, path: Path, spans: SpanMap, includeSkipped: bool)
    ensures HasPositions(NodeOf(e, path, spans, includeSkipped)) <==> AnyPositions(e, includeSkipped)
    decreases e, |e.children| + 1
  {
    hide Earliest, Latest, ChildNodes, ChildSpans;
    var n := |e.children|;
    ChildrenHavePositions(e, n, path, spans, includeSkipped);
    NodeSpansAreChildSpans(e, n, path, spans, includeSkipped, Rev0);
    NodeSpansAreChildSpans(e, n, path, spans, includeSkipped, Rev1);
    SpansShow(ChildNodes(e, n, path, spans, includeSkipped));
  }

  lemma SpansShow(nodes: seq<TreeNode>)
    ensures NodeSpans(nodes, Rev0) != [] || NodeSpans(nodes, Rev1) != [] ==> AnyNode(nodes)
  {
    if NodeSpans(nodes, Rev0) != [] {
      var i :| 0 <= i < |nodes| && RevisionSpan(nodes[i], Rev0).Some?;
      assert HasPositions(nodes[i]);
    } else if NodeSpans(nodes, Rev1) != [] {
      var i :| 0 <= i < |nodes| && RevisionSpan(nodes[i], Rev1).Some?;
      assert HasPositions(nodes[i]);
    }
  }

  predicate AnyAmong(e: Element, i: nat, includeSkipped: bool)
    requires i <= |e.children|
  {
    exists j :: 0 <= j < i && !Skipped(e.children[j], includeSkipped) && AnyPositions(e.children[j], includeSkipped)
  }

  lemma AnyAmongNext(e: Element, i: nat, includeSkipped: bool)
    requires i < |e.children|
    ensures AnyAmong(e, i + 1, includeSkipped) <==>
      AnyAmong(e, i, includeSkipped)
          || (!Skipped(e.children[i], includeSkipped) && AnyPositions(e.children[i], includeSkipped))
  {
  }

  lemma NoneHavePositions(e: Element, includeSkipped: bool)
    ensures !AnyNode([]) && !AnyAmong(e, 0, includeSkipped)
  {
  }

  lemma {:induction false} ChildrenHavePositions(e: Element, i: nat, path: Path, spans: SpanMap, includeSkipped: bool)
    requires i <= |e.children|
    ensures AnyNode(ChildNodes(e, i, path, spans, includeSkipped)) <==> AnyAmong(e, i, includeSkipped)
    decreases e, i
  {
    hide HasPositions, AnyPositions, NodeOf, ChildStep, AnyNode, AnyAmong;
    if i == 0 {
      NoneHavePositions(e, includeSkipped);
    } else {
      ChildrenHavePositions(e, i - 1, path, spans, includeSkipped);
      AnyAmongNext(e, i - 1, includeSkipped);
      var child := e.children[i - 1];
      if !Skipped(child, includeSkipped) {
        var childPath := path + [ChildStep(e.children, i - 1, includeSkipped)];
        HasPositionsIff(child, childPath, spans, includeSkipped);
        AnyOfAppended(ChildNodes(e, i - 1, path, spans, includeSkipped),
            NodeOf(child, childPath, spans, includeSkipped));
      }
    }
  }

  lemma AnyOfAppended(nodes: seq<TreeNode>, node: TreeNode)
    ensures AnyNode(nodes + [node]) <==> AnyNode(nodes) || HasPositions(node)
  {
    hide HasPositions;
    var more := nodes + [node];
    assert more[|nodes|] == node && forall k | 0 <= k < |nodes| :: more[k] == nodes[k];
    if k :| 0 <= k < |nodes| && HasPositions(nodes[k]) {
      assert HasPositions(more[k]);
    }
  }

  // -- Every node carries what was recorded for its own element --

  // The payload with spans read off the document rather than looked up.
  function Positioned(e: Element, path: Path, position: nat, r: Reading): TreeNode
    decreases e, |e.children| + 1
  {
    TreeNode(path, PrefixedName(e.tag), NodeKindOf(e), e.moveId, ReadSpan(e, position, r),
             SpanOf(e, Rev0, r.includeSkipped), SpanOf(e, Rev1, r.includeSkipped),
             PositionedChildren(e, |e.children|, path, position, r))
  }

  function PositionedChildren(e: Element, i: nat, path: Path, position: nat, r: Reading): seq<TreeNode>
    requires i <= |e.children|
    decreases e, i
  {
    if i == 0 then []
    else if Skipped(e.children[i - 1], r.includeSkipped) then PositionedChildren(e, i - 1, path, position, r)
    else
      PositionedChildren(e, i - 1, path, position, r)
      + [Positioned(e.children[i - 1], path
          + [ChildStep(e.children, i - 1, r.includeSkipped)], ChildPosition(e, i - 1, position), r)]
  }

  ghost predicate PartOf(part: SpanMap, whole: SpanMap) {
    forall p | p in part :: p in whole && whole[p] == part[p]
  }

  lemma {:induction false} NodeIsPositioned(
      e: Element, path: Path, position: nat, spans: SpanMap, r: Reading, last: nat)
    requires BracketPast(r.doc, e, position, last)
    requires PartOf(Numbered(e, Some(path), position, r), spans)
    ensures NodeOf(e, path, spans, r.includeSkipped) == Positioned(e, path, position, r)
    decreases e, |e.children| + 1
  {
    hide ChildPosition, ReadSpan, BracketPast;
    BracketReads(e, position, r, last);
    OwnPathLast(e, path, position, r);
    ChildrenArePositioned(e, |e.children|, path, position, spans, r, last);
  }

  lemma BracketReads(e: Element, position: nat, r: Reading, last: nat)
    requires BracketPast(r.doc, e, position, last)
    ensures ReadSpan(e, position, r).Some?
  {
    BracketFound(r.doc, e, position, last);
  }

  // No descendant takes the element's own path.
  lemma OwnPathLast(e: Element, path: Path, position: nat, r: Reading)
    requires ReadSpan(e, position, r).Some?
    ensures var own := Numbered(e, Some(path), position, r);
            && path in own && own[path] == ReadSpan(e, position, r).value
            && PartOf(NumberedChildren(e, |e.children|, path, position, r), own)
  {
    hide StepOfChild, ReadSpan;
    ChildrenNumberedBelow(e, |e.children|, path, position, r);
  }

  lemma {:induction false} ChildrenArePositioned(
      e: Element, i: nat, path: Path, position: nat, spans: SpanMap, r: Reading, last: nat)
    requires i <= |e.children| && BracketPast(r.doc, e, position, last)
    requires PartOf(NumberedChildren(e, i, path, position, r), spans)
    ensures ChildNodes(e, i, path, spans, r.includeSkipped) == PositionedChildren(e, i, path, position, r)
    decreases e, i
  {
    hide Numbered, ChildStep, ChildPosition, NodeOf, Positioned, BracketPast;
    if i == 0 {
    } else {
      PartsWithin(e, i - 1, path, position, r);
      ChildrenArePositioned(e, i - 1, path, position, spans, r, last);
      if !Skipped(e.children[i - 1], r.includeSkipped) {
        BracketPastChild(r.doc, e, i - 1, position, last);
        NodeIsPositioned(e.children[i - 1], path + [ChildStep(e.children, i - 1, r.includeSkipped)],
                         ChildPosition(e, i - 1, position), spans, r, last);
      }
    }
  }

  lemma PartsWithin(e: Element, i: nat, path: Path, position: nat, r: Reading)
    requires i < |e.children|
    ensures var all := NumberedChildren(e, i + 1, path, position, r);
            && PartOf(NumberedChildren(e, i, path, position, r), all)
            && PartOf(Numbered(e.children[i], ChildPath(e, i, path, r), ChildPosition(e, i, position), r), all)
  {
    hide Numbered, ChildPosition, ChildStep;
    if Skipped(e.children[i], r.includeSkipped) {
      NothingNumbered(e.children[i], ChildPosition(e, i, position), r);
    } else {
      SiblingsDisjoint(e, i, path, position, r);
    }
  }

  // -- When that is the element's own span --

  // No element the tree shows is written as an empty-element tag.
  predicate NoEmptyTags(e: Element, includeSkipped: bool) {
    && e.form.close != ""
    && forall i | 0 <= i < |e.children| && !Skipped(e.children[i], includeSkipped) ::
         NoEmptyTags(e.children[i], includeSkipped)
  }

  predicate NoEmptyTagsAmong(e: Element, i: nat, includeSkipped: bool)
    requires i <= |e.children|
  {
    forall j | 0 <= j < i && !Skipped(e.children[j], includeSkipped) :: NoEmptyTags(e.children[j], includeSkipped)
  }

  // The nodes of a tree all carry the spans of their own elements exactly if
  // every element has an end tag.
  lemma {:induction false} OwnSpansIff(e: Element, path: Path, position: nat, doc: string, includeSkipped: bool)
    requires TextAt(doc, position, Source(e)) && WellWritten(e)
    ensures NoEmptyTags(e, includeSkipped) <==>
      Positioned(e, path, position, Reading(doc, includeSkipped, true))
          == Positioned(e, path, position, Reading(doc, includeSkipped, false))
    decreases e, |e.children| + 1
  {
    hide Source, FoundSpan, OwnSpanAt, PositionedChildren, NoEmptyTagsAmong, SpanOf;
    FoundIsOwnIff(doc, e, position);
    ChildrenOwnSpansIff(e, |e.children|, path, position, doc, includeSkipped);
    AllAmong(e, includeSkipped);
  }

  lemma AllAmong(e: Element, includeSkipped: bool)
    ensures NoEmptyTags(e, includeSkipped) <==> e.form.close != "" && NoEmptyTagsAmong(e, |e.children|, includeSkipped)
  {
  }

  lemma OneMoreAmong(e: Element, i: nat, includeSkipped: bool)
    requires i < |e.children|
    ensures NoEmptyTagsAmong(e, i + 1, includeSkipped) <==>
      NoEmptyTagsAmong(e, i, includeSkipped)
          && (Skipped(e.children[i], includeSkipped) || NoEmptyTags(e.children[i], includeSkipped))
  {
  }

  lemma {:induction false} ChildrenOwnSpansIff(
      e: Element, i: nat, path: Path, position: nat, doc: string, includeSkipped: bool)
    requires i <= |e.children| && TextAt(doc, position, Source(e)) && WellWritten(e)
    ensures NoEmptyTagsAmong(e, i, includeSkipped) <==>
      PositionedChildren(e, i, path, position, Reading(doc, includeSkipped, true))
      == PositionedChildren(e, i, path, position, Reading(doc, includeSkipped, false))
    ensures |PositionedChildren(e, i, path, position, Reading(doc, includeSkipped, true))|
         == |PositionedChildren(e, i, path, position, Reading(doc, includeSkipped, false))|
    decreases e, i
  {
    hide Source, Positioned, NoEmptyTags, NoEmptyTagsAmong, ChildStep, ChildPosition, TextAt;
    if i == 0 {
      NoneAmong(e, includeSkipped);
    } else {
      ChildrenOwnSpansIff(e, i - 1, path, position, doc, includeSkipped);
      OneMoreAmong(e, i - 1, includeSkipped);
      if !Skipped(e.children[i - 1], includeSkipped) {
        var childPath := path + [ChildStep(e.children, i - 1, includeSkipped)];
        var start := ChildPosition(e, i - 1, position);
        ChildWritten(doc, e, i - 1, position);
        OwnSpansIff(e.children[i - 1], childPath, start, doc, includeSkipped);
        SameAppended(PositionedChildren(e, i - 1, path, position, Reading(doc, includeSkipped, true)),
                     PositionedChildren(e, i - 1, path, position, Reading(doc, includeSkipped, false)),
                     Positioned(e.children[i - 1], childPath, start, Reading(doc, includeSkipped, true)),
                     Positioned(e.children[i - 1], childPath, start, Reading(doc, includeSkipped, false)));
      }
    }
  }

  lemma NoneAmong(e: Element, includeSkipped: bool)
    ensures NoEmptyTagsAmong(e, 0, includeSkipped)
  {
  }

  lemma SameAppended(a: seq<TreeNode>, b: seq<TreeNode>, x: TreeNode, y: TreeNode)
    requires |a| == |b|
    ensures a + [x] == b + [y] <==> a == b && x == y
  {
    assert (a + [x])[..|a|] == a && (b + [y])[..|b|] == b;
    assert (a + [x])[|a|] == x && (b + [y])[|b|] == y;
  }

  // -- Collecting the paths of the payload --

  function PathsOf(node: TreeNode): set<Path>
    decreases node, |node.children| + 1
  {
    {node.path} + PathsOfFirst(node, |node.children|)
  }

  function PathsOfFirst(node: TreeNode, i: nat): set<Path>
    requires i <= |node.children|
    decreases node, i
  {
    if i == 0 then {} else PathsOfFirst(node, i - 1) + PathsOf(node.children[i - 1])
  }

  method CollectTreePaths(node: TreeNode, paths: set<Path>) returns (collected: set<Path>)
    ensures collected == paths + PathsOf(node)
    decreases node
  {
    collected := paths + {node.path};
    for i := 0 to |node.children|
      invariant collected == paths + {node.path} + PathsOfFirst(node, i)
    {
      collected := CollectTreePaths(node.children[i], collected);
    }
  }

  lemma {:induction false} NodePaths(e: Element, path: Path, position: nat, spans: SpanMap, r: Reading)
    requires !r.found
    ensures PathsOf(NodeOf(e, path, spans, r.includeSkipped)) == Numbered(e, Some(path), position, r).Keys
    decreases e, |e.children| + 1
  {
    hide OwnSpanAt, ChildNodes, NumberedChildren;
    var node := NodeOf(e, path, spans, r.includeSkipped);
    ChildNodePaths(e, |e.children|, path, position, spans, r);
    ListedPaths(node, |node.children|);
    assert node.children[..|node.children|] == node.children;
  }

  function PathsOfNodes(nodes: seq<TreeNode>): set<Path> {
    if nodes == [] then {} else PathsOfNodes(nodes[..|nodes| - 1]) + PathsOf(nodes[|nodes| - 1])
  }

  lemma {:induction false} ListedPaths(node: TreeNode, i: nat)
    requires i <= |node.children|
    ensures PathsOfFirst(node, i) == PathsOfNodes(node.children[..i])
  {
    if i == 0 {
    } else {
      ListedPaths(node, i - 1);
      assert node.children[..i][..i - 1] == node.children[..i - 1];
    }
  }

  lemma {:induction false} ChildNodePaths(e: Element, i: nat, path: Path, position: nat, spans: SpanMap, r: Reading)
    requires !r.found && i <= |e.children|
    ensures PathsOfNodes(ChildNodes(e, i, path, spans, r.includeSkipped))
          == NumberedChildren(e, i, path, position, r).Keys
    decreases e, i
  {
    hide Numbered, ChildStep, ChildPosition, NodeOf, PathsOf, PathsOfNodes;
    if i == 0 {
      NoPaths();
    } else {
      ChildNodePaths(e, i - 1, path, position, spans, r);
      var earlier := ChildNodes(e, i - 1, path, spans, r.includeSkipped);
      if Skipped(e.children[i - 1], r.includeSkipped) {
        NothingNumbered(e.children[i - 1], ChildPosition(e, i - 1, position), r);
        MergeAssociates(NumberedChildren(e, i - 1, path, position, r), map[], map[]);
      } else {
        var childPath := path + [ChildStep(e.children, i - 1, r.includeSkipped)];
        NodePaths(e.children[i - 1], childPath, ChildPosition(e, i - 1, position), spans, r);
        PathsOfAppended(earlier, NodeOf(e.children[i - 1], childPath, spans, r.includeSkipped));
      }
    }
  }

  // -- The units of a document --

  function NestedUnits(root: Element, i: nat): (units: seq<Element>)
    requires i <= |root.children|
    ensures |units| == UnitCount(root, i, true)
  {
    if i == 0 then []
    else NestedUnits(root, i - 1) + if IsUnit(root.children[i - 1], true) then [root.children[i - 1]] else []
  }

  function FileUnits(root: Element): seq<Element> {
    var nested := NestedUnits(root, |root.children|);
    if nested != [] then nested else if IsFileUnit(root) then [root] else []
  }

  // None of the units trips an assertion.
  predicate UnitsBuildable(units: seq<Element>, includeSkipped: bool) {
    forall k | 0 <= k < |units| :: Buildable(units[k], includeSkipped)
  }

  datatype Index = Index(trees: map<nat, TreeNode>, hasPositions: bool)

  // One tree per unit, numbered from 1.
  ghost predicate Indexed(trees: map<nat, TreeNode>, units: seq<Element>, k: nat, spans: SpanMap, includeSkipped: bool)
    requires k <= |units|
  {
    && (forall number :: number in trees <==> 1 <= number <= k)
    && forall number | number in trees ::
         trees[number] == NodeOf(units[number - 1], UnitPath(number), spans, includeSkipped)
  }

  method BuildTreeIndex(d: Document, includeSkipped: bool) returns (index: Option<Index>)
    ensures index.Some? <==> UnitsBuildable(FileUnits(d.root), includeSkipped)
    ensures index.Some? ==>
      Indexed(index.value.trees, FileUnits(d.root), |FileUnits(d.root)|, XmlSpanMap(d, includeSkipped), includeSkipped)
    ensures index.Some? ==>
      (index.value.hasPositions <==>
        exists k :: 0 <= k < |FileUnits(d.root)| && AnyPositions(FileUnits(d.root)[k], includeSkipped))
  {
    hide NodeOf, XmlSpanMap, Buildable, AnyPositions, HasPositions;
    var units := FileUnits(d.root);
    var spans := BuildXmlSpanIndex(d, includeSkipped);
    var trees: map<nat, TreeNode> := map[];
    var hasPositions := false;
    for k := 0 to |units|
      invariant Indexed(trees, units, k, spans, includeSkipped)
      invariant forall u | 0 <= u < k :: Buildable(units[u], includeSkipped)
      invariant hasPositions <==> exists u :: 0 <= u < k && AnyPositions(units[u], includeSkipped)
    {
      var tree := BuildTreeNode(units[k], UnitPath(k + 1), spans, includeSkipped);
      if tree.None? {
        return None;
      }
      HasPositionsIff(units[k], UnitPath(k + 1), spans, includeSkipped);
      trees := trees[k + 1 := tree.value];
      hasPositions := hasPositions || HasPositions(tree.value);
    }
    index := Some(Index(trees, hasPositions));
  }

  // The trees of the first k units, as the payload holds them.
  function UnitTrees(d: Document, k: nat, spans: SpanMap, includeSkipped: bool): seq<TreeNode>
    requires k <= |FileUnits(d.root)|
  {
    if k == 0 then []
    else
      UnitTrees(d, k - 1, spans, includeSkipped)
      + [NodeOf(FileUnits(d.root)[k - 1], UnitPath(k), spans, includeSkipped)]
  }

  // assert_xml_tree_paths_match, over the payload of build_tree_index if there is one.
  method XmlTreePathsMatch(d: Document, includeSkipped: bool) returns (same: Option<bool>)
    requires WellWritten(d.root)
    ensures same.Some? <==> UnitsBuildable(FileUnits(d.root), includeSkipped)
    ensures same.Some? ==> (same.value <==> PathsAgree(d.root) && !UnitLost(d))
  {
    hide NodeOf, XmlSpanMap, FileUnits, UnitPath, PathsAgree, UnitLost, WellWritten, PathsOf, TreeSpanMap,
        UnitsBuildable, AnyPositions;
    var xml := BuildXmlSpanIndex(d, includeSkipped);
    var index := BuildTreeIndex(d, includeSkipped);
    if index.None? {
      return None;
    }
    var trees := index.value.trees;
    var paths: set<Path> := {};
    for k := 0 to |FileUnits(d.root)|
      invariant paths == PathsOfNodes(UnitTrees(d, k, xml, includeSkipped))
    {
      assert 1 <= k + 1 <= |FileUnits(d.root)|;
      var earlier := UnitTrees(d, k, xml, includeSkipped);
      assert (earlier + [trees[k + 1]])[..|earlier|] == earlier;
      paths := CollectTreePaths(trees[k + 1], paths);
    }
    PayloadPaths(d, xml, includeSkipped);
    PathSetsAgreeIff(d, includeSkipped);
    same := Some(xml.Keys == paths);
  }

  lemma PathsOfAppended(nodes: seq<TreeNode>, node: TreeNode)
    ensures PathsOfNodes(nodes + [node]) == PathsOfNodes(nodes) + PathsOf(node)
  {
    assert (nodes + [node])[..|nodes|] == nodes;
  }

  lemma NoPaths()
    ensures PathsOfNodes([]) == {}
  {
  }

  lemma PayloadPaths(d: Document, spans: SpanMap, includeSkipped: bool)
    ensures PathsOfNodes(UnitTrees(d, |FileUnits(d.root)|, spans, includeSkipped))
          == TreeSpanMap(d, includeSkipped).Keys
  {
    hide NodeOf, Numbered, PathsOf, PathsOfNodes, UnitPath, Bytes;
    var n := |d.root.children|;
    NoPaths();
    if UnitCount(d.root, n, true) > 0 {
      NestedUnitPaths(d, n, spans, Own(d, includeSkipped));
    } else if IsFileUnit(d.root) {
      NodePaths(d.root, UnitPath(1), |d.prolog|, spans, Own(d, includeSkipped));
      PathsOfAppended([], NodeOf(d.root, UnitPath(1), spans, includeSkipped));
    }
  }

  lemma {:induction false} NestedUnitPaths(d: Document, i: nat, spans: SpanMap, r: Reading)
    requires !r.found && i <= |d.root.children| && UnitCount(d.root, |d.root.children|, true) > 0
    ensures UnitCount(d.root, i, true) <= |FileUnits(d.root)|
    ensures PathsOfNodes(UnitTrees(d, UnitCount(d.root, i, true), spans, r.includeSkipped))
          == UnitSpans(d, i, true, r).Keys
  {
    hide PathsOfNodes, NodeOf, UnitSpan;
    UnitsPrefix(d.root, i, |d.root.children|);
    if i == 0 {
      NoPaths();
    } else {
      UnitsPrefix(d.root, i - 1, |d.root.children|);
      NestedUnitPaths(d, i - 1, spans, r);
      AnotherUnitPaths(d, i - 1, spans, r);
    }
  }

  lemma AnotherUnitPaths(d: Document, i: nat, spans: SpanMap, r: Reading)
    requires !r.found && i < |d.root.children|
    requires UnitCount(d.root, i + 1, true) <= |FileUnits(d.root)|
    requires IsUnit(d.root.children[i], true) ==> FileUnits(d.root)[UnitCount(d.root, i, true)] == d.root.children[i]
    requires PathsOfNodes(UnitTrees(d, UnitCount(d.root, i, true), spans, r.includeSkipped))
          == UnitSpans(d, i, true, r).Keys
    ensures PathsOfNodes(UnitTrees(d, UnitCount(d.root, i + 1, true), spans, r.includeSkipped))
          == UnitSpans(d, i + 1, true, r).Keys
  {
    hide NodeOf, Numbered, PathsOf, PathsOfNodes, UnitPath, FileUnits, UnitPosition;
    if IsUnit(d.root.children[i], true) {
      var number := UnitCount(d.root, i, true) + 1;
      NodePaths(d.root.children[i], UnitPath(number), UnitPosition(d, i), spans, r);
      PathsOfAppended(UnitTrees(d, number - 1, spans, r.includeSkipped),
          NodeOf(d.root.children[i], UnitPath(number), spans, r.includeSkipped));
    } else {
      NothingNumbered(d.root.children[i], UnitPosition(d, i), r);
    }
  }

  lemma {:induction false} UnitsPrefix(root: Element, i: nat, j: nat)
    requires i <= j <= |root.children|
    ensures NestedUnits(root, i) <= NestedUnits(root, j)
    ensures i < j && IsUnit(root.children[i], true) ==>
      UnitCount(root, i, true) < |NestedUnits(root, j)|
          && NestedUnits(root, j)[UnitCount(root, i, true)] == root.children[i]
    decreases j
  {
    if i == j {
    } else {
      UnitsPrefix(root, i, j - 1);
    }
  }

  // -- The main result on node spans --

  lemma {:induction false} UnitWithin(d: Document, i: nat, j: nat, exact: bool, r: Reading)
    requires i < j <= |d.root.children|
    ensures PartOf(UnitSpan(d, i, exact, r), UnitSpans(d, j, exact, r))
    decreases j
  {
    hide UnitSpan, UnitPathsWithin, PartOf;
    var earlier, last := UnitSpans(d, j - 1, exact, r), UnitSpan(d, j - 1, exact, r);
    if i == j - 1 {
      LastPart(earlier, last);
    } else {
      UnitWithin(d, i, j - 1, exact, r);
      if IsUnit(d.root.children[j - 1], exact) {
        UnitPathsBounded(d, j - 1, exact, r);
        OneMoreUnit(d, j - 1, exact, r);
        EarlierPart(UnitSpan(d, i, exact, r), earlier, last);
      } else {
        OtherUnfolded(d, j - 1, exact, r);
      }
    }
  }

  lemma LastPart(earlier: SpanMap, last: SpanMap)
    ensures PartOf(last, earlier + last)
  {
  }

  lemma EarlierPart(part: SpanMap, earlier: SpanMap, last: SpanMap)
    requires PartOf(part, earlier) && earlier.Keys !! last.Keys
    ensures PartOf(part, earlier + last)
  {
  }

  // The tree a unit gets, with the spans recorded for its own elements.
  ghost predicate HoldsRecorded(d: Document, unit: Element, number: nat, position: nat, includeSkipped: bool) {
    && 1 <= number <= |FileUnits(d.root)| && FileUnits(d.root)[number - 1] == unit
    && NodeOf(unit, UnitPath(number), XmlSpanMap(d, includeSkipped), includeSkipped)
       == Positioned(unit, UnitPath(number), position, Found(d, includeSkipped))
  }

  // Under PathsAgree, every node of the tree of every unit holds what the end
  // handler recorded for its own element, and nothing if it recorded nothing.
  lemma NodesHoldRecorded(d: Document, includeSkipped: bool)
    requires WellWritten(d.root) && PathsAgree(d.root)
    ensures IsFileUnit(d.root) ==>
      FileUnits(d.root) == [d.root] && HoldsRecorded(d, d.root, 1, |d.prolog|, includeSkipped)
    ensures forall i | 0 <= i < |d.root.children| && IsUnit(d.root.children[i], true) ::
      HoldsRecorded(d, d.root.children[i], UnitCount(d.root, i, true) + 1, UnitPosition(d, i), includeSkipped)
  {
    hide HoldsRecorded, Numbered, UnitPosition, XmlSpanMap;
    UnitsCounted(d.root, |d.root.children|, true);
    if UnitLost(d) {
      LostUnitHolds(d, includeSkipped);
    } else if IsFileUnit(d.root) {
      RootHolds(d, includeSkipped);
    }
    forall i | 0 <= i < |d.root.children| && IsUnit(d.root.children[i], true)
      ensures HoldsRecorded(d, d.root.children[i], UnitCount(d.root, i, true) + 1, UnitPosition(d, i), includeSkipped)
    {
      UnitHolds(d, i, includeSkipped);
    }
  }

  lemma LostUnitHolds(d: Document, includeSkipped: bool)
    requires WellWritten(d.root) && UnitLost(d)
    ensures FileUnits(d.root) == [d.root] && HoldsRecorded(d, d.root, 1, |d.prolog|, includeSkipped)
  {
    hide Bytes, FoundSpan;
    NothingFound(d, includeSkipped);
    var e, path, r := d.root, UnitPath(1), Found(d, includeSkipped);
    assert ReadSpan(e, |d.prolog|, r).Some? ==> path in XmlSpanMap(d, includeSkipped);
    assert ChildNodes(e, 0, path, map[], includeSkipped) == PositionedChildren(e, 0, path, |d.prolog|, r);
  }

  lemma RootHolds(d: Document, includeSkipped: bool)
    requires WellWritten(d.root) && PathsAgree(d.root) && IsFileUnit(d.root) && !UnitLost(d)
    ensures FileUnits(d.root) == [d.root] && HoldsRecorded(d, d.root, 1, |d.prolog|, includeSkipped)
  {
    hide NodeOf, Positioned, Numbered, Bytes, FindClose;
    UnitsCounted(d.root, |d.root.children|, true);
    var last := BracketAfter(d);
    NodeIsPositioned(d.root, UnitPath(1), |d.prolog|, XmlSpanMap(d, includeSkipped), Found(d, includeSkipped), last);
  }

  lemma UnitHolds(d: Document, i: nat, includeSkipped: bool)
    requires WellWritten(d.root) && PathsAgree(d.root) && i < |d.root.children| && IsUnit(d.root.children[i], true)
    ensures HoldsRecorded(d, d.root.children[i], UnitCount(d.root, i, true) + 1, UnitPosition(d, i), includeSkipped)
  {
    hide NodeOf, Positioned, Numbered, Bytes, FindClose, ParserSpans, PathsAgree, WellWritten, BracketPast;
    var n, r, number := |d.root.children|, Found(d, includeSkipped), UnitCount(d.root, i, true) + 1;
    HasEndTag(d, i);
    var last := BracketAfter(d);
    BracketPastChild(r.doc, d.root, i, |d.prolog|, last);
    SameUnits(d, r);
    UnitsCounted(d.root, n, true);
    UnitsPrefix(d.root, i, n);
    UnitWithin(d, i, n, true, r);
    NodeIsPositioned(d.root.children[i], UnitPath(number), UnitPosition(d, i), XmlSpanMap(d, includeSkipped), r, last);
  }

  // Under PathsAgree, the tree of a unit holds every element's own span exactly
  // if no element it shows is written as an empty-element tag.
  lemma NodesHoldOwnSpansIff(d: Document, includeSkipped: bool)
    requires WellWritten(d.root) && PathsAgree(d.root)
    ensures IsFileUnit(d.root) ==>
      (HoldsOwn(d, d.root, 1, |d.prolog|, includeSkipped) <==> NoEmptyTags(d.root, includeSkipped))
    ensures forall i | 0 <= i < |d.root.children| && IsUnit(d.root.children[i], true) ::
      HoldsOwn(d, d.root.children[i], UnitCount(d.root, i, true) + 1, UnitPosition(d, i), includeSkipped)
      <==> NoEmptyTags(d.root.children[i], includeSkipped)
  {
    hide HoldsRecorded, HoldsOwn, UnitPosition, NoEmptyTags, PathsAgree;
    NodesHoldRecorded(d, includeSkipped);
    RootWritten(d);
    if IsFileUnit(d.root) {
      OwnIffNoEmptyTags(d, d.root, 1, |d.prolog|, includeSkipped);
    }
    forall i | 0 <= i < |d.root.children| && IsUnit(d.root.children[i], true)
      ensures HoldsOwn(d, d.root.children[i], UnitCount(d.root, i, true) + 1, UnitPosition(d, i), includeSkipped)
         <==> NoEmptyTags(d.root.children[i], includeSkipped)
    {
      UnitWritten(d, i);
      OwnIffNoEmptyTags(d, d.root.children[i], UnitCount(d.root, i, true) + 1, UnitPosition(d, i), includeSkipped);
    }
  }

  ghost predicate HoldsOwn(d: Document, unit: Element, number: nat, position: nat, includeSkipped: bool) {
    NodeOf(unit, UnitPath(number), XmlSpanMap(d, includeSkipped), includeSkipped)
    == Positioned(unit, UnitPath(number), position, Own(d, includeSkipped))
  }

  lemma UnitWritten(d: Document, i: nat)
    requires i < |d.root.children|
    ensures TextAt(Bytes(d), UnitPosition(d, i), Source(d.root.children[i]))
  {
    hide Bytes, Source, TextAt;
    RootWritten(d);
    ChildWritten(Bytes(d), d.root, i, |d.prolog|);
  }

  lemma OwnIffNoEmptyTags(d: Document, unit: Element, number: nat, position: nat, includeSkipped: bool)
    requires TextAt(Bytes(d), position, Source(unit)) && WellWritten(unit)
    requires HoldsRecorded(d, unit, number, position, includeSkipped)
    ensures HoldsOwn(d, unit, number, position, includeSkipped) <==> NoEmptyTags(unit, includeSkipped)
  {
    hide NodeOf, Positioned, NoEmptyTags, Bytes, Source, TextAt, WellWritten, XmlSpanMap, FileUnits;
    OwnSpansIff(unit, UnitPath(number), position, Bytes(d), includeSkipped);
  }

  lemma HasEndTag(d: Document, i: nat)
    requires WellWritten(d.root) && i < |d.root.children|
    ensures d.root.form.close != ""
  {
  }
}
