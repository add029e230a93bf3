// The bounded focus tree of a file: the root, and the nodes in focus with all
// their ancestors as long as they fit.
module FocusTree {
  import opened Prelude
  import opened ArtifactRows
  import opened ArtifactLinks
  import opened Forests
  import opened DiffTree

  const MAX_TREE_NODES := 500

  datatype Profile = ChangesAndMoves | Moves | Changes | CompleteFile

  predicate InFocus(row: Row, profile: Profile) {
    match profile
    case CompleteFile => true
    case Moves => row.payload.kind == "move"
    case Changes => row.payload.kind in {"insert", "delete"}
    case ChangesAndMoves => row.payload.kind != "plain"
  }

  // Ordinals in focus from lo on; the root is never listed.
  function FocusFrom(rows: seq<Row>, profile: Profile, lo: nat): (focus: seq<nat>)
    ensures forall o | o in focus :: lo <= o < |rows|
    decreases |rows| - lo
  {
    if lo >= |rows| then [] else (if InFocus(rows[lo], profile) then [lo] else []) + FocusFrom(rows, profile, lo + 1)
  }

  function Focus(rows: seq<Row>, profile: Profile): (focus: seq<nat>)
    ensures forall i | 0 <= i < |focus| :: 1 <= focus[i] < |rows|
  {
    var focus := FocusFrom(rows, profile, 1);
    assert forall i | 0 <= i < |focus| :: focus[i] in focus;
    focus
  }

  // A node and all its ancestors.
  function Path(rows: seq<Row>, o: nat): (path: set<nat>)
    requires FileIndex(rows) && o < |rows|
    ensures o in path && forall a | a in path :: a <= o
    decreases o
  {
    {o} + if rows[o].parent.None? then {} else Path(rows, rows[o].parent.value)
  }

  ghost predicate AncestorClosed(rows: seq<Row>, included: set<nat>)
    requires FileIndex(rows)
  {
    forall o | o in included :: o < |rows| && Path(rows, o) <= included
  }

  ghost predicate InRange(rows: seq<Row>, focus: seq<nat>) {
    forall i | 0 <= i < |focus| :: focus[i] < |rows|
  }

  // Add a node with its ancestors if the total stays within the limit.
  function Widen(rows: seq<Row>, included: set<nat>, o: nat, limit: nat): set<nat>
    requires FileIndex(rows) && o < |rows|
  {
    var wider := included + Path(rows, o);
    if |wider| <= limit then wider else included
  }

  // The root, then each of the first k focus nodes offered in turn.
  function Greedy(rows: seq<Row>, focus: seq<nat>, k: nat, limit: nat): set<nat>
    requires FileIndex(rows) && InRange(rows, focus) && k <= |focus|
  {
    if k == 0 then {0} else Widen(rows, Greedy(rows, focus, k - 1, limit), focus[k - 1], limit)
  }

  lemma {:induction false} FocusIsExact(rows: seq<Row>, profile: Profile, lo: nat)
    ensures forall o: nat :: o in FocusFrom(rows, profile, lo) <==> lo <= o < |rows| && InFocus(rows[o], profile)
    ensures Ascending(FocusFrom(rows, profile, lo))
    decreases |rows| - lo
  {
    if |rows| <= lo {
    } else {
      FocusIsExact(rows, profile, lo + 1);
      AscendingCons(lo, FocusFrom(rows, profile, lo + 1));
    }
  }

  // -- What the greedy choice guarantees --

  lemma {:induction false} PathClosed(rows: seq<Row>, o: nat)
    requires FileIndex(rows) && o < |rows|
    ensures AncestorClosed(rows, Path(rows, o)) && 0 in Path(rows, o)
    decreases o
  {
    if rows[o].parent.None? {
    } else {
      PathClosed(rows, rows[o].parent.value);
    }
  }

  lemma SameSize(a: set<nat>, b: set<nat>)
    requires a <= b && |a| == |b|
    ensures a == b
  {
    assert b == a + (b - a) && |b| == |a| + |b - a|;
  }

  lemma WidenIsSound(rows: seq<Row>, included: set<nat>, o: nat, limit: nat)
    requires FileIndex(rows) && o < |rows| && AncestorClosed(rows, included) && |included| <= limit
    ensures var result := Widen(rows, included, o, limit);
            && included <= result && AncestorClosed(rows, result) && |result| <= limit
            && (forall a | a in result && a !in included :: o in result && a in Path(rows, o))
  {
    hide Path, FileIndex;
    PathClosed(rows, o);
  }

  lemma WidenIsMaximal(rows: seq<Row>, included: set<nat>, o: nat, limit: nat)
    requires FileIndex(rows) && o < |rows|
    ensures var result := Widen(rows, included, o, limit);
            && included <= result
            && (o in result || |result + Path(rows, o)| > limit)
            && (|included| == limit ==> result == included)
  {
    var wider := included + Path(rows, o);
    SubsetSize(included, wider);
    if |wider| == |included| {
      SameSize(included, wider);
    }
  }

  // Closed under ancestors, within the limit, and nothing but the root and
  // ancestors of focus nodes that made it in.
  lemma {:induction false} GreedyIsSound(rows: seq<Row>, focus: seq<nat>, k: nat, limit: nat)
    requires FileIndex(rows) && rows != [] && InRange(rows, focus) && k <= |focus| && limit >= 1
    ensures var result := Greedy(rows, focus, k, limit);
            && 0 in result && AncestorClosed(rows, result) && |result| <= limit
            && forall a | a in result && a != 0 :: NeededBy(rows, focus, k, result, a)
  {
    if k == 0 {
      PathClosed(rows, 0);
    } else {
      GreedyIsSound(rows, focus, k - 1, limit);
      GreedyStep(rows, focus, k, limit);
    }
  }

  lemma GreedyStep(rows: seq<Row>, focus: seq<nat>, k: nat, limit: nat)
    requires FileIndex(rows) && InRange(rows, focus) && 0 < k <= |focus|
    requires var before := Greedy(rows, focus, k - 1, limit);
             && 0 in before && AncestorClosed(rows, before) && |before| <= limit
             && forall a | a in before && a != 0 :: NeededBy(rows, focus, k - 1, before, a)
    ensures var result := Greedy(rows, focus, k, limit);
            && 0 in result && AncestorClosed(rows, result) && |result| <= limit
            && forall a | a in result && a != 0 :: NeededBy(rows, focus, k, result, a)
  {
    hide NeededBy, Path, FileIndex, AncestorClosed, Widen;
    var before, result := Greedy(rows, focus, k - 1, limit), Greedy(rows, focus, k, limit);
    WidenIsSound(rows, before, focus[k - 1], limit);
    forall a | a in result && a != 0
      ensures NeededBy(rows, focus, k, result, a)
    {
      StillNeeded(rows, focus, k, before, result, a);
    }
  }

  // An included focus node has the node on its path.
  ghost predicate NeededBy(rows: seq<Row>, focus: seq<nat>, k: nat, result: set<nat>, a: nat)
    requires FileIndex(rows) && InRange(rows, focus) && k <= |focus|
  {
    exists i :: 0 <= i < k && focus[i] in result && a in Path(rows, focus[i])
  }

  lemma StillNeeded(rows: seq<Row>, focus: seq<nat>, k: nat, before: set<nat>, result: set<nat>, a: nat)
    requires FileIndex(rows) && InRange(rows, focus) && 0 < k <= |focus| && before <= result
    requires a in before ==> NeededBy(rows, focus, k - 1, before, a)
    requires a !in before ==> focus[k - 1] in result && a in Path(rows, focus[k - 1])
    ensures NeededBy(rows, focus, k, result, a)
  {
  }

  // A focus node left out does not fit even beside the final result.
  lemma {:induction false} GreedyIsMaximal(rows: seq<Row>, focus: seq<nat>, k: nat, limit: nat)
    requires FileIndex(rows) && InRange(rows, focus) && k <= |focus|
    ensures var result := Greedy(rows, focus, k, limit);
            forall i | 0 <= i < k :: focus[i] in result || |result + Path(rows, focus[i])| > limit
  {
    hide Widen, Path, FileIndex;
    if k == 0 {
    } else {
      GreedyIsMaximal(rows, focus, k - 1, limit);
      var before, result := Greedy(rows, focus, k - 1, limit), Greedy(rows, focus, k, limit);
      WidenIsMaximal(rows, before, focus[k - 1], limit);
      forall i | 0 <= i < k && focus[i] !in result
        ensures |result + Path(rows, focus[i])| > limit
      {
        SubsetSize(before + Path(rows, focus[i]), result + Path(rows, focus[i]));
      }
    }
  }

  function Below(n: nat): (below: set<nat>)
    ensures forall o: nat :: o in below <==> o < n
    ensures |below| == n
  {
    if n == 0 then {} else Below(n - 1) + {n - 1}
  }

  lemma {:induction false} EverythingInFocus(rows: seq<Row>, lo: nat)
    requires lo <= |rows|
    ensures |FocusFrom(rows, CompleteFile, lo)| == |rows| - lo
    ensures forall i | 0 <= i < |rows| - lo :: FocusFrom(rows, CompleteFile, lo)[i] == lo + i
    decreases |rows| - lo
  {
    if lo == |rows| {
    } else {
      EverythingInFocus(rows, lo + 1);
    }
  }

  // With everything in focus, the tree is simply the first `limit` nodes.
  lemma {:induction false} CompleteFileIsPrefix(rows: seq<Row>, k: nat, limit: nat)
    requires FileIndex(rows) && k < |rows| && 1 <= limit
    ensures |Focus(rows, CompleteFile)| == |rows| - 1 && InRange(rows, Focus(rows, CompleteFile))
    ensures Greedy(rows, Focus(rows, CompleteFile), k, limit) == Below(Min(k + 1, limit))
  {
    hide Path, Widen, FileIndex;
    EverythingInFocus(rows, 1);
    if k == 0 {
      assert Below(1) == {0};
    } else {
      CompleteFileIsPrefix(rows, k - 1, limit);
      PrefixGrows(rows, k, limit);
    }
  }

  lemma PrefixGrows(rows: seq<Row>, k: nat, limit: nat)
    requires FileIndex(rows) && 0 < k < |rows|
    ensures Widen(rows, Below(Min(k, limit)), k, limit) == Below(Min(k + 1, limit))
  {
    var wider := Below(Min(k, limit)) + Path(rows, k);
    if k < limit {
      assert wider == Below(k + 1);
    } else {
      assert k !in Below(limit) && k in wider;
      SubsetSize(Below(limit) + {k}, wider);
    }
  }

  // -- _focused_tree_ordinals --

  function Elements(chain: seq<nat>): set<nat> {
    set o | o in chain
  }

  lemma ElementsAppend(chain: seq<nat>, o: nat)
    ensures Elements(chain + [o]) == Elements(chain) + {o}
    ensures o !in Elements(chain) ==> |Elements(chain + [o])| == |Elements(chain)| + 1
  {
  }

  // What is still to be climbed.
  function Above(rows: seq<Row>, current: Option<nat>): set<nat>
    requires FileIndex(rows) && (current.Some? ==> current.value < |rows|)
  {
    if current.Some? then Path(rows, current.value) else {}
  }

  // The ancestors of a node that are not included yet, up to the first that is.
  method MissingChain(rows: seq<Row>, included: set<nat>, ordinal: nat) returns (chain: seq<nat>)
    requires FileIndex(rows) && ordinal < |rows| && AncestorClosed(rows, included)
    ensures |included| + |chain| == |included + Path(rows, ordinal)|
    ensures included + Elements(chain) == included + Path(rows, ordinal)
  {
    hide Elements, FileIndex, Path, Above, AncestorClosed;
    chain := [];
    var current: Option<nat> := Some(ordinal);
    NoElements();
    Climb(rows, ordinal);
    while current.Some? && current.value !in included
      invariant current.Some? ==> current.value < |rows| && forall o | o in Elements(chain) :: current.value < o
      invariant |Elements(chain)| == |chain| && Elements(chain) !! included
      invariant included + Elements(chain) + Above(rows, current) == included + Path(rows, ordinal)
      decreases if current.Some? then current.value + 1 else 0
    {
      ElementsAppend(chain, current.value);
      Climb(rows, current.value);
      MoveOne(included, Elements(chain), current.value, Above(rows, rows[current.value].parent));
      chain := chain + [current.value];
      current := rows[current.value].parent;
    }
    NothingAbove(rows, included, current);
    assert included + Elements(chain) == included + Path(rows, ordinal);
  }

  lemma Climb(rows: seq<Row>, o: nat)
    requires FileIndex(rows) && o < |rows|
    ensures rows[o].parent.Some? ==> rows[o].parent.value < o
    ensures Path(rows, o) == Above(rows, Some(o)) == {o} + Above(rows, rows[o].parent)
  {
  }

  lemma MoveOne(included: set<nat>, listed: set<nat>, o: nat, above: set<nat>)
    ensures included + listed + ({o} + above) == included + (listed + {o}) + above
  {
  }

  lemma NothingAbove(rows: seq<Row>, included: set<nat>, current: Option<nat>)
    requires FileIndex(rows) && AncestorClosed(rows, included)
          && (current.Some? ==> current.value < |rows| && current.value in included)
    ensures Above(rows, current) <= included
  {
    hide FileIndex, Path;
  }

  lemma NoElements()
    ensures Elements([]) == {}
  {
  }

  method FocusedTreeOrdinals(rows: seq<Row>, profile: Profile, limit: nat) returns (included: set<nat>)
    requires FileIndex(rows) && rows != [] && limit >= 1
    ensures included == Greedy(rows, Focus(rows, profile), |Focus(rows, profile)|, limit)
  {
    hide FileIndex, Path, Elements, AncestorClosed, InFocus, FocusFrom, Focus, Widen, NeededBy;
    var focus := Focus(rows, profile);
    included := {0};
    for k := 0 to |focus|
      invariant included == Greedy(rows, focus, k, limit)
    {
      GreedyIsSound(rows, focus, k, limit);
      var chain := MissingChain(rows, included, focus[k]);
      ChainWidens(rows, included, focus[k], chain, limit);
      if |included| + |chain| > limit {
        continue;
      }
      included := included + Elements(chain);
      if |included| == limit {
        FullStaysFull(rows, focus, k + 1, |focus|, limit);
        break;
      }
    }
  }

  lemma ChainWidens(rows: seq<Row>, included: set<nat>, o: nat, chain: seq<nat>, limit: nat)
    requires FileIndex(rows) && o < |rows|
    requires |included| + |chain| == |included + Path(rows, o)|
          && included + Elements(chain) == included + Path(rows, o)
    ensures Widen(rows, included, o, limit)
          == if |included| + |chain| > limit then included else included + Elements(chain)
  {
  }

  // A full set stays as it is, so stopping early changes nothing.
  lemma {:induction false} FullStaysFull(rows: seq<Row>, focus: seq<nat>, k: nat, j: nat, limit: nat)
    requires FileIndex(rows) && InRange(rows, focus) && k <= j <= |focus|
    requires |Greedy(rows, focus, k, limit)| == limit
    ensures Greedy(rows, focus, j, limit) == Greedy(rows, focus, k, limit)
    decreases j
  {
    hide Widen, FileIndex, Path;
    if k == j {
    } else {
      FullStaysFull(rows, focus, k, j - 1, limit);
      WidenIsMaximal(rows, Greedy(rows, focus, j - 1, limit), focus[j - 1], limit);
    }
  }

  // -- Projection --

  function RowParents(rows: seq<Row>): Parents {
    seq(|rows|, o requires 0 <= o < |rows| => ToIndex(rows[o].parent))
  }

  function AllOrdinals(rows: seq<Row>): set<nat> {
    Below(|rows|)
  }

  // A node's children in the full tree.
  function RowChildren(rows: seq<Row>, o: nat): seq<nat> {
    Children(RowParents(rows), AllOrdinals(rows), o, 0)
  }

  ghost predicate CountedIndex(rows: seq<Row>) {
    && FileIndex(rows)
    && forall o | 0 <= o < |rows| :: rows[o].childCount == |RowChildren(rows, o)|
  }

  lemma ClosedIsForest(rows: seq<Row>, included: set<nat>)
    requires FileIndex(rows) && AncestorClosed(rows, included)
    ensures Forest(RowParents(rows), included)
  {
    forall o | o in included && rows[o].parent.Some?
      ensures rows[o].parent.value in included
    {
      assert rows[o].parent.value in Path(rows, o);
    }
  }

  type ChildLists = map<nat, seq<nat>>

  function ListAt(lists: ChildLists, o: nat): seq<nat> {
    if o in lists then lists[o] else []
  }

  ghost predicate ListsChildren(rows: seq<Row>, included: set<nat>, lists: ChildLists) {
    forall o: nat | o in included :: ListAt(lists, o) == Children(RowParents(rows), included, o, 0)
  }

  // The lists once the members below `lo` were visited.
  ghost predicate GroupedTo(rows: seq<Row>, included: set<nat>, lists: ChildLists, lo: nat) {
    forall o: nat | o in included ::
      ListAt(lists, o) + Children(RowParents(rows), included, o, lo) == Children(RowParents(rows), included, o, 0)
  }

  // Visiting sorted(included): members are met in ascending order.
  method GroupChildren(rows: seq<Row>, included: set<nat>) returns (lists: ChildLists)
    requires FileIndex(rows) && AncestorClosed(rows, included)
    ensures ListsChildren(rows, included, lists)
  {
    lists := map[];
    for ordinal := 0 to |rows|
      invariant GroupedTo(rows, included, lists, ordinal)
    {
      hide GroupedTo;
      GroupMore(rows, included, lists, ordinal);
      if ordinal in included {
        var parent := rows[ordinal].parent;
        if parent.Some? && parent.value in included {
          lists := lists[parent.value := ListAt(lists, parent.value) + [ordinal]];
        }
      }
    }
    forall o: nat | o in included
      ensures ListAt(lists, o) == Children(RowParents(rows), included, o, 0)
    {
      assert ListAt(lists, o) + [] == ListAt(lists, o);
    }
  }

  function AddChild(rows: seq<Row>, included: set<nat>, lists: ChildLists, lo: nat): ChildLists
    requires lo < |rows|
  {
    var parent := rows[lo].parent;
    if lo in included && parent.Some? && parent.value in included then
      lists[parent.value := ListAt(lists, parent.value) + [lo]]
    else lists
  }

  lemma GroupMore(rows: seq<Row>, included: set<nat>, lists: ChildLists, lo: nat)
    requires lo < |rows| && GroupedTo(rows, included, lists, lo)
    ensures GroupedTo(rows, included, AddChild(rows, included, lists, lo), lo + 1)
  {
    hide ListAt, AddChild, Children, RowParents;
    forall o: nat | o in included
      ensures ListAt(AddChild(rows, included, lists, lo), o) + Children(RowParents(rows), included, o, lo + 1)
           == ListAt(lists, o) + Children(RowParents(rows), included, o, lo)
    {
      GroupOne(rows, included, lists, lo, o);
    }
  }

  lemma GroupOne(rows: seq<Row>, included: set<nat>, lists: ChildLists, lo: nat, o: nat)
    requires lo < |rows| && o in included
    ensures ListAt(AddChild(rows, included, lists, lo), o) + Children(RowParents(rows), included, o, lo + 1)
         == ListAt(lists, o) + Children(RowParents(rows), included, o, lo)
  {
    assert RowParents(rows)[lo] == ToIndex(rows[lo].parent);
  }

  function ProjectTreeNode(rows: seq<Row>, included: set<nat>, lists: ChildLists, o: nat): Projected
    requires FileIndex(rows) && AncestorClosed(rows, included) && ListsChildren(rows, included, lists) && o in included
    decreases 2 * (|rows| - o) + 1
  {
    IncludedChildren(rows, included, o, 0);
    var children := ProjectTreeNodes(rows, included, lists, o, ListAt(lists, o));
    Projected(o, None, rows[o].childCount, children, |children| == rows[o].childCount)
  }

  function ProjectTreeNodes(
      rows: seq<Row>, included: set<nat>, lists: ChildLists, p: nat, children: seq<nat>): seq<Projected>
    requires FileIndex(rows) && AncestorClosed(rows, included) && ListsChildren(rows, included, lists)
    requires forall c | c in children :: p < c < |rows| && c in included
    decreases 2 * (|rows| - p), |children|
  {
    if children == [] then []
    else
      [ProjectTreeNode(rows, included, lists, children[0])]
      + ProjectTreeNodes(rows, included, lists, p, children[1..])
  }

  lemma IncludedChildren(rows: seq<Row>, included: set<nat>, o: nat, lo: nat)
    requires FileIndex(rows) && AncestorClosed(rows, included)
    ensures forall c | c in Children(RowParents(rows), included, o, lo) :: o < c < |rows| && c in included
  {
    ChildrenShape(RowParents(rows), included, o, lo);
  }

  lemma ProjectFirst(rows: seq<Row>, included: set<nat>, lists: ChildLists, p: nat, c: nat, rest: seq<nat>)
    requires FileIndex(rows) && AncestorClosed(rows, included) && ListsChildren(rows, included, lists)
    requires p < c < |rows| && c in included && forall d | d in rest :: p < d < |rows| && d in included
    ensures ListingOf(ProjectTreeNodes(rows, included, lists, p, [c] + rest))
         == Listing(ProjectTreeNode(rows, included, lists, c))
             + ListingOf(ProjectTreeNodes(rows, included, lists, p, rest))
  {
    hide ProjectTreeNode, FileIndex, AncestorClosed, ListsChildren, Listing;
    assert ([c] + rest)[1..] == rest;
    var node, nodes := ProjectTreeNode(rows, included, lists, c), ProjectTreeNodes(rows, included, lists, p, rest);
    assert ([node] + nodes)[1..] == nodes;
  }

  lemma ProjectNone(rows: seq<Row>, included: set<nat>, lists: ChildLists, p: nat)
    requires FileIndex(rows) && AncestorClosed(rows, included) && ListsChildren(rows, included, lists)
    ensures ListingOf(ProjectTreeNodes(rows, included, lists, p, [])) == []
  {
  }

  lemma {:induction false} NodesWalk(rows: seq<Row>, included: set<nat>, lists: ChildLists, p: nat, lo: nat)
    requires FileIndex(rows) && AncestorClosed(rows, included) && ListsChildren(rows, included, lists)
    requires Forest(RowParents(rows), included) && p < lo
    ensures forall c | c in Children(RowParents(rows), included, p, lo) :: p < c < |rows| && c in included
    ensures ListingOf(ProjectTreeNodes(rows, included, lists, p, Children(RowParents(rows), included, p, lo)))
         == Walk(RowParents(rows), included, p, lo)
    decreases |rows| - p, |rows| - lo
  {
    hide FileIndex, AncestorClosed, ListsChildren, Forest, ProjectTreeNode, ProjectTreeNodes, Listing, ListingOf;
    var parents := RowParents(rows);
    IncludedChildren(rows, included, p, lo);
    if lo >= |rows| {
      ProjectNone(rows, included, lists, p);
    } else {
      NodesWalk(rows, included, lists, p, lo + 1);
      if lo in included && parents[lo] == p {
        ProjectFirst(rows, included, lists, p, lo, Children(parents, included, p, lo + 1));
        NodesWalk(rows, included, lists, lo, lo + 1);
        NodeLists(rows, included, lists, lo);
        assert Walk(parents, included, p, lo)
            == [lo] + Walk(parents, included, lo, lo + 1) + Walk(parents, included, p, lo + 1);
      } else {
        assert Children(parents, included, p, lo) == Children(parents, included, p, lo + 1);
        assert Walk(parents, included, p, lo) == Walk(parents, included, p, lo + 1);
      }
    }
  }

  // A node lists itself, then its children from the next ordinal on.
  lemma NodeLists(rows: seq<Row>, included: set<nat>, lists: ChildLists, o: nat)
    requires FileIndex(rows) && AncestorClosed(rows, included) && ListsChildren(rows, included, lists)
    requires Forest(RowParents(rows), included) && o in included
    ensures var below := Children(RowParents(rows), included, o, o + 1);
            && (forall c | c in below :: o < c < |rows| && c in included)
            && Listing(ProjectTreeNode(rows, included, lists, o))
                 == [o] + ListingOf(ProjectTreeNodes(rows, included, lists, o, below))
  {
    hide ProjectTreeNodes, Children, Forest;
    IncludedChildren(rows, included, o, 0);
    LaterChildren(RowParents(rows), included, o, 0, o + 1);
  }

  lemma RootListsAll(rows: seq<Row>, included: set<nat>, lists: ChildLists)
    requires FileIndex(rows) && rows != [] && AncestorClosed(rows, included) && ListsChildren(rows, included, lists)
          && 0 in included
    ensures Listing(ProjectTreeNode(rows, included, lists, 0)) == Between(included, 0, |rows|)
  {
    hide ProjectTreeNode, ProjectTreeNodes, Listing, ListingOf;
    ClosedIsForest(rows, included);
    ForestInOrder(RowParents(rows), included);
    NodeLists(rows, included, lists, 0);
    NodesWalk(rows, included, lists, 0, 1);
    NoOtherRoots(rows, included, 1);
  }

  lemma {:induction false} NoOtherRoots(rows: seq<Row>, included: set<nat>, lo: nat)
    requires FileIndex(rows) && Forest(RowParents(rows), included) && lo >= 1
    ensures Walk(RowParents(rows), included, -1, lo) == []
    decreases |rows| - lo
  {
    if |rows| <= lo {
    } else {
      NoOtherRoots(rows, included, lo + 1);
    }
  }

  datatype FocusTree = FocusTree(root: Option<Projected>, nodeCount: nat, truncated: bool)

  // None stands for the error on a limit outside 1..500.
  method ReadTree(rows: seq<Row>, profile: Profile, limit: int) returns (result: Option<FocusTree>)
    requires CountedIndex(rows)
    ensures result.Some? <==> 1 <= limit <= MAX_TREE_NODES
    ensures result.Some? ==> (result.value.root.None? <==> rows == [])
    ensures result.Some? && rows != [] ==>
      var included := Greedy(rows, Focus(rows, profile), |Focus(rows, profile)|, limit);
      && Listing(result.value.root.value) == Between(included, 0, |rows|)
      && result.value.nodeCount == |included| && (result.value.truncated <==> |included| < |rows|)
      && result.value.root.value.ordinal == 0 && Complete(rows, included, result.value.root.value)
  {
    if !(1 <= limit <= MAX_TREE_NODES) {
      return None;
    }
    if rows == [] {
      return Some(FocusTree(None, 0, false));
    }
    var included := FocusedTreeOrdinals(rows, profile, limit);
    GreedyIsSound(rows, Focus(rows, profile), |Focus(rows, profile)|, limit);
    var lists := GroupChildren(rows, included);
    var root := ProjectTreeNode(rows, included, lists, 0);
    RootListsAll(rows, included, lists);
    NodeComplete(rows, included, lists, 0);
    result := Some(FocusTree(Some(root), |included|, |included| < |rows|));
  }

  // children_complete holds exactly when every child in the full tree is included.
  ghost predicate Complete(rows: seq<Row>, included: set<nat>, node: Projected)
    decreases node
  {
    && node.childCount == |RowChildren(rows, node.ordinal)|
    && (node.complete <==> forall c | c in RowChildren(rows, node.ordinal) :: c in included)
    && |node.children| == |Children(RowParents(rows), included, node.ordinal, 0)|
    && forall i | 0 <= i < |node.children| ::
         && node.children[i].ordinal == Children(RowParents(rows), included, node.ordinal, 0)[i]
         && Complete(rows, included, node.children[i])
  }

  lemma {:induction false} NodesInOrder(
      rows: seq<Row>, included: set<nat>, lists: ChildLists, p: nat, children: seq<nat>)
    requires FileIndex(rows) && AncestorClosed(rows, included) && ListsChildren(rows, included, lists)
    requires forall c | c in children :: p < c < |rows| && c in included
    ensures var nodes := ProjectTreeNodes(rows, included, lists, p, children);
            && |nodes| == |children|
            && forall i | 0 <= i < |nodes| :: nodes[i] == ProjectTreeNode(rows, included, lists, children[i])
  {
    hide ProjectTreeNode, FileIndex, AncestorClosed, ListsChildren;
    if children == [] {
    } else {
      assert forall c | c in children[1..] :: c in children;
      NodesInOrder(rows, included, lists, p, children[1..]);
    }
  }

  lemma {:induction false} NodeComplete(rows: seq<Row>, included: set<nat>, lists: ChildLists, o: nat)
    requires CountedIndex(rows) && AncestorClosed(rows, included) && ListsChildren(rows, included, lists)
          && o in included
    ensures Complete(rows, included, ProjectTreeNode(rows, included, lists, o))
    decreases |rows| - o
  {
    hide FileIndex, AncestorClosed, ProjectTreeNodes;
    var children := Children(RowParents(rows), included, o, 0);
    IncludedChildren(rows, included, o, 0);
    NodesInOrder(rows, included, lists, o, children);
    ClosedInRange(rows, included);
    CountIncluded(RowParents(rows), AllOrdinals(rows), included, o, 0);
    forall i | 0 <= i < |children|
      ensures Complete(rows, included, ProjectTreeNode(rows, included, lists, children[i]))
    {
      NodeComplete(rows, included, lists, children[i]);
    }
  }

  lemma ClosedInRange(rows: seq<Row>, included: set<nat>)
    requires FileIndex(rows) && AncestorClosed(rows, included)
    ensures included <= AllOrdinals(rows)
  {
  }

  // As many children included as there are means all of them are.
  lemma {:induction false} CountIncluded(parents: Parents, all: set<nat>, included: set<nat>, p: int, lo: nat)
    requires included <= all
    ensures |Children(parents, included, p, lo)| <= |Children(parents, all, p, lo)|
    ensures |Children(parents, included, p, lo)| == |Children(parents, all, p, lo)| <==>
      forall c | c in Children(parents, all, p, lo) :: c in included
    decreases |parents| - lo
  {
    if |parents| <= lo {
    } else {
      CountIncluded(parents, all, included, p, lo + 1);
    }
  }

  // -- Rows written by the store carry the right child counts --

  lemma {:induction false} LinksAreChildren(rows: seq<Row>, file: FileId, o: nat, lo: nat)
    requires lo <= |rows| && forall row | row in rows :: row.key.file == file
    ensures |Links(rows[lo..], Key(file, o))| == |Children(RowParents(rows), AllOrdinals(rows), o, lo)|
    decreases |rows| - lo
  {
    if lo == |rows| {
    } else {
      LinksAreChildren(rows, file, o, lo + 1);
      assert rows[lo..] == [rows[lo]] + rows[lo + 1..];
      LinksAppend([rows[lo]], rows[lo + 1..], Key(file, o));
      assert [rows[lo]][..0] == [];
    }
  }

  // Every row of a flattened tree counts the links below its key.
  lemma {:induction false} RowsCountLinks(tree: Tree, file: FileId, parent: Option<nat>, sibling: nat, next: nat)
    requires parent.Some? ==> parent.value < next
    ensures forall row | row in Rows(tree, file, parent, sibling, next) ::
              row.childCount == |Links(Rows(tree, file, parent, sibling, next), row.key)|
    decreases tree, |tree.children| + 1
  {
    hide Links;
    var rows := Rows(tree, file, parent, sibling, next);
    forall row | row in rows
      ensures row.childCount == |Links(rows, row.key)|
    {
      if row == rows[0] {
        assert InSubtree(tree, next, next);
        TreeLinks(tree, file, parent, sibling, next, next);
        ChildLinks(tree, |tree.children|, file, next);
        SiblingsInOrder(tree, |tree.children|, file, next);
      } else {
        var c := ChildHolding(tree, |tree.children|, file, next, row);
        ChildRowCounts(tree, c, file, parent, sibling, next, row);
      }
    }
  }

  lemma {:induction false} ChildHolding(tree: Tree, i: nat, file: FileId, next: nat, row: Row) returns (c: nat)
    requires i <= |tree.children| && row in ChildRows(tree, i, file, next)
    ensures c < i && row in Rows(tree.children[c], file, Some(next), c, ChildOrdinal(tree, c, next))
    decreases i
  {
    c := i - 1;
    if row in Rows(tree.children[c], file, Some(next), c, ChildOrdinal(tree, c, next)) {
    } else {
      c := ChildHolding(tree, i - 1, file, next, row);
    }
  }

  lemma {:induction false} ChildRowCounts(
      tree: Tree, c: nat, file: FileId, parent: Option<nat>, sibling: nat, next: nat, row: Row)
    requires c < |tree.children| && (parent.Some? ==> parent.value < next)
    requires row in Rows(tree.children[c], file, Some(next), c, ChildOrdinal(tree, c, next))
    ensures row.childCount == |Links(Rows(tree, file, parent, sibling, next), row.key)|
    decreases tree, c
  {
    hide Links, Rows;
    var start := ChildOrdinal(tree, c, next);
    RowsCountLinks(tree.children[c], file, Some(next), c, start);
    RowsPreorder(tree.children[c], file, Some(next), c, start);
    OrdinalsGrow(tree, c + 1, |tree.children|);
    assert InSubtree(tree.children[c], start, row.key.ordinal) && row.key.file == file;
    InnerLinks(tree, |tree.children|, c, file, next, row.key.ordinal);
    TreeLinks(tree, file, parent, sibling, next, row.key.ordinal);
  }

  lemma WrittenRowsAreCounted(tree: Tree, file: FileId)
    ensures CountedIndex(Rows(tree, file, None, 0, 0))
  {
    hide Rows;
    var rows := Rows(tree, file, None, 0, 0);
    WrittenRowsAreAnIndex(tree, file);
    RowsPreorder(tree, file, None, 0, 0);
    RowsCountLinks(tree, file, None, 0, 0);
    forall o | 0 <= o < |rows|
      ensures rows[o].childCount == |RowChildren(rows, o)|
    {
      LinksAreChildren(rows, file, o, 0);
      assert rows[0..] == rows && rows[o].key == Key(file, o) && rows[o] in rows;
    }
  }
}
