// The collapsed diff tree of a file: diff elements only, each below its
// nearest diff ancestor, cut off after a number of nodes.
module DiffTree {
  import opened Prelude
  import opened ArtifactRows
  import opened Forests

  const MAX_DIFF_TREE_NODES := 1000

  predicate IsDiff(row: Row) {
    row.payload.tag in {"diff:common", "diff:delete", "diff:insert"}
  }

  // The rows of one file, read in ordinal order.
  ghost predicate FileIndex(rows: seq<Row>) {
    rows != [] ==> Preorder(rows, rows[0].key.file, 0) && rows[0].parent == None
  }

  lemma WrittenRowsAreAnIndex(tree: Tree, file: FileId)
    ensures FileIndex(Rows(tree, file, None, 0, 0))
  {
    hide Rows, Preorder;
    RowsPreorder(tree, file, None, 0, 0);
    FirstRow(tree, file, None, 0, 0);
  }

  // -- Ancestors, and nearest diff ancestors --

  ghost predicate IsAncestor(rows: seq<Row>, a: nat, o: nat)
    requires FileIndex(rows) && o < |rows|
    decreases o
  {
    match rows[o].parent
    case None => false
    case Some(p) => p == a || IsAncestor(rows, a, p)
  }

  // The first diff element at p or above it.
  function NearestFrom(rows: seq<Row>, p: Option<nat>): (nearest: Option<nat>)
    requires FileIndex(rows) && (p.Some? ==> p.value < |rows|)
    ensures nearest.Some? ==> p.Some? && nearest.value <= p.value && IsDiff(rows[nearest.value])
    decreases if p.None? then 0 else p.value + 1
  {
    if p.None? || IsDiff(rows[p.value]) then p else NearestFrom(rows, rows[p.value].parent)
  }

  function NearestDiff(rows: seq<Row>, o: nat): Option<nat>
    requires FileIndex(rows) && o < |rows|
  {
    NearestFrom(rows, rows[o].parent)
  }

  // Ancestors in the collapsed tree.
  ghost predicate IsDiffAncestor(rows: seq<Row>, a: nat, o: nat)
    requires FileIndex(rows) && o < |rows|
    decreases o
  {
    match NearestDiff(rows, o)
    case None => false
    case Some(p) => p == a || IsDiffAncestor(rows, a, p)
  }

  lemma {:induction false} AncestorsAreEarlier(rows: seq<Row>, a: nat, o: nat)
    requires FileIndex(rows) && o < |rows| && IsAncestor(rows, a, o)
    ensures a < o
    decreases o
  {
    if rows[o].parent == Some(a) {
    } else {
      AncestorsAreEarlier(rows, a, rows[o].parent.value);
    }
  }

  // A subtree is an interval: what is numbered between an ancestor and its descendant is below the ancestor.
  lemma {:induction false} SubtreeIsInterval(rows: seq<Row>, a: nat, j: nat, k: nat)
    requires FileIndex(rows) && a < j < k < |rows| && IsAncestor(rows, a, k)
    ensures IsAncestor(rows, a, j)
    decreases k, j
  {
    var p := rows[k].parent.value;
    if p != a {
      AncestorsAreEarlier(rows, a, p);
    }
    if j < p {
      SubtreeIsInterval(rows, a, j, p);
    } else if j > p {
      var q := rows[j].parent.value;
      assert q >= p;
      if q > p {
        SubtreeIsInterval(rows, a, q, k);
      }
    }
  }

  lemma {:induction false} NearestIsAbove(rows: seq<Row>, o: nat)
    requires FileIndex(rows) && o < |rows|
    ensures NearestDiff(rows, o).Some? ==> IsAncestor(rows, NearestDiff(rows, o).value, o)
    decreases o
  {
    var p := rows[o].parent;
    if p.None? || IsDiff(rows[p.value]) {
    } else {
      NearestIsAbove(rows, p.value);
    }
  }

  // No diff ancestor lies strictly between an element and its nearest one.
  lemma {:induction false} NearestIsNearest(rows: seq<Row>, a: nat, o: nat)
    requires FileIndex(rows) && a < |rows| && o < |rows| && IsAncestor(rows, a, o) && IsDiff(rows[a])
    ensures NearestDiff(rows, o).Some?
    ensures var nearest := NearestDiff(rows, o).value; nearest == a || (nearest > a && IsAncestor(rows, a, nearest))
    decreases o
  {
    var p := rows[o].parent.value;
    if p == a {
    } else {
      AncestorsAreEarlier(rows, a, p);
      if !IsDiff(rows[p]) {
        NearestIsNearest(rows, a, p);
      }
    }
  }

  lemma {:induction false} AncestorsCompose(rows: seq<Row>, a: nat, b: nat, o: nat)
    requires FileIndex(rows) && b < |rows| && o < |rows| && IsAncestor(rows, a, b) && IsAncestor(rows, b, o)
    ensures IsAncestor(rows, a, o)
    decreases o
  {
    if rows[o].parent == Some(b) {
    } else {
      AncestorsCompose(rows, a, b, rows[o].parent.value);
    }
  }

  // Collapsing keeps the descendant relation among diff elements.
  lemma {:induction false} DescendantsPreserved(rows: seq<Row>, a: nat, o: nat)
    requires FileIndex(rows) && a < |rows| && o < |rows| && IsDiff(rows[a])
    ensures IsDiffAncestor(rows, a, o) <==> IsAncestor(rows, a, o)
    decreases o
  {
    NearestIsAbove(rows, o);
    if NearestDiff(rows, o).None? {
    } else {
      var nearest := NearestDiff(rows, o).value;
      AncestorsAreEarlier(rows, nearest, o);
      DescendantsPreserved(rows, a, nearest);
      if IsDiffAncestor(rows, a, o) && nearest != a {
        AncestorsCompose(rows, a, nearest, o);
      }
    }
    if IsAncestor(rows, a, o) {
      NearestIsNearest(rows, a, o);
    }
  }

  // -- The collapsed forest --

  function ToIndex(p: Option<nat>): int {
    if p.Some? then p.value else -1
  }

  function DiffParents(rows: seq<Row>): Parents
    requires FileIndex(rows)
  {
    seq(|rows|, o requires 0 <= o < |rows| => ToIndex(NearestDiff(rows, o)))
  }

  function Diffs(rows: seq<Row>): set<nat> {
    set o: nat | o < |rows| && IsDiff(rows[o])
  }

  // All diff ordinals, in order.
  function DiffOrdinals(rows: seq<Row>): seq<nat> {
    Between(Diffs(rows), 0, |rows|)
  }

  lemma DiffsFormAForest(rows: seq<Row>)
    requires FileIndex(rows)
    ensures Forest(DiffParents(rows), Diffs(rows))
  {
    forall j, k | j in Diffs(rows) && k in Diffs(rows) && DiffParents(rows)[k] < j < k
      ensures DiffParents(rows)[j] >= DiffParents(rows)[k]
    {
      if NearestDiff(rows, k).Some? {
        var a := NearestDiff(rows, k).value;
        NearestIsAbove(rows, k);
        SubtreeIsInterval(rows, a, j, k);
        NearestIsNearest(rows, a, j);
      }
    }
  }

  function DiffChildren(rows: seq<Row>, p: Option<nat>): seq<nat>
    requires FileIndex(rows)
  {
    Children(DiffParents(rows), Diffs(rows), ToIndex(p), 0)
  }

  // -- The tables of read_diff_tree_projection --

  datatype Tables = Tables(parent: map<nat, Option<nat>>, children: map<Option<nat>, seq<nat>>)

  function ChildList(tables: Tables, p: Option<nat>): seq<nat> {
    if p in tables.children then tables.children[p] else []
  }

  ghost predicate Collapsed(rows: seq<Row>, tables: Tables)
    requires FileIndex(rows)
  {
    && (forall o | o in Diffs(rows) :: o in tables.parent && tables.parent[o] == NearestDiff(rows, o))
    && (forall p :: ChildList(tables, p) == DiffChildren(rows, p))
  }

  method FindNearestDiff(rows: seq<Row>, o: nat) returns (parent: Option<nat>)
    requires FileIndex(rows) && o < |rows|
    ensures parent == NearestDiff(rows, o)
  {
    parent := rows[o].parent;
    while parent.Some? && !IsDiff(rows[parent.value])
      invariant parent.Some? ==> parent.value < |rows|
      invariant NearestFrom(rows, parent) == NearestDiff(rows, o)
      decreases if parent.None? then 0 else parent.value + 1
    {
      parent := rows[parent.value].parent;
    }
  }

  // The tables and the list of ordinals after the first o rows.
  ghost predicate CollapsedTo(rows: seq<Row>, ordinals: seq<nat>, tables: Tables, o: nat)
    requires FileIndex(rows)
  {
    && ordinals + Between(Diffs(rows), o, |rows|) == DiffOrdinals(rows)
    && (forall d | d in Diffs(rows) && d < o :: d in tables.parent && tables.parent[d] == NearestDiff(rows, d))
    && (forall p :: ChildList(tables, p) + Children(DiffParents(rows), Diffs(rows), ToIndex(p), o)
          == DiffChildren(rows, p))
  }

  method CollapseDiffs(rows: seq<Row>) returns (ordinals: seq<nat>, tables: Tables)
    requires FileIndex(rows)
    ensures ordinals == DiffOrdinals(rows) && Collapsed(rows, tables)
  {
    hide CollapsedTo;
    ordinals, tables := [], Tables(map[], map[]);
    NothingCollapsed(rows);
    for o := 0 to |rows|
      invariant CollapsedTo(rows, ordinals, tables, o)
    {
      if IsDiff(rows[o]) {
        var parent := FindNearestDiff(rows, o);
        CollapseDiff(rows, ordinals, tables, o, parent);
        ordinals := ordinals + [o];
        tables := Tables(tables.parent[o := parent], tables.children[parent := ChildList(tables, parent) + [o]]);
      } else {
        CollapseOther(rows, ordinals, tables, o);
      }
    }
    AllCollapsed(rows, ordinals, tables);
  }

  lemma NothingCollapsed(rows: seq<Row>)
    requires FileIndex(rows)
    ensures CollapsedTo(rows, [], Tables(map[], map[]), 0)
  {
  }

  lemma CollapseOther(rows: seq<Row>, ordinals: seq<nat>, tables: Tables, o: nat)
    requires FileIndex(rows) && o < |rows| && !IsDiff(rows[o]) && CollapsedTo(rows, ordinals, tables, o)
    ensures CollapsedTo(rows, ordinals, tables, o + 1)
  {
    hide ChildList, DiffChildren, DiffOrdinals, NearestDiff, DiffParents, Children, Between, Diffs;
    OtherSkipped(rows, o);
    forall d | d in Diffs(rows) && d < o + 1
      ensures d in tables.parent && tables.parent[d] == NearestDiff(rows, d)
    {
      assert d != o;
    }
  }

  lemma OtherSkipped(rows: seq<Row>, o: nat)
    requires FileIndex(rows) && o < |rows| && !IsDiff(rows[o])
    ensures o !in Diffs(rows)
    ensures Between(Diffs(rows), o, |rows|) == Between(Diffs(rows), o + 1, |rows|)
    ensures forall p: int ::
      Children(DiffParents(rows), Diffs(rows), p, o) == Children(DiffParents(rows), Diffs(rows), p, o + 1)
  {
  }

  lemma CollapseDiff(rows: seq<Row>, ordinals: seq<nat>, tables: Tables, o: nat, parent: Option<nat>)
    requires FileIndex(rows) && o < |rows| && IsDiff(rows[o]) && parent == NearestDiff(rows, o)
    requires CollapsedTo(rows, ordinals, tables, o)
    ensures CollapsedTo(rows, ordinals + [o],
                        Tables(tables.parent[o := parent], tables.children[parent := ChildList(tables, parent) + [o]]),
                            o + 1)
  {
    hide ChildList, DiffChildren, DiffOrdinals, NearestDiff, Children, DiffParents;
    OneMoreChild(rows, tables, o, parent);
    assert Between(Diffs(rows), o, |rows|) == [o] + Between(Diffs(rows), o + 1, |rows|);
  }

  lemma AllCollapsed(rows: seq<Row>, ordinals: seq<nat>, tables: Tables)
    requires FileIndex(rows) && CollapsedTo(rows, ordinals, tables, |rows|)
    ensures ordinals == DiffOrdinals(rows) && Collapsed(rows, tables)
  {
    forall p
      ensures ChildList(tables, p) == DiffChildren(rows, p)
    {
      assert ChildList(tables, p) + [] == ChildList(tables, p);
    }
  }

  lemma OneMoreChild(rows: seq<Row>, tables: Tables, o: nat, parent: Option<nat>)
    requires FileIndex(rows) && o < |rows| && IsDiff(rows[o]) && parent == NearestDiff(rows, o)
    ensures var added := Tables(tables.parent[o := parent], tables.children[parent := ChildList(tables, parent) + [o]]);
            forall p :: ChildList(added, p) + Children(DiffParents(rows), Diffs(rows), ToIndex(p), o + 1)
                     == ChildList(tables, p) + Children(DiffParents(rows), Diffs(rows), ToIndex(p), o)
  {
    var added := Tables(tables.parent[o := parent], tables.children[parent := ChildList(tables, parent) + [o]]);
    forall p
      ensures ChildList(added, p) + Children(DiffParents(rows), Diffs(rows), ToIndex(p), o + 1)
           == ChildList(tables, p) + Children(DiffParents(rows), Diffs(rows), ToIndex(p), o)
    {
      OneMoreChildOf(rows, tables, o, parent, p);
    }
  }

  lemma OneMoreChildOf(rows: seq<Row>, tables: Tables, o: nat, parent: Option<nat>, p: Option<nat>)
    requires FileIndex(rows) && o < |rows| && IsDiff(rows[o]) && parent == NearestDiff(rows, o)
    ensures var added := Tables(tables.parent[o := parent], tables.children[parent := ChildList(tables, parent) + [o]]);
            ChildList(added, p) + Children(DiffParents(rows), Diffs(rows), ToIndex(p), o + 1)
            == ChildList(tables, p) + Children(DiffParents(rows), Diffs(rows), ToIndex(p), o)
  {
    assert o in Diffs(rows) && DiffParents(rows)[o] == ToIndex(parent);
    assert p != parent ==> ToIndex(p) != ToIndex(parent);
  }

  // -- Projection --

  // The included nodes of a child list, each with its own subtree.
  function ProjectAll(rows: seq<Row>, tables: Tables, included: set<nat>, p: int, children: seq<nat>): seq<Projected>
    requires FileIndex(rows) && Collapsed(rows, tables)
    requires forall c | c in children :: p < c < |rows| && c in Diffs(rows)
    decreases 2 * (|rows| - p), |children|
  {
    if children == [] then []
    else
      var rest := ProjectAll(rows, tables, included, p, children[1..]);
      if children[0] in included then [Project(rows, tables, included, children[0])] + rest else rest
  }

  function Project(rows: seq<Row>, tables: Tables, included: set<nat>, o: nat): Projected
    requires FileIndex(rows) && Collapsed(rows, tables) && o in Diffs(rows)
    decreases 2 * (|rows| - o) + 1
  {
    var children := ChildList(tables, Some(o));
    ChildrenBelow(rows, Some(o));
    var kept := ProjectAll(rows, tables, included, o, children);
    Projected(o, tables.parent[o], |children|, kept, |kept| == |children|)
  }

  lemma ChildrenBelow(rows: seq<Row>, p: Option<nat>)
    requires FileIndex(rows)
    ensures forall c | c in DiffChildren(rows, p) :: ToIndex(p) < c < |rows| && c in Diffs(rows)
  {
    ChildrenShape(DiffParents(rows), Diffs(rows), ToIndex(p), 0);
    DiffsFormAForest(rows);
  }

  lemma {:induction false} LaterChildren(parents: Parents, members: set<nat>, p: int, lo: nat, k: nat)
    requires Forest(parents, members) && lo <= k <= p + 1
    ensures Children(parents, members, p, lo) == Children(parents, members, p, k)
    decreases k - lo
  {
    if lo == k {
    } else {
      LaterChildren(parents, members, p, lo + 1, k);
    }
  }

  lemma ProjectNoMore(rows: seq<Row>, tables: Tables, included: set<nat>, p: int)
    requires FileIndex(rows) && Collapsed(rows, tables)
    ensures ListingOf(ProjectAll(rows, tables, included, p, [])) == []
  {
  }

  lemma ProjectNext(rows: seq<Row>, tables: Tables, included: set<nat>, p: int, c: nat, rest: seq<nat>)
    requires FileIndex(rows) && Collapsed(rows, tables) && c in Diffs(rows) && p < c
    requires forall d | d in rest :: p < d < |rows| && d in Diffs(rows)
    ensures c in included ==>
      ListingOf(ProjectAll(rows, tables, included, p, [c] + rest))
      == Listing(Project(rows, tables, included, c)) + ListingOf(ProjectAll(rows, tables, included, p, rest))
    ensures c !in included ==>
      ListingOf(ProjectAll(rows, tables, included, p, [c] + rest))
          == ListingOf(ProjectAll(rows, tables, included, p, rest))
  {
    hide Project, Diffs, Collapsed;
    assert ([c] + rest)[1..] == rest;
    var projected := ProjectAll(rows, tables, included, p, rest);
    if c in included {
      var node := Project(rows, tables, included, c);
      assert ([node] + projected)[1..] == projected;
    }
  }

  // A node lists itself, then its children from the next ordinal on.
  lemma ProjectLists(rows: seq<Row>, tables: Tables, included: set<nat>, o: nat)
    requires FileIndex(rows) && Collapsed(rows, tables) && o in Diffs(rows)
    ensures var below := Children(DiffParents(rows), Diffs(rows), o, o + 1);
            && (forall c | c in below :: o < c < |rows| && c in Diffs(rows))
            && Listing(Project(rows, tables, included, o))
                 == [o] + ListingOf(ProjectAll(rows, tables, included, o, below))
  {
    hide ProjectAll, Children;
    DiffsFormAForest(rows);
    ChildrenBelow(rows, Some(o));
    LaterChildren(DiffParents(rows), Diffs(rows), o, 0, o + 1);
  }

  // Projection lists what a walk of the included forest lists.
  lemma {:induction false} ProjectWalks(rows: seq<Row>, tables: Tables, included: set<nat>, p: int, lo: nat)
    requires FileIndex(rows) && Collapsed(rows, tables) && included <= Diffs(rows)
    requires Forest(DiffParents(rows), included) && -1 <= p < lo
    ensures forall c | c in Children(DiffParents(rows), Diffs(rows), p, lo) :: p < c < |rows| && c in Diffs(rows)
    ensures ListingOf(ProjectAll(rows, tables, included, p, Children(DiffParents(rows), Diffs(rows), p, lo)))
         == Walk(DiffParents(rows), included, p, lo)
    decreases |rows| - p, |rows| - lo
  {
    hide Forest, Collapsed, FileIndex, ProjectAll, Project, Listing, ListingOf;
    var parents := DiffParents(rows);
    ChildrenShape(parents, Diffs(rows), p, lo);
    if lo >= |rows| {
      ProjectNoMore(rows, tables, included, p);
    } else {
      ProjectWalks(rows, tables, included, p, lo + 1);
      if lo in Diffs(rows) && parents[lo] == p {
        var rest := Children(parents, Diffs(rows), p, lo + 1);
        assert Children(parents, Diffs(rows), p, lo) == [lo] + rest;
        ProjectNext(rows, tables, included, p, lo, rest);
        if lo in included {
          ProjectWalks(rows, tables, included, lo, lo + 1);
          ProjectLists(rows, tables, included, lo);
          assert Walk(parents, included, p, lo)
              == [lo] + Walk(parents, included, lo, lo + 1) + Walk(parents, included, p, lo + 1);
        } else {
          assert Walk(parents, included, p, lo) == Walk(parents, included, p, lo + 1);
        }
      } else {
        assert Children(parents, Diffs(rows), p, lo) == Children(parents, Diffs(rows), p, lo + 1);
        assert Walk(parents, included, p, lo) == Walk(parents, included, p, lo + 1);
      }
    }
  }

  // -- Truncation keeps a forest --

  lemma {:induction false} AscendingIsUnique(s: seq<nat>, t: seq<nat>)
    requires Ascending(s) && Ascending(t) && forall x: nat :: x in s <==> x in t
    ensures s == t
  {
    if s == [] {
      NonEmptyHas(t);
    } else {
      assert s[0] in t;
      SameLeast(s, t);
      assert s == [s[0]] + s[1..] && t == [t[0]] + t[1..];
      forall x: nat
        ensures x in s[1..] <==> x in t[1..]
      {
        assert x in s <==> x == s[0] || x in s[1..];
        assert x in t <==> x == t[0] || x in t[1..];
      }
      AscendingIsUnique(s[1..], t[1..]);
    }
  }

  lemma NonEmptyHas(t: seq<nat>)
    ensures t != [] ==> exists x: nat :: x in t
  {
    if t != [] {
      assert t[0] in t;
    }
  }

  lemma SameLeast(s: seq<nat>, t: seq<nat>)
    requires Ascending(s) && Ascending(t) && s != [] && t != [] && s[0] in t && t[0] in s
    ensures s[0] == t[0]
    ensures s[0] !in s[1..] && t[0] !in t[1..]
  {
  }

  function Included(rows: seq<Row>, limit: nat): set<nat> {
    set o | o in DiffOrdinals(rows)[..Min(limit, |DiffOrdinals(rows)|)]
  }

  lemma TruncationKeepsForest(rows: seq<Row>, limit: nat)
    requires FileIndex(rows)
    ensures var included := Included(rows, limit);
            && included <= Diffs(rows) && Forest(DiffParents(rows), included)
            && Between(included, 0, |rows|) == DiffOrdinals(rows)[..Min(limit, |DiffOrdinals(rows)|)]
            && |included| == Min(limit, |DiffOrdinals(rows)|)
  {
    var all := DiffOrdinals(rows);
    var included := Included(rows, limit);
    BetweenShape(Diffs(rows), 0, |rows|);
    DiffsFormAForest(rows);
    PrefixIsClosed(all, Min(limit, |all|));
    LowerPart(DiffParents(rows), Diffs(rows), included);
    PrefixListed(all, Min(limit, |all|), included, |rows|);
    AscendingSize(all[..Min(limit, |all|)], included);
  }

  // What precedes a listed ordinal in the whole list is listed too.
  lemma PrefixIsClosed(all: seq<nat>, m: nat)
    requires Ascending(all) && m <= |all|
    ensures forall o, q | o in all[..m] && q in all && q < o :: q in all[..m]
  {
    forall o, q | o in all[..m] && q in all && q < o
      ensures q in all[..m]
    {
      var i :| 0 <= i < m && all[i] == o;
      var j :| 0 <= j < |all| && all[j] == q;
      assert j < i && all[..m][j] == q;
    }
  }

  lemma LowerPart(parents: Parents, members: set<nat>, included: set<nat>)
    requires Forest(parents, members) && included <= members
    requires forall o, q | o in included && q in members && q < o :: q in included
    ensures Forest(parents, included)
  {
  }

  lemma PrefixListed(all: seq<nat>, m: nat, included: set<nat>, n: nat)
    requires Ascending(all) && m <= |all| && included == (set o | o in all[..m]) && forall o | o in all :: o < n
    ensures Between(included, 0, n) == all[..m]
  {
    BetweenShape(included, 0, n);
    forall o: nat
      ensures o in Between(included, 0, n) <==> o in all[..m]
    {
      assert o in all[..m] ==> o in all;
    }
    AscendingIsUnique(Between(included, 0, n), all[..m]);
  }

  lemma {:induction false} AscendingSize(s: seq<nat>, members: set<nat>)
    requires Ascending(s) && members == set x | x in s
    ensures |members| == |s|
  {
    if s == [] {
    } else {
      var front, last := s[..|s| - 1], s[|s| - 1];
      var others: set<nat> := set x | x in front;
      AscendingSize(front, others);
      LastApart(s);
      assert members == others + {last} && last !in others;
    }
  }

  lemma LastApart(s: seq<nat>)
    requires Ascending(s) && s != []
    ensures s[|s| - 1] !in s[..|s| - 1]
    ensures forall x: nat :: x in s <==> x in s[..|s| - 1] || x == s[|s| - 1]
  {
    assert s == s[..|s| - 1] + [s[|s| - 1]];
  }

  datatype DiffTree = DiffTree(roots: seq<Projected>, nodeCount: nat, totalNodeCount: nat, truncated: bool)

  // None stands for the error on a limit outside 1..1000.
  method ReadDiffTree(rows: seq<Row>, limit: int) returns (result: Option<DiffTree>)
    requires FileIndex(rows)
    ensures result.Some? <==> 1 <= limit <= MAX_DIFF_TREE_NODES
    ensures result.Some? ==>
      var all := DiffOrdinals(rows);
      && ListingOf(result.value.roots) == all[..Min(limit, |all|)]
      && result.value.nodeCount == Min(limit, |all|) && result.value.totalNodeCount == |all|
      && (result.value.truncated <==> limit < |all|)
    ensures result.Some? ==> LinkedBelow(rows, Included(rows, limit), None, result.value.roots)
  {
    if !(1 <= limit <= MAX_DIFF_TREE_NODES) {
      return None;
    }
    var ordinals, tables := CollapseDiffs(rows);
    var included := set o | o in ordinals[..Min(limit, |ordinals|)];
    ChildrenBelow(rows, None);
    var roots := ProjectAll(rows, tables, included, -1, ChildList(tables, None));
    TruncationKeepsForest(rows, limit);
    ProjectWalks(rows, tables, included, -1, 0);
    ForestInOrder(DiffParents(rows), included);
    ProjectLinks(rows, tables, included, None, ChildList(tables, None));
    result := Some(DiffTree(roots, |included|, |ordinals|, |included| < |ordinals|));
  }

  // -- What the projected nodes say --

  function Kept(children: seq<nat>, included: set<nat>): seq<nat> {
    if children == [] then []
    else (if children[0] in included then [children[0]] else []) + Kept(children[1..], included)
  }

  // The nodes are the included children of p in order. Each names p as its
  // parent, counts all its diff children, and is complete when all are included.
  ghost predicate LinkedBelow(rows: seq<Row>, included: set<nat>, p: Option<nat>, nodes: seq<Projected>)
    requires FileIndex(rows)
    decreases nodes
  {
    && |nodes| == |Kept(DiffChildren(rows, p), included)|
    && forall i | 0 <= i < |nodes| ::
         var node := nodes[i];
         && node.ordinal == Kept(DiffChildren(rows, p), included)[i]
         && node.parent == p
         && node.childCount == |DiffChildren(rows, Some(node.ordinal))|
         && (node.complete <==> forall c | c in DiffChildren(rows, Some(node.ordinal)) :: c in included)
         && LinkedBelow(rows, included, Some(node.ordinal), node.children)
  }

  lemma {:induction false} KeptAll(children: seq<nat>, included: set<nat>)
    ensures |Kept(children, included)| <= |children|
    ensures |Kept(children, included)| == |children| <==> forall c | c in children :: c in included
    ensures forall c | c in Kept(children, included) :: c in children && c in included
  {
    if children == [] {
    } else {
      KeptAll(children[1..], included);
    }
  }

  lemma {:induction false} ProjectedIsKept(
      rows: seq<Row>, tables: Tables, included: set<nat>, p: int, children: seq<nat>)
    requires FileIndex(rows) && Collapsed(rows, tables)
    requires forall c | c in children :: p < c < |rows| && c in Diffs(rows)
    ensures var nodes, kept := ProjectAll(rows, tables, included, p, children), Kept(children, included);
            && |nodes| == |kept|
            && forall i | 0 <= i < |kept| ::
                 kept[i] in Diffs(rows) && nodes[i] == Project(rows, tables, included, kept[i])
  {
    hide Project, FileIndex, Collapsed, Diffs;
    if children == [] {
    } else {
      assert forall c | c in children[1..] :: c in children;
      ProjectedIsKept(rows, tables, included, p, children[1..]);
    }
  }

  lemma {:induction false} ProjectLinks(
      rows: seq<Row>, tables: Tables, included: set<nat>, p: Option<nat>, children: seq<nat>)
    requires FileIndex(rows) && Collapsed(rows, tables) && (p.Some? ==> p.value < |rows|)
    requires children == DiffChildren(rows, p)
    ensures forall c | c in children :: ToIndex(p) < c < |rows| && c in Diffs(rows)
    ensures LinkedBelow(rows, included, p, ProjectAll(rows, tables, included, ToIndex(p), children))
    decreases |rows| - ToIndex(p)
  {
    ChildrenBelow(rows, p);
    var nodes, kept := ProjectAll(rows, tables, included, ToIndex(p), children), Kept(children, included);
    ProjectedIsKept(rows, tables, included, ToIndex(p), children);
    KeptAll(children, included);
    forall i | 0 <= i < |nodes|
      ensures nodes[i].parent == p && nodes[i].ordinal == kept[i]
      ensures nodes[i].childCount == |DiffChildren(rows, Some(kept[i]))|
      ensures nodes[i].complete <==> forall c | c in DiffChildren(rows, Some(kept[i])) :: c in included
      ensures LinkedBelow(rows, included, Some(kept[i]), nodes[i].children)
    {
      ChildIsLinked(rows, tables, included, p, kept[i]);
      ProjectLinks(rows, tables, included, Some(kept[i]), DiffChildren(rows, Some(kept[i])));
    }
  }

  lemma ChildIsLinked(rows: seq<Row>, tables: Tables, included: set<nat>, p: Option<nat>, c: nat)
    requires FileIndex(rows) && Collapsed(rows, tables) && c in Diffs(rows) && c in DiffChildren(rows, p)
    ensures var node, below := Project(rows, tables, included, c), DiffChildren(rows, Some(c));
            && node.ordinal == c && node.parent == p && node.childCount == |below|
            && (forall d | d in below :: c < d < |rows| && d in Diffs(rows))
            && node.children == ProjectAll(rows, tables, included, c, below)
            && (node.complete <==> forall d | d in below :: d in included)
  {
    ChildrenBelow(rows, Some(c));
    ChildrenShape(DiffParents(rows), Diffs(rows), ToIndex(p), 0);
    ProjectedIsKept(rows, tables, included, c, DiffChildren(rows, Some(c)));
    KeptAll(DiffChildren(rows, Some(c)), included);
  }
}
