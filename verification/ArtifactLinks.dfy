// Child links of an index, in whatever order its rows are read, and the trees
// they determine.
module ArtifactLinks {
  import opened Prelude
  import opened Sorting
  import opened ArtifactRows

  datatype Link = Link(sibling: nat, child: Key)

  predicate IsChildOf(row: Row, parent: Key) {
    row.parent == Some(parent.ordinal) && row.key.file == parent.file
  }

  function Links(rows: seq<Row>, parent: Key): seq<Link> {
    if rows == [] then []
    else
      var last := rows[|rows| - 1];
      Links(rows[..|rows| - 1], parent) + if IsChildOf(last, parent) then [Link(last.sibling, last.key)] else []
  }

  lemma {:induction false} LinksAppend(a: seq<Row>, b: seq<Row>, parent: Key)
    ensures Links(a + b, parent) == Links(a, parent) + Links(b, parent)
  {
    if b == [] {
      assert a + b == a;
    } else {
      assert (a + b)[..|a + b| - 1] == a + b[..|b| - 1];
      LinksAppend(a, b[..|b| - 1], parent);
    }
  }

  lemma {:induction false} LinksExist(rows: seq<Row>, parent: Key)
    ensures Links(rows, parent) != [] <==> exists row :: row in rows && IsChildOf(row, parent)
    ensures forall link | link in Links(rows, parent) :: exists row :: row in rows && row.key == link.child
  {
    if rows == [] {
    } else {
      var last := rows[|rows| - 1];
      LinksExist(rows[..|rows| - 1], parent);
      assert rows == rows[..|rows| - 1] + [last];
      if IsChildOf(last, parent) {
        assert last in rows;
      }
    }
  }

  // -- sorted() by sibling index, then by ordinal --

  predicate Before(a: Link, b: Link) {
    a.sibling < b.sibling || (a.sibling == b.sibling && a.child.ordinal <= b.child.ordinal)
  }

  lemma BeforeIsOrder()
    ensures IsOrder(Before)
  {
  }

  predicate StrictlySorted(links: seq<Link>) {
    forall i, j | 0 <= i < j < |links| :: links[i].sibling < links[j].sibling
  }

  // Distinct sibling indexes leave only one sorted arrangement.
  lemma StrictlyBefore(links: seq<Link>)
    requires StrictlySorted(links)
    ensures Sorted(links, Before) && NoTies(links, Before)
  {
  }

  // -- Row order does not matter --

  // Taking the last row of one list out of the other leaves permutations.
  lemma RemoveLast(a: seq<Row>, b: seq<Row>) returns (j: nat)
    requires a != [] && multiset(a) == multiset(b)
    ensures j < |b| && b[j] == a[|a| - 1]
    ensures multiset(a[..|a| - 1]) == multiset(b[..j] + b[j + 1..])
  {
    var front, last := a[..|a| - 1], a[|a| - 1];
    assert a == front + [last];
    assert last in multiset(b);
    j :| 0 <= j < |b| && b[j] == last;
    assert b == b[..j] + [last] + b[j + 1..];
    assert multiset(a) == multiset(front) + multiset{last};
    assert multiset(b) == multiset(b[..j] + b[j + 1..]) + multiset{last} by {
      assert multiset(b[..j] + b[j + 1..]) == multiset(b[..j]) + multiset(b[j + 1..]);
    }
    assert multiset(front) == multiset(a) - multiset{last};
    assert multiset(b[..j] + b[j + 1..]) == multiset(b) - multiset{last};
  }

  lemma {:induction false} LinksPermuted(a: seq<Row>, b: seq<Row>, parent: Key)
    requires multiset(a) == multiset(b)
    ensures multiset(Links(a, parent)) == multiset(Links(b, parent))
  {
    if a == [] {
      assert |multiset(b)| == |b|;
    } else {
      var front, last := a[..|a| - 1], a[|a| - 1];
      var j := RemoveLast(a, b);
      var before, after := b[..j], b[j + 1..];
      assert a == front + [last] && b == before + [last] + after;
      LinksPermuted(front, before + after, parent);
      LinksAppend(before, [last], parent);
      LinksAppend(before + [last], after, parent);
      LinksAppend(before, after, parent);
      LinksAppend(front, [last], parent);
    }
  }

  predicate UniqueKeys(rows: seq<Row>) {
    forall i, j | 0 <= i < j < |rows| :: rows[i].key != rows[j].key
  }

  lemma {:induction false} UniquePermuted(a: seq<Row>, b: seq<Row>)
    requires multiset(a) == multiset(b) && UniqueKeys(a)
    ensures UniqueKeys(b)
  {
    if b == [] {
    } else {
      var front, last := b[..|b| - 1], b[|b| - 1];
      var j := RemoveLast(b, a);
      var others := a[..j] + a[j + 1..];
      UniquePermuted(others, front);
      forall i | 0 <= i < |front|
        ensures front[i].key != last.key
      {
        OtherKey(a, j, others, front[i]);
      }
    }
  }

  lemma OtherKey(a: seq<Row>, j: nat, others: seq<Row>, row: Row)
    requires UniqueKeys(a) && j < |a| && others == a[..j] + a[j + 1..] && row in multiset(others)
    ensures row.key != a[j].key
  {
    var k :| 0 <= k < |others| && others[k] == row;
    assert others[k] == a[if k < j then k else k + 1];
  }

  // -- The links of flattened trees --

  function Siblings(tree: Tree, i: nat, file: FileId, next: nat): seq<Link>
    requires i <= |tree.children|
  {
    if i == 0 then [] else Siblings(tree, i - 1, file, next) + [Link(i - 1, Key(file, ChildOrdinal(tree, i - 1, next)))]
  }

  lemma {:induction false} SiblingsInOrder(tree: Tree, i: nat, file: FileId, next: nat)
    requires i <= |tree.children|
    ensures var links := Siblings(tree, i, file, next);
            && |links| == i && StrictlySorted(links)
            && forall j | 0 <= j < i :: links[j] == Link(j, Key(file, ChildOrdinal(tree, j, next)))
  {
    if i == 0 {
    } else {
      SiblingsInOrder(tree, i - 1, file, next);
    }
  }

  lemma {:induction false} NoLinks(rows: seq<Row>, parent: Key)
    requires forall row | row in rows :: !IsChildOf(row, parent)
    ensures Links(rows, parent) == []
  {
    LinksExist(rows, parent);
  }

  // Parents named by the rows of a subtree: its own, or one inside it.
  lemma ParentsInside(tree: Tree, file: FileId, parent: Option<nat>, sibling: nat, next: nat)
    ensures var rows := Rows(tree, file, parent, sibling, next);
            && rows != [] && rows[0].parent == parent
            && forall k | 0 < k < |rows| :: rows[k].parent.Some? && next <= rows[k].parent.value < next + Size(tree)
  {
    RowsPreorder(tree, file, parent, sibling, next);
    FirstRow(tree, file, parent, sibling, next);
  }

  predicate InSubtree(tree: Tree, next: nat, ordinal: nat) {
    next <= ordinal < next + Size(tree)
  }

  // Below a node's own key: its children. Below a key inside child c: what that child's rows link.
  lemma {:induction false} ChildLinks(tree: Tree, i: nat, file: FileId, next: nat)
    requires i <= |tree.children|
    ensures Links(ChildRows(tree, i, file, next), Key(file, next)) == Siblings(tree, i, file, next)
    decreases tree, i
  {
    if i == 0 {
    } else {
      var start := ChildOrdinal(tree, i - 1, next);
      var last := Rows(tree.children[i - 1], file, Some(next), i - 1, start);
      ChildLinks(tree, i - 1, file, next);
      LinksAppend(ChildRows(tree, i - 1, file, next), last, Key(file, next));
      OwnLink(tree.children[i - 1], file, i - 1, next, start);
    }
  }

  lemma OwnLink(tree: Tree, file: FileId, sibling: nat, parent: nat, next: nat)
    requires parent < next
    ensures Links(Rows(tree, file, Some(parent), sibling, next), Key(file, parent)) == [Link(sibling, Key(file, next))]
  {
    hide Rows;
    var rows := Rows(tree, file, Some(parent), sibling, next);
    ParentsInside(tree, file, Some(parent), sibling, next);
    FirstRow(tree, file, Some(parent), sibling, next);
    assert rows == [rows[0]] + rows[1..];
    LinksAppend([rows[0]], rows[1..], Key(file, parent));
    NoLinks(rows[1..], Key(file, parent));
    assert [rows[0]][..0] == [];
  }

  lemma {:induction false} ForeignLinks(tree: Tree, i: nat, file: FileId, next: nat, ordinal: nat)
    requires i <= |tree.children|
    requires ordinal >= ChildOrdinal(tree, i, next)
    ensures Links(ChildRows(tree, i, file, next), Key(file, ordinal)) == []
    decreases tree, i
  {
    if i == 0 {
    } else {
      ForeignLinks(tree, i - 1, file, next, ordinal);
      OutsideLinks(tree.children[i - 1], file, Some(next), i - 1, ChildOrdinal(tree, i - 1, next), ordinal);
      LinksAppend(ChildRows(tree, i - 1, file, next),
                  Rows(tree.children[i - 1], file, Some(next), i - 1, ChildOrdinal(tree, i - 1, next)),
                      Key(file, ordinal));
    }
  }

  lemma OutsideLinks(tree: Tree, file: FileId, parent: Option<nat>, sibling: nat, next: nat, ordinal: nat)
    requires !InSubtree(tree, next, ordinal) && parent != Some(ordinal)
    ensures Links(Rows(tree, file, parent, sibling, next), Key(file, ordinal)) == []
  {
    ParentsInside(tree, file, parent, sibling, next);
    NoLinks(Rows(tree, file, parent, sibling, next), Key(file, ordinal));
  }

  lemma {:induction false} InnerLinks(tree: Tree, i: nat, c: nat, file: FileId, next: nat, ordinal: nat)
    requires c < i <= |tree.children| && InSubtree(tree.children[c], ChildOrdinal(tree, c, next), ordinal)
    ensures Links(ChildRows(tree, i, file, next), Key(file, ordinal))
         == Links(Rows(tree.children[c], file, Some(next), c, ChildOrdinal(tree, c, next)), Key(file, ordinal))
    decreases tree, i
  {
    hide Rows, Links;
    var start := ChildOrdinal(tree, i - 1, next);
    LinksAppend(ChildRows(tree, i - 1, file, next), Rows(tree.children[i - 1], file, Some(next), i - 1, start),
        Key(file, ordinal));
    if c == i - 1 {
      ForeignLinks(tree, c, file, next, ordinal);
    } else {
      InnerLinks(tree, i - 1, c, file, next, ordinal);
      OrdinalsGrow(tree, c + 1, i - 1);
      OutsideLinks(tree.children[i - 1], file, Some(next), i - 1, start, ordinal);
    }
  }

  lemma {:induction false} OrdinalsGrow(tree: Tree, i: nat, j: nat)
    requires i <= j <= |tree.children|
    ensures SizeOfFirst(tree, i) <= SizeOfFirst(tree, j)
    decreases j
  {
    if i == j {
    } else {
      OrdinalsGrow(tree, i, j - 1);
    }
  }

  lemma TreeLinks(tree: Tree, file: FileId, parent: Option<nat>, sibling: nat, next: nat, ordinal: nat)
    requires InSubtree(tree, next, ordinal) && (parent.Some? ==> parent.value < next)
    ensures Links(Rows(tree, file, parent, sibling, next), Key(file, ordinal))
         == Links(ChildRows(tree, |tree.children|, file, next), Key(file, ordinal))
  {
    var root := Row(Key(file, next), parent, sibling, |tree.children|, tree.payload);
    LinksAppend([root], ChildRows(tree, |tree.children|, file, next), Key(file, ordinal));
    NoLinks([root], Key(file, ordinal));
  }

  // -- The tree an index holds under a key --

  predicate HasRow(rows: seq<Row>, key: Key, payload: Payload) {
    exists row :: row in rows && row.key == key && row.payload == payload
  }

  ghost predicate Holds(rows: seq<Row>, key: Key, tree: Tree)
    decreases tree
  {
    var links := Sort(Links(rows, key), Before);
    && HasRow(rows, key, tree.payload)
    && |links| == |tree.children|
    && forall i | 0 <= i < |links| :: Holds(rows, links[i].child, tree.children[i])
  }

  // The index agrees with a flattened tree wherever that tree has keys.
  ghost predicate Covers(rows: seq<Row>, tree: Tree, file: FileId, parent: Option<nat>, sibling: nat, next: nat) {
    var own := Rows(tree, file, parent, sibling, next);
    && (forall row | row in own :: row in rows)
    && forall ordinal: nat | InSubtree(tree, next, ordinal) ::
         multiset(Links(rows, Key(file, ordinal))) == multiset(Links(own, Key(file, ordinal)))
  }

  lemma {:induction false} CoveredIsHeld(
      rows: seq<Row>, tree: Tree, file: FileId, parent: Option<nat>, sibling: nat, next: nat)
    requires parent.Some? ==> parent.value < next
    requires Covers(rows, tree, file, parent, sibling, next)
    ensures Holds(rows, Key(file, next), tree)
    decreases tree
  {
    hide Covers, Rows, ChildRows, Links;
    ChildrenFound(rows, tree, file, parent, sibling, next);
    SiblingsInOrder(tree, |tree.children|, file, next);
    forall c | 0 <= c < |tree.children|
      ensures Holds(rows, Key(file, ChildOrdinal(tree, c, next)), tree.children[c])
    {
      ChildCovered(rows, tree, c, file, parent, sibling, next);
      CoveredIsHeld(rows, tree.children[c], file, Some(next), c, ChildOrdinal(tree, c, next));
    }
  }

  lemma ChildrenFound(rows: seq<Row>, tree: Tree, file: FileId, parent: Option<nat>, sibling: nat, next: nat)
    requires parent.Some? ==> parent.value < next
    requires Covers(rows, tree, file, parent, sibling, next)
    ensures HasRow(rows, Key(file, next), tree.payload)
    ensures Sort(Links(rows, Key(file, next)), Before) == Siblings(tree, |tree.children|, file, next)
  {
    hide Rows, Links;
    var key := Key(file, next);
    FirstRow(tree, file, parent, sibling, next);
    assert Rows(tree, file, parent, sibling, next)[0] in rows;
    assert InSubtree(tree, next, next);
    TreeLinks(tree, file, parent, sibling, next, next);
    ChildLinks(tree, |tree.children|, file, next);
    SiblingsInOrder(tree, |tree.children|, file, next);
    BeforeIsOrder();
    SortSorts(Links(rows, key), Before);
    StrictlyBefore(Siblings(tree, |tree.children|, file, next));
    SortedIsUnique(Siblings(tree, |tree.children|, file, next), Sort(Links(rows, key), Before), Before);
  }

  lemma ChildCovered(rows: seq<Row>, tree: Tree, c: nat, file: FileId, parent: Option<nat>, sibling: nat, next: nat)
    requires c < |tree.children| && (parent.Some? ==> parent.value < next)
    requires Covers(rows, tree, file, parent, sibling, next)
    ensures Covers(rows, tree.children[c], file, Some(next), c, ChildOrdinal(tree, c, next))
  {
    hide Rows, Links;
    var start := ChildOrdinal(tree, c, next);
    var inner := Rows(tree.children[c], file, Some(next), c, start);
    ChildRowsWithin(tree, |tree.children|, c, file, parent, sibling, next);
    OrdinalsGrow(tree, c + 1, |tree.children|);
    forall ordinal: nat | InSubtree(tree.children[c], start, ordinal)
      ensures multiset(Links(rows, Key(file, ordinal))) == multiset(Links(inner, Key(file, ordinal)))
    {
      assert InSubtree(tree, next, ordinal);
      TreeLinks(tree, file, parent, sibling, next, ordinal);
      InnerLinks(tree, |tree.children|, c, file, next, ordinal);
    }
  }

  lemma {:induction false} ChildRowsWithin(
      tree: Tree, i: nat, c: nat, file: FileId, parent: Option<nat>, sibling: nat, next: nat)
    requires c < i <= |tree.children|
    ensures forall row | row in Rows(tree.children[c], file, Some(next), c, ChildOrdinal(tree, c, next)) ::
      row in ChildRows(tree, i, file, next)
    ensures forall row | row in ChildRows(tree, |tree.children|, file, next) ::
      row in Rows(tree, file, parent, sibling, next)
    decreases tree, i
  {
    if c == i - 1 {
    } else {
      ChildRowsWithin(tree, i - 1, c, file, parent, sibling, next);
    }
  }
}
