// The structural index: trees flattened to preorder rows.
module ArtifactRows {
  import opened Prelude

  datatype Payload = Payload(path: string, tag: string, kind: string, moveId: Option<string>)

  datatype Tree = Tree(payload: Payload, children: seq<Tree>)

  type FileId = string

  // A row of the nodes table is found by file and preorder ordinal.
  datatype Key = Key(file: FileId, ordinal: nat)

  datatype Row = Row(key: Key, parent: Option<nat>, sibling: nat, childCount: nat, payload: Payload)

  function Size(tree: Tree): (size: nat)
    ensures size >= 1
    decreases tree, |tree.children| + 1
  {
    1 + SizeOfFirst(tree, |tree.children|)
  }

  function SizeOfFirst(tree: Tree, i: nat): nat
    requires i <= |tree.children|
    decreases tree, i
  {
    if i == 0 then 0 else SizeOfFirst(tree, i - 1) + Size(tree.children[i - 1])
  }

  // The ordinal of child i when the tree itself has ordinal `next`.
  function ChildOrdinal(tree: Tree, i: nat, next: nat): nat
    requires i <= |tree.children|
  {
    next + 1 + SizeOfFirst(tree, i)
  }

  function Rows(tree: Tree, file: FileId, parent: Option<nat>, sibling: nat, next: nat): seq<Row>
    decreases tree, |tree.children| + 1
  {
    [Row(Key(file, next), parent, sibling, |tree.children|, tree.payload)]
        + ChildRows(tree, |tree.children|, file, next)
  }

  function ChildRows(tree: Tree, i: nat, file: FileId, next: nat): seq<Row>
    requires i <= |tree.children|
    decreases tree, i
  {
    if i == 0 then []
    else
      ChildRows(tree, i - 1, file, next)
      + Rows(tree.children[i - 1], file, Some(next), i - 1, ChildOrdinal(tree, i - 1, next))
  }

  // -- Preorder: contiguous ordinals, parents first, subtrees as intervals --

  // Rows numbered upwards from `next`. Every row but the first hangs below an
  // earlier row of the list, and whatever is numbered between a row and its
  // parent hangs below that parent too.
  ghost predicate Preorder(rows: seq<Row>, file: FileId, next: nat) {
    && (forall k | 0 <= k < |rows| :: rows[k].key == Key(file, next + k))
    && (forall k | 0 < k < |rows| :: rows[k].parent.Some? && next <= rows[k].parent.value < next + k)
    && (forall j, k | 0 < j < k < |rows| && rows[k].parent.value < next + j ::
          rows[j].parent.value >= rows[k].parent.value)
  }

  // The same for the children of `parent`, one after the other.
  ghost predicate PreorderBelow(rows: seq<Row>, file: FileId, parent: nat) {
    && (forall k | 0 <= k < |rows| :: rows[k].key == Key(file, parent + 1 + k))
    && (forall k | 0 <= k < |rows| :: rows[k].parent.Some? && parent <= rows[k].parent.value <= parent + k)
    && (forall j, k | 0 <= j < k < |rows| && rows[k].parent.value < parent + 1 + j ::
          rows[j].parent.value >= rows[k].parent.value)
  }

  lemma {:induction false} RowsPreorder(tree: Tree, file: FileId, parent: Option<nat>, sibling: nat, next: nat)
    ensures |Rows(tree, file, parent, sibling, next)| == Size(tree)
    ensures Preorder(Rows(tree, file, parent, sibling, next), file, next)
    decreases tree, |tree.children| + 1
  {
    ChildRowsPreorder(tree, |tree.children|, file, next);
    var below := ChildRows(tree, |tree.children|, file, next);
    var rows := Rows(tree, file, parent, sibling, next);
    assert forall k | 0 < k < |rows| :: rows[k] == below[k - 1];
  }

  lemma {:induction false} ChildRowsPreorder(tree: Tree, i: nat, file: FileId, next: nat)
    requires i <= |tree.children|
    ensures |ChildRows(tree, i, file, next)| == SizeOfFirst(tree, i)
    ensures PreorderBelow(ChildRows(tree, i, file, next), file, next)
    decreases tree, i
  {
    hide Rows, PreorderBelow, Preorder, Size;
    if i == 0 {
      NothingBelow(file, next);
    } else {
      ChildRowsPreorder(tree, i - 1, file, next);
      var earlier := ChildRows(tree, i - 1, file, next);
      var last := Rows(tree.children[i - 1], file, Some(next), i - 1, ChildOrdinal(tree, i - 1, next));
      RowsPreorder(tree.children[i - 1], file, Some(next), i - 1, ChildOrdinal(tree, i - 1, next));
      FirstRow(tree.children[i - 1], file, Some(next), i - 1, ChildOrdinal(tree, i - 1, next));
      AppendPreorder(earlier, last, file, next);
    }
  }

  lemma NothingBelow(file: FileId, parent: nat)
    ensures PreorderBelow([], file, parent)
  {
  }

  lemma FirstRow(tree: Tree, file: FileId, parent: Option<nat>, sibling: nat, next: nat)
    ensures Rows(tree, file, parent, sibling, next) != []
    ensures Rows(tree, file, parent, sibling, next)[0]
          == Row(Key(file, next), parent, sibling, |tree.children|, tree.payload)
  {
  }

  lemma AppendPreorder(earlier: seq<Row>, last: seq<Row>, file: FileId, parent: nat)
    requires PreorderBelow(earlier, file, parent)
    requires last != [] && last[0].parent == Some(parent)
    requires Preorder(last, file, parent + 1 + |earlier|)
    ensures PreorderBelow(earlier + last, file, parent)
  {
    var rows := earlier + last;
    forall k | 0 <= k < |rows|
      ensures rows[k].key == Key(file, parent + 1 + k) && rows[k].parent.Some?
            && parent <= rows[k].parent.value <= parent + k
      ensures k > |earlier| ==> rows[k].parent.value > parent + |earlier|
    {
      assert k >= |earlier| ==> rows[k] == last[k - |earlier|];
    }
    forall j, k | 0 <= j < k < |rows| && rows[k].parent.value < parent + 1 + j
      ensures rows[j].parent.value >= rows[k].parent.value
    {
      if k < |earlier| {
        assert rows[j] == earlier[j] && rows[k] == earlier[k];
      } else if j > |earlier| {
        assert rows[j] == last[j - |earlier|] && rows[k] == last[k - |earlier|];
      } else if k == |earlier| {
        assert rows[k] == last[0];
      }
    }
  }
}
