// Writing trees into the structural index and rebuilding them from its rows.
module ArtifactStore {
  import opened Prelude
  import opened Sorting
  import opened ArtifactRows
  import opened ArtifactLinks
  import opened ArtifactFileIds

  // `baseId` stands for "f-" and the first 16 hexadecimal digits of the file's hash.
  datatype StoredFile = StoredFile(baseId: string, unitId: nat, tree: Option<Tree>)

  datatype FileRecord = FileRecord(id: FileId, unitId: nat, root: Option<nat>)

  // -- Writing --

  // Later rows take over a path.
  function Named(names: map<string, Key>, rows: seq<Row>): map<string, Key> {
    if rows == [] then names
    else Named(names, rows[..|rows| - 1])[rows[|rows| - 1].payload.path := rows[|rows| - 1].key]
  }

  lemma {:induction false} NamedAppend(names: map<string, Key>, a: seq<Row>, b: seq<Row>)
    ensures Named(names, a + b) == Named(Named(names, a), b)
  {
    if b == [] {
      assert a + b == a;
    } else {
      assert (a + b)[..|a + b| - 1] == a + b[..|b| - 1];
      NamedAppend(names, a, b[..|b| - 1]);
    }
  }

  // Distinct paths name their own rows.
  lemma {:induction false} PathsNameTheirRows(rows: seq<Row>)
    requires forall i, j | 0 <= i < j < |rows| :: rows[i].payload.path != rows[j].payload.path
    ensures forall row | row in rows ::
      row.payload.path in Named(map[], rows) && Named(map[], rows)[row.payload.path] == row.key
  {
    if rows == [] {
    } else {
      var front := rows[..|rows| - 1];
      PathsNameTheirRows(front);
      assert rows == front + [rows[|rows| - 1]];
    }
  }

  class IndexBuilder {
    var records: seq<Row>
    var pathToNode: map<string, Key>
    var nextOrdinal: nat

    constructor ()
      ensures records == [] && pathToNode == map[] && nextOrdinal == 0
    {
      records, pathToNode, nextOrdinal := [], map[], 0;
    }

    method AppendNodeRecords(node: Tree, file: FileId, parent: Option<nat>, sibling: nat)
      modifies this
      ensures records == old(records) + Rows(node, file, parent, sibling, old(nextOrdinal))
      ensures pathToNode == Named(old(pathToNode), Rows(node, file, parent, sibling, old(nextOrdinal)))
      ensures nextOrdinal == old(nextOrdinal) + Size(node)
      decreases node
    {
      var ordinal := nextOrdinal;
      var own := Row(Key(file, ordinal), parent, sibling, |node.children|, node.payload);
      nextOrdinal := nextOrdinal + 1;
      pathToNode := pathToNode[node.payload.path := own.key];
      records := records + [own];
      assert [own][..0] == [];
      for c := 0 to |node.children|
        invariant nextOrdinal == ChildOrdinal(node, c, ordinal)
        invariant records == old(records) + ([own] + ChildRows(node, c, file, ordinal))
        invariant pathToNode == Named(old(pathToNode), [own] + ChildRows(node, c, file, ordinal))
      {
        ghost var written := [own] + ChildRows(node, c, file, ordinal);
        ghost var more := Rows(node.children[c], file, Some(ordinal), c, nextOrdinal);
        NamedAppend(old(pathToNode), written, more);
        assert written + more == [own] + ChildRows(node, c + 1, file, ordinal);
        AppendNodeRecords(node.children[c], file, Some(ordinal), c);
      }
    }
  }

  function Ids(records: seq<FileRecord>): set<FileId> {
    set record | record in records :: record.id
  }

  function FileRows(file: StoredFile, id: FileId): seq<Row> {
    match file.tree
    case None => []
    case Some(tree) => Rows(tree, id, None, 0, 0)
  }

  // The rows of the first i files under the identifiers they were given.
  function IndexRows(files: seq<StoredFile>, records: seq<FileRecord>, i: nat): seq<Row>
    requires i <= |files| == |records|
  {
    if i == 0 then [] else IndexRows(files, records, i - 1) + FileRows(files[i - 1], records[i - 1].id)
  }

  // Every file has a record of its own, in order, and no identifier repeats.
  predicate RecordsFor(files: seq<StoredFile>, records: seq<FileRecord>) {
    && |records| == |files|
    && (forall k | 0 <= k < |files| ::
          records[k].unitId == files[k].unitId && records[k].root == if files[k].tree.Some? then Some(0) else None)
    && (forall j, k | 0 <= j < k < |records| :: records[j].id != records[k].id)
  }

  // A file keeps its hash unless an earlier file has taken that identifier.
  ghost predicate NamedByHash(files: seq<StoredFile>, records: seq<FileRecord>)
    requires |files| == |records|
  {
    forall k | 0 <= k < |files| && files[k].baseId !in Ids(records[..k]) :: records[k].id == files[k].baseId
  }

  method BuildIndexRecords(files: seq<StoredFile>)
    returns (records: seq<FileRecord>, rows: seq<Row>, pathToNode: map<string, Key>)
    ensures RecordsFor(files, records) && NamedByHash(files, records)
    ensures rows == IndexRows(files, records, |files|)
    ensures pathToNode == Named(map[], rows)
  {
    hide RecordsFor, NamedByHash, IndexRows, Named, Rows;
    var builder := new IndexBuilder();
    records := [];
    var usedIds: set<FileId> := {};
    NoFiles();
    for k := 0 to |files|
      invariant |records| == k && RecordsFor(files[..k], records) && NamedByHash(files[..k], records)
            && usedIds == Ids(records)
      invariant builder.records == IndexRows(files[..k], records, k)
      invariant builder.pathToNode == Named(map[], builder.records)
    {
      var file := files[k];
      var id := BuildFileId(file.baseId, usedIds);
      usedIds := usedIds + {id};
      var root: Option<nat> := None;
      NamedAppend(map[], builder.records, FileRows(file, id));
      if file.tree.Some? {
        root := Some(0);
        builder.nextOrdinal := 0;
        builder.AppendNodeRecords(file.tree.value, id, None, 0);
      } else {
        assert builder.records + [] == builder.records;
      }
      AnotherFile(files[..k], records, file, FileRecord(id, file.unitId, root));
      assert files[..k + 1] == files[..k] + [file];
      records := records + [FileRecord(id, file.unitId, root)];
    }
    assert files[..|files|] == files;
    rows, pathToNode := builder.records, builder.pathToNode;
  }

  lemma NoFiles()
    ensures RecordsFor([], []) && NamedByHash([], []) && IndexRows([], [], 0) == [] && Named(map[], []) == map[]
  {
  }

  lemma AnotherFile(files: seq<StoredFile>, records: seq<FileRecord>, file: StoredFile, record: FileRecord)
    requires RecordsFor(files, records) && NamedByHash(files, records)
    requires record.id !in Ids(records) && (file.baseId !in Ids(records) ==> record.id == file.baseId)
    requires record.unitId == file.unitId && record.root == if file.tree.Some? then Some(0) else None
    ensures RecordsFor(files + [file], records + [record]) && NamedByHash(files + [file], records + [record])
    ensures IndexRows(files + [file], records + [record], |files| + 1)
          == IndexRows(files, records, |files|) + FileRows(file, record.id)
    ensures Ids(records + [record]) == Ids(records) + {record.id}
  {
    RecordsGrow(files, records, file, record);
    NamesGrow(files, records, file, record);
    IndexRowsGrow(files, records, file, record);
  }

  lemma RecordsGrow(files: seq<StoredFile>, records: seq<FileRecord>, file: StoredFile, record: FileRecord)
    requires RecordsFor(files, records) && record.id !in Ids(records)
    requires record.unitId == file.unitId && record.root == if file.tree.Some? then Some(0) else None
    ensures RecordsFor(files + [file], records + [record])
  {
    forall k | 0 <= k < |records|
      ensures records[k].id != record.id
    {
      assert records[k] in records;
    }
  }

  lemma NamesGrow(files: seq<StoredFile>, records: seq<FileRecord>, file: StoredFile, record: FileRecord)
    requires |files| == |records| && NamedByHash(files, records)
    requires file.baseId !in Ids(records) ==> record.id == file.baseId
    ensures NamedByHash(files + [file], records + [record])
  {
    forall k | 0 <= k <= |records|
      ensures (records + [record])[..k] == records[..k]
    {
    }
    assert records[..|records|] == records;
  }

  lemma IndexRowsGrow(files: seq<StoredFile>, records: seq<FileRecord>, file: StoredFile, record: FileRecord)
    requires |files| == |records|
    ensures IndexRows(files + [file], records + [record], |files| + 1)
          == IndexRows(files, records, |files|) + FileRows(file, record.id)
  {
    IndexRowsExtend(files, records, file, record, |files|);
  }

  lemma {:induction false} IndexRowsExtend(
      files: seq<StoredFile>, records: seq<FileRecord>, file: StoredFile, record: FileRecord, i: nat)
    requires i <= |files| == |records|
    ensures IndexRows(files + [file], records + [record], i) == IndexRows(files, records, i)
  {
    if i == 0 {
    } else {
      IndexRowsExtend(files, records, file, record, i - 1);
    }
  }

  // -- Rebuilding --

  // A JSON object of the rebuilt payload: children are patched in place.
  class NodeCell {
    const payload: Payload
    var children: seq<NodeCell>

    constructor (payload: Payload)
      ensures this.payload == payload && children == []
    {
      this.payload := payload;
      children := [];
    }
  }

  type Cells = map<Key, NodeCell>

  predicate HasKey(rows: seq<Row>, key: Key) {
    exists row :: row in rows && row.key == key
  }

  predicate ParentsPresent(rows: seq<Row>) {
    forall row | row in rows && row.parent.Some? :: HasKey(rows, Key(row.key.file, row.parent.value))
  }

  function CellsOf(cells: Cells, links: seq<Link>): seq<NodeCell>
    requires forall link | link in links :: link.child in cells
  {
    seq(|links|, i requires 0 <= i < |links| => cells[links[i].child])
  }

  // One cell per row, holding its payload.
  ghost predicate CellPerRow(cells: Cells, rows: seq<Row>) {
    && (forall key :: key in cells <==> HasKey(rows, key))
    && (forall row | row in rows :: cells[row.key].payload == row.payload)
    && (forall k, l | k in cells && l in cells && k != l :: cells[k] != cells[l])
  }

  // The cells of an index, linked to their children in sibling order.
  ghost predicate Restored(cells: Cells, rows: seq<Row>)
    reads cells.Values
  {
    && CellPerRow(cells, rows)
    && (forall key, link | key in cells && link in Sort(Links(rows, key), Before) :: link.child in cells)
    && forall key | key in cells :: cells[key].children == CellsOf(cells, Sort(Links(rows, key), Before))
  }

  ghost predicate Grouped(byParent: map<Key, seq<Link>>, rows: seq<Row>) {
    && (forall key :: key in byParent <==> Links(rows, key) != [])
    && (forall key | key in byParent :: byParent[key] == Links(rows, key))
  }

  // None is the lookup error for a parent that has no row.
  method RebuildTrees(rows: seq<Row>) returns (nodes: Option<Cells>)
    requires UniqueKeys(rows)
    ensures nodes.Some? <==> ParentsPresent(rows)
    ensures nodes.Some? ==> Restored(nodes.value, rows)
  {
    hide CellPerRow, Grouped, Links;
    var cells: Cells := map[];
    var byParent: map<Key, seq<Link>> := map[];
    NoRows();
    for i := 0 to |rows|
      invariant CellPerRow(cells, rows[..i]) && Grouped(byParent, rows[..i])
      invariant forall key | key in cells :: fresh(cells[key]) && cells[key].children == []
    {
      var row := rows[i];
      assert rows[..i + 1] == rows[..i] + [row];
      var cell := new NodeCell(row.payload);
      AnotherCell(cells, rows[..i], row, cell);
      AnotherLink(byParent, rows[..i], row);
      cells := cells[row.key := cell];
      if row.parent.Some? {
        var parent := Key(row.key.file, row.parent.value);
        byParent := byParent[parent :=
          (if parent in byParent then byParent[parent] else []) + [Link(row.sibling, row.key)]];
      }
    }
    assert rows[..|rows|] == rows;
    nodes := PatchChildren(cells, byParent, rows);
  }

  lemma NoRows()
    ensures CellPerRow(map[], []) && Grouped(map[], [])
  {
  }

  lemma AnotherCell(cells: Cells, rows: seq<Row>, row: Row, cell: NodeCell)
    requires CellPerRow(cells, rows) && UniqueKeys(rows + [row])
    requires cell.payload == row.payload && forall key | key in cells :: cells[key] != cell
    ensures CellPerRow(cells[row.key := cell], rows + [row])
  {
    forall earlier | earlier in rows
      ensures earlier.key != row.key
    {
      var j :| 0 <= j < |rows| && rows[j] == earlier;
      assert (rows + [row])[j].key != (rows + [row])[|rows|].key;
    }
    forall key
      ensures HasKey(rows + [row], key) <==> HasKey(rows, key) || key == row.key
    {
      assert row in rows + [row];
    }
  }

  lemma AnotherLink(byParent: map<Key, seq<Link>>, rows: seq<Row>, row: Row)
    requires Grouped(byParent, rows)
    ensures row.parent.None? ==> Grouped(byParent, rows + [row])
    ensures row.parent.Some? ==>
      var parent := Key(row.key.file, row.parent.value);
      Grouped(byParent[parent := (if parent in byParent then byParent[parent] else []) + [Link(row.sibling, row.key)]],
          rows + [row])
  {
    assert (rows + [row])[..|rows|] == rows;
  }

  method PatchChildren(cells: Cells, byParent: map<Key, seq<Link>>, rows: seq<Row>) returns (nodes: Option<Cells>)
    requires CellPerRow(cells, rows)
    requires forall key | key in cells :: cells[key].children == []
    requires Grouped(byParent, rows)
    modifies cells.Values
    ensures nodes.Some? <==> ParentsPresent(rows)
    ensures nodes.Some? ==> nodes.value == cells && Restored(nodes.value, rows)
  {
    hide Links, Sort, CellsOf, ParentsPresent, HasKey;
    LinkedKeys(rows);
    SortedChildrenPresent(cells, rows);
    var rest := byParent.Keys;
    while rest != {}
      invariant rest <= byParent.Keys
      invariant forall key | key in byParent && key !in rest ::
        key in cells && cells[key].children == CellsOf(cells, Sort(byParent[key], Before))
      invariant forall key | key in cells && (key in rest || key !in byParent) :: cells[key].children == []
    {
      var key :| key in rest;
      if key !in cells {
        return None;
      }
      cells[key].children := CellsOf(cells, Sort(byParent[key], Before));
      rest := rest - {key};
    }
    AllPatched(cells, byParent, rows);
    nodes := Some(cells);
  }

  // Once every recorded parent is patched; the others have no links to sort.
  lemma AllPatched(cells: Cells, byParent: map<Key, seq<Link>>, rows: seq<Row>)
    requires CellPerRow(cells, rows) && Grouped(byParent, rows)
    requires forall key, link | link in Sort(Links(rows, key), Before) :: link.child in cells
    requires forall key | key in byParent ::
      key in cells && cells[key].children == CellsOf(cells, Sort(byParent[key], Before))
    requires forall key | key in cells && key !in byParent :: cells[key].children == []
    ensures Restored(cells, rows) && ParentsPresent(rows)
  {
    hide Links;
    LinkedKeys(rows);
  }

  lemma LinkedKeys(rows: seq<Row>)
    ensures ParentsPresent(rows) <==> forall key | Links(rows, key) != [] :: HasKey(rows, key)
  {
    forall key
      ensures Links(rows, key) != [] <==> exists row :: row in rows && IsChildOf(row, key)
    {
      LinksExist(rows, key);
    }
    forall row | row in rows && row.parent.Some?
      ensures Links(rows, Key(row.key.file, row.parent.value)) != []
    {
      assert IsChildOf(row, Key(row.key.file, row.parent.value));
    }
  }

  lemma SortedChildrenPresent(cells: Cells, rows: seq<Row>)
    requires forall key :: key in cells <==> HasKey(rows, key)
    ensures forall key, link | link in Sort(Links(rows, key), Before) :: link.child in cells
  {
    forall key, link | link in Sort(Links(rows, key), Before)
      ensures link.child in cells
    {
      BeforeIsOrder();
      SortSorts(Links(rows, key), Before);
      assert link in multiset(Links(rows, key));
      LinksExist(rows, key);
    }
  }

  // -- Rebuilding inverts writing --

  // The tree reachable from a cell.
  ghost predicate Denotes(cells: set<NodeCell>, cell: NodeCell, tree: Tree)
    reads cells
    decreases tree
  {
    && cell in cells
    && cell.payload == tree.payload
    && |cell.children| == |tree.children|
    && forall i | 0 <= i < |tree.children| :: Denotes(cells, cell.children[i], tree.children[i])
  }

  lemma {:induction false} HeldIsDenoted(cells: Cells, rows: seq<Row>, key: Key, tree: Tree)
    requires Restored(cells, rows) && Holds(rows, key, tree) && UniqueKeys(rows)
    ensures key in cells && Denotes(cells.Values, cells[key], tree)
    decreases tree
  {
    var links := Sort(Links(rows, key), Before);
    var row :| row in rows && row.key == key && row.payload == tree.payload;
    assert HasKey(rows, key);
    forall i | 0 <= i < |tree.children|
      ensures Denotes(cells.Values, cells[key].children[i], tree.children[i])
    {
      HeldIsDenoted(cells, rows, links[i].child, tree.children[i]);
    }
  }

  lemma {:induction false} FileRowsWithin(files: seq<StoredFile>, records: seq<FileRecord>, i: nat, f: nat)
    requires f < i <= |files| == |records|
    ensures forall row | row in FileRows(files[f], records[f].id) :: row in IndexRows(files, records, i)
  {
    if f == i - 1 {
    } else {
      FileRowsWithin(files, records, i - 1, f);
    }
  }

  ghost predicate FromFile(files: seq<StoredFile>, records: seq<FileRecord>, i: nat, row: Row)
    requires i <= |files| == |records|
  {
    exists f :: 0 <= f < i && row in FileRows(files[f], records[f].id)
  }

  lemma {:induction false} RowsOfFile(files: seq<StoredFile>, records: seq<FileRecord>, i: nat)
    requires i <= |files| == |records|
    ensures forall row | row in IndexRows(files, records, i) :: FromFile(files, records, i, row)
  {
    hide FileRows;
    if i == 0 {
    } else {
      RowsOfFile(files, records, i - 1);
      forall row | row in IndexRows(files, records, i)
        ensures FromFile(files, records, i, row)
      {
        if row in IndexRows(files, records, i - 1) {
          assert FromFile(files, records, i - 1, row);
        }
      }
    }
  }

  lemma FileRowsShape(file: StoredFile, id: FileId)
    ensures forall row | row in FileRows(file, id) :: row.key.file == id
    ensures UniqueKeys(FileRows(file, id)) && ParentsPresent(FileRows(file, id))
  {
    if file.tree.Some? {
      hide Rows;
      RowsPreorder(file.tree.value, id, None, 0, 0);
      FirstRow(file.tree.value, id, None, 0, 0);
      var rows := FileRows(file, id);
      forall row | row in rows && row.parent.Some?
        ensures HasKey(rows, Key(id, row.parent.value))
      {
        var k :| 0 <= k < |rows| && rows[k] == row;
        assert rows[row.parent.value] in rows;
      }
    }
  }

  // Other files contribute no links.
  lemma {:induction false} LinksOfFile(files: seq<StoredFile>, records: seq<FileRecord>, i: nat, f: nat, ordinal: nat)
    requires i <= |files| && f < |files| && RecordsFor(files, records)
    ensures Links(IndexRows(files, records, i), Key(records[f].id, ordinal))
         == if f < i then Links(FileRows(files[f], records[f].id), Key(records[f].id, ordinal)) else []
  {
    hide FileRows, Links;
    if i == 0 {
      NoLinks([], Key(records[f].id, ordinal));
    } else {
      LinksOfFile(files, records, i - 1, f, ordinal);
      LinksAppend(IndexRows(files, records, i - 1), FileRows(files[i - 1], records[i - 1].id),
          Key(records[f].id, ordinal));
      FileRowsShape(files[i - 1], records[i - 1].id);
      if f != i - 1 {
        NoLinks(FileRows(files[i - 1], records[i - 1].id), Key(records[f].id, ordinal));
      }
    }
  }

  lemma {:induction false} IndexKeysUnique(files: seq<StoredFile>, records: seq<FileRecord>, i: nat)
    requires i <= |files| && RecordsFor(files, records)
    ensures UniqueKeys(IndexRows(files, records, i))
  {
    hide FileRows, UniqueKeys;
    if i == 0 {
      NoKeys();
    } else {
      IndexKeysUnique(files, records, i - 1);
      FileRowsShape(files[i - 1], records[i - 1].id);
      EarlierFiles(files, records, i - 1);
      UniqueTogether(IndexRows(files, records, i - 1), FileRows(files[i - 1], records[i - 1].id));
    }
  }

  lemma NoKeys()
    ensures UniqueKeys([])
  {
  }

  lemma EarlierFiles(files: seq<StoredFile>, records: seq<FileRecord>, i: nat)
    requires i < |files| && RecordsFor(files, records)
    ensures forall row | row in IndexRows(files, records, i) :: row.key.file != records[i].id
  {
    hide FileRows, IndexRows;
    RowsOfFile(files, records, i);
    forall row | row in IndexRows(files, records, i)
      ensures row.key.file != records[i].id
    {
      var f :| 0 <= f < i && row in FileRows(files[f], records[f].id);
      FileRowsShape(files[f], records[f].id);
    }
  }

  lemma UniqueTogether(a: seq<Row>, b: seq<Row>)
    requires UniqueKeys(a) && UniqueKeys(b)
    requires forall r, s | r in a && s in b :: r.key.file != s.key.file
    ensures UniqueKeys(a + b)
  {
    var rows := a + b;
    forall i, j | 0 <= i < j < |rows|
      ensures rows[i].key != rows[j].key
    {
      if i < |a| <= j {
        assert rows[i] in a && rows[j] in b;
      }
    }
  }

  // Whatever order the rows of an index come back in, no parent is missing and
  // every file's root cell stands for that file's tree.
  lemma RebuildInvertsWriting(files: seq<StoredFile>, records: seq<FileRecord>, rows: seq<Row>)
    requires RecordsFor(files, records) && multiset(rows) == multiset(IndexRows(files, records, |files|))
    ensures UniqueKeys(rows) && ParentsPresent(rows)
    ensures forall f | 0 <= f < |files| && files[f].tree.Some? ::
      Holds(rows, Key(records[f].id, 0), files[f].tree.value)
  {
    var written := IndexRows(files, records, |files|);
    IndexKeysUnique(files, records, |files|);
    UniquePermuted(written, rows);
    SameRows(written, rows);
    forall row | row in rows && row.parent.Some?
      ensures HasKey(rows, Key(row.key.file, row.parent.value))
    {
      RowsOfFile(files, records, |files|);
      assert FromFile(files, records, |files|, row);
      var f :| 0 <= f < |files| && row in FileRows(files[f], records[f].id);
      FileRowsShape(files[f], records[f].id);
      FileRowsWithin(files, records, |files|, f);
    }
    forall f | 0 <= f < |files| && files[f].tree.Some?
      ensures Holds(rows, Key(records[f].id, 0), files[f].tree.value)
    {
      FileCovered(files, records, rows, f);
      CoveredIsHeld(rows, files[f].tree.value, records[f].id, None, 0, 0);
    }
  }

  lemma SameRows(a: seq<Row>, b: seq<Row>)
    requires multiset(a) == multiset(b)
    ensures forall row :: row in a <==> row in b
  {
    forall row
      ensures row in a <==> row in b
    {
      assert row in multiset(a) <==> row in multiset(b);
    }
  }

  lemma FileCovered(files: seq<StoredFile>, records: seq<FileRecord>, rows: seq<Row>, f: nat)
    requires RecordsFor(files, records) && multiset(rows) == multiset(IndexRows(files, records, |files|))
    requires f < |files| && files[f].tree.Some?
    ensures Covers(rows, files[f].tree.value, records[f].id, None, 0, 0)
  {
    hide Links, Rows;
    var written := IndexRows(files, records, |files|);
    var tree, id := files[f].tree.value, records[f].id;
    SameRows(written, rows);
    FileRowsWithin(files, records, |files|, f);
    forall ordinal: nat | InSubtree(tree, 0, ordinal)
      ensures multiset(Links(rows, Key(id, ordinal))) == multiset(Links(Rows(tree, id, None, 0, 0), Key(id, ordinal)))
    {
      LinksPermuted(rows, written, Key(id, ordinal));
      LinksOfFile(files, records, |files|, f, ordinal);
    }
  }

  // Store, read the rows back in any order, and look up a file's root.
  method ReadTrees(files: seq<StoredFile>, records: seq<FileRecord>, rows: seq<Row>) returns (cells: Cells)
    requires RecordsFor(files, records) && multiset(rows) == multiset(IndexRows(files, records, |files|))
    ensures forall f | 0 <= f < |files| && files[f].tree.Some? ::
              && Key(records[f].id, 0) in cells
              && Denotes(cells.Values, cells[Key(records[f].id, 0)], files[f].tree.value)
    ensures forall f | 0 <= f < |files| && files[f].tree.None? :: records[f].root == None
  {
    RebuildInvertsWriting(files, records, rows);
    var nodes := RebuildTrees(rows);
    cells := nodes.value;
    forall f | 0 <= f < |files| && files[f].tree.Some?
      ensures Key(records[f].id, 0) in cells && Denotes(cells.Values, cells[Key(records[f].id, 0)], files[f].tree.value)
    {
      HeldIsDenoted(cells, rows, Key(records[f].id, 0), files[f].tree.value);
    }
  }
}
