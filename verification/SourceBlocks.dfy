// Hunks and gaps of a source projection: a partition of the aligned rows that
// accounts for every line of both revisions.
module SourceBlocks {
  import opened Prelude
  import opened SourceAlignment

  const MAX_SOURCE_ROWS := 2000

  // First and last line number of a side, when it has any.
  datatype LineRange = LineRange(start: Option<nat>, end: Option<nat>)

  // A block names the rows it stands for by start and end index.
  datatype Block =
    | Hunk(start: nat, end: nat, left: LineRange, right: LineRange, rows: seq<AlignedRow>)
    | Gap(start: nat, end: nat, left: LineRange, right: LineRange, leftCount: nat, rightCount: nat)

  function Numbers(rows: seq<AlignedRow>, side: Side): seq<nat> {
    if rows == [] then []
    else
      var last := At(rows[|rows| - 1], side);
      Numbers(rows[..|rows| - 1], side) + if last.Some? then [last.value.number] else []
  }

  function RowRange(rows: seq<AlignedRow>, side: Side): LineRange {
    var numbers := Numbers(rows, side);
    if numbers == [] then LineRange(None, None) else LineRange(Some(numbers[0]), Some(numbers[|numbers| - 1]))
  }

  function GapBlock(rows: seq<AlignedRow>, start: nat, end: nat): (block: Block)
    requires start <= end <= |rows|
    ensures block.Gap? && block.start == start && block.end == end
  {
    Gap(start, end, RowRange(rows[start..end], Left), RowRange(rows[start..end], Right),
        Count(rows[start..end], Left), Count(rows[start..end], Right))
  }

  function HunkBlock(rows: seq<AlignedRow>, start: nat, end: nat): (block: Block)
    requires start <= end <= |rows|
    ensures block.Hunk? && block.start == start && block.end == end
  {
    Hunk(start, end, RowRange(rows[start..end], Left), RowRange(rows[start..end], Right), rows[start..end])
  }

  // -- _build_source_blocks --

  ghost predicate Indexes(selected: seq<nat>, n: nat) {
    Ascending(selected) && forall i | 0 <= i < |selected| :: selected[i] < n
  }

  datatype Window = Window(start: nat, end: nat)

  predicate Within(w: Window, x: nat) {
    w.start <= x < w.end
  }

  // Nonempty, in order, with at least one index between neighbours.
  ghost predicate Apart(windows: seq<Window>) {
    && (forall k | 0 <= k < |windows| :: windows[k].start < windows[k].end)
    && (forall j, k | 0 <= j < k < |windows| :: windows[j].end < windows[k].start)
  }

  ghost predicate Covered(windows: seq<Window>, x: nat) {
    exists k :: 0 <= k < |windows| && Within(windows[k], x)
  }

  method FindWindows(selected: seq<nat>, n: nat) returns (windows: seq<Window>)
    requires Indexes(selected, n)
    ensures Apart(windows) && (windows != [] ==> windows[|windows| - 1].end <= n)
    ensures forall x: nat :: Covered(windows, x) <==> x in selected
  {
    windows := [];
    for i := 0 to |selected|
      invariant Apart(windows) && (windows == [] <==> i == 0)
      invariant i > 0 ==> windows[|windows| - 1].end == selected[i - 1] + 1
      invariant forall x: nat :: Covered(windows, x) <==> x in selected[..i]
    {
      var index := selected[i];
      ghost var before := windows;
      if windows != [] && index == windows[|windows| - 1].end {
        ExtendLast(windows, index);
        windows := windows[..|windows| - 1] + [Window(windows[|windows| - 1].start, index + 1)];
      } else {
        AppendWindow(windows, index);
        windows := windows + [Window(index, index + 1)];
      }
      assert selected[..i + 1] == selected[..i] + [index];
    }
    assert selected[..|selected|] == selected;
  }

  lemma ExtendLast(windows: seq<Window>, index: nat)
    requires Apart(windows) && windows != [] && index == windows[|windows| - 1].end
    ensures var wider := windows[..|windows| - 1] + [Window(windows[|windows| - 1].start, index + 1)];
            && Apart(wider)
            && forall x: nat :: Covered(wider, x) <==> Covered(windows, x) || x == index
  {
    var m := |windows| - 1;
    var wider := windows[..m] + [Window(windows[m].start, index + 1)];
    forall x: nat
      ensures Covered(wider, x) <==> Covered(windows, x) || x == index
    {
      if Covered(windows, x) {
        var k :| 0 <= k < |windows| && Within(windows[k], x);
        assert Within(wider[k], x);
      }
      if Covered(wider, x) {
        var k :| 0 <= k < |wider| && Within(wider[k], x);
        assert x == index || Within(windows[k], x);
      }
      assert Within(wider[m], index);
    }
  }

  lemma AppendWindow(windows: seq<Window>, index: nat)
    requires Apart(windows) && (windows != [] ==> windows[|windows| - 1].end < index)
    ensures var more := windows + [Window(index, index + 1)];
            && Apart(more)
            && forall x: nat :: Covered(more, x) <==> Covered(windows, x) || x == index
  {
    var more := windows + [Window(index, index + 1)];
    forall x: nat
      ensures Covered(more, x) <==> Covered(windows, x) || x == index
    {
      if Covered(windows, x) {
        var k :| 0 <= k < |windows| && Within(windows[k], x);
        assert Within(more[k], x);
      }
      if Covered(more, x) {
        var k :| 0 <= k < |more| && Within(more[k], x);
        assert x == index || Within(windows[k], x);
      }
      assert Within(more[|windows|], index);
    }
  }

  function NextStart(blocks: seq<Block>, k: nat, end: nat): nat
    requires k <= |blocks|
  {
    if k == |blocks| then end else blocks[k].start
  }

  // A nonempty block built from its own rows.
  ghost predicate OwnRows(rows: seq<AlignedRow>, block: Block) {
    && block.start < block.end <= |rows|
    && block == if block.Hunk? then HunkBlock(rows, block.start, block.end) else GapBlock(rows, block.start, block.end)
  }

  // Nonempty blocks, one after the other from row 0 to row `end`, no two
  // neighbours of the same type, each built from its own rows.
  ghost predicate Partition(rows: seq<AlignedRow>, blocks: seq<Block>, end: nat) {
    && NextStart(blocks, 0, end) == 0 && end <= |rows|
    && (forall k | 0 <= k < |blocks| :: blocks[k].end == NextStart(blocks, k + 1, end) && OwnRows(rows, blocks[k]))
    && (forall k | 0 < k < |blocks| :: blocks[k - 1].Hunk? != blocks[k].Hunk?)
  }

  // Hunks hold exactly the rows picked by `hit`, gaps exactly the others.
  ghost predicate Sorts(blocks: seq<Block>, windows: seq<Window>) {
    forall k, x: nat | 0 <= k < |blocks| && blocks[k].start <= x < blocks[k].end :: blocks[k].Hunk? <==>
      Covered(windows, x)
  }

  method BuildSourceBlocks(rows: seq<AlignedRow>, selected: seq<nat>) returns (blocks: seq<Block>)
    requires Indexes(selected, |rows|)
    ensures Partition(rows, blocks, |rows|)
    ensures forall k, x: nat | 0 <= k < |blocks| && blocks[k].start <= x < blocks[k].end :: blocks[k].Hunk? <==>
      x in selected
  {
    hide HunkBlock, GapBlock, Covered, Partition;
    var windows := FindWindows(selected, |rows|);
    blocks := [];
    var cursor := 0;
    EmptyPartition(rows, windows);
    for k := 0 to |windows|
      invariant cursor == if k == 0 then 0 else windows[k - 1].end
      invariant Partition(rows, blocks, cursor) && Sorts(blocks, windows)
      invariant k > 0 ==> blocks != [] && blocks[|blocks| - 1].Hunk?
      invariant k == 0 ==> blocks == []
    {
      var w := windows[k];
      if w.start > cursor {
        AppendGap(rows, blocks, windows, k, cursor, w.start);
        blocks := blocks + [GapBlock(rows, cursor, w.start)];
      }
      AppendHunk(rows, blocks, windows, k);
      blocks := blocks + [HunkBlock(rows, w.start, w.end)];
      cursor := w.end;
    }
    if cursor < |rows| {
      AppendGap(rows, blocks, windows, |windows|, cursor, |rows|);
      blocks := blocks + [GapBlock(rows, cursor, |rows|)];
    }
  }

  lemma EmptyPartition(rows: seq<AlignedRow>, windows: seq<Window>)
    ensures Partition(rows, [], 0) && Sorts([], windows)
  {
  }

  lemma AppendGap(rows: seq<AlignedRow>, blocks: seq<Block>, windows: seq<Window>, k: nat, cursor: nat, end: nat)
    requires Apart(windows) && k <= |windows| && cursor < end <= |rows|
    requires cursor == if k == 0 then 0 else windows[k - 1].end
    requires k < |windows| ==> end == windows[k].start
    requires Partition(rows, blocks, cursor) && Sorts(blocks, windows)
    requires blocks != [] ==> blocks[|blocks| - 1].Hunk?
    ensures var more := blocks + [GapBlock(rows, cursor, end)];
            Partition(rows, more, end) && Sorts(more, windows)
  {
    forall x: nat | cursor <= x < end
      ensures !Covered(windows, x)
    {
      forall j | 0 <= j < |windows|
        ensures !Within(windows[j], x)
      {
        if j < k - 1 {
          assert windows[j].end < windows[k - 1].start;
        } else if j > k {
          assert windows[k].end < windows[j].start;
        }
      }
    }
    AppendBlock(rows, blocks, GapBlock(rows, cursor, end), cursor);
  }

  lemma AppendHunk(rows: seq<AlignedRow>, blocks: seq<Block>, windows: seq<Window>, k: nat)
    requires Apart(windows) && k < |windows| && windows[k].end <= |rows|
    requires Partition(rows, blocks, windows[k].start) && Sorts(blocks, windows)
    requires blocks != [] ==> blocks[|blocks| - 1].Gap?
    ensures var more := blocks + [HunkBlock(rows, windows[k].start, windows[k].end)];
            Partition(rows, more, windows[k].end) && Sorts(more, windows)
  {
    forall x: nat | windows[k].start <= x < windows[k].end
      ensures Covered(windows, x)
    {
      assert Within(windows[k], x);
    }
    AppendBlock(rows, blocks, HunkBlock(rows, windows[k].start, windows[k].end), windows[k].start);
  }

  lemma AppendBlock(rows: seq<AlignedRow>, blocks: seq<Block>, block: Block, cursor: nat)
    requires Partition(rows, blocks, cursor)
    requires block.start == cursor && OwnRows(rows, block)
    requires blocks != [] ==> blocks[|blocks| - 1].Hunk? != block.Hunk?
    ensures Partition(rows, blocks + [block], block.end)
  {
    hide OwnRows;
    var more := blocks + [block];
    forall k | 0 <= k < |more|
      ensures more[k].end == NextStart(more, k + 1, block.end) && OwnRows(rows, more[k])
    {
      if k < |blocks| {
        assert more[k] == blocks[k] && NextStart(more, k + 1, block.end) == NextStart(blocks, k + 1, cursor);
      }
    }
    assert NextStart(more, 0, block.end) == NextStart(blocks, 0, cursor) == 0;
    forall k | 0 < k < |more|
      ensures more[k - 1].Hunk? != more[k].Hunk?
    {
      if k < |blocks| {
        assert more[k - 1] == blocks[k - 1] && more[k] == blocks[k];
      }
    }
    OwnRowsInside(rows, block);
  }

  lemma OwnRowsInside(rows: seq<AlignedRow>, block: Block)
    requires OwnRows(rows, block)
    ensures block.start < block.end <= |rows|
  {
  }

  // -- Line numbers of a stretch of rows --

  function Range(lo: nat, hi: nat): seq<nat>
    decreases hi - lo
  {
    if lo >= hi then [] else Range(lo, hi - 1) + [hi - 1]
  }

  lemma {:induction false} RangeShape(lo: nat, hi: nat)
    requires lo <= hi
    ensures |Range(lo, hi)| == hi - lo && forall i | 0 <= i < hi - lo :: Range(lo, hi)[i] == lo + i
    decreases hi - lo
  {
    if lo == hi {
    } else {
      RangeShape(lo, hi - 1);
    }
  }

  lemma {:induction false} RangeJoin(lo: nat, mid: nat, hi: nat)
    requires lo <= mid <= hi
    ensures Range(lo, mid) + Range(mid, hi) == Range(lo, hi)
    decreases hi - mid
  {
    if mid == hi {
    } else {
      RangeJoin(lo, mid, hi - 1);
    }
  }

  // Lines of a side before row i.
  function Seen(rows: seq<AlignedRow>, i: nat, side: Side): nat
    requires i <= |rows|
  {
    Count(rows[..i], side)
  }

  lemma SeenNext(rows: seq<AlignedRow>, i: nat, side: Side)
    requires i < |rows|
    ensures Seen(rows, i + 1, side) == Seen(rows, i, side) + if At(rows[i], side).Some? then 1 else 0
  {
    assert rows[..i + 1][..i] == rows[..i];
  }

  lemma {:induction false} SeenGrows(rows: seq<AlignedRow>, i: nat, j: nat, side: Side)
    requires i <= j <= |rows|
    ensures Seen(rows, i, side) <= Seen(rows, j, side)
    decreases j
  {
    if i == j {
    } else {
      SeenNext(rows, j - 1, side);
      SeenGrows(rows, i, j - 1, side);
    }
  }

  // A stretch of aligned rows carries consecutive numbers on each side.
  lemma {:induction false} NumbersAreConsecutive(
      rows: seq<AlignedRow>, lines: seq<string>, side: Side, lo: nat, hi: nat)
    requires InLineOrder(rows, lines, side) && lo <= hi <= |rows|
    ensures Numbers(rows[lo..hi], side) == Range(Seen(rows, lo, side) + 1, Seen(rows, hi, side) + 1)
    ensures Count(rows[lo..hi], side) == Seen(rows, hi, side) - Seen(rows, lo, side) >= 0
    decreases hi
  {
    if lo == hi {
      assert rows[lo..hi] == [];
    } else {
      NumbersAreConsecutive(rows, lines, side, lo, hi - 1);
      assert rows[lo..hi][..hi - lo - 1] == rows[lo..hi - 1];
      SeenNext(rows, hi - 1, side);
    }
  }

  // A range is empty on a side without lines, and otherwise runs from the
  // first line to the last with nothing missing in between.
  lemma RangeOfRows(rows: seq<AlignedRow>, lines: seq<string>, side: Side, lo: nat, hi: nat)
    requires InLineOrder(rows, lines, side) && lo <= hi <= |rows|
    ensures var first, last := Seen(rows, lo, side) + 1, Seen(rows, hi, side);
            && Count(rows[lo..hi], side) == last + 1 - first
            && RowRange(rows[lo..hi], side)
                 == if first > last then LineRange(None, None) else LineRange(Some(first), Some(last))
  {
    hide InLineOrder;
    NumbersAreConsecutive(rows, lines, side, lo, hi);
    RangeShape(Seen(rows, lo, side) + 1, Seen(rows, hi, side) + 1);
  }

  // -- The blocks account for every line once --

  function BlockLines(block: Block, side: Side): seq<nat> {
    match block
    case Hunk(_, _, _, _, rows) => Numbers(rows, side)
    case Gap(_, _, left, right, _, _) => Spelled(if side == Left then left else right)
  }

  function Spelled(range: LineRange): seq<nat> {
    if range.start.Some? && range.end.Some? then Range(range.start.value, range.end.value + 1) else []
  }

  function LinesOf(blocks: seq<Block>, side: Side): seq<nat> {
    if blocks == [] then [] else LinesOf(blocks[..|blocks| - 1], side) + BlockLines(blocks[|blocks| - 1], side)
  }

  lemma {:induction false} BlocksListLines(
      rows: seq<AlignedRow>, lines: seq<string>, side: Side, blocks: seq<Block>, end: nat)
    requires InLineOrder(rows, lines, side) && Partition(rows, blocks, end)
    ensures LinesOf(blocks, side) == Range(1, Seen(rows, end, side) + 1)
    decreases |blocks|
  {
    hide InLineOrder, Partition, Count, BlockLines, OwnRows;
    if blocks == [] {
      NoBlocks(rows, end, side);
    } else {
      var front, last := blocks[..|blocks| - 1], blocks[|blocks| - 1];
      PartitionFront(rows, blocks, end);
      OwnRowsInside(rows, last);
      BlocksListLines(rows, lines, side, front, last.start);
      BlockListsLines(rows, lines, side, last);
      SeenGrows(rows, last.start, last.end, side);
      RangeJoin(1, Seen(rows, last.start, side) + 1, Seen(rows, last.end, side) + 1);
    }
  }

  lemma NoBlocks(rows: seq<AlignedRow>, end: nat, side: Side)
    requires Partition(rows, [], end)
    ensures end == 0 && Seen(rows, 0, side) == 0
  {
  }

  lemma PartitionFront(rows: seq<AlignedRow>, blocks: seq<Block>, end: nat)
    requires blocks != [] && Partition(rows, blocks, end)
    ensures Partition(rows, blocks[..|blocks| - 1], blocks[|blocks| - 1].start)
    ensures blocks[|blocks| - 1].start < blocks[|blocks| - 1].end == end && OwnRows(rows, blocks[|blocks| - 1])
  {
    hide OwnRows;
    OwnRowsInside(rows, blocks[|blocks| - 1]);
    forall k | 0 <= k < |blocks| - 1
      ensures blocks[k].end == NextStart(blocks[..|blocks| - 1], k + 1, blocks[|blocks| - 1].start)
    {
      assert blocks[k].end == NextStart(blocks, k + 1, end);
    }
  }

  lemma BlockListsLines(rows: seq<AlignedRow>, lines: seq<string>, side: Side, block: Block)
    requires InLineOrder(rows, lines, side) && OwnRows(rows, block)
    ensures BlockLines(block, side) == Range(Seen(rows, block.start, side) + 1, Seen(rows, block.end, side) + 1)
  {
    NumbersAreConsecutive(rows, lines, side, block.start, block.end);
    RangeOfRows(rows, lines, side, block.start, block.end);
  }

  // A count agrees with the range beside it.
  lemma SideCountAgrees(rows: seq<AlignedRow>, lines: seq<string>, side: Side, start: nat, end: nat)
    requires InLineOrder(rows, lines, side) && start <= end <= |rows|
    ensures var count, range := Count(rows[start..end], side), RowRange(rows[start..end], side);
            count == |Spelled(range)| && (count == 0 <==> range == LineRange(None, None))
  {
    hide InLineOrder, Count;
    RangeOfRows(rows, lines, side, start, end);
    SeenGrows(rows, start, end, side);
    RangeShape(Seen(rows, start, side) + 1, Seen(rows, end, side) + 1);
  }

  lemma GapCountsAgree(rows: seq<AlignedRow>, left: seq<string>, right: seq<string>, start: nat, end: nat)
    requires InLineOrder(rows, left, Left) && InLineOrder(rows, right, Right) && start <= end <= |rows|
    ensures var gap := GapBlock(rows, start, end);
            && gap.leftCount == |Spelled(gap.left)| && (gap.leftCount == 0 <==> gap.left == LineRange(None, None))
            && gap.rightCount == |Spelled(gap.right)| && (gap.rightCount == 0 <==> gap.right == LineRange(None, None))
  {
    hide InLineOrder, Count, RowRange, Spelled;
    SideCountAgrees(rows, left, Left, start, end);
    SideCountAgrees(rows, right, Right, start, end);
  }

  // -- Expanding a gap --

  datatype Bounds = Bounds(first: nat, last: nat)

  predicate LineInRange(line: Option<Line>, bounds: Option<Bounds>) {
    line.Some? && bounds.Some? && bounds.value.first <= line.value.number <= bounds.value.last
  }

  predicate RowInRange(row: AlignedRow, left: Option<Bounds>, right: Option<Bounds>) {
    LineInRange(row.left, left) || LineInRange(row.right, right)
  }

  method RangeRowIndexes(rows: seq<AlignedRow>, left: Option<Bounds>, right: Option<Bounds>)
    returns (selected: seq<nat>)
    ensures Indexes(selected, |rows|)
    ensures forall i | 0 <= i < |rows| :: i in selected <==> RowInRange(rows[i], left, right)
  {
    selected := [];
    for index := 0 to |rows|
      invariant Indexes(selected, index)
      invariant forall i | 0 <= i < index :: i in selected <==> RowInRange(rows[i], left, right)
    {
      if RowInRange(rows[index], left, right) {
        selected := selected + [index];
      }
    }
  }

  // What a reader of a gap sends back for one side.
  function BoundsOf(range: LineRange): Option<Bounds> {
    if range.start.Some? && range.end.Some? then Some(Bounds(range.start.value, range.end.value)) else None
  }

  lemma SideInGap(rows: seq<AlignedRow>, lines: seq<string>, side: Side, start: nat, end: nat, i: nat)
    requires InLineOrder(rows, lines, side) && start <= end <= |rows| && i < |rows| && At(rows[i], side).Some?
    ensures LineInRange(At(rows[i], side), BoundsOf(RowRange(rows[start..end], side))) <==> start <= i < end
  {
    hide Count;
    RangeOfRows(rows, lines, side, start, end);
    SeenNext(rows, i, side);
    if i < start {
      SeenGrows(rows, i + 1, start, side);
    } else if i < end {
      SeenGrows(rows, start, i, side);
      SeenGrows(rows, i + 1, end, side);
    } else {
      SeenGrows(rows, end, i, side);
    }
  }

  // A gap's own ranges select its rows and no others.
  lemma GapSelectsItsRows(rows: seq<AlignedRow>, left: seq<string>, right: seq<string>, start: nat, end: nat, i: nat)
    requires InLineOrder(rows, left, Left) && InLineOrder(rows, right, Right) && KindsFit(rows)
    requires start <= end <= |rows| && i < |rows|
    ensures var gap := GapBlock(rows, start, end);
            RowInRange(rows[i], BoundsOf(gap.left), BoundsOf(gap.right)) <==> start <= i < end
  {
    hide InLineOrder, RowRange, Count;
    assert KindFits(rows[i]);
    if rows[i].left.Some? {
      SideInGap(rows, left, Left, start, end, i);
    }
    if rows[i].right.Some? {
      SideInGap(rows, right, Right, start, end, i);
    }
  }

  method ExpandGap(ops: seq<Opcode>, left: seq<string>, right: seq<string>, start: nat, end: nat)
    returns (selected: seq<nat>)
    requires Tiles(ops, left, right) && start <= end <= |Alignment(ops, |ops|, left, right)|
    ensures selected == Range(start, end)
  {
    var rows := AlignLines(ops, left, right);
    var gap := GapBlock(rows, start, end);
    selected := RangeRowIndexes(rows, BoundsOf(gap.left), BoundsOf(gap.right));
    AlignmentKeepsLines(ops, |ops|, left, right);
    forall i: nat | i < |rows|
      ensures i in selected <==> start <= i < end
    {
      GapSelectsItsRows(rows, left, right, start, end, i);
    }
    OrderedIsRange(selected, |rows|, start, end);
  }

  lemma OneSelected(selected: seq<nat>, n: nat)
    requires Indexes(selected, n)
    ensures selected != [] ==> exists i: nat :: i < n && i in selected
  {
    if selected != [] {
      assert selected[0] in selected;
    }
  }

  lemma {:induction false} OrderedIsRange(selected: seq<nat>, n: nat, start: nat, end: nat)
    requires Indexes(selected, n) && start <= end <= n
    requires forall i: nat | i < n :: i in selected <==> start <= i < end
    ensures selected == Range(start, end)
    decreases end - start
  {
    if start == end {
      OneSelected(selected, n);
    } else {
      var m := |selected| - 1;
      assert end - 1 in selected && selected[m] in selected;
      assert selected[m] == end - 1;
      var front := selected[..m];
      assert selected == front + [selected[m]];
      forall i: nat | i < n
        ensures i in front <==> start <= i < end - 1
      {
        assert i in selected <==> i in front || i == selected[m];
        assert i in front ==> i < selected[m];
      }
      OrderedIsRange(front, n, start, end - 1);
    }
  }

  // -- read_source_projection, from the selected rows on --

  method ProjectSource(ops: seq<Opcode>, left: seq<string>, right: seq<string>, selected: seq<nat>)
    returns (blocks: seq<Block>, truncated: bool)
    requires Tiles(ops, left, right) && Indexes(selected, |Alignment(ops, |ops|, left, right)|)
    ensures LinesOf(blocks, Left) == Range(1, |left| + 1) && LinesOf(blocks, Right) == Range(1, |right| + 1)
    ensures Partition(Alignment(ops, |ops|, left, right), blocks, |Alignment(ops, |ops|, left, right)|)
    ensures truncated <==> |selected| > MAX_SOURCE_ROWS
    ensures forall k, x: nat | 0 <= k < |blocks| && blocks[k].start <= x < blocks[k].end ::
              blocks[k].Hunk? <==> x in selected[..Min(|selected|, MAX_SOURCE_ROWS)]
  {
    hide Partition, LinesOf, InLineOrder, KindsFit, Tiles, Range;
    hide Alignment;
    var rows := AlignLines(ops, left, right);
    var shown := selected[..Min(|selected|, MAX_SOURCE_ROWS)];
    blocks := BuildSourceBlocks(rows, shown);
    truncated := |selected| > |shown|;
    AlignmentKeepsLines(ops, |ops|, left, right);
    BlocksListLines(rows, left, Left, blocks, |rows|);
    BlocksListLines(rows, right, Right, blocks, |rows|);
    assert rows[..|rows|] == rows;
  }
}
