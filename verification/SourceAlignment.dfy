// Two revisions of a file aligned row by row, from the opcodes of a line matcher.
module SourceAlignment {
  import opened Prelude

  datatype OpTag = Equal | OpDelete | OpInsert | OpReplace

  datatype Opcode = Opcode(tag: OpTag, leftStart: nat, leftEnd: nat, rightStart: nat, rightEnd: nat)

  datatype RowKind = Context | Delete | Insert | Replace

  datatype Line = Line(number: nat, text: string)

  datatype AlignedRow = AlignedRow(kind: RowKind, left: Option<Line>, right: Option<Line>)

  datatype Side = Left | Right

  function At(row: AlignedRow, side: Side): Option<Line> {
    if side == Left then row.left else row.right
  }

  // -- The contract of the matcher: its opcodes tile both inputs --

  function LeftAt(ops: seq<Opcode>, k: nat, end: nat): nat
    requires k <= |ops|
  {
    if k == |ops| then end else ops[k].leftStart
  }

  function RightAt(ops: seq<Opcode>, k: nat, end: nat): nat
    requires k <= |ops|
  {
    if k == |ops| then end else ops[k].rightStart
  }

  predicate WellTagged(op: Opcode, left: seq<string>, right: seq<string>)
    requires op.leftStart <= op.leftEnd <= |left| && op.rightStart <= op.rightEnd <= |right|
  {
    match op.tag
    case Equal => op.leftStart < op.leftEnd && left[op.leftStart..op.leftEnd] == right[op.rightStart..op.rightEnd]
    case OpDelete => op.leftStart < op.leftEnd && op.rightStart == op.rightEnd
    case OpInsert => op.leftStart == op.leftEnd && op.rightStart < op.rightEnd
    case OpReplace => op.leftStart < op.leftEnd && op.rightStart < op.rightEnd
  }

  predicate Tiles(ops: seq<Opcode>, left: seq<string>, right: seq<string>) {
    && LeftAt(ops, 0, |left|) == 0 && RightAt(ops, 0, |right|) == 0
    && forall k | 0 <= k < |ops| ::
         && ops[k].leftStart <= ops[k].leftEnd == LeftAt(ops, k + 1, |left|) <= |left|
         && ops[k].rightStart <= ops[k].rightEnd == RightAt(ops, k + 1, |right|) <= |right|
         && WellTagged(ops[k], left, right)
  }

  // -- _align_lines --

  function KindOf(tag: OpTag): RowKind {
    match tag
    case Equal => Context
    case OpDelete => Delete
    case OpInsert => Insert
    case OpReplace => Replace
  }

  function RowCount(op: Opcode): nat
    requires op.leftStart <= op.leftEnd && op.rightStart <= op.rightEnd
  {
    Max(op.leftEnd - op.leftStart, op.rightEnd - op.rightStart)
  }

  function LineAt(lines: seq<string>, index: nat, end: nat): Option<Line>
    requires end <= |lines|
  {
    if index < end then Some(Line(index + 1, lines[index])) else None
  }

  function RowOf(op: Opcode, index: nat, left: seq<string>, right: seq<string>): AlignedRow
    requires op.leftEnd <= |left| && op.rightEnd <= |right|
  {
    AlignedRow(KindOf(op.tag), LineAt(left, op.leftStart + index, op.leftEnd),
        LineAt(right, op.rightStart + index, op.rightEnd))
  }

  function OpRows(op: Opcode, count: nat, left: seq<string>, right: seq<string>): seq<AlignedRow>
    requires op.leftEnd <= |left| && op.rightEnd <= |right|
  {
    if count == 0 then [] else OpRows(op, count - 1, left, right) + [RowOf(op, count - 1, left, right)]
  }

  function Alignment(ops: seq<Opcode>, k: nat, left: seq<string>, right: seq<string>): seq<AlignedRow>
    requires Tiles(ops, left, right) && k <= |ops|
  {
    if k == 0 then []
    else Alignment(ops, k - 1, left, right) + OpRows(ops[k - 1], RowCount(ops[k - 1]), left, right)
  }

  method AlignLines(ops: seq<Opcode>, left: seq<string>, right: seq<string>) returns (rows: seq<AlignedRow>)
    requires Tiles(ops, left, right)
    ensures rows == Alignment(ops, |ops|, left, right)
  {
    hide WellTagged, RowOf, RowCount;
    rows := [];
    for k := 0 to |ops|
      invariant rows == Alignment(ops, k, left, right)
    {
      var op := ops[k];
      ghost var before := rows;
      for index := 0 to RowCount(op)
        invariant rows == before + OpRows(op, index, left, right)
      {
        rows := rows + [RowOf(op, index, left, right)];
      }
    }
  }

  // -- Every line of each revision has its row, in order --

  // How many rows have a line on this side.
  function Count(rows: seq<AlignedRow>, side: Side): (count: nat)
    ensures count <= |rows|
  {
    if rows == [] then 0
    else Count(rows[..|rows| - 1], side) + if At(rows[|rows| - 1], side).Some? then 1 else 0
  }

  // The line in row i is the next one after those of the rows before it.
  ghost predicate InLineOrder(rows: seq<AlignedRow>, lines: seq<string>, side: Side) {
    forall i | 0 <= i < |rows| :: At(rows[i], side).Some? ==>
      IsNext(At(rows[i], side).value, lines, Count(rows[..i], side))
  }

  predicate IsNext(line: Line, lines: seq<string>, count: nat) {
    count < |lines| && line == Line(count + 1, lines[count])
  }

  // No row is empty, and its kind says which sides it has.
  predicate KindFits(row: AlignedRow) {
    match row.kind
    case Context => row.left.Some? && row.right.Some? && row.left.value.text == row.right.value.text
    case Delete => row.left.Some? && row.right.None?
    case Insert => row.left.None? && row.right.Some?
    case Replace => row.left.Some? || row.right.Some?
  }

  ghost predicate KindsFit(rows: seq<AlignedRow>) {
    forall row | row in rows :: KindFits(row)
  }

  function Lines(left: seq<string>, right: seq<string>, side: Side): seq<string> {
    if side == Left then left else right
  }

  function StartOf(op: Opcode, side: Side): nat {
    if side == Left then op.leftStart else op.rightStart
  }

  function EndOf(op: Opcode, side: Side): nat {
    if side == Left then op.leftEnd else op.rightEnd
  }

  lemma OneMoreRow(rows: seq<AlignedRow>, row: AlignedRow, lines: seq<string>, side: Side)
    requires InLineOrder(rows, lines, side)
    requires At(row, side).Some? ==> IsNext(At(row, side).value, lines, Count(rows, side))
    ensures InLineOrder(rows + [row], lines, side)
    ensures Count(rows + [row], side) == Count(rows, side) + if At(row, side).Some? then 1 else 0
  {
    hide Count, IsNext;
    var all := rows + [row];
    CountOne(rows, row, side);
    forall i | 0 <= i < |all|
      ensures At(all[i], side).Some? ==> IsNext(At(all[i], side).value, lines, Count(all[..i], side))
    {
      assert all[..i] == rows[..i];
      assert rows[..|rows|] == rows;
    }
  }

  lemma CountOne(rows: seq<AlignedRow>, row: AlignedRow, side: Side)
    ensures Count(rows + [row], side) == Count(rows, side) + if At(row, side).Some? then 1 else 0
  {
    assert (rows + [row])[..|rows|] == rows;
  }

  // The first rows of an opcode continue the numbering on each side.
  lemma {:induction false} OpContinues(
      rows: seq<AlignedRow>, op: Opcode, count: nat, left: seq<string>, right: seq<string>, side: Side)
    requires op.leftStart <= op.leftEnd <= |left| && op.rightStart <= op.rightEnd <= |right|
    requires InLineOrder(rows, Lines(left, right, side), side) && Count(rows, side) == StartOf(op, side)
    ensures var all := rows + OpRows(op, count, left, right);
            && InLineOrder(all, Lines(left, right, side), side)
            && Count(all, side) == StartOf(op, side) + Min(count, EndOf(op, side) - StartOf(op, side))
  {
    hide Count, InLineOrder;
    if count == 0 {
      assert rows + [] == rows;
    } else {
      OpContinues(rows, op, count - 1, left, right, side);
      var before, row := rows + OpRows(op, count - 1, left, right), RowOf(op, count - 1, left, right);
      OneMoreRow(before, row, Lines(left, right, side), side);
      assert rows + OpRows(op, count, left, right) == before + [row];
    }
  }

  lemma {:induction false} OpKindsFit(op: Opcode, count: nat, left: seq<string>, right: seq<string>)
    requires op.leftStart <= op.leftEnd <= |left| && op.rightStart <= op.rightEnd <= |right|
          && WellTagged(op, left, right)
    requires count <= RowCount(op)
    ensures KindsFit(OpRows(op, count, left, right))
  {
    if count == 0 {
    } else {
      OpKindsFit(op, count - 1, left, right);
      if op.tag == Equal {
        var i := count - 1;
        assert |left[op.leftStart..op.leftEnd]| == |right[op.rightStart..op.rightEnd]|;
        assert left[op.leftStart..op.leftEnd][i] == right[op.rightStart..op.rightEnd][i];
      }
      assert KindFits(RowOf(op, count - 1, left, right));
    }
  }

  // Alignment loses no line, repeats none and keeps both orders.
  lemma {:induction false} AlignmentKeepsLines(ops: seq<Opcode>, k: nat, left: seq<string>, right: seq<string>)
    requires Tiles(ops, left, right) && k <= |ops|
    ensures var rows := Alignment(ops, k, left, right);
            && InLineOrder(rows, left, Left) && Count(rows, Left) == LeftAt(ops, k, |left|)
            && InLineOrder(rows, right, Right) && Count(rows, Right) == RightAt(ops, k, |right|)
            && KindsFit(rows)
  {
    hide Count, InLineOrder, OpRows, WellTagged, KindFits;
    if k == 0 {
      NoRows(left, right);
    } else {
      AlignmentKeepsLines(ops, k - 1, left, right);
      var rows, op := Alignment(ops, k - 1, left, right), ops[k - 1];
      OpContinues(rows, op, RowCount(op), left, right, Left);
      OpContinues(rows, op, RowCount(op), left, right, Right);
      OpKindsFit(op, RowCount(op), left, right);
    }
  }

  lemma NoRows(left: seq<string>, right: seq<string>)
    ensures InLineOrder([], left, Left) && InLineOrder([], right, Right) && Count([], Left) == Count([], Right) == 0
  {
  }
}
