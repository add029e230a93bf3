// Character offsets as line and column numbers, and the arithmetic that
// undoes the conversion.
module LineColumns {
  import opened Prelude

  // 0 and the offset after every newline among the first n characters.
  function LineStarts(source: string, n: nat): (starts: seq<nat>)
    requires n <= |source|
    ensures starts != [] && starts[0] == 0
  {
    if n == 0 then [0]
    else LineStarts(source, n - 1) + if source[n - 1] == '\n' then [n] else []
  }

  function AllLineStarts(source: string): seq<nat> {
    LineStarts(source, |source|)
  }

  method ComputeLineStarts(source: string) returns (starts: seq<nat>)
    ensures starts == AllLineStarts(source)
  {
    starts := [0];
    for i := 0 to |source|
      invariant starts == LineStarts(source, i)
    {
      if source[i] == '\n' {
        starts := starts + [i + 1];
      }
    }
  }

  // bisect_right on an ascending list.
  function BisectRight(starts: seq<nat>, offset: nat): (count: nat)
    ensures count <= |starts|
  {
    if starts == [] then 0
    else if starts[|starts| - 1] <= offset then |starts|
    else BisectRight(starts[..|starts| - 1], offset)
  }

  function OffsetToLineCol(offset: nat, starts: seq<nat>): (int, int) {
    var index := BisectRight(starts, offset) - 1;
    (index + 1, offset - (if 0 <= index then starts[index] else 0) + 1)
  }

  // The list holds the starts of the lines among the first n characters, in order.
  ghost predicate AreLineStarts(starts: seq<nat>, source: string, n: nat)
    requires n <= |source|
  {
    && Ascending(starts)
    && (forall k | 0 <= k < |starts| :: starts[k] <= n)
    && (forall k | 0 < k < |starts| :: starts[k] > 0 && source[starts[k] - 1] == '\n')
    && (forall q | 0 <= q < n && source[q] == '\n' :: q + 1 in starts)
  }

  lemma {:induction false} LineStartsMeaning(source: string, n: nat)
    requires n <= |source|
    ensures AreLineStarts(LineStarts(source, n), source, n)
  {
    hide AreLineStarts;
    if n == 0 {
      FirstStart(source);
    } else {
      LineStartsMeaning(source, n - 1);
      NextStart(LineStarts(source, n - 1), source, n - 1);
    }
  }

  lemma FirstStart(source: string)
    ensures AreLineStarts([0], source, 0)
  {
  }

  lemma NextStart(starts: seq<nat>, source: string, n: nat)
    requires n < |source| && AreLineStarts(starts, source, n)
    ensures AreLineStarts(starts + if source[n] == '\n' then [n + 1] else [], source, n + 1)
  {
    if source[n] == '\n' {
      forall q | 0 <= q < n + 1 && source[q] == '\n'
        ensures q + 1 in starts + [n + 1]
      {
        assert q < n ==> q + 1 in starts;
        assert q == n ==> (starts + [n + 1])[|starts|] == q + 1;
      }
    } else {
      assert starts + [] == starts;
    }
  }

  // The count is the place where the list passes the offset.
  lemma {:induction false} BisectAt(starts: seq<nat>, offset: nat, m: nat)
    requires m <= |starts|
    requires forall k | 0 <= k < m :: starts[k] <= offset
    requires forall k | m <= k < |starts| :: offset < starts[k]
    ensures BisectRight(starts, offset) == m
  {
    if m == |starts| {
    } else {
      BisectAt(starts[..|starts| - 1], offset, m);
    }
  }

  function CountNewlines(text: string): nat {
    if text == "" then 0 else CountNewlines(text[..|text| - 1]) + if text[|text| - 1] == '\n' then 1 else 0
  }

  lemma {:induction false} LineStartsCount(source: string, n: nat)
    requires n <= |source|
    ensures |LineStarts(source, n)| == 1 + CountNewlines(source[..n])
  {
    if n == 0 {
    } else {
      LineStartsCount(source, n - 1);
      assert source[..n][..n - 1] == source[..n - 1];
    }
  }

  lemma {:induction false} LineStartsPrefix(source: string, m: nat, n: nat)
    requires m <= n <= |source|
    ensures LineStarts(source, m) <= LineStarts(source, n)
    ensures forall k | |LineStarts(source, m)| <= k < |LineStarts(source, n)| :: LineStarts(source, n)[k] > m
    decreases n
  {
    if m == n {
    } else {
      LineStartsPrefix(source, m, n - 1);
    }
  }

  // The line number counts the newlines before the offset; the column counts
  // from the last of them.
  lemma LineColExact(source: string, offset: nat)
    requires offset <= |source|
    ensures var (line, col) := OffsetToLineCol(offset, AllLineStarts(source));
            && line == 1 + CountNewlines(source[..offset])
            && 1 <= col <= offset + 1
            && (var start := offset - (col - 1);
                && (start == 0 || source[start - 1] == '\n')
                && start == AllLineStarts(source)[line - 1]
                && forall q | start <= q < offset :: source[q] != '\n')
  {
    var before := LineStarts(source, offset);
    LineStartsMeaning(source, offset);
    LineStartsPrefix(source, offset, |source|);
    LineStartsCount(source, offset);
    BisectAt(AllLineStarts(source), offset, |before|);
    LastStart(source, offset);
  }

  lemma LastStart(source: string, offset: nat)
    requires offset <= |source|
    ensures var starts := LineStarts(source, offset);
            forall q | starts[|starts| - 1] <= q < offset :: source[q] != '\n'
  {
    var starts := LineStarts(source, offset);
    LineStartsMeaning(source, offset);
    forall q | 0 <= q < offset && source[q] == '\n'
      ensures q < starts[|starts| - 1]
    {
      var k :| 0 <= k < |starts| && starts[k] == q + 1;
      assert k < |starts| - 1 ==> starts[k] < starts[|starts| - 1];
    }
  }

  // Later offsets get strictly later positions.
  lemma LineColMonotone(source: string, a: nat, b: nat)
    requires a < b <= |source|
    ensures var (line, col) := OffsetToLineCol(a, AllLineStarts(source));
            var (line', col') := OffsetToLineCol(b, AllLineStarts(source));
            line < line' || (line == line' && col < col')
  {
    LineColExact(source, a);
    LineColExact(source, b);
    CountGrows(source, a, b);
  }

  lemma {:induction false} CountGrows(source: string, a: nat, b: nat)
    requires a <= b <= |source|
    ensures CountNewlines(source[..a]) <= CountNewlines(source[..b])
    decreases b
  {
    if a == b {
    } else {
      CountGrows(source, a, b - 1);
      assert source[..b][..b - 1] == source[..b - 1];
    }
  }

  function OffsetRangeToSpan(start: nat, end: nat, starts: seq<nat>): SourceSpan {
    var (startLine, startCol) := OffsetToLineCol(start, starts);
    var (endLine, endCol) := OffsetToLineCol(Max(end - 1, start), starts);
    SourceSpan(startLine, startCol, endLine, endCol)
  }

  // -- The way back: sums of splitlines(keepends=True) lengths --

  // Line boundaries of str.splitlines.
  predicate IsBreak(c: char) {
    c in {'\n', '\r', '\U{b}', '\U{c}', '\U{1c}', '\U{1d}', '\U{1e}', '\U{85}', '\U{2028}', '\U{2029}'}
  }

  // Just after the first line boundary at or after i.
  function LineEnd(text: string, i: nat): (end: nat)
    requires i <= |text|
    ensures i <= end <= |text|
    ensures i < |text| ==> i < end
    decreases |text| - i
  {
    if i == |text| then i
    else if text[i] == '\r' && i + 1 < |text| && text[i + 1] == '\n' then i + 2
    else if IsBreak(text[i]) then i + 1
    else LineEnd(text, i + 1)
  }

  function SplitLines(text: string, i: nat): seq<string>
    requires i <= |text|
    decreases |text| - i
  {
    if i == |text| then [] else [text[i..LineEnd(text, i)]] + SplitLines(text, LineEnd(text, i))
  }

  function SumLengths(lines: seq<string>, k: nat): nat {
    if k == 0 || lines == [] then 0 else |lines[0]| + SumLengths(lines[1..], k - 1)
  }

  // Where the k-th line of splitlines starts, from boundary i on.
  function Boundary(text: string, i: nat, k: nat): (b: nat)
    requires i <= |text|
    ensures i <= b <= |text|
    decreases k
  {
    if k == 0 then i else Boundary(text, LineEnd(text, i), k - 1)
  }

  lemma {:induction false} SumIsBoundary(text: string, i: nat, k: nat)
    requires i <= |text|
    ensures i + SumLengths(SplitLines(text, i), k) == Boundary(text, i, k)
    decreases k
  {
    if k == 0 {
    } else {
      if i == |text| {
        SumIsBoundary(text, i, k - 1);
      } else {
        SumIsBoundary(text, LineEnd(text, i), k - 1);
      }
    }
  }

  lemma {:induction false} BoundaryNext(text: string, i: nat, k: nat)
    requires i <= |text|
    ensures Boundary(text, i, k + 1) == LineEnd(text, Boundary(text, i, k))
    decreases k
  {
    if k == 0 {
    } else {
      BoundaryNext(text, LineEnd(text, i), k - 1);
    }
  }

  // The candidate's slice bounds as the verifier recomputes them from a span.
  function StartFromSpan(text: string, span: SourceSpan): int {
    SumLengths(SplitLines(text, 0), Before(span.startLine)) + span.startCol - 1
  }

  function EndFromSpan(text: string, span: SourceSpan): int {
    SumLengths(SplitLines(text, 0), Before(span.endLine)) + span.endCol
  }

  // How many lines precede a one-based line.
  function Before(line: int): nat {
    if line >= 1 then line - 1 else 0
  }

  // A line boundary that is not (part of) a newline.
  predicate ForeignBreak(text: string, p: nat) {
    p < |text| && IsBreak(text[p]) && text[p] != '\n' && !(text[p] == '\r' && p + 1 < |text| && text[p + 1] == '\n')
  }

  // No foreign line boundary stands before a newline inside the text up to end.
  ghost predicate NewlinesOnlyBefore(text: string, end: nat) {
    forall p: nat, q: nat | ForeignBreak(text, p) && p < q < Min(end, |text|) - 1 :: text[q] != '\n'
  }

  ghost predicate NewlinesOnly(text: string) {
    NewlinesOnlyBefore(text, |text|)
  }

  // The first boundary after i is at the first foreign break or newline, whichever comes first.
  lemma {:induction false} LineEndAtMost(text: string, i: nat, p: nat)
    requires i <= p < |text| && (text[p] == '\n' || ForeignBreak(text, p))
    ensures LineEnd(text, i) <= p + 1
    decreases p - i
  {
    if i == p || IsBreak(text[i]) {
    } else {
      LineEndAtMost(text, i + 1, p);
    }
  }

  lemma {:induction false} LineEndAtNewline(text: string, i: nat, q: nat)
    requires i <= q < |text| && text[q] == '\n'
    requires forall p | i <= p < q :: text[p] != '\n' && !ForeignBreak(text, p)
    ensures LineEnd(text, i) == q + 1
    decreases q - i
  {
    if i == q {
    } else {
      if IsBreak(text[i]) {
        assert !ForeignBreak(text, i);
      } else {
        LineEndAtNewline(text, i + 1, q);
      }
    }
  }

  lemma StartsStep(text: string, k: nat)
    requires k + 1 < |AllLineStarts(text)|
    ensures var starts := AllLineStarts(text);
            && starts[k] < starts[k + 1] <= |text| && text[starts[k + 1] - 1] == '\n'
            && forall p | starts[k] <= p < starts[k + 1] - 1 :: text[p] != '\n'
  {
    var starts := AllLineStarts(text);
    LineStartsMeaning(text, |text|);
    forall p | 0 <= p < |text| && text[p] == '\n'
      ensures p < starts[k] || starts[k + 1] - 1 <= p
    {
      var j :| 0 <= j < |starts| && starts[j] == p + 1;
      assert j <= k || k + 1 <= j;
    }
  }

  // When newlines are the only boundaries that matter, the k-th line of
  // splitlines starts where the k-th newline-separated line does.
  lemma {:induction false} BoundaryIsLineStart(text: string, k: nat, end: nat)
    requires end <= |text| && NewlinesOnlyBefore(text, end) && k < |AllLineStarts(text)| && AllLineStarts(text)[k] < end
    ensures Boundary(text, 0, k) == AllLineStarts(text)[k]
  {
    if k == 0 {
    } else {
      var starts := AllLineStarts(text);
      StartsStep(text, k - 1);
      BoundaryIsLineStart(text, k - 1, end);
      BoundaryNext(text, 0, k - 1);
      LineEndAtNewline(text, starts[k - 1], starts[k] - 1);
    }
  }

  // In general it starts no later ...
  lemma {:induction false} BoundaryNotLater(text: string, k: nat)
    requires k < |AllLineStarts(text)|
    ensures Boundary(text, 0, k) <= AllLineStarts(text)[k]
  {
    if k == 0 {
    } else {
      StartsStep(text, k - 1);
      BoundaryNotLater(text, k - 1);
      BoundaryNext(text, 0, k - 1);
      LineEndAtMost(text, Boundary(text, 0, k - 1), AllLineStarts(text)[k] - 1);
    }
  }

  // ... and earlier after a foreign break.
  lemma {:induction false} BoundaryLags(text: string, k: nat, p: nat)
    requires k < |AllLineStarts(text)|
    requires ForeignBreak(text, p) && p + 1 < AllLineStarts(text)[k]
    ensures Boundary(text, 0, k) < AllLineStarts(text)[k]
  {
    var starts := AllLineStarts(text);
    StartsStep(text, k - 1);
    BoundaryNotLater(text, k - 1);
    BoundaryNext(text, 0, k - 1);
    var b := Boundary(text, 0, k - 1);
    if p < starts[k - 1] {
      LineStartsMeaning(text, |text|);
      BoundaryLags(text, k - 1, p);
      LineEndAtMost(text, b, starts[k - 1] - 1);
    } else {
      LineEndAtMost(text, b, p);
    }
  }

  // The offsets of a nonempty range survive the trip through its span.
  ghost predicate RoundTrips(text: string, start: nat, end: nat) {
    var span := OffsetRangeToSpan(start, end, AllLineStarts(text));
    StartFromSpan(text, span) == start && EndFromSpan(text, span) == end
  }

  lemma RoundTripWhenNewlinesOnly(text: string, start: nat, end: nat)
    requires start < end <= |text| && NewlinesOnlyBefore(text, end)
    ensures RoundTrips(text, start, end)
  {
    hide NewlinesOnlyBefore, Boundary, LineStarts, CountNewlines, SplitLines, SumLengths, BisectRight;
    LineColExact(text, start);
    LineColExact(text, end - 1);
    var span := OffsetRangeToSpan(start, end, AllLineStarts(text));
    SumIsBoundary(text, 0, span.startLine - 1);
    SumIsBoundary(text, 0, span.endLine - 1);
    BoundaryIsLineStart(text, span.startLine - 1, end);
    BoundaryIsLineStart(text, span.endLine - 1, end);
  }

  lemma NoRoundTripAfterForeignBreak(text: string, start: nat, end: nat, p: nat, q: nat)
    requires start < end <= |text| && ForeignBreak(text, p) && p < q < end - 1 && text[q] == '\n'
    ensures !RoundTrips(text, start, end)
  {
    hide ForeignBreak, Boundary;
    LineColExact(text, end - 1);
    var (line, col) := OffsetToLineCol(end - 1, AllLineStarts(text));
    SumIsBoundary(text, 0, line - 1);
    BoundaryLags(text, line - 1, p);
  }

  // The verifier's arithmetic inverts the conversion of a range exactly when no
  // foreign line boundary precedes a newline inside the text up to its end.
  lemma RoundTripsIff(text: string, start: nat, end: nat)
    requires start < end <= |text|
    ensures RoundTrips(text, start, end) <==> NewlinesOnlyBefore(text, end)
  {
    if NewlinesOnlyBefore(text, end) {
      RoundTripWhenNewlinesOnly(text, start, end);
    } else {
      var p: nat, q: nat :| ForeignBreak(text, p) && p < q < end - 1 && text[q] == '\n';
      NoRoundTripAfterForeignBreak(text, start, end, p, q);
    }
  }

  // So every range of a source survives exactly when this holds of the whole.
  lemma RoundTripsIffNewlinesOnly(text: string)
    ensures NewlinesOnly(text) <==> forall start: nat, end: nat | start < end <= |text| :: RoundTrips(text, start, end)
  {
    hide RoundTrips;
    forall start: nat, end: nat | start < end <= |text|
      ensures RoundTrips(text, start, end) <==> NewlinesOnlyBefore(text, end)
    {
      RoundTripsIff(text, start, end);
    }
    if text != "" {
      RoundTripsIff(text, 0, |text|);
    }
  }

  // A line separator before a newline shifts every later range by a line.
  lemma LineSeparatorBreaksTheInverse()
    ensures !RoundTrips("a\U{2028}b\nc", 4, 5)
  {
    var text := "a\U{2028}b\nc";
    assert ForeignBreak(text, 1) && text[3] == '\n' && |text| == 5;
    RoundTripsIff(text, 4, 5);
  }
}
