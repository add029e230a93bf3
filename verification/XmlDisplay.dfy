// Hiding position attributes in displayed XML, and moving highlights along.
module XmlDisplay {
  import opened Prelude

  datatype HiddenRange = HiddenRange(start: nat, end: nat)

  // -- Finding the attributes --

  // \s of a regular expression.
  predicate IsRegexSpace(c: char) {
    || c in {' ', '\t', '\n', '\r', '\U{b}', '\U{c}', '\U{a0}', '\U{1680}'}
    || '\U{2000}' <= c <= '\U{200a}'
    || c in {'\U{2028}', '\U{2029}', '\U{202f}', '\U{205f}', '\U{3000}', '\U{feff}'}
  }

  const ATTRIBUTES := ["pos:start=\"", "pos:end=\"", "xmlns:pos=\""]

  // The end of a quoted value that starts at i, if it is closed.
  function QuoteEnd(line: string, i: nat): (end: Option<nat>)
    ensures end.Some? ==> i < end.value <= |line|
    decreases |line| - i
  {
    if i >= |line| then None else if line[i] == '"' then Some(i + 1) else QuoteEnd(line, i + 1)
  }

  predicate StartsAt(line: string, i: nat, word: string) {
    i + |word| <= |line| && line[i..i + |word|] == word
  }

  // A blank, one of the attribute names, and a closed value.
  function MatchAt(line: string, i: nat): (end: Option<nat>)
    ensures end.Some? ==> i < end.value <= |line|
  {
    if i >= |line| || !IsRegexSpace(line[i]) then None
    else if StartsAt(line, i + 1, ATTRIBUTES[0]) then QuoteEnd(line, i + 1 + |ATTRIBUTES[0]|)
    else if StartsAt(line, i + 1, ATTRIBUTES[1]) then QuoteEnd(line, i + 1 + |ATTRIBUTES[1]|)
    else if StartsAt(line, i + 1, ATTRIBUTES[2]) then QuoteEnd(line, i + 1 + |ATTRIBUTES[2]|)
    else None
  }

  // Successive matches, each search starting where the last match ended.
  function Matches(line: string, i: nat): seq<HiddenRange>
    decreases |line| - i
  {
    if i >= |line| then []
    else match MatchAt(line, i)
      case Some(end) => [HiddenRange(i, end)] + Matches(line, end)
      case None => Matches(line, i + 1)
  }

  // Nonempty, in order, not overlapping, between lo and length.
  predicate Disjoint(ranges: seq<HiddenRange>, lo: nat, length: nat) {
    ranges == [] || (lo <= ranges[0].start < ranges[0].end <= length && Disjoint(ranges[1..], ranges[0].end, length))
  }

  lemma {:induction false} DisjointWeaker(ranges: seq<HiddenRange>, lo: nat, lower: nat, length: nat)
    requires Disjoint(ranges, lo, length) && lower <= lo
    ensures Disjoint(ranges, lower, length)
  {
  }

  lemma {:induction false} MatchesAreDisjoint(line: string, i: nat)
    ensures Disjoint(Matches(line, i), i, |line|)
    decreases |line| - i
  {
    if |line| <= i {
    } else {
      hide MatchAt;
      if MatchAt(line, i).Some? {
        var end := MatchAt(line, i).value;
        MatchesAreDisjoint(line, end);
        assert Matches(line, i)[1..] == Matches(line, end);
      } else {
        MatchesAreDisjoint(line, i + 1);
        DisjointWeaker(Matches(line, i + 1), i + 1, i, |line|);
      }
    }
  }

  // -- What is visible --

  predicate Hidden(ranges: seq<HiddenRange>, i: nat) {
    exists k :: 0 <= k < |ranges| && ranges[k].start <= i < ranges[k].end
  }

  // The characters from a up to b that no range hides.
  function Visible(line: string, ranges: seq<HiddenRange>, a: nat, b: nat): string
    requires b <= |line|
    decreases b
  {
    if a >= b then "" else Visible(line, ranges, a, b - 1) + if Hidden(ranges, b - 1) then "" else [line[b - 1]]
  }

  lemma {:induction false} VisibleSplits(line: string, ranges: seq<HiddenRange>, a: nat, m: nat, b: nat)
    requires a <= m <= b <= |line|
    ensures Visible(line, ranges, a, b) == Visible(line, ranges, a, m) + Visible(line, ranges, m, b)
    decreases b
  {
    if m == b {
    } else {
      VisibleSplits(line, ranges, a, m, b - 1);
    }
  }

  lemma {:induction false} AllVisible(line: string, ranges: seq<HiddenRange>, a: nat, b: nat)
    requires a <= b <= |line| && forall i | a <= i < b :: !Hidden(ranges, i)
    ensures Visible(line, ranges, a, b) == line[a..b]
    decreases b
  {
    if a == b {
    } else {
      AllVisible(line, ranges, a, b - 1);
      assert line[a..b] == line[a..b - 1] + [line[b - 1]];
    }
  }

  lemma {:induction false} NoneVisible(line: string, ranges: seq<HiddenRange>, a: nat, b: nat)
    requires a <= b <= |line| && forall i | a <= i < b :: Hidden(ranges, i)
    ensures Visible(line, ranges, a, b) == ""
    decreases b
  {
    if a == b {
    } else {
      NoneVisible(line, ranges, a, b - 1);
    }
  }

  // -- stripPositionAttributes --

  lemma {:induction false} RangeBounds(ranges: seq<HiddenRange>, lo: nat, length: nat)
    requires Disjoint(ranges, lo, length)
    ensures forall k | 0 <= k < |ranges| :: lo <= ranges[k].start < ranges[k].end <= length
    ensures forall j, k | 0 <= j < k < |ranges| :: ranges[j].end <= ranges[k].start
  {
    if ranges == [] {
    } else {
      RangeBounds(ranges[1..], ranges[0].end, length);
      assert ranges == [ranges[0]] + ranges[1..];
    }
  }

  method StripPositionAttributes(line: string) returns (stripped: string, ranges: seq<HiddenRange>)
    ensures ranges == Matches(line, 0) && Disjoint(ranges, 0, |line|)
    ensures stripped == Visible(line, ranges, 0, |line|)
  {
    hide MatchAt, Visible, Disjoint, Hidden;
    ranges := Matches(line, 0);
    MatchesAreDisjoint(line, 0);
    RangeBounds(ranges, 0, |line|);
    if ranges == [] {
      NothingHidden(line);
      return line, ranges;
    }
    var cursor := 0;
    stripped := "";
    NothingYet(line, ranges);
    for k := 0 to |ranges|
      invariant cursor == if k == 0 then 0 else ranges[k - 1].end
      invariant cursor <= |line| && stripped == Visible(line, ranges, 0, cursor)
    {
      StripOne(line, ranges, k, cursor);
      stripped := stripped + line[cursor..ranges[k].start];
      cursor := ranges[k].end;
    }
    StripTail(line, ranges, cursor);
    stripped := stripped + line[cursor..];
  }

  lemma NothingHidden(line: string)
    ensures Visible(line, [], 0, |line|) == line
  {
    AllVisible(line, [], 0, |line|);
    assert line[0..|line|] == line;
  }

  lemma NothingYet(line: string, ranges: seq<HiddenRange>)
    ensures Visible(line, ranges, 0, 0) == ""
  {
  }

  lemma StripOne(line: string, ranges: seq<HiddenRange>, k: nat, cursor: nat)
    requires Disjoint(ranges, 0, |line|) && k < |ranges| && cursor == if k == 0 then 0 else ranges[k - 1].end
    ensures cursor <= ranges[k].start < ranges[k].end <= |line|
    ensures Visible(line, ranges, 0, ranges[k].end) == Visible(line, ranges, 0, cursor) + line[cursor..ranges[k].start]
  {
    hide Visible;
    RangeBounds(ranges, 0, |line|);
    AllVisible(line, ranges, cursor, ranges[k].start);
    NoneVisible(line, ranges, ranges[k].start, ranges[k].end);
    VisibleSplits(line, ranges, 0, cursor, ranges[k].start);
    VisibleSplits(line, ranges, 0, ranges[k].start, ranges[k].end);
  }

  lemma StripTail(line: string, ranges: seq<HiddenRange>, cursor: nat)
    requires Disjoint(ranges, 0, |line|) && ranges != [] && cursor == ranges[|ranges| - 1].end
    ensures cursor <= |line| && Visible(line, ranges, 0, |line|) == Visible(line, ranges, 0, cursor) + line[cursor..]
  {
    hide Visible;
    RangeBounds(ranges, 0, |line|);
    AllVisible(line, ranges, cursor, |line|);
    VisibleSplits(line, ranges, 0, cursor, |line|);
    assert line[cursor..|line|] == line[cursor..];
  }

  // -- remapBoundaryIndex --

  function Remapped(index: int, adjusted: int, ranges: seq<HiddenRange>): int
    decreases |ranges|
  {
    if ranges == [] then adjusted
    else if index >= ranges[0].end then Remapped(index, adjusted - (ranges[0].end - ranges[0].start), ranges[1..])
    else if index > ranges[0].start then ranges[0].start
    else adjusted
  }

  function Remap(index: int, ranges: seq<HiddenRange>): int {
    Max(Remapped(index, index, ranges), 0)
  }

  method RemapBoundaryIndex(originalIndex: int, ranges: seq<HiddenRange>) returns (index: int)
    ensures index == Remap(originalIndex, ranges)
  {
    var adjustedIndex := originalIndex;
    for k := 0 to |ranges|
      invariant Remapped(originalIndex, adjustedIndex, ranges[k..]) == Remapped(originalIndex, originalIndex, ranges)
    {
      var range := ranges[k];
      assert ranges[k..][1..] == ranges[k + 1..];
      if originalIndex >= range.end {
        adjustedIndex := adjustedIndex - (range.end - range.start);
        continue;
      }
      if originalIndex > range.start {
        adjustedIndex := range.start;
      }
      return Max(adjustedIndex, 0);
    }
    index := Max(adjustedIndex, 0);
  }

  // How much of the ranges lies below x.
  function HiddenBelow(ranges: seq<HiddenRange>, x: nat): int {
    if ranges == [] then 0
    else HiddenBelow(ranges[1..], x) + Max(0, Min(x, ranges[0].end) - ranges[0].start)
  }

  lemma {:induction false} NothingBelow(ranges: seq<HiddenRange>, lo: nat, length: nat, x: nat)
    requires Disjoint(ranges, lo, length) && x <= lo
    ensures HiddenBelow(ranges, x) == 0
  {
    if ranges == [] {
    } else {
      NothingBelow(ranges[1..], ranges[0].end, length, x);
    }
  }

  lemma {:induction false} HiddenGrows(ranges: seq<HiddenRange>, lo: nat, length: nat, x: nat)
    requires Disjoint(ranges, lo, length)
    ensures HiddenBelow(ranges, x + 1) == HiddenBelow(ranges, x) + if Hidden(ranges, x) then 1 else 0
  {
    if ranges == [] {
    } else {
      HiddenGrows(ranges[1..], ranges[0].end, length, x);
      RangeBounds(ranges[1..], ranges[0].end, length);
      assert ranges == [ranges[0]] + ranges[1..];
      FirstOrRest(ranges, x);
    }
  }

  lemma FirstOrRest(ranges: seq<HiddenRange>, x: nat)
    requires ranges != []
    ensures Hidden(ranges, x) <==> ranges[0].start <= x < ranges[0].end || Hidden(ranges[1..], x)
  {
    if Hidden(ranges[1..], x) {
      var k :| 0 <= k < |ranges[1..]| && ranges[1..][k].start <= x < ranges[1..][k].end;
      assert ranges[k + 1] == ranges[1..][k];
    }
    if Hidden(ranges, x) && !(ranges[0].start <= x < ranges[0].end) {
      var k :| 0 <= k < |ranges| && ranges[k].start <= x < ranges[k].end;
      assert ranges[1..][k - 1] == ranges[k];
    }
  }

  // Visible and hidden characters below x make up x.
  lemma {:induction false} VisibleCount(line: string, ranges: seq<HiddenRange>, x: nat)
    requires Disjoint(ranges, 0, |line|) && x <= |line|
    ensures |Visible(line, ranges, 0, x)| == x - HiddenBelow(ranges, x)
  {
    if x == 0 {
      NothingBelow(ranges, 0, |line|, 0);
    } else {
      VisibleCount(line, ranges, x - 1);
      HiddenGrows(ranges, 0, |line|, x - 1);
    }
  }

  predicate StrictlyInside(range: HiddenRange, x: int) {
    range.start < x < range.end
  }

  predicate InsideSome(ranges: seq<HiddenRange>, x: int) {
    exists k :: 0 <= k < |ranges| && StrictlyInside(ranges[k], x)
  }

  // Inside the first range the start of the range is right; inside a later one
  // the widths of the earlier ranges are forgotten.
  predicate InsideLater(ranges: seq<HiddenRange>, x: int) {
    exists k :: 0 < k < |ranges| && StrictlyInside(ranges[k], x)
  }

  lemma InsideRest(ranges: seq<HiddenRange>, x: int)
    requires ranges != []
    ensures InsideSome(ranges[1..], x) ==> InsideSome(ranges, x)
  {
    if InsideSome(ranges[1..], x) {
      var k :| 0 <= k < |ranges[1..]| && StrictlyInside(ranges[1..][k], x);
      assert StrictlyInside(ranges[k + 1], x);
    }
  }

  lemma {:induction false} RemappedBy(ranges: seq<HiddenRange>, lo: nat, length: nat, x: nat, adjusted: int)
    requires Disjoint(ranges, lo, length)
    ensures !InsideSome(ranges, x) ==> Remapped(x, adjusted, ranges) == adjusted - HiddenBelow(ranges, x)
    ensures forall k | 0 <= k < |ranges| && StrictlyInside(ranges[k], x) ::
              && Remapped(x, adjusted, ranges) == ranges[k].start
              && ranges[k].start - (x - HiddenBelow(ranges, x)) >= k
              && (k == 0 ==> ranges[k].start == x - HiddenBelow(ranges, x))
  {
    if ranges == [] {
    } else {
      var rest, width := ranges[1..], ranges[0].end - ranges[0].start;
      RemappedBy(rest, ranges[0].end, length, x, adjusted - width);
      RangeBounds(ranges, lo, length);
      if x < ranges[0].end {
        NothingBelow(rest, ranges[0].end, length, x);
      }
      assert forall k | 0 < k < |ranges| :: ranges[k] == rest[k - 1];
      InsideRest(ranges, x);
    }
  }

  // Remapping gives the right index exactly when the boundary is not strictly
  // inside a hidden range that follows another one.
  lemma RemapIsExactIff(line: string, ranges: seq<HiddenRange>, x: nat)
    requires Disjoint(ranges, 0, |line|) && x <= |line|
    ensures Remap(x, ranges) == |Visible(line, ranges, 0, x)| <==> !InsideLater(ranges, x)
  {
    hide Visible, Remapped, HiddenBelow;
    VisibleCount(line, ranges, x);
    RemappedBy(ranges, 0, |line|, x, x);
    RangeBounds(ranges, 0, |line|);
    if InsideLater(ranges, x) {
      var k :| 0 < k < |ranges| && StrictlyInside(ranges[k], x);
      assert Remapped(x, x, ranges) == ranges[k].start;
    } else if InsideSome(ranges, x) {
      var k :| 0 <= k < |ranges| && StrictlyInside(ranges[k], x);
      assert k == 0;
    }
  }

  lemma NoMatchAt(line: string, i: nat)
    requires i < |line| && !IsRegexSpace(line[i])
    ensures Matches(line, i) == Matches(line, i + 1)
  {
  }

  lemma {:induction false} QuoteFound(line: string, i: nat, k: nat)
    requires i <= k < |line| && line[k] == '"' && forall j | i <= j < k :: line[j] != '"'
    ensures QuoteEnd(line, i) == Some(k + 1)
    decreases k - i
  {
    if i == k {
    } else {
      QuoteFound(line, i + 1, k);
    }
  }

  lemma WordAt(before: string, word: string, after: string)
    ensures StartsAt(before + word + after, |before|, word)
  {
    assert (before + word + after)[|before|..|before| + |word|] == word;
  }

  // A start tag with both position attributes: <a pos:start="1" pos:end="2">
  const POSITIONED := "<a " + ATTRIBUTES[0] + "1\" " + ATTRIBUTES[1] + "2\">"

  lemma FirstAttribute()
    ensures MatchAt(POSITIONED, 2) == Some(16)
  {
    WordAt("<a ", ATTRIBUTES[0], "1\" " + ATTRIBUTES[1] + "2\">");
    assert POSITIONED == "<a " + ATTRIBUTES[0] + ("1\" " + ATTRIBUTES[1] + "2\">");
    QuoteFound(POSITIONED, 14, 15);
  }

  lemma SecondAttribute()
    ensures MatchAt(POSITIONED, 16) == Some(28)
  {
    WordAt("<a " + ATTRIBUTES[0] + "1\" ", ATTRIBUTES[1], "2\">");
    assert POSITIONED[17..28][4] == 'e' && ATTRIBUTES[0][4] == 's';
    assert !StartsAt(POSITIONED, 17, ATTRIBUTES[0]);
    QuoteFound(POSITIONED, 26, 27);
  }

  // The two position attributes of a start tag are adjacent hidden ranges.
  lemma TwoAttributes()
    ensures Matches(POSITIONED, 0) == [HiddenRange(2, 16), HiddenRange(16, 28)]
  {
    hide MatchAt;
    FirstAttribute();
    SecondAttribute();
    NoMatchAt(POSITIONED, 0);
    NoMatchAt(POSITIONED, 1);
    NoMatchAt(POSITIONED, 28);
    assert Matches(POSITIONED, 28) == [];
    assert Matches(POSITIONED, 16) == [HiddenRange(16, 28)];
  }

  // A boundary anywhere inside the second attribute is taken to the start of
  // that attribute in the original line, past the end of the stripped one.
  lemma InsideLaterGoesWrong(x: nat)
    requires 16 < x < 28
    ensures var ranges := Matches(POSITIONED, 0);
            && InsideLater(ranges, x)
            && Remap(x, ranges) == 16 && |Visible(POSITIONED, ranges, 0, x)| == 2
            && |Visible(POSITIONED, ranges, 0, |POSITIONED|)| == 3
  {
    hide Matches, Visible, QuoteEnd, MatchAt, Hidden;
    var line, ranges := POSITIONED, Matches(POSITIONED, 0);
    TwoAttributes();
    MatchesAreDisjoint(line, 0);
    assert StrictlyInside(ranges[1], x);
    RemappedBy(ranges, 0, |line|, x, x);
    BelowTwo(x);
    BelowTwo(|line|);
    VisibleCount(line, ranges, x);
    VisibleCount(line, ranges, |line|);
  }

  lemma BelowTwo(x: nat)
    requires 16 <= x
    ensures HiddenBelow([HiddenRange(2, 16), HiddenRange(16, 28)], x) == 14 + Min(x, 28) - 16
  {
    var ranges := [HiddenRange(2, 16), HiddenRange(16, 28)];
    assert ranges[1..] == [HiddenRange(16, 28)] && ranges[1..][1..] == [];
    assert HiddenBelow(ranges[1..][1..], x) == 0;
    assert HiddenBelow(ranges[1..], x) == Min(x, 28) - 16;
  }

  // -- Boundaries past the end of the line --

  lemma {:induction false} AllBelow(ranges: seq<HiddenRange>, lo: nat, length: nat, x: nat)
    requires Disjoint(ranges, lo, length) && length <= x
    ensures HiddenBelow(ranges, x) == HiddenBelow(ranges, length)
  {
    if ranges == [] {
    } else {
      AllBelow(ranges[1..], ranges[0].end, length, x);
    }
  }

  // Past the end of the line a boundary stays as far past the end of the stripped line.
  lemma RemapBeyond(line: string, ranges: seq<HiddenRange>, x: nat)
    requires Disjoint(ranges, 0, |line|) && |line| <= x
    ensures Remap(x, ranges) == |Visible(line, ranges, 0, |line|)| + x - |line|
  {
    hide Visible, Remapped, HiddenBelow;
    RangeBounds(ranges, 0, |line|);
    AllBelow(ranges, 0, |line|, x);
    VisibleCount(line, ranges, |line|);
    RemappedBy(ranges, 0, |line|, x, x);
  }

  // The part of a line between two boundaries, as the viewer clamps them.
  function Cut(line: string, start: int, end: int): string {
    var from := Max(0, Min(start, |line|));
    line[from..Max(from, Min(end, |line|))]
  }

  lemma ClippedRemap(line: string, ranges: seq<HiddenRange>, x: nat)
    requires Disjoint(ranges, 0, |line|) && !InsideLater(ranges, x)
    ensures var stripped, at := Visible(line, ranges, 0, |line|), Min(x, |line|);
            && 0 <= Remap(x, ranges) && Min(Remap(x, ranges), |stripped|) == |Visible(line, ranges, 0, at)|
            && stripped == Visible(line, ranges, 0, at) + Visible(line, ranges, at, |line|)
            && (x <= |line| ==> Remap(x, ranges) <= |stripped|)
  {
    hide Visible, Remap, InsideLater;
    VisibleSplits(line, ranges, 0, Min(x, |line|), |line|);
    if x <= |line| {
      RemapIsExactIff(line, ranges, x);
    } else {
      RemapBeyond(line, ranges, x);
    }
  }

  lemma NothingBetween(line: string, ranges: seq<HiddenRange>, a: nat, b: nat)
    requires b <= a && b <= |line|
    ensures Visible(line, ranges, a, b) == ""
  {
  }

  // Between two remapped boundaries stands what is visible of the original part.
  lemma SliceIsRemapped(line: string, ranges: seq<HiddenRange>, a: nat, b: nat)
    requires Disjoint(ranges, 0, |line|) && !InsideLater(ranges, a) && !InsideLater(ranges, b)
    ensures Cut(Visible(line, ranges, 0, |line|), Remap(a, ranges), Remap(b, ranges))
         == Visible(line, ranges, Min(a, |line|), Min(b, |line|))
  {
    hide Visible, Remap, Disjoint, InsideLater;
    var from, to := Min(a, |line|), Min(b, |line|);
    ClippedRemap(line, ranges, a);
    ClippedRemap(line, ranges, b);
    if from <= to {
      VisibleSplits(line, ranges, 0, from, to);
    } else {
      VisibleSplits(line, ranges, 0, to, from);
      NothingBetween(line, ranges, from, to);
    }
  }

  // Remapped boundaries keep their order, and meet only where nothing is visible between them.
  lemma RemapOrdered(line: string, ranges: seq<HiddenRange>, a: nat, b: nat)
    requires Disjoint(ranges, 0, |line|) && !InsideLater(ranges, a) && !InsideLater(ranges, b)
    ensures Remap(b, ranges) <= Remap(a, ranges) <==>
      if b <= |line| then Visible(line, ranges, Min(a, |line|), b) == "" else b <= a
  {
    hide Visible, Remap, Disjoint, InsideLater;
    var from, to := Min(a, |line|), Min(b, |line|);
    ClippedRemap(line, ranges, a);
    ClippedRemap(line, ranges, b);
    if |line| <= a {
      RemapBeyond(line, ranges, a);
    }
    if |line| <= b {
      RemapBeyond(line, ranges, b);
    }
    if from <= to {
      VisibleSplits(line, ranges, 0, from, to);
    } else {
      VisibleSplits(line, ranges, 0, to, from);
      NothingBetween(line, ranges, from, to);
    }
  }

  // -- Whole documents --

  // Columns count from 1; the end column is the last one covered.
  function RangesOf(lines: seq<string>, number: int): seq<HiddenRange> {
    if 1 <= number <= |lines| then Matches(lines[number - 1], 0) else []
  }

  function RemapSpan(span: SourceSpan, lines: seq<string>): Option<SourceSpan> {
    var start, end :=
      Remap(span.startCol - 1, RangesOf(lines, span.startLine)), Remap(span.endCol, RangesOf(lines, span.endLine));
    if span.startLine == span.endLine && end <= start then None
    else Some(SourceSpan(span.startLine, start + 1, span.endLine, if span.startLine
        == span.endLine then Max(end, start) else end))
  }

  function Displayed(line: string): string {
    Visible(line, Matches(line, 0), 0, |line|)
  }

  // A span of the document's lines, with boundaries the remapping gets right.
  // Its columns may lie past the ends of the lines.
  predicate Remappable(span: SourceSpan, lines: seq<string>) {
    && 1 <= span.startLine <= span.endLine <= |lines| && 1 <= span.startCol && 0 <= span.endCol
    && !InsideLater(RangesOf(lines, span.startLine), span.startCol - 1)
         && !InsideLater(RangesOf(lines, span.endLine), span.endCol)
  }

  // Where a span starts and ends on one of its lines.
  function From(span: SourceSpan, number: int): int {
    if number == span.startLine then span.startCol - 1 else 0
  }

  function To(span: SourceSpan, number: int, length: int): int {
    if number == span.endLine then span.endCol else length
  }

  // On every line it touches, a remapped highlight covers exactly what is
  // visible of the original one. It disappears exactly when nothing on its
  // single line is visible; past the end of the line, when it was empty.
  lemma HighlightsFollowText(lines: seq<string>, span: SourceSpan, number: int)
    requires Remappable(span, lines) && span.startLine <= number <= span.endLine
    ensures var line := lines[number - 1];
            var shown := Displayed(line);
            var part := Visible(line, Matches(line, 0), Min(From(span, number), |line|),
                Min(To(span, number, |line|), |line|));
            && (RemapSpan(span, lines).None? <==>
                  span.startLine == span.endLine
                      && if span.endCol <= |line| then part == "" else span.endCol < span.startCol)
            && (RemapSpan(span, lines).None? ==> part == "")
            && (RemapSpan(span, lines).Some? ==>
                  var remapped := RemapSpan(span, lines).value;
                  Cut(shown, From(remapped, number), To(remapped, number, |shown|)) == part)
  {
    hide Visible, Remap, Matches, Disjoint, InsideLater, Cut;
    var line := lines[number - 1];
    var ranges := Matches(line, 0);
    MatchesAreDisjoint(line, 0);
    EndsRemapped(line, ranges);
    SliceIsRemapped(line, ranges, From(span, number), To(span, number, |line|));
    if span.startLine == span.endLine {
      RemapOrdered(line, ranges, span.startCol - 1, span.endCol);
      if |line| < span.endCol < span.startCol {
        NothingPast(line, ranges, span.startCol - 1, span.endCol);
      }
    }
  }

  lemma NothingPast(line: string, ranges: seq<HiddenRange>, a: nat, b: nat)
    requires |line| < b <= a
    ensures Visible(line, ranges, Min(a, |line|), Min(b, |line|)) == ""
  {
  }

  lemma EndsRemapped(line: string, ranges: seq<HiddenRange>)
    requires Disjoint(ranges, 0, |line|)
    ensures !InsideLater(ranges, 0) && !InsideLater(ranges, |line|)
    ensures Remap(0, ranges) == 0 && Remap(|line|, ranges) == |Visible(line, ranges, 0, |line|)|
  {
    RangeBounds(ranges, 0, |line|);
    RemapIsExactIff(line, ranges, 0);
    RemapIsExactIff(line, ranges, |line|);
  }
}
