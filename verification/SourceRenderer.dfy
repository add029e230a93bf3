// The renderer itself: one walk that appends to both revisions' buffers and
// fills both range dictionaries.
module SourceRenderer {
  import opened Prelude
  import opened XmlElements
  import opened SourceText
  import opened SourceRanges

  type RangeMap = map<Path, (nat, nat)>

  function Join(chunks: seq<string>): string {
    if chunks == [] then "" else Join(chunks[..|chunks| - 1]) + chunks[|chunks| - 1]
  }

  lemma JoinAppend(chunks: seq<string>, text: string)
    ensures Join(chunks + [text]) == Join(chunks) + text
  {
    assert (chunks + [text])[..|chunks|] == chunks;
  }

  // Assigning ranges to a dictionary in recording order.
  function Record(ranges: RangeMap, recorded: seq<Range>): RangeMap {
    if recorded == [] then ranges
    else
      var last := recorded[|recorded| - 1];
      Record(ranges, recorded[..|recorded| - 1])[last.path := (last.start, last.end)]
  }

  lemma {:induction false} RecordAppend(ranges: RangeMap, a: seq<Range>, b: seq<Range>)
    ensures Record(ranges, a + b) == Record(Record(ranges, a), b)
  {
    if b == [] {
      assert a + b == a;
    } else {
      assert (a + b)[..|a + b| - 1] == a + b[..|b| - 1];
      RecordAppend(ranges, a, b[..|b| - 1]);
    }
  }

  ghost predicate Holds(ranges: RangeMap, recorded: seq<Range>) {
    && |ranges| == |recorded|
    && (forall i | 0 <= i < |recorded| ::
          recorded[i].path in ranges && ranges[recorded[i].path] == (recorded[i].start, recorded[i].end))
    && (forall path | path in ranges :: exists i :: 0 <= i < |recorded| && recorded[i].path == path)
  }

  lemma LastPathFresh(recorded: seq<Range>)
    requires Laminar(recorded) && recorded != []
    ensures forall i | 0 <= i < |recorded| - 1 :: recorded[i].path != recorded[|recorded| - 1].path
  {
    forall i | 0 <= i < |recorded| - 1
      ensures recorded[i].path != recorded[|recorded| - 1].path
    {
      assert Ordered(recorded[i], recorded[|recorded| - 1]);
    }
  }

  // A laminar recording writes no key twice: the dictionary is the recording.
  lemma {:induction false} RecordLaminar(recorded: seq<Range>)
    requires Laminar(recorded)
    ensures Holds(Record(map[], recorded), recorded)
  {
    if recorded == [] {
    } else {
      var init, last := recorded[..|recorded| - 1], recorded[|recorded| - 1];
      LaminarPrefix(recorded);
      RecordLaminar(init);
      LastPathFresh(recorded);
      HoldsOneMore(Record(map[], init), init, last);
      assert init + [last] == recorded;
    }
  }

  lemma LaminarPrefix(recorded: seq<Range>)
    requires Laminar(recorded) && recorded != []
    ensures Laminar(recorded[..|recorded| - 1])
  {
    var init := recorded[..|recorded| - 1];
    forall i, j | 0 <= i < j < |init|
      ensures Ordered(init[i], init[j])
    {
      assert Ordered(recorded[i], recorded[j]);
    }
  }

  lemma HoldsOneMore(ranges: RangeMap, recorded: seq<Range>, last: Range)
    requires Holds(ranges, recorded) && last.path !in ranges
    ensures Holds(ranges[last.path := (last.start, last.end)], recorded + [last])
  {
    var ranges', recorded' := ranges[last.path := (last.start, last.end)], recorded + [last];
    forall path | path in ranges'
      ensures exists i :: 0 <= i < |recorded'| && recorded'[i].path == path
    {
      if path == last.path {
        assert recorded'[|recorded|].path == path;
      } else {
        var i :| 0 <= i < |recorded| && recorded[i].path == path;
        assert recorded'[i].path == path;
      }
    }
  }

  // One revision's buffer and dictionary.
  datatype Output = Output(source: string, ranges: RangeMap)

  function Emit(o: Output, active: bool, text: string): Output {
    if active then o.(source := o.source + text) else o
  }

  function Rendered(
      o: Output, e: Element, path: Path, rev: Revision, parentActive: bool, includeSkipped: bool): Output {
    Output(
      o.source + Text(e, rev, parentActive, includeSkipped),
      Record(o.ranges, Ranges(e, path, rev, parentActive, includeSkipped, |o.source|)))
  }

  // After the element's own text and its first i children.
  function RenderedChildren(
      o: Output, e: Element, i: nat, path: Path, rev: Revision, active: bool, includeSkipped: bool): Output
    requires i <= |e.children|
  {
    Output(
      o.source + When(active, e.text) + ChildrenText(e, i, rev, active, includeSkipped),
      Record(o.ranges, ChildrenRanges(e, i, path, rev, active, includeSkipped, |o.source|)))
  }

  function RenderedChild(
      o: Output, e: Element, i: nat, path: Path, rev: Revision, active: bool, includeSkipped: bool): Output
    requires i < |e.children|
  {
    var child := e.children[i];
    if Skipped(child, includeSkipped) then o
    else Emit(Rendered(o, child, path + [ChildStep(e.children, i, includeSkipped)], rev, active, includeSkipped),
        active, child.tail)
  }

  lemma RenderedOneMore(o: Output, e: Element, i: nat, path: Path, rev: Revision, active: bool, includeSkipped: bool)
    requires i < |e.children|
    ensures RenderedChildren(o, e, i + 1, path, rev, active, includeSkipped)
         == RenderedChild(RenderedChildren(o, e, i, path, rev, active, includeSkipped), e, i, path, rev, active,
             includeSkipped)
  {
    var before := RenderedChildren(o, e, i, path, rev, active, includeSkipped);
    var child := e.children[i];
    var earlier := ChildrenRanges(e, i, path, rev, active, includeSkipped, |o.source|);
    if Skipped(child, includeSkipped) {
      assert earlier + [] == earlier;
      assert ChildrenText(e, i, rev, active, includeSkipped) + "" == ChildrenText(e, i, rev, active, includeSkipped);
    } else {
      var start := ChildOffset(e, i, rev, active, includeSkipped, |o.source|);
      assert start == |before.source|;
      var inner := Ranges(child, path + [ChildStep(e.children, i, includeSkipped)], rev, active, includeSkipped, start);
      assert ChildrenRanges(e, i + 1, path, rev, active, includeSkipped, |o.source|) == earlier + inner;
      RecordAppend(o.ranges, earlier, inner);
      var text := Text(child, rev, active, includeSkipped);
      Associate(o.source
          + When(active, e.text), ChildrenText(e, i, rev, active, includeSkipped), text, When(active, child.tail));
      assert before.source + text + When(active, child.tail)
        == if active then before.source + text + child.tail else before.source + text;
    }
  }

  lemma Associate(a: string, b: string, c: string, d: string)
    ensures a + (b + (c + d)) == a + b + c + d
  {
  }

  function RecordOwn(o: Output, path: Path, start: nat): Output
    requires start <= |o.source|
  {
    if |o.source| > start then o.(ranges := o.ranges[path := (start, |o.source|)]) else o
  }

  lemma RenderedClose(o: Output, e: Element, path: Path, rev: Revision, parentActive: bool, includeSkipped: bool)
    ensures var active := ActiveIn(e.tag, rev, parentActive);
            var done := RenderedChildren(o, e, |e.children|, path, rev, active, includeSkipped);
            && |o.source| <= |done.source|
            && Rendered(o, e, path, rev, parentActive, includeSkipped)
                 == (if active then RecordOwn(done, path, |o.source|) else done)
  {
    hide ActiveIn, ChildrenText, ChildrenRanges, Record;
    var active := ActiveIn(e.tag, rev, parentActive);
    var own, kids := When(active, e.text), ChildrenText(e, |e.children|, rev, active, includeSkipped);
    var text := Text(e, rev, parentActive, includeSkipped);
    assert text == own + kids;
    var below := ChildrenRanges(e, |e.children|, path, rev, active, includeSkipped, |o.source|);
    AssociateThree(o.source, own, kids);
    var range := Range(path, |o.source|, |o.source| + |text|);
    RecordOptional(o.ranges, below, range, active && |text| > 0);
    assert Rendered(o, e, path, rev, parentActive, includeSkipped).ranges
        == Record(o.ranges, below + if active && |text| > 0 then [range] else []);
  }

  lemma AssociateThree(a: string, b: string, c: string)
    ensures a + (b + c) == a + b + c
  {
  }

  lemma RecordOptional(ranges: RangeMap, below: seq<Range>, own: Range, present: bool)
    ensures Record(ranges, below + if present then [own] else [])
         == if present then Record(ranges, below)[own.path := (own.start, own.end)] else Record(ranges, below)
  {
    if present {
      RecordAppend(ranges, below, [own]);
      assert [own][..|[own]| - 1] == [];
    } else {
      assert below + [] == below;
    }
  }

  // The two buffers and range dictionaries, keyed by the two revision names.
  class UnitRendering {
    var chunks0: seq<string>
    var chunks1: seq<string>
    var length0: nat
    var length1: nat
    var ranges0: RangeMap
    var ranges1: RangeMap

    ghost predicate Valid()
      reads this
    {
      length0 == |Join(chunks0)| && length1 == |Join(chunks1)|
    }

    ghost function Out(rev: Revision): Output
      reads this
    {
      if rev == Rev0 then Output(Join(chunks0), ranges0) else Output(Join(chunks1), ranges1)
    }

    constructor ()
      ensures Valid() && Out(Rev0) == Output("", map[]) && Out(Rev1) == Output("", map[])
    {
      chunks0, chunks1, length0, length1, ranges0, ranges1 := [], [], 0, 0, map[], map[];
    }

    method EmitText(text: string, revisions: set<Revision>)
      requires Valid()
      modifies this
      ensures Valid()
      ensures Out(Rev0) == Emit(old(Out(Rev0)), Rev0 in revisions, text)
      ensures Out(Rev1) == Emit(old(Out(Rev1)), Rev1 in revisions, text)
    {
      if text == "" {
        assert Join(chunks0) + text == Join(chunks0) && Join(chunks1) + text == Join(chunks1);
        return;
      }
      JoinAppend(chunks0, text);
      JoinAppend(chunks1, text);
      if Rev0 in revisions {
        chunks0, length0 := chunks0 + [text], length0 + |text|;
      }
      if Rev1 in revisions {
        chunks1, length1 := chunks1 + [text], length1 + |text|;
      }
    }

    method RecordRanges(revisions: set<Revision>, path: Path, start0: nat, start1: nat)
      requires Valid() && start0 <= |Out(Rev0).source| && start1 <= |Out(Rev1).source|
      modifies this`ranges0, this`ranges1
      ensures Valid()
      ensures Out(Rev0) == if Rev0 in revisions then RecordOwn(old(Out(Rev0)), path, start0) else old(Out(Rev0))
      ensures Out(Rev1) == if Rev1 in revisions then RecordOwn(old(Out(Rev1)), path, start1) else old(Out(Rev1))
    {
      if Rev0 in revisions && length0 > start0 {
        ranges0 := ranges0[path := (start0, length0)];
      }
      if Rev1 in revisions && length1 > start1 {
        ranges1 := ranges1[path := (start1, length1)];
      }
    }

    method RenderElement(e: Element, path: Path, includeSkipped: bool, parents: set<Revision>)
      requires Valid()
      modifies this
      ensures Valid()
      ensures Out(Rev0) == Rendered(old(Out(Rev0)), e, path, Rev0, Rev0 in parents, includeSkipped)
      ensures Out(Rev1) == Rendered(old(Out(Rev1)), e, path, Rev1, Rev1 in parents, includeSkipped)
      decreases e, 1, 0
    {
      var revisions := Revisions(e.tag, parents);
      var start0, start1 := length0, length1;
      ghost var o0, o1 := Out(Rev0), Out(Rev1);
      EmitText(e.text, revisions);
      NoChildrenYet(o0, e, path, Rev0, Rev0 in revisions, includeSkipped);
      NoChildrenYet(o1, e, path, Rev1, Rev1 in revisions, includeSkipped);
      RenderChildren(e, path, includeSkipped, revisions, o0, o1);
      RenderedClose(o0, e, path, Rev0, Rev0 in parents, includeSkipped);
      RenderedClose(o1, e, path, Rev1, Rev1 in parents, includeSkipped);
      RecordRanges(revisions, path, start0, start1);
    }

    // The child loop, from the buffers as they were before the element.
    method RenderChildren(
        e: Element, path: Path, includeSkipped: bool, revisions: set<Revision>, ghost o0: Output, ghost o1: Output)
      requires Valid()
      requires Out(Rev0) == RenderedChildren(o0, e, 0, path, Rev0, Rev0 in revisions, includeSkipped)
      requires Out(Rev1) == RenderedChildren(o1, e, 0, path, Rev1, Rev1 in revisions, includeSkipped)
      modifies this
      ensures Valid()
      ensures Out(Rev0) == RenderedChildren(o0, e, |e.children|, path, Rev0, Rev0 in revisions, includeSkipped)
      ensures Out(Rev1) == RenderedChildren(o1, e, |e.children|, path, Rev1, Rev1 in revisions, includeSkipped)
      decreases e, 0, 1
    {
      hide RenderedChildren, RenderedChild, CountsUpTo;
      var counts: map<Name, nat> := map[];
      NothingCounted(e.children, includeSkipped);
      for i := 0 to |e.children|
        invariant Valid()
        invariant CountsUpTo(counts, e.children, i, includeSkipped)
        invariant Out(Rev0) == RenderedChildren(o0, e, i, path, Rev0, Rev0 in revisions, includeSkipped)
        invariant Out(Rev1) == RenderedChildren(o1, e, i, path, Rev1, Rev1 in revisions, includeSkipped)
      {
        counts := RenderChild(e, i, path, counts, includeSkipped, revisions);
        RenderedOneMore(o0, e, i, path, Rev0, Rev0 in revisions, includeSkipped);
        RenderedOneMore(o1, e, i, path, Rev1, Rev1 in revisions, includeSkipped);
      }
    }

    // One turn of the loop: nothing for a skipped child, otherwise its own
    // number, its subtree and the tail that follows it.
    method RenderChild(
        e: Element, i: nat, path: Path, counts: map<Name, nat>, includeSkipped: bool, revisions: set<Revision>)
      returns (counts': map<Name, nat>)
      requires Valid() && i < |e.children| && CountsUpTo(counts, e.children, i, includeSkipped)
      modifies this
      ensures Valid() && CountsUpTo(counts', e.children, i + 1, includeSkipped)
      ensures Out(Rev0) == RenderedChild(old(Out(Rev0)), e, i, path, Rev0, Rev0 in revisions, includeSkipped)
      ensures Out(Rev1) == RenderedChild(old(Out(Rev1)), e, i, path, Rev1, Rev1 in revisions, includeSkipped)
      decreases e, 0, 0
    {
      var child := e.children[i];
      BumpCounts(counts, e.children, i, includeSkipped);
      if Skipped(child, includeSkipped) {
        return counts;
      }
      var name := PrefixedName(child.tag);
      counts' := Bump(counts, name);
      RenderElement(child, path + [Step(name, counts'[name])], includeSkipped, revisions);
      EmitText(child.tail, revisions);
    }
  }

  lemma NoChildrenYet(o: Output, e: Element, path: Path, rev: Revision, active: bool, includeSkipped: bool)
    ensures RenderedChildren(o, e, 0, path, rev, active, includeSkipped) == Emit(o, active, e.text)
  {
    assert o.source + When(active, e.text) + "" == (if active then o.source + e.text else o.source);
  }

  // Everything a rendered unit promises, for one revision: its source, what
  // each range means, which elements have one, and how ranges nest.
  ghost predicate RenderedUnit(o: Output, unit: Element, path: Path, rev: Revision, includeSkipped: bool) {
    && o.source == Project(Chunks(unit, {Rev0, Rev1}, includeSkipped), rev)
    && (forall p | p in o.ranges ::
          Faithful(Range(p, o.ranges[p].0, o.ranges[p].1), o.source, unit, path, rev, true, includeSkipped))
    && (forall below: Path | Visible(unit, rev, true, includeSkipped, below) :: path + below in o.ranges)
    && (forall p, q | p in o.ranges && q in o.ranges && p != q ::
          var a, b := Range(p, o.ranges[p].0, o.ranges[p].1), Range(q, o.ranges[q].0, o.ranges[q].1);
          Ordered(a, b) || Ordered(b, a))
  }

  method RenderUnitSources(unit: Element, path: Path, includeSkipped: bool) returns (out0: Output, out1: Output)
    ensures RenderedUnit(out0, unit, path, Rev0, includeSkipped)
    ensures RenderedUnit(out1, unit, path, Rev1, includeSkipped)
  {
    var rendering := new UnitRendering();
    rendering.RenderElement(unit, path, includeSkipped, {Rev0, Rev1});
    RenderedFromEmpty(unit, path, Rev0, includeSkipped);
    RenderedFromEmpty(unit, path, Rev1, includeSkipped);
    out0 := Output(Join(rendering.chunks0), rendering.ranges0);
    out1 := Output(Join(rendering.chunks1), rendering.ranges1);
  }

  lemma RenderedFromEmpty(unit: Element, path: Path, rev: Revision, includeSkipped: bool)
    ensures RenderedUnit(Rendered(Output("", map[]), unit, path, rev, true, includeSkipped), unit, path, rev,
        includeSkipped)
  {
    hide Faithful, Ranges, Text, Visible, Laminar, Holds, Record;
    var o := Rendered(Output("", map[]), unit, path, rev, true, includeSkipped);
    var recorded := Ranges(unit, path, rev, true, includeSkipped, 0);
    TextIsActiveChunks(unit, rev, {Rev0, Rev1}, includeSkipped);
    assert o.source == Text(unit, rev, true, includeSkipped) && o.ranges == Record(map[], recorded);
    WholeSource(o.source);
    RangesFaithful(unit, path, rev, true, includeSkipped, 0, o.source);
    RangesLaminar(unit, path, rev, true, includeSkipped, 0);
    RecordLaminar(recorded);
    HeldAreRecorded(o.ranges, recorded);
    HeldAreOrdered(o.ranges, recorded);
    forall below: Path | Visible(unit, rev, true, includeSkipped, below)
      ensures path + below in o.ranges
    {
      var r := RangesComplete(unit, path, rev, true, includeSkipped, 0, below);
      RecordedAreHeld(o.ranges, recorded, r);
    }
  }

  lemma WholeSource(source: string)
    ensures TextAt(source, 0, source)
  {
  }

  lemma HeldAreRecorded(ranges: RangeMap, recorded: seq<Range>)
    requires Holds(ranges, recorded)
    ensures forall p | p in ranges :: Range(p, ranges[p].0, ranges[p].1) in recorded
  {
    forall p | p in ranges
      ensures Range(p, ranges[p].0, ranges[p].1) in recorded
    {
      var i :| 0 <= i < |recorded| && recorded[i].path == p;
      assert recorded[i] == Range(p, ranges[p].0, ranges[p].1);
    }
  }

  lemma RecordedAreHeld(ranges: RangeMap, recorded: seq<Range>, r: Range)
    requires Holds(ranges, recorded) && r in recorded
    ensures r.path in ranges
  {
  }

  lemma HeldAreOrdered(ranges: RangeMap, recorded: seq<Range>)
    requires Holds(ranges, recorded) && Laminar(recorded)
    ensures forall p, q | p in ranges && q in ranges && p != q ::
              var a, b := Range(p, ranges[p].0, ranges[p].1), Range(q, ranges[q].0, ranges[q].1);
              Ordered(a, b) || Ordered(b, a)
  {
    hide Ordered;
    forall p, q | p in ranges && q in ranges && p != q
      ensures var a, b := Range(p, ranges[p].0, ranges[p].1), Range(q, ranges[q].0, ranges[q].1);
              Ordered(a, b) || Ordered(b, a)
    {
      var i :| 0 <= i < |recorded| && recorded[i].path == p;
      var j :| 0 <= j < |recorded| && recorded[j].path == q;
      assert i < j ==> Ordered(recorded[i], recorded[j]);
      assert j < i ==> Ordered(recorded[j], recorded[i]);
    }
  }
}
