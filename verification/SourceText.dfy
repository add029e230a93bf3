// The source text of each revision of an annotated unit, and where every
// element's text lies in it.
module SourceText {
  import opened XmlElements

  datatype Range = Range(path: Path, start: nat, end: nat)

  // diff:delete and diff:insert select one revision, diff:common restores
  // both, anything else inherits.
  function ActiveIn(tag: Tag, rev: Revision, parentActive: bool): bool {
    var name := PrefixedName(tag);
    if name == Name(DiffPrefix, "delete") then rev == Rev0
    else if name == Name(DiffPrefix, "insert") then rev == Rev1
    else if name == Name(DiffPrefix, "common") then true
    else parentActive
  }

  function When(active: bool, text: string): string {
    if active then text else ""
  }

  // What rendering an element appends to one revision's source.
  function Text(e: Element, rev: Revision, parentActive: bool, includeSkipped: bool): string
    decreases e, |e.children| + 1
  {
    var active := ActiveIn(e.tag, rev, parentActive);
    When(active, e.text) + ChildrenText(e, |e.children|, rev, active, includeSkipped)
  }

  function ChildrenText(e: Element, i: nat, rev: Revision, active: bool, includeSkipped: bool): string
    requires i <= |e.children|
    decreases e, i
  {
    if i == 0 then ""
    else
      var child := e.children[i - 1];
      ChildrenText(e, i - 1, rev, active, includeSkipped)
      + if Skipped(child, includeSkipped) then
        "" else Text(child, rev, active, includeSkipped) + When(active, child.tail)
  }

  // The ranges recorded for an element whose text starts at `offset`, in the
  // order in which they are recorded.
  function Ranges(
      e: Element, path: Path, rev: Revision, parentActive: bool, includeSkipped: bool, offset: nat): seq<Range>
    decreases e, |e.children| + 1
  {
    var active := ActiveIn(e.tag, rev, parentActive);
    var size := |Text(e, rev, parentActive, includeSkipped)|;
    ChildrenRanges(e, |e.children|, path, rev, active, includeSkipped, offset)
    + if active && size > 0 then [Range(path, offset, offset + size)] else []
  }

  function ChildrenRanges(
      e: Element, i: nat, path: Path, rev: Revision, active: bool, includeSkipped: bool, offset: nat)
    : seq<Range>
    requires i <= |e.children|
    decreases e, i
  {
    if i == 0 then []
    else
      var child := e.children[i - 1];
      ChildrenRanges(e, i - 1, path, rev, active, includeSkipped, offset)
      + if Skipped(child, includeSkipped) then []
        else Ranges(child, path + [ChildStep(e.children, i - 1, includeSkipped)], rev, active, includeSkipped,
                    ChildOffset(e, i - 1, rev, active, includeSkipped, offset))
  }

  // Where the text of child i starts.
  function ChildOffset(e: Element, i: nat, rev: Revision, active: bool, includeSkipped: bool, offset: nat): nat
    requires i <= |e.children|
  {
    offset + |When(active, e.text)| + |ChildrenText(e, i, rev, active, includeSkipped)|
  }

  // -- One order for both revisions --

  datatype Chunk = Chunk(text: string, revisions: set<Revision>)

  function Revisions(tag: Tag, parents: set<Revision>): set<Revision> {
    set rev | rev in {Rev0, Rev1} && ActiveIn(tag, rev, rev in parents)
  }

  // Every text and tail of the tree in document order, with the revisions it belongs to.
  function Chunks(e: Element, parents: set<Revision>, includeSkipped: bool): seq<Chunk>
    decreases e, |e.children| + 1
  {
    var active := Revisions(e.tag, parents);
    [Chunk(e.text, active)] + ChildrenChunks(e, |e.children|, active, includeSkipped)
  }

  function ChildrenChunks(e: Element, i: nat, active: set<Revision>, includeSkipped: bool): seq<Chunk>
    requires i <= |e.children|
    decreases e, i
  {
    if i == 0 then []
    else
      var child := e.children[i - 1];
      ChildrenChunks(e, i - 1, active, includeSkipped)
      + if Skipped(child, includeSkipped) then
        [] else Chunks(child, active, includeSkipped) + [Chunk(child.tail, active)]
  }

  // Reading a chunk sequence in one revision.
  function Project(chunks: seq<Chunk>, rev: Revision): string {
    if chunks == [] then ""
    else When(rev in chunks[0].revisions, chunks[0].text) + Project(chunks[1..], rev)
  }

  lemma {:induction false} ProjectAppend(a: seq<Chunk>, b: seq<Chunk>, rev: Revision)
    ensures Project(a + b, rev) == Project(a, rev) + Project(b, rev)
  {
    if a == [] {
      assert a + b == b;
    } else {
      assert (a + b)[1..] == a[1..] + b;
      ProjectAppend(a[1..], b, rev);
    }
  }

  lemma ProjectOne(chunk: Chunk, rev: Revision)
    ensures Project([chunk], rev) == When(rev in chunk.revisions, chunk.text)
  {
    assert Project([chunk][1..], rev) == "";
  }

  // Each revision's source is the document-order concatenation of the chunks active in it.
  lemma {:induction false} TextIsActiveChunks(e: Element, rev: Revision, parents: set<Revision>, includeSkipped: bool)
    ensures Text(e, rev, rev in parents, includeSkipped) == Project(Chunks(e, parents, includeSkipped), rev)
    decreases e, |e.children| + 1
  {
    var active := Revisions(e.tag, parents);
    ChildrenTextIsActiveChunks(e, |e.children|, rev, active, includeSkipped);
    ProjectAppend([Chunk(e.text, active)], ChildrenChunks(e, |e.children|, active, includeSkipped), rev);
    ProjectOne(Chunk(e.text, active), rev);
  }

  lemma {:induction false} ChildrenTextIsActiveChunks(
      e: Element, i: nat, rev: Revision, active: set<Revision>, includeSkipped: bool)
    requires i <= |e.children|
    ensures ChildrenText(e, i, rev, rev in active, includeSkipped)
          == Project(ChildrenChunks(e, i, active, includeSkipped), rev)
    decreases e, i
  {
    if i == 0 {
    } else {
      var child := e.children[i - 1];
      ChildrenTextIsActiveChunks(e, i - 1, rev, active, includeSkipped);
      if Skipped(child, includeSkipped) {
        assert ChildrenText(e, i, rev, rev in active, includeSkipped)
            == ChildrenText(e, i - 1, rev, rev in active, includeSkipped);
        assert ChildrenChunks(e, i, active, includeSkipped) == ChildrenChunks(e, i - 1, active, includeSkipped);
      } else {
        var chunks, tail := Chunks(child, active, includeSkipped), Chunk(child.tail, active);
        TextIsActiveChunks(child, rev, active, includeSkipped);
        ProjectAppend(chunks, [tail], rev);
        ProjectOne(tail, rev);
        ProjectAppend(ChildrenChunks(e, i - 1, active, includeSkipped), chunks + [tail], rev);
      }
    }
  }

  // -- Recorded ranges are ordered and laminar --

  ghost predicate Inside(r: Range, path: Path, start: nat, end: nat) {
    path <= r.path && start <= r.start < r.end <= end
  }

  lemma {:induction false} RangesInside(
      e: Element, path: Path, rev: Revision, parentActive: bool, includeSkipped: bool, offset: nat)
    ensures forall r | r in Ranges(e, path, rev, parentActive, includeSkipped, offset) ::
              Inside(r, path, offset, offset + |Text(e, rev, parentActive, includeSkipped)|)
    decreases e, |e.children| + 1
  {
    var active := ActiveIn(e.tag, rev, parentActive);
    ChildrenRangesInside(e, |e.children|, path, rev, active, includeSkipped, offset);
  }

  lemma {:induction false} ChildrenRangesInside(
      e: Element, i: nat, path: Path, rev: Revision, active: bool, includeSkipped: bool, offset: nat)
    requires i <= |e.children|
    ensures forall r | r in ChildrenRanges(e, i, path, rev, active, includeSkipped, offset) ::
              && Inside(r, path, ChildOffset(e, 0, rev, active, includeSkipped, offset),
                   ChildOffset(e, i, rev, active, includeSkipped, offset))
              && |path| < |r.path|
              && exists j :: 0 <= j < i && !Skipped(e.children[j], includeSkipped)
                   && r.path[|path|] == ChildStep(e.children, j, includeSkipped)
    decreases e, i
  {
    if i == 0 {
    } else {
      var child := e.children[i - 1];
      ChildrenRangesInside(e, i - 1, path, rev, active, includeSkipped, offset);
      if !Skipped(child, includeSkipped) {
        var step := ChildStep(e.children, i - 1, includeSkipped);
        var start := ChildOffset(e, i - 1, rev, active, includeSkipped, offset);
        RangesInside(child, path + [step], rev, active, includeSkipped, start);
        forall r | r in Ranges(child, path + [step], rev, active, includeSkipped, start)
          ensures path <= r.path && |path| < |r.path| && r.path[|path|] == step
        {
          assert path + [step] <= r.path;
          assert path == (path + [step])[..|path|];
          assert r.path[|path|] == (path + [step])[|path|];
        }
      }
    }
  }

  // a was recorded before b: a descendant of b, or wholly before it and unrelated.
  ghost predicate Ordered(a: Range, b: Range) {
    if b.path < a.path then b.start <= a.start && a.end <= b.end
    else a.end <= b.start && !(a.path <= b.path)
  }

  ghost predicate Laminar(ranges: seq<Range>) {
    forall i, j | 0 <= i < j < |ranges| :: Ordered(ranges[i], ranges[j])
  }

  lemma LaminarAppend(a: seq<Range>, b: seq<Range>)
    requires Laminar(a) && Laminar(b)
    requires forall x, y | x in a && y in b :: Ordered(x, y)
    ensures Laminar(a + b)
  {
  }

  // Recorded ranges form an ordered laminar family whose nesting is exactly
  // the ancestor relation; in particular no path is recorded twice.
  lemma {:induction false} RangesLaminar(
      e: Element, path: Path, rev: Revision, parentActive: bool, includeSkipped: bool, offset: nat)
    ensures Laminar(Ranges(e, path, rev, parentActive, includeSkipped, offset))
    decreases e, |e.children| + 1
  {
    hide ActiveIn, ChildrenRanges, ChildrenText;
    var active := ActiveIn(e.tag, rev, parentActive);
    var size := |Text(e, rev, parentActive, includeSkipped)|;
    var below := ChildrenRanges(e, |e.children|, path, rev, active, includeSkipped, offset);
    ChildrenRangesLaminar(e, |e.children|, path, rev, active, includeSkipped, offset);
    ChildrenRangesInside(e, |e.children|, path, rev, active, includeSkipped, offset);
    LaminarAppend(below, if active && size > 0 then [Range(path, offset, offset + size)] else []);
  }

  lemma {:induction false} ChildrenRangesLaminar(
      e: Element, i: nat, path: Path, rev: Revision, active: bool, includeSkipped: bool, offset: nat)
    requires i <= |e.children|
    ensures Laminar(ChildrenRanges(e, i, path, rev, active, includeSkipped, offset))
    decreases e, i
  {
    if i == 0 {
    } else {
      var child := e.children[i - 1];
      ChildrenRangesLaminar(e, i - 1, path, rev, active, includeSkipped, offset);
      if !Skipped(child, includeSkipped) {
        var step := ChildStep(e.children, i - 1, includeSkipped);
        var start := ChildOffset(e, i - 1, rev, active, includeSkipped, offset);
        var before := ChildrenRanges(e, i - 1, path, rev, active, includeSkipped, offset);
        var last := Ranges(child, path + [step], rev, active, includeSkipped, start);
        RangesLaminar(child, path + [step], rev, active, includeSkipped, start);
        SiblingsOrdered(e, i - 1, path, rev, active, includeSkipped, offset);
        LaminarAppend(before, last);
      }
    }
  }

  lemma SiblingsOrdered(e: Element, i: nat, path: Path, rev: Revision, active: bool, includeSkipped: bool, offset: nat)
    requires i < |e.children| && !Skipped(e.children[i], includeSkipped)
    ensures var step := ChildStep(e.children, i, includeSkipped);
            var start := ChildOffset(e, i, rev, active, includeSkipped, offset);
            forall x, y | x in ChildrenRanges(e, i, path, rev, active, includeSkipped, offset)
                       && y in Ranges(e.children[i], path + [step], rev, active, includeSkipped, start) :: Ordered(x, y)
  {
    var step := ChildStep(e.children, i, includeSkipped);
    var start := ChildOffset(e, i, rev, active, includeSkipped, offset);
    ChildrenRangesInside(e, i, path, rev, active, includeSkipped, offset);
    RangesInside(e.children[i], path + [step], rev, active, includeSkipped, start);
    forall x, y | x in ChildrenRanges(e, i, path, rev, active, includeSkipped, offset)
               && y in Ranges(e.children[i], path + [step], rev, active, includeSkipped, start)
      ensures Ordered(x, y)
    {
      var j :| 0 <= j < i && !Skipped(e.children[j], includeSkipped)
          && x.path[|path|] == ChildStep(e.children, j, includeSkipped);
      ChildStepsDiffer(e.children, j, i, includeSkipped);
      assert y.path[|path|] == (path + [step])[|path|] == step;
    }
  }
}
