// What a recorded range means: the element its path names, and that
// element's own text.
module SourceRanges {
  import opened Prelude
  import opened XmlElements
  import opened SourceText

  // The child a path step names, searched from the last child back.
  function FindChild(children: seq<Element>, i: nat, step: Step, includeSkipped: bool): (found: Option<nat>)
    requires i <= |children|
    ensures found.Some? ==>
      && found.value < i && !Skipped(children[found.value], includeSkipped)
      && ChildStep(children, found.value, includeSkipped) == step
  {
    if i == 0 then None
    else if !Skipped(children[i - 1], includeSkipped)
        && ChildStep(children, i - 1, includeSkipped) == step then Some(i - 1)
    else FindChild(children, i - 1, step, includeSkipped)
  }

  // A node together with the activity it inherits.
  datatype Place = Place(element: Element, parentActive: bool)

  function Resolve(e: Element, rev: Revision, parentActive: bool, includeSkipped: bool, below: Path): Option<Place>
    decreases |below|
  {
    if below == [] then Some(Place(e, parentActive))
    else
      match FindChild(e.children, |e.children|, below[0], includeSkipped)
      case None => None
      case Some(i) => Resolve(e.children[i], rev, ActiveIn(e.tag, rev, parentActive), includeSkipped, below[1..])
  }

  lemma {:induction false} FindChildAt(children: seq<Element>, i: nat, j: nat, includeSkipped: bool)
    requires j < i <= |children| && !Skipped(children[j], includeSkipped)
    ensures FindChild(children, i, ChildStep(children, j, includeSkipped), includeSkipped) == Some(j)
  {
    if j == i - 1 {
    } else {
      if !Skipped(children[i - 1], includeSkipped) {
        ChildStepsDiffer(children, j, i - 1, includeSkipped);
      }
      FindChildAt(children, i - 1, j, includeSkipped);
    }
  }

  // The range names an element active in the revision and delimits its text.
  ghost predicate Faithful(
      r: Range, source: string, e: Element, path: Path, rev: Revision, parentActive: bool, includeSkipped: bool) {
    && path <= r.path && r.start < r.end <= |source|
    && match Resolve(e, rev, parentActive, includeSkipped, r.path[|path|..])
       case None => false
       case Some(place) =>
         && ActiveIn(place.element.tag, rev, place.parentActive)
         && source[r.start..r.end] == Text(place.element, rev, place.parentActive, includeSkipped)
  }

  // Every recorded range slices the source to exactly its subtree's text.
  lemma {:induction false} RangesFaithful(
      e: Element, path: Path, rev: Revision, parentActive: bool, includeSkipped: bool, offset: nat, source: string)
    requires TextAt(source, offset, Text(e, rev, parentActive, includeSkipped))
    ensures forall r | r in Ranges(e, path, rev, parentActive, includeSkipped, offset) ::
              Faithful(r, source, e, path, rev, parentActive, includeSkipped)
    decreases e, |e.children| + 1
  {
    hide TextAt, Faithful, ChildrenRanges, ChildrenText, ActiveIn;
    var active := ActiveIn(e.tag, rev, parentActive);
    SplitTextAt(source, offset, When(active, e.text), ChildrenText(e, |e.children|, rev, active, includeSkipped));
    ChildrenRangesFaithful(e, |e.children|, path, rev, parentActive, includeSkipped, offset, source);
    OwnFaithful(e, path, rev, parentActive, includeSkipped, offset, source);
  }

  lemma OwnFaithful(
      e: Element, path: Path, rev: Revision, parentActive: bool, includeSkipped: bool, offset: nat, source: string)
    requires TextAt(source, offset, Text(e, rev, parentActive, includeSkipped))
    ensures var size := |Text(e, rev, parentActive, includeSkipped)|;
            ActiveIn(e.tag, rev, parentActive) && size > 0 ==>
              Faithful(Range(path, offset, offset + size), source, e, path, rev, parentActive, includeSkipped)
  {
    hide Text, ActiveIn;
    assert path[|path|..] == [];
  }

  lemma {:induction false} ChildrenRangesFaithful(
      e: Element, i: nat, path: Path, rev: Revision, parentActive: bool, includeSkipped: bool, offset: nat,
          source: string)
    requires i <= |e.children|
    requires ChildrenTextAt(e, i, rev, parentActive, includeSkipped, offset, source)
    ensures forall r | r in ChildrenRanges(e, i, path, rev, ActiveIn(e.tag, rev, parentActive), includeSkipped,
        offset) ::
              Faithful(r, source, e, path, rev, parentActive, includeSkipped)
    decreases e, i
  {
    if i == 0 {
    } else {
      SplitLastChild(e, i - 1, rev, parentActive, includeSkipped, offset, source);
      ChildrenRangesFaithful(e, i - 1, path, rev, parentActive, includeSkipped, offset, source);
      if !Skipped(e.children[i - 1], includeSkipped) {
        var start := ChildOffset(e, i - 1, rev, ActiveIn(e.tag, rev, parentActive), includeSkipped, offset);
        ChildFaithful(e, i - 1, path, rev, parentActive, includeSkipped, start, source);
      }
    }
  }

  ghost predicate ChildrenTextAt(
      e: Element, i: nat, rev: Revision, parentActive: bool, includeSkipped: bool, offset: nat, source: string)
    requires i <= |e.children|
  {
    var active := ActiveIn(e.tag, rev, parentActive);
    TextAt(source, offset + |When(active, e.text)|, ChildrenText(e, i, rev, active, includeSkipped))
  }

  lemma SplitLastChild(
      e: Element, i: nat, rev: Revision, parentActive: bool, includeSkipped: bool, offset: nat, source: string)
    requires i < |e.children| && ChildrenTextAt(e, i + 1, rev, parentActive, includeSkipped, offset, source)
    ensures ChildrenTextAt(e, i, rev, parentActive, includeSkipped, offset, source)
    ensures var active := ActiveIn(e.tag, rev, parentActive);
            !Skipped(e.children[i], includeSkipped) ==>
              TextAt(source, ChildOffset(e, i, rev, active, includeSkipped, offset),
                  Text(e.children[i], rev, active, includeSkipped))
  {
    hide TextAt, Text, ActiveIn;
    var active := ActiveIn(e.tag, rev, parentActive);
    var child := e.children[i];
    var start := offset + |When(active, e.text)|;
    var before := ChildrenText(e, i, rev, active, includeSkipped);
    if Skipped(child, includeSkipped) {
      assert ChildrenText(e, i + 1, rev, active, includeSkipped) == before;
    } else {
      var text, tail := Text(child, rev, active, includeSkipped), When(active, child.tail);
      assert ChildrenText(e, i + 1, rev, active, includeSkipped) == before + (text + tail);
      SplitTextAt(source, start, before, text + tail);
      SplitTextAt(source, start + |before|, text, tail);
    }
  }

  lemma {:induction false} ChildFaithful(
      e: Element, i: nat, path: Path, rev: Revision, parentActive: bool, includeSkipped: bool, start: nat,
          source: string)
    requires i < |e.children| && !Skipped(e.children[i], includeSkipped)
    requires TextAt(source, start, Text(e.children[i], rev, ActiveIn(e.tag, rev, parentActive), includeSkipped))
    ensures var active := ActiveIn(e.tag, rev, parentActive);
            forall r | r in Ranges(e.children[i], path
                + [ChildStep(e.children, i, includeSkipped)], rev, active, includeSkipped, start) ::
              Faithful(r, source, e, path, rev, parentActive, includeSkipped)
    decreases e, 0
  {
    var active := ActiveIn(e.tag, rev, parentActive);
    var step := ChildStep(e.children, i, includeSkipped);
    RangesFaithful(e.children[i], path + [step], rev, active, includeSkipped, start, source);
    FindChildAt(e.children, |e.children|, i, includeSkipped);
    forall r | r in Ranges(e.children[i], path + [step], rev, active, includeSkipped, start)
      ensures Faithful(r, source, e, path, rev, parentActive, includeSkipped)
    {
      assert Faithful(r, source, e.children[i], path + [step], rev, active, includeSkipped);
      BelowChild(e, i, path, rev, parentActive, includeSkipped, r.path);
    }
  }

  lemma BelowChild(e: Element, i: nat, path: Path, rev: Revision, parentActive: bool, includeSkipped: bool, full: Path)
    requires i < |e.children| && !Skipped(e.children[i], includeSkipped)
    requires path + [ChildStep(e.children, i, includeSkipped)] <= full
    ensures path <= full
    ensures Resolve(e, rev, parentActive, includeSkipped, full[|path|..])
         == Resolve(e.children[i], rev, ActiveIn(e.tag, rev, parentActive), includeSkipped, full[|path| + 1..])
  {
    var step := ChildStep(e.children, i, includeSkipped);
    FindChildAt(e.children, |e.children|, i, includeSkipped);
    assert path == (path + [step])[..|path|];
    var below := full[|path|..];
    assert below[0] == full[|path|] == (path + [step])[|path|];
    assert below[1..] == full[|path| + 1..];
  }

  // The path leads to an element that is active in the revision and has text there.
  ghost predicate Visible(e: Element, rev: Revision, parentActive: bool, includeSkipped: bool, below: Path) {
    match Resolve(e, rev, parentActive, includeSkipped, below)
    case None => false
    case Some(place) =>
      ActiveIn(place.element.tag, rev, place.parentActive)
          && Text(place.element, rev, place.parentActive, includeSkipped) != ""
  }

  // ... and every element active in the revision with text there has a range.
  lemma {:induction false} RangesComplete(
      e: Element, path: Path, rev: Revision, parentActive: bool, includeSkipped: bool, offset: nat, below: Path)
    returns (r: Range)
    requires Visible(e, rev, parentActive, includeSkipped, below)
    ensures r in Ranges(e, path, rev, parentActive, includeSkipped, offset) && r.path == path + below
    decreases |below|
  {
    hide Text, Ranges, FindChild, ChildOffset;
    if below == [] {
      r := Range(path, offset, offset + |Text(e, rev, parentActive, includeSkipped)|);
      OwnRangeRecorded(e, path, rev, parentActive, includeSkipped, offset);
      assert path + below == path;
    } else {
      var i := FindChild(e.children, |e.children|, below[0], includeSkipped).value;
      var start := ChildOffset(e, i, rev, ActiveIn(e.tag, rev, parentActive), includeSkipped, offset);
      r := RangesComplete(e.children[i], path
          + [below[0]], rev, ActiveIn(e.tag, rev, parentActive), includeSkipped, start, below[1..]);
      DeepRangeRecorded(e, i, path, rev, parentActive, includeSkipped, offset, r);
      assert path + below == path + [below[0]] + below[1..];
    }
  }

  lemma OwnRangeRecorded(e: Element, path: Path, rev: Revision, parentActive: bool, includeSkipped: bool, offset: nat)
    requires ActiveIn(e.tag, rev, parentActive) && Text(e, rev, parentActive, includeSkipped) != ""
    ensures Range(path, offset, offset + |Text(e, rev, parentActive, includeSkipped)|)
         in Ranges(e, path, rev, parentActive, includeSkipped, offset)
  {
  }

  lemma DeepRangeRecorded(
      e: Element, i: nat, path: Path, rev: Revision, parentActive: bool, includeSkipped: bool, offset: nat, r: Range)
    requires i < |e.children| && !Skipped(e.children[i], includeSkipped)
    requires var active := ActiveIn(e.tag, rev, parentActive);
             r in Ranges(e.children[i], path + [ChildStep(e.children, i, includeSkipped)], rev, active, includeSkipped,
                         ChildOffset(e, i, rev, active, includeSkipped, offset))
    ensures r in Ranges(e, path, rev, parentActive, includeSkipped, offset)
  {
    ChildRangeRecorded(e, |e.children|, i, path, rev, ActiveIn(e.tag, rev, parentActive), includeSkipped, offset, r);
  }

  lemma {:induction false} ChildRangeRecorded(
      e: Element, i: nat, j: nat, path: Path, rev: Revision, active: bool, includeSkipped: bool, offset: nat, r: Range)
    requires j < i <= |e.children| && !Skipped(e.children[j], includeSkipped)
    requires r in Ranges(e.children[j], path + [ChildStep(e.children, j, includeSkipped)], rev, active, includeSkipped,
                         ChildOffset(e, j, rev, active, includeSkipped, offset))
    ensures r in ChildrenRanges(e, i, path, rev, active, includeSkipped, offset)
  {
    var earlier := ChildrenRanges(e, i - 1, path, rev, active, includeSkipped, offset);
    assert earlier <= ChildrenRanges(e, i, path, rev, active, includeSkipped, offset);
    if j == i - 1 {
    } else {
      ChildRangeRecorded(e, i - 1, j, path, rev, active, includeSkipped, offset, r);
    }
  }
}
