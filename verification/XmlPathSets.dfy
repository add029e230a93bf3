// When the span index of a document has exactly the paths of the recursive
// traversal.
module XmlPathSets {
  import opened Prelude
  import opened XmlElements
  import opened LineColumns
  import opened XmlSpans
  import opened XmlSpanIndex
  import opened XmlExtents

  // Every unit-spelled child is a srcML unit, and a file unit has none.
  predicate PathsAgree(root: Element) {
    if IsFileUnit(root) then forall i | 0 <= i < |root.children| :: root.children[i].tag != SRC_UNIT
    else if PrefixedName(root.tag) == UNIT_NAME then
      forall i | 0 <= i < |root.children| && PrefixedName(root.children[i].tag) == UNIT_NAME ::
        root.children[i].tag == SRC_UNIT
    else forall i | 0 <= i < |root.children| :: root.children[i].tag != SRC_UNIT
  }

  // A file unit that is an empty-element tag with no bracket after it: the end
  // handler finds no end for it.
  predicate UnitLost(d: Document) {
    IsFileUnit(d.root) && d.root.form.close == "" && '>' !in d.epilog
  }

  function UnitSizes(root: Element, i: nat, exact: bool, includeSkipped: bool): nat
    requires i <= |root.children|
  {
    if i == 0 then 0
    else
      UnitSizes(root, i - 1, exact, includeSkipped)
      + if IsUnit(root.children[i - 1], exact) then CountNumbered(root.children[i - 1], includeSkipped) else 0
  }

  // Paths of numbered units start with a number up to n.
  ghost predicate UnitPathsWithin(spans: SpanMap, n: nat) {
    forall p: Path | p in spans :: p != [] && p[0].name == UNIT_NAME && 1 <= p[0].index <= n
  }

  lemma {:induction false} UnitPathsBounded(d: Document, i: nat, exact: bool, r: Reading)
    requires i <= |d.root.children|
    ensures UnitPathsWithin(UnitSpans(d, i, exact, r), UnitCount(d.root, i, exact))
  {
    hide *;
    if i == 0 {
      NoUnitPaths(d, exact, r);
    } else {
      UnitPathsBounded(d, i - 1, exact, r);
      if IsUnit(d.root.children[i - 1], exact) {
        OneMoreUnit(d, i - 1, exact, r);
      } else {
        OtherUnfolded(d, i - 1, exact, r);
      }
    }
  }

  lemma OneMoreUnit(d: Document, i: nat, exact: bool, r: Reading)
    requires i < |d.root.children| && IsUnit(d.root.children[i], exact)
    requires UnitPathsWithin(UnitSpans(d, i, exact, r), UnitCount(d.root, i, exact))
    ensures UnitPathsWithin(UnitSpans(d, i + 1, exact, r), UnitCount(d.root, i + 1, exact))
    ensures UnitSpans(d, i, exact, r).Keys !! UnitSpan(d, i, exact, r).Keys
  {
    hide Numbered, UnitPathsWithin, AllBelow, UnitPosition;
    NumberedBelow(d.root.children[i], UnitPath(UnitCount(d.root, i, exact) + 1), UnitPosition(d, i), r);
    AnotherUnit(UnitSpans(d, i, exact, r), UnitSpan(d, i, exact, r), UnitCount(d.root, i, exact));
  }

  lemma OtherUnfolded(d: Document, i: nat, exact: bool, r: Reading)
    requires i < |d.root.children| && !IsUnit(d.root.children[i], exact)
    ensures UnitSpans(d, i + 1, exact, r) == UnitSpans(d, i, exact, r)
    ensures UnitCount(d.root, i + 1, exact) == UnitCount(d.root, i, exact)
    ensures UnitSizes(d.root, i + 1, exact, r.includeSkipped) == UnitSizes(d.root, i, exact, r.includeSkipped)
  {
    hide Numbered, UnitPosition;
    NothingNumbered(d.root.children[i], UnitPosition(d, i), r);
    MergeAssociates(UnitSpans(d, i, exact, r), map[], map[]);
  }

  lemma NoUnitPaths(d: Document, exact: bool, r: Reading)
    ensures UnitPathsWithin(UnitSpans(d, 0, exact, r), UnitCount(d.root, 0, exact))
  {
  }

  lemma AnotherUnit(earlier: SpanMap, last: SpanMap, number: nat)
    requires UnitPathsWithin(earlier, number) && AllBelow(last, UnitPath(number + 1))
    ensures UnitPathsWithin(earlier + last, number + 1) && earlier.Keys !! last.Keys
  {
    StartsWith(last, Step(UNIT_NAME, number + 1));
  }

  lemma StartsWith(spans: SpanMap, step: Step)
    requires AllBelow(spans, [step])
    ensures forall p: Path | p in spans :: p != [] && p[0] == step
  {
    forall p: Path | p in spans
      ensures p != [] && p[0] == step
    {
      assert [step][0] == step;
    }
  }

  // Read with their own spans, all units up to the count occur.
  ghost predicate UnitsOccur(spans: SpanMap, n: nat) {
    forall k: nat | 1 <= k <= n :: UnitPath(k) in spans
  }

  lemma {:induction false} OwnUnits(d: Document, i: nat, exact: bool, r: Reading)
    requires !r.found && i <= |d.root.children|
    ensures |UnitSpans(d, i, exact, r).Keys| == UnitSizes(d.root, i, exact, r.includeSkipped)
    ensures UnitsOccur(UnitSpans(d, i, exact, r), UnitCount(d.root, i, exact))
  {
    hide *;
    if i == 0 {
      NoOwnUnits(d, exact, r);
    } else {
      OwnUnits(d, i - 1, exact, r);
      if IsUnit(d.root.children[i - 1], exact) {
        UnitPathsBounded(d, i - 1, exact, r);
        OneMoreUnit(d, i - 1, exact, r);
        OneMoreUnitSize(d, i - 1, exact, r);
        OneMoreOccurs(d, i - 1, exact, r);
      } else {
        OtherUnfolded(d, i - 1, exact, r);
      }
    }
  }

  lemma NoOwnUnits(d: Document, exact: bool, r: Reading)
    ensures |UnitSpans(d, 0, exact, r).Keys| == UnitSizes(d.root, 0, exact, r.includeSkipped)
    ensures UnitsOccur(UnitSpans(d, 0, exact, r), UnitCount(d.root, 0, exact))
  {
  }

  lemma OneMoreOccurs(d: Document, i: nat, exact: bool, r: Reading)
    requires !r.found && i < |d.root.children| && IsUnit(d.root.children[i], exact)
    requires UnitsOccur(UnitSpans(d, i, exact, r), UnitCount(d.root, i, exact))
    ensures UnitsOccur(UnitSpans(d, i + 1, exact, r), UnitCount(d.root, i + 1, exact))
  {
    hide NumberedChildren, UnitPosition, OwnSpanAt;
    assert UnitPath(UnitCount(d.root, i, exact) + 1) in UnitSpan(d, i, exact, r);
  }

  lemma OneMoreUnitSize(d: Document, i: nat, exact: bool, r: Reading)
    requires !r.found && i < |d.root.children| && IsUnit(d.root.children[i], exact)
    requires UnitSpans(d, i, exact, r).Keys !! UnitSpan(d, i, exact, r).Keys
    ensures |UnitSpans(d, i + 1, exact, r).Keys| - |UnitSpans(d, i, exact, r).Keys|
         == UnitSizes(d.root, i + 1, exact, r.includeSkipped) - UnitSizes(d.root, i, exact, r.includeSkipped)
  {
    hide Numbered, UnitPosition;
    NumberedSize(d.root.children[i], UnitPath(UnitCount(d.root, i, exact) + 1), UnitPosition(d, i), r);
    DisjointSize(UnitSpans(d, i, exact, r), UnitSpan(d, i, exact, r));
  }

  lemma {:induction false} UnitsCounted(root: Element, i: nat, exact: bool)
    requires i <= |root.children|
    ensures UnitCount(root, i, exact) > 0 <==> exists j :: 0 <= j < i && IsUnit(root.children[j], exact)
    ensures UnitCount(root, i, true) <= UnitCount(root, i, false)
    ensures UnitCount(root, i, true) == UnitCount(root, i, false) <==>
      forall j | 0 <= j < i && IsUnit(root.children[j], false) :: IsUnit(root.children[j], true)
  {
    if i == 0 {
    } else {
      UnitsCounted(root, i - 1, exact);
    }
  }

  // A whole tree has strictly more paths than its unit children's subtrees.
  lemma {:induction false} UnitsAreFewer(root: Element, i: nat, includeSkipped: bool)
    requires i <= |root.children|
    ensures UnitSizes(root, i, true, includeSkipped) <= CountChildren(root, i, includeSkipped)
  {
    if i == 0 {
    } else {
      UnitsAreFewer(root, i - 1, includeSkipped);
    }
  }

  lemma {:induction false} SameUnitsSameSpans(d: Document, i: nat, r: Reading)
    requires i <= |d.root.children| && UnitCount(d.root, i, true) == UnitCount(d.root, i, false)
    ensures UnitSpans(d, i, true, r) == UnitSpans(d, i, false, r)
  {
    if i == 0 {
    } else {
      UnitsCounted(d.root, i, true);
      UnitsCounted(d.root, i - 1, true);
      SameUnitsSameSpans(d, i - 1, r);
      assert IsUnit(d.root.children[i - 1], true) <==> IsUnit(d.root.children[i - 1], false);
    }
  }

  lemma {:induction false} NoUnitsNoSpans(d: Document, i: nat, r: Reading)
    requires i <= |d.root.children|
    ensures UnitCount(d.root, i, true) == 0 ==> UnitSpans(d, i, true, r) == map[]
  {
    hide Numbered, UnitPosition;
    if i == 0 {
    } else {
      NoUnitsNoSpans(d, i - 1, r);
      NothingNumbered(d.root.children[i - 1], UnitPosition(d, i - 1), r);
    }
  }

  // -- Every numbered unit has its span recorded, except a lost one --

  // Where a bracket follows the root's last child: its own end tag, or something after it.
  lemma BracketAfter(d: Document) returns (last: nat)
    requires WellWritten(d.root) && (d.root.form.close != "" || '>' in d.epilog)
    ensures BracketPast(Bytes(d), d.root, |d.prolog|, last)
  {
    hide Source, EndPosition;
    EndTagEnds(d.root, |d.prolog|);
    RootWritten(d);
    if d.root.form.close != "" {
      FoundAtEndTag(Bytes(d), d.root, |d.prolog|);
      last := |d.prolog| + |Source(d.root)| - 1;
    } else {
      var k :| 0 <= k < |d.epilog| && d.epilog[k] == '>';
      last := |d.prolog| + |Source(d.root)| + k;
      assert Bytes(d)[last] == d.epilog[k];
    }
  }

  lemma {:induction false} UnitsFound(d: Document, i: nat, exact: bool, r: Reading, last: nat)
    requires i <= |d.root.children| && BracketPast(r.doc, d.root, |d.prolog|, last)
    ensures UnitSpans(d, i, exact, r).Keys == UnitSpans(d, i, exact, r.(found := false)).Keys
  {
    hide BracketPast, Numbered, ChildPosition;
    if i == 0 {
    } else {
      UnitsFound(d, i - 1, exact, r, last);
      var unit := d.root.children[i - 1];
      BracketPastChild(r.doc, d.root, i - 1, |d.prolog|, last);
      AllFound(unit, if IsUnit(unit, exact) then Some(UnitPath(UnitCount(d.root, i - 1, exact) + 1)) else None,
               UnitPosition(d, i - 1), r, last);
    }
  }

  lemma ParserFinds(d: Document, includeSkipped: bool)
    requires WellWritten(d.root) && !UnitLost(d)
    ensures XmlSpanMap(d, includeSkipped).Keys == ParserSpans(d, Own(d, includeSkipped)).Keys
  {
    hide Numbered, UnitSpans, Bytes;
    var r := Found(d, includeSkipped);
    assert r.(found := false) == Own(d, includeSkipped);
    if d.root.form.close != "" || '>' in d.epilog {
      var last := BracketAfter(d);
      AllFound(d.root, Some(UnitPath(1)), |d.prolog|, r, last);
      UnitsFound(d, |d.root.children|, false, r, last);
    } else {
      NoChildrenNoUnits(d, r);
      NoChildrenNoUnits(d, Own(d, includeSkipped));
    }
  }

  lemma NoChildrenNoUnits(d: Document, r: Reading)
    ensures d.root.children == [] ==> UnitSpans(d, |d.root.children|, false, r) == map[]
  {
  }

  // The parser finds nothing in a lost unit, and the traversal the unit.
  lemma NothingFound(d: Document, includeSkipped: bool)
    requires WellWritten(d.root) && UnitLost(d)
    ensures XmlSpanMap(d, includeSkipped) == map[] && TreeSpanMap(d, includeSkipped).Keys == {UnitPath(1)}
    ensures PathsAgree(d.root)
  {
    hide Source;
    EndTagEnds(d.root, |d.prolog|);
    var from := EndPosition(d.root, |d.prolog|);
    assert forall k | from <= k < |Bytes(d)| :: Bytes(d)[k] == d.epilog[k - from];
    assert NumberedChildren(d.root, 0, UnitPath(1), |d.prolog|, Found(d, includeSkipped)) == map[];
    assert NumberedChildren(d.root, 0, UnitPath(1), |d.prolog|, Own(d, includeSkipped)) == map[];
  }

  // -- Parser and traversal --

  // The parser and the traversal produce the same set of paths exactly for
  // these documents.
  lemma PathSetsAgreeIff(d: Document, includeSkipped: bool)
    requires WellWritten(d.root)
    ensures XmlSpanMap(d, includeSkipped).Keys == TreeSpanMap(d, includeSkipped).Keys <==>
      PathsAgree(d.root) && !UnitLost(d)
  {
    hide Numbered, UnitSpans, Bytes, ParserSpans, TraversalSpans;
    if UnitLost(d) {
      NothingFound(d, includeSkipped);
    } else {
      ParserFinds(d, includeSkipped);
      OwnPathsAgreeIff(d, Own(d, includeSkipped));
    }
  }

  lemma OwnPathsAgreeIff(d: Document, r: Reading)
    requires !r.found
    ensures ParserSpans(d, r).Keys == TraversalSpans(d, r).Keys <==> PathsAgree(d.root)
  {
    hide Numbered, UnitSpans, RootSpans, UnitSizes;
    var n := |d.root.children|;
    UnitsCounted(d.root, n, true);
    UnitsCounted(d.root, n, false);
    if IsFileUnit(d.root) {
      FileUnitPaths(d, r);
    } else {
      ArchivePaths(d, r);
    }
  }

  lemma FileUnitPaths(d: Document, r: Reading)
    requires !r.found && IsFileUnit(d.root)
    ensures ParserSpans(d, r).Keys == TraversalSpans(d, r).Keys <==> UnitCount(d.root, |d.root.children|, true) == 0
  {
    hide Numbered, UnitSpans, NumberedChildren;
    var n := |d.root.children|;
    var xml, tree := ParserSpans(d, r), TraversalSpans(d, r);
    if UnitCount(d.root, n, true) > 0 {
      NumberedSize(d.root, UnitPath(1), |d.prolog|, r);
      OwnUnits(d, n, true, r);
      UnitsAreFewer(d.root, n, r.includeSkipped);
      assert |xml.Keys| > |tree.Keys|;
    }
  }

  lemma ArchivePaths(d: Document, r: Reading)
    requires !r.found && !IsFileUnit(d.root)
    ensures var numbered :=
      if PrefixedName(d.root.tag) == UNIT_NAME then UnitCount(d.root, |d.root.children|, false) else 0;
            ParserSpans(d, r).Keys == TraversalSpans(d, r).Keys <==>
              UnitCount(d.root, |d.root.children|, true) == numbered
  {
    hide UnitSpans;
    var n := |d.root.children|;
    var xml, tree := ParserSpans(d, r), TraversalSpans(d, r);
    var exact, spelled := UnitCount(d.root, n, true), UnitCount(d.root, n, false);
    UnitsCounted(d.root, n, true);
    UnitPathsBounded(d, n, true, r);
    OwnUnits(d, n, true, r);
    OwnUnits(d, n, false, r);
    NoUnitsNoSpans(d, n, r);
    if PrefixedName(d.root.tag) == UNIT_NAME {
      if exact == spelled {
        SameUnitsSameSpans(d, n, r);
      } else {
        assert UnitPath(spelled) in xml && UnitPath(spelled) !in tree;
      }
    } else if exact > 0 {
      assert UnitPath(1) in tree && UnitPath(1) !in xml;
    }
  }

  // Under PathsAgree both name the same units, however their spans are read.
  lemma SameUnits(d: Document, r: Reading)
    requires PathsAgree(d.root)
    ensures ParserSpans(d, r) == TraversalSpans(d, r)
  {
    hide Numbered, UnitSpans, RootSpans;
    var n := |d.root.children|;
    UnitsCounted(d.root, n, true);
    UnitsCounted(d.root, n, false);
    NoUnitsNoSpans(d, n, r);
    if PrefixedName(d.root.tag) == UNIT_NAME && !IsFileUnit(d.root) {
      SameUnitsSameSpans(d, n, r);
    }
  }

  // -- validate_xml_span_index --

  predicate InOrder(span: SourceSpan) {
    span.startLine < span.endLine || (span.startLine == span.endLine && span.startCol <= span.endCol)
  }

  ghost predicate AllInOrder(spans: SpanMap) {
    forall p | p in spans :: InOrder(spans[p])
  }

  lemma FoundInOrder(e: Element, position: nat, doc: string)
    requires position <= |doc|
    ensures FoundSpan(e, position, doc).Some? ==> InOrder(FoundSpan(e, position, doc).value)
  {
    hide OffsetToLineCol, AllLineStarts;
    var close := FindClose(doc, EndPosition(e, position));
    if close.Some? && position < close.value {
      LineColMonotone(doc, position, close.value);
    }
  }

  lemma {:induction false} NumberedInOrder(e: Element, path: Option<Path>, position: nat, r: Reading)
    requires r.found && TextAt(r.doc, position, Source(e))
    ensures AllInOrder(Numbered(e, path, position, r))
    decreases e, |e.children| + 1
  {
    hide Source, FoundSpan, InOrder;
    FoundInOrder(e, position, r.doc);
    if path.Some? {
      ChildrenInOrder(e, |e.children|, path.value, position, r);
    }
  }

  lemma {:induction false} ChildrenInOrder(e: Element, i: nat, path: Path, position: nat, r: Reading)
    requires r.found && TextAt(r.doc, position, Source(e)) && i <= |e.children|
    ensures AllInOrder(NumberedChildren(e, i, path, position, r))
    decreases e, i
  {
    hide Source, Numbered, ChildPosition, InOrder;
    if i == 0 {
    } else {
      ChildrenInOrder(e, i - 1, path, position, r);
      ChildWritten(r.doc, e, i - 1, position);
      NumberedInOrder(e.children[i - 1], ChildPath(e, i - 1, path, r), ChildPosition(e, i - 1, position), r);
    }
  }

  lemma {:induction false} UnitsInOrder(d: Document, i: nat, exact: bool, r: Reading)
    requires r.found && r.doc == Bytes(d) && i <= |d.root.children|
    ensures AllInOrder(UnitSpans(d, i, exact, r))
  {
    hide Source, Numbered, ChildPosition, InOrder, Bytes;
    if i == 0 {
    } else {
      UnitsInOrder(d, i - 1, exact, r);
      RootWritten(d);
      ChildWritten(r.doc, d.root, i - 1, |d.prolog|);
      var unit := d.root.children[i - 1];
      NumberedInOrder(unit, if IsUnit(unit, exact) then Some(UnitPath(UnitCount(d.root, i - 1, exact) + 1)) else None,
                      UnitPosition(d, i - 1), r);
    }
  }

  ghost predicate StartAtUnits(spans: SpanMap) {
    forall p: Path | p in spans :: p != [] && p[0].name == UNIT_NAME
  }

  lemma PathsStartAtUnits(d: Document, includeSkipped: bool)
    ensures StartAtUnits(XmlSpanMap(d, includeSkipped))
  {
    hide Numbered, UnitSpans, Bytes, AllBelow;
    var r := Found(d, includeSkipped);
    NumberedBelow(d.root, UnitPath(1), |d.prolog|, r);
    StartsWith(RootSpans(d, r), Step(UNIT_NAME, 1));
    UnitPathsBounded(d, |d.root.children|, false, r);
  }

  // The validation passes if every path starts at a unit, every span is in
  // order and, when there is no span, there is no file unit either.
  ghost predicate Validates(d: Document, includeSkipped: bool) {
    var spans := XmlSpanMap(d, includeSkipped);
    StartAtUnits(spans) && AllInOrder(spans) && (spans == map[] ==> TreeSpanMap(d, includeSkipped) == map[])
  }

  // It fails only for a lost unit, and for units below a root of another name.
  lemma ValidatesIff(d: Document, includeSkipped: bool)
    requires WellWritten(d.root)
    ensures Validates(d, includeSkipped) <==>
      !UnitLost(d) && (PrefixedName(d.root.tag) == UNIT_NAME || forall i | 0 <= i < |d.root.children| ::
        d.root.children[i].tag != SRC_UNIT)
  {
    hide Numbered, UnitSpans, Bytes, RootSpans, AllInOrder, StartAtUnits;
    SpansInOrder(d, includeSkipped);
    PathsStartAtUnits(d, includeSkipped);
    if UnitLost(d) {
      NothingFound(d, includeSkipped);
    } else {
      ParserFinds(d, includeSkipped);
      NothingReadIff(d, Own(d, includeSkipped));
    }
  }

  lemma SpansInOrder(d: Document, includeSkipped: bool)
    ensures AllInOrder(XmlSpanMap(d, includeSkipped))
  {
    hide Numbered, UnitSpans, Bytes, Source;
    RootWritten(d);
    NumberedInOrder(d.root, Some(UnitPath(1)), |d.prolog|, Found(d, includeSkipped));
    UnitsInOrder(d, |d.root.children|, false, Found(d, includeSkipped));
  }

  lemma NothingReadIff(d: Document, r: Reading)
    requires !r.found
    ensures (ParserSpans(d, r) == map[] && TraversalSpans(d, r) != map[]) <==>
      PrefixedName(d.root.tag) != UNIT_NAME && exists i ::
        0 <= i < |d.root.children| && d.root.children[i].tag == SRC_UNIT
  {
    hide UnitSpans, NumberedChildren;
    var n := |d.root.children|;
    UnitsCounted(d.root, n, true);
    OwnUnits(d, n, true, r);
    OwnUnits(d, n, false, r);
    NoUnitsNoSpans(d, n, r);
    assert IsFileUnit(d.root) ==> UnitPath(1) in RootSpans(d, r);
    assert UnitCount(d.root, n, true) > 0 ==> UnitPath(1) in UnitSpans(d, n, true, r);
    assert UnitCount(d.root, n, false) > 0 ==> UnitPath(1) in UnitSpans(d, n, false, r);
  }

  // -- Documents on which they disagree --

  // A file unit with a unit child: the parser numbers the whole file, the
  // traversal only the child.
  const INNER_UNIT := Element(SRC_UNIT, "", "", [], "", None, [], Form("<unit>", "", "</unit>", ""))
  const NESTED_UNITS :=
    Element(SRC_UNIT, "f", "", [INNER_UNIT], "", None, [], Form("<unit filename=\"f\">", "", "</unit>", ""))

  lemma NestedUnitsDisagree(includeSkipped: bool)
    ensures var d := Document("", NESTED_UNITS, "");
      && XmlSpanMap(d, includeSkipped).Keys != TreeSpanMap(d, includeSkipped).Keys
      && UnitPath(1) + UnitPath(1) in XmlSpanMap(d, includeSkipped)
      && TreeSpanMap(d, includeSkipped).Keys == {UnitPath(1)}
  {
    hide Bytes, Source, OwnSpanAt;
    var d := Document("", NESTED_UNITS, "");
    assert d.root.children[0] == INNER_UNIT && WellWritten(INNER_UNIT);
    PathSetsAgreeIff(d, includeSkipped);
    ParserFinds(d, includeSkipped);
    InnerNumbered(d, Own(d, includeSkipped));
  }

  lemma InnerNumbered(d: Document, r: Reading)
    requires d == Document("", NESTED_UNITS, "") && !r.found
    ensures UnitPath(1) + UnitPath(1) in ParserSpans(d, r) && TraversalSpans(d, r).Keys == {UnitPath(1)}
  {
    hide Source, OwnSpanAt, ChildPosition;
    assert d.root.children[0] == INNER_UNIT;
    assert NumberedChildren(INNER_UNIT, 0, UnitPath(1), UnitPosition(d, 0), r) == map[];
    assert UnitCount(d.root, 0, true) == 0 && UnitSpans(d, 0, true, r) == map[];
    assert UnitSpans(d, 1, true, r) == UnitSpan(d, 0, true, r);
    assert ChildPath(d.root, 0, UnitPath(1), r) == Some(UnitPath(1) + UnitPath(1));
    assert UnitPath(1) + UnitPath(1) in NumberedChildren(d.root, 1, UnitPath(1), 0, r);
  }

  // An archive with a unit of another vocabulary: only the parser takes it for a unit.
  const OTHER_UNIT :=
    Element(Tag(Other("urn:other"), "unit"), "", "", [], "", None, [], Form("<x:unit>", "", "</x:unit>", ""))
  const FOREIGN_UNIT := Element(SRC_UNIT, "", "", [OTHER_UNIT], "", None, [], Form("<unit>", "", "</unit>", ""))

  lemma ForeignUnitDisagrees(includeSkipped: bool)
    ensures var d := Document("", FOREIGN_UNIT, "");
      && XmlSpanMap(d, includeSkipped).Keys != TreeSpanMap(d, includeSkipped).Keys
      && UnitPath(1) in XmlSpanMap(d, includeSkipped) && TreeSpanMap(d, includeSkipped) == map[]
  {
    hide Bytes, Source, OwnSpanAt;
    var d := Document("", FOREIGN_UNIT, "");
    assert d.root.children[0] == OTHER_UNIT && WellWritten(OTHER_UNIT);
    PathSetsAgreeIff(d, includeSkipped);
    ParserFinds(d, includeSkipped);
    OwnUnits(d, 1, false, Own(d, includeSkipped));
    assert UnitCount(d.root, 0, false) == 0 && UnitCount(d.root, 0, true) == 0;
    assert UnitCount(d.root, 1, false) == 1 && UnitCount(d.root, 1, true) == 0;
  }

  // A file unit written as an empty-element tag: the parser has no path at all.
  const EMPTY_UNIT := Element(SRC_UNIT, "f", "", [], "", None, [], Form("<unit filename=\"f\"/>", "", "", ""))

  lemma EmptyUnitDisagrees(includeSkipped: bool)
    ensures var d := Document("", EMPTY_UNIT, "\n");
      && PathsAgree(d.root)
      && XmlSpanMap(d, includeSkipped) == map[] && TreeSpanMap(d, includeSkipped).Keys == {UnitPath(1)}
  {
    NothingFound(Document("", EMPTY_UNIT, "\n"), includeSkipped);
  }
}
