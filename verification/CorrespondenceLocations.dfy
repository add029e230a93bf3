// Locating diagnostic candidates in the final sources: a candidate is shown
// only when its coordinates provably delimit its recorded text.
module CorrespondenceLocations {
  import opened Prelude
  import opened XmlElements
  import opened SourceText
  import opened SourceRanges
  import opened SourceRenderer
  import opened LineColumns

  // The element an XPath matched: its unit (from 0) and its path below it.
  datatype Match = Match(unit: nat, below: Path)

  // `matches` is what evaluating the candidate's XPath found.
  datatype Candidate = Candidate(id: nat, deleteSide: bool, matches: seq<Match>, rawText: string)

  datatype Location = Unresolved | Unverified | Located(unitId: nat, span: SourceSpan)

  function SideRevision(candidate: Candidate): Revision {
    if candidate.deleteSide then Rev0 else Rev1
  }

  function RenderedSource(unit: Element, unitId: nat, rev: Revision): Output {
    Rendered(Output("", map[]), unit, UnitPath(unitId), rev, true, true)
  }

  function BothSources(unit: Element, unitId: nat): (Output, Output) {
    (RenderedSource(unit, unitId, Rev0), RenderedSource(unit, unitId, Rev1))
  }

  // Annotation left the revision's source of this unit as it was.
  predicate SameSource(units: seq<Element>, finalUnits: seq<Element>, unit: nat, rev: Revision)
    requires unit < |units| && unit < |finalUnits|
  {
    RenderedSource(units[unit], unit + 1, rev).source == RenderedSource(finalUnits[unit], unit + 1, rev).source
  }

  function SameSources(units: seq<Element>, finalUnits: seq<Element>, unit: nat): (bool, bool)
    requires unit < |units| && unit < |finalUnits|
  {
    (SameSource(units, finalUnits, unit, Rev0), SameSource(units, finalUnits, unit, Rev1))
  }

  // text[start:end] with clamped bounds.
  function Slice(text: string, start: int, end: int): string {
    var s, e := Max(0, Min(start, |text|)), Max(0, Min(end, |text|));
    if s <= e then text[s..e] else ""
  }

  function Locate(units: seq<Element>, finalUnits: seq<Element>, candidate: Candidate): Location {
    if |candidate.matches| != 1 || candidate.matches[0].unit >= |units| then Unresolved
    else
      var unit, below := candidate.matches[0].unit, candidate.matches[0].below;
      var rev := SideRevision(candidate);
      if Resolve(units[unit], rev, true, true, below).None? then Unresolved
      else
        var rendered := RenderedSource(units[unit], unit + 1, rev);
        var path := UnitPath(unit + 1) + below;
        if path !in rendered.ranges || unit >= |finalUnits| || !SameSource(units, finalUnits, unit, rev) then Unverified
        else
          var span := OffsetRangeToSpan(rendered.ranges[path].0, rendered.ranges[path].1,
              AllLineStarts(rendered.source));
          var text := rendered.source;
          if Slice(text, StartFromSpan(text, span), EndFromSpan(text, span)) == candidate.rawText
          then Located(unit + 1, span) else Unverified
  }

  // Later candidates with the same id replace earlier ones.
  function Locations(units: seq<Element>, finalUnits: seq<Element>, candidates: seq<Candidate>): map<nat, Location> {
    if candidates == [] then map[]
    else
      var last := candidates[|candidates| - 1];
      Locations(units, finalUnits, candidates[..|candidates| - 1])[last.id := Locate(units, finalUnits, last)]
  }

  method AddCorrespondenceLocations(units: seq<Element>, finalUnits: seq<Element>, candidates: seq<Candidate>)
    returns (locations: map<nat, Location>)
    ensures locations == Locations(units, finalUnits, candidates)
  {
    var before, kept := RenderUnits(units, finalUnits);
    locations := map[];
    for c := 0 to |candidates|
      invariant locations == Locations(units, finalUnits, candidates[..c])
    {
      var candidate := candidates[c];
      var location := LocateOne(units, finalUnits, before, kept, candidate);
      assert candidates[..c + 1][..c] == candidates[..c];
      locations := locations[candidate.id := location];
    }
    assert candidates[..|candidates|] == candidates;
  }

  // Every original unit in both revisions, and whether the final unit at the
  // same position reads the same.
  method RenderUnits(units: seq<Element>, finalUnits: seq<Element>)
    returns (before: seq<(Output, Output)>, kept: seq<(bool, bool)>)
    ensures |before| == |units| && |kept| == Min(|units|, |finalUnits|)
    ensures forall u | 0 <= u < |units| :: before[u] == BothSources(units[u], u + 1)
    ensures forall u | 0 <= u < |kept| :: kept[u] == SameSources(units, finalUnits, u)
  {
    hide RenderedSource;
    before, kept := [], [];
    for unit := 0 to |units|
      invariant |before| == unit && |kept| == Min(unit, |finalUnits|)
      invariant forall u | 0 <= u < unit :: before[u] == BothSources(units[u], u + 1)
      invariant forall u | 0 <= u < |kept| :: kept[u] == SameSources(units, finalUnits, u)
    {
      var sources := RenderUnit(units[unit], unit + 1);
      before := before + [sources];
      if unit < |finalUnits| {
        var same := CompareUnit(units, finalUnits, unit, sources);
        kept := kept + [same];
      }
    }
  }

  method RenderUnit(unit: Element, unitId: nat) returns (sources: (Output, Output))
    ensures sources == BothSources(unit, unitId)
  {
    var rendering := new UnitRendering();
    rendering.RenderElement(unit, UnitPath(unitId), true, {Rev0, Rev1});
    return (Output(Join(rendering.chunks0), rendering.ranges0), Output(Join(rendering.chunks1), rendering.ranges1));
  }

  method CompareUnit(units: seq<Element>, finalUnits: seq<Element>, unit: nat, sources: (Output, Output))
    returns (same: (bool, bool))
    requires unit < |units| && unit < |finalUnits| && sources == BothSources(units[unit], unit + 1)
    ensures same == SameSources(units, finalUnits, unit)
  {
    var after := RenderUnit(finalUnits[unit], unit + 1);
    return (sources.0.source == after.0.source, sources.1.source == after.1.source);
  }

  method LocateOne(
      units: seq<Element>, finalUnits: seq<Element>, before: seq<(Output, Output)>, kept: seq<(bool, bool)>,
          candidate: Candidate)
    returns (location: Location)
    requires |before| == |units| && |kept| == Min(|units|, |finalUnits|)
    requires forall u | 0 <= u < |units| :: before[u] == BothSources(units[u], u + 1)
    requires forall u | 0 <= u < |kept| :: kept[u] == SameSources(units, finalUnits, u)
    ensures location == Locate(units, finalUnits, candidate)
  {
    hide Rendered, Resolve, OffsetRangeToSpan, StartFromSpan, EndFromSpan, Slice;
    if |candidate.matches| != 1 || candidate.matches[0].unit >= |units| {
      return Unresolved;
    }
    var unit, below := candidate.matches[0].unit, candidate.matches[0].below;
    var rev := SideRevision(candidate);
    if Resolve(units[unit], rev, true, true, below).None? {
      return Unresolved;
    }
    var source := if rev == Rev0 then before[unit].0 else before[unit].1;
    var path := UnitPath(unit + 1) + below;
    if path in source.ranges && unit < |kept| && (if rev == Rev0 then kept[unit].0 else kept[unit].1) {
      var starts := ComputeLineStarts(source.source);
      var span := OffsetRangeToSpan(source.ranges[path].0, source.ranges[path].1, starts);
      if Slice(source.source, StartFromSpan(source.source, span), EndFromSpan(source.source, span))
          == candidate.rawText {
        return Located(unit + 1, span);
      }
    }
    return Unverified;
  }

  // The element a path names is rendered in the revision with exactly this text.
  ghost predicate HasText(unit: Element, rev: Revision, below: Path, rawText: string) {
    && Visible(unit, rev, true, true, below)
    && var place := Resolve(unit, rev, true, true, below).value;
       Text(place.element, rev, place.parentActive, true) == rawText
  }

  // A candidate's one match has exactly the recorded text, and the final
  // source there is the same.
  ghost predicate Verifiable(units: seq<Element>, finalUnits: seq<Element>, candidate: Candidate) {
    && |candidate.matches| == 1
    && var unit := candidate.matches[0].unit;
       && unit < |units| && unit < |finalUnits|
       && SameSource(units, finalUnits, unit, SideRevision(candidate))
       && HasText(units[unit], SideRevision(candidate), candidate.matches[0].below, candidate.rawText)
  }

  // No line break other than a newline upsets the lines before the end of the range recorded for a path.
  ghost predicate UnbrokenBefore(unit: Element, unitId: nat, rev: Revision, below: Path) {
    var rendered := RenderedSource(unit, unitId, rev);
    var path := UnitPath(unitId) + below;
    path in rendered.ranges ==> NewlinesOnlyBefore(rendered.source, rendered.ranges[path].1)
  }

  // Where newlines are the only effective line breaks up to its end, a
  // candidate is located exactly when it is verifiable.
  lemma LocatedIffVerifiable(units: seq<Element>, finalUnits: seq<Element>, candidate: Candidate)
    requires |candidate.matches| == 1 && candidate.matches[0].unit < |units| ==>
      var match0 := candidate.matches[0];
      UnbrokenBefore(units[match0.unit], match0.unit + 1, SideRevision(candidate), match0.below)
    ensures Locate(units, finalUnits, candidate).Located? <==> Verifiable(units, finalUnits, candidate)
  {
    hide Rendered, UnbrokenBefore;
    if |candidate.matches| == 1 && candidate.matches[0].unit < |units| {
      var unit, below, rev := candidate.matches[0].unit, candidate.matches[0].below, SideRevision(candidate);
      if Resolve(units[unit], rev, true, true, below).Some? {
        SpanOfElement(units[unit], unit + 1, rev, below);
      }
    }
  }

  // The recorded range of a visible element, its span, and the text they delimit.
  lemma SpanOfElement(unit: Element, unitId: nat, rev: Revision, below: Path)
    requires Resolve(unit, rev, true, true, below).Some? && UnbrokenBefore(unit, unitId, rev, below)
    ensures var rendered := RenderedSource(unit, unitId, rev);
            var path := UnitPath(unitId) + below;
            && (path in rendered.ranges <==> Visible(unit, rev, true, true, below))
            && (path in rendered.ranges ==>
                  var span := OffsetRangeToSpan(rendered.ranges[path].0, rendered.ranges[path].1,
                      AllLineStarts(rendered.source));
                  var place := Resolve(unit, rev, true, true, below).value;
                  Slice(rendered.source, StartFromSpan(rendered.source, span), EndFromSpan(rendered.source, span))
                  == Text(place.element, rev, place.parentActive, true))
  {
    hide Rendered;
    RangeOfElement(unit, unitId, rev, below);
    var rendered := RenderedSource(unit, unitId, rev);
    var path := UnitPath(unitId) + below;
    if path in rendered.ranges {
      var (start, end) := rendered.ranges[path];
      RoundTripsIff(rendered.source, start, end);
    }
  }

  // Exactly the visible elements have ranges, and these delimit their text.
  lemma RangeOfElement(unit: Element, unitId: nat, rev: Revision, below: Path)
    requires Resolve(unit, rev, true, true, below).Some?
    ensures var rendered := RenderedSource(unit, unitId, rev);
            var path := UnitPath(unitId) + below;
            && (path in rendered.ranges <==> Visible(unit, rev, true, true, below))
            && (path in rendered.ranges ==>
                  var (start, end) := rendered.ranges[path];
                  var place := Resolve(unit, rev, true, true, below).value;
                  start < end <= |rendered.source|
                      && rendered.source[start..end] == Text(place.element, rev, place.parentActive, true))
  {
    hide Rendered;
    var rendered := RenderedSource(unit, unitId, rev);
    var path := UnitPath(unitId) + below;
    RenderedFromEmpty(unit, UnitPath(unitId), rev, true);
    if path in rendered.ranges {
      var (start, end) := rendered.ranges[path];
      assert Faithful(Range(path, start, end), rendered.source, unit, UnitPath(unitId), rev, true, true);
      assert path[|UnitPath(unitId)|..] == below;
    }
  }

  lemma SourceIsText(unit: Element, unitId: nat, rev: Revision)
    ensures RenderedSource(unit, unitId, rev).source == Text(unit, rev, true, true)
  {
    assert "" + Text(unit, rev, true, true) == Text(unit, rev, true, true);
  }

  // -- A verifiable candidate that is not located --

  const NAMED := Element(Tag(Src, "name"), "", "c", [], "", None, [], Form("<name>", "c", "</name>", ""))
  const SEPARATED := Element(SRC_UNIT, "f", "a\U{2028}b\n", [NAMED], "", None, [],
                            Form("<unit filename=\"f\">", "a\U{e2}\U{80}\U{a8}b\n", "</unit>", ""))
  const SEPARATED_TEXT := "a\U{2028}b\nc"
  const NAME_PATH := [Step(Name(Bare, "name"), 1)]
  const UNLOCATED := Candidate(1, true, [Match(0, NAME_PATH)], "c")

  lemma NameResolves()
    ensures Resolve(SEPARATED, Rev0, true, true, NAME_PATH) == Some(Place(NAMED, true))
    ensures Text(NAMED, Rev0, true, true) == "c" && Visible(SEPARATED, Rev0, true, true, NAME_PATH)
  {
    var children := SEPARATED.children;
    assert children[0] == NAMED && ChildStep(children, 0, true) == NAME_PATH[0];
    FindChildAt(children, 1, 0, true);
    assert NAME_PATH[1..] == [];
    assert ChildrenText(NAMED, 0, Rev0, true, true) == "";
  }

  lemma SeparatedText()
    ensures Text(SEPARATED, Rev0, true, true) == SEPARATED_TEXT
  {
    NameResolves();
    assert ChildrenText(SEPARATED, 0, Rev0, true, true) == "";
    assert ChildrenText(SEPARATED, 1, Rev0, true, true) == "c";
  }

  // The position of the last character, and the offset it is taken for.
  lemma LastIsMistaken()
    ensures OffsetRangeToSpan(4, 5, AllLineStarts(SEPARATED_TEXT)) == SourceSpan(2, 1, 2, 1)
    ensures StartFromSpan(SEPARATED_TEXT, SourceSpan(2, 1, 2, 1)) == 2
          && EndFromSpan(SEPARATED_TEXT, SourceSpan(2, 1, 2, 1)) == 3
  {
    var text := SEPARATED_TEXT;
    OneNewline();
    LineColExact(text, 4);
    SumIsBoundary(text, 0, 1);
    assert LineEnd(text, 0) == LineEnd(text, 1) == 2;
    assert Boundary(text, 0, 1) == Boundary(text, 2, 0) == 2;
  }

  lemma OneNewline()
    ensures CountNewlines(SEPARATED_TEXT[..4]) == 1
  {
    var text := SEPARATED_TEXT;
    assert text[..1][..0] == "" && text[..2][..1] == text[..1] && text[..3][..2] == text[..2]
        && text[..4][..3] == text[..3];
    assert CountNewlines(text[..1]) == 0;
    assert CountNewlines(text[..2]) == 0;
    assert CountNewlines(text[..3]) == 0;
  }

  lemma NameRange()
    ensures var rendered, path := RenderedSource(SEPARATED, 1, Rev0), UnitPath(1) + NAME_PATH;
            rendered.source == SEPARATED_TEXT && path in rendered.ranges && rendered.ranges[path] == (4, 5)
  {
    hide Rendered, Text, Resolve, RenderedSource;
    NameResolves();
    SeparatedText();
    RangeOfElement(SEPARATED, 1, Rev0, NAME_PATH);
    SourceIsText(SEPARATED, 1, Rev0);
    var rendered := RenderedSource(SEPARATED, 1, Rev0);
    var (start, end) := rendered.ranges[UnitPath(1) + NAME_PATH];
    OnlyAtTheEnd(start, end);
  }

  lemma OnlyAtTheEnd(start: nat, end: nat)
    requires start < end <= |SEPARATED_TEXT| && SEPARATED_TEXT[start..end] == "c"
    ensures start == 4 && end == 5
  {
    assert SEPARATED_TEXT[start..end][0] == SEPARATED_TEXT[start];
    assert |SEPARATED_TEXT[start..end]| == 1;
  }

  // A line separator before an identifier hides it: the unique match has the
  // recorded text in an unchanged source, but another character is compared.
  lemma LineSeparatorHidesCandidate()
    ensures Verifiable([SEPARATED], [SEPARATED], UNLOCATED)
    ensures Locate([SEPARATED], [SEPARATED], UNLOCATED) == Unverified
  {
    hide RenderedSource, Text, Resolve, OffsetRangeToSpan, StartFromSpan, EndFromSpan;
    NameResolves();
    NameRange();
    LastIsMistaken();
    assert [SEPARATED][0] == SEPARATED;
    assert Slice(SEPARATED_TEXT, 2, 3) == "b";
  }
}
