// Annotated XML as an element tree, and the positional numbering of its nodes.
module XmlElements {
  import opened Prelude

  datatype Namespace = Src | Diff | Mv | Pos | Other(uri: string) | NoNamespace

  datatype Tag = Tag(ns: Namespace, local: string)

  // The spelling of a tag in paths: only diff, mv and pos keep a prefix.
  datatype Prefix = Bare | DiffPrefix | MvPrefix | PosPrefix

  datatype Name = Name(prefix: Prefix, local: string)

  datatype Revision = Rev0 | Rev1

  // Markup is never empty.
  type Tagged = s: string | |s| > 0 witness "<a>"

  // How an element is written, in bytes: its start tag or empty-element tag, what
  // stands before its first child, its end tag if it has one, and what stands
  // between it and its next sibling or its parent's end tag.
  datatype Form = Form(open: Tagged, lead: string, close: string, trail: string)

  // `filename` is "" when the attribute is absent or empty; so is a missing
  // text or tail. `positions` are the parsed position spans, none if [].
  datatype Element = Element(
    tag: Tag, filename: string, text: string, children: seq<Element>, tail: string,
    moveId: Option<string>, positions: seq<SourceSpan>, form: Form)

  datatype Step = Step(name: Name, index: nat)

  type Path = seq<Step>

  const SRC_UNIT := Tag(Src, "unit")
  const UNIT_NAME := Name(Bare, "unit")
  const WHITESPACE_NAME := Name(DiffPrefix, "ws")

  function PrefixedName(tag: Tag): Name {
    Name(match tag.ns case Diff => DiffPrefix case Mv => MvPrefix case Pos => PosPrefix case _ => Bare, tag.local)
  }

  predicate Skipped(e: Element, includeSkipped: bool) {
    !includeSkipped && e.tag == Tag(Diff, "ws")
  }

  // The expat handler skips by spelling, the tree walkers by qualified tag.
  lemma SkippedBySpelling(e: Element, includeSkipped: bool)
    ensures Skipped(e, includeSkipped) <==> !includeSkipped && PrefixedName(e.tag) == WHITESPACE_NAME
  {
  }

  // How many of the first i children are numbered under this name.
  function CountBefore(children: seq<Element>, i: nat, name: Name, includeSkipped: bool): nat
    requires i <= |children|
  {
    if i == 0 then 0
    else
      CountBefore(children, i - 1, name, includeSkipped)
      + if !Skipped(children[i - 1], includeSkipped) && PrefixedName(children[i - 1].tag) == name then 1 else 0
  }

  function ChildStep(children: seq<Element>, i: nat, includeSkipped: bool): Step
    requires i < |children|
  {
    var name := PrefixedName(children[i].tag);
    Step(name, CountBefore(children, i, name, includeSkipped) + 1)
  }

  function UnitPath(number: nat): Path {
    [Step(UNIT_NAME, number)]
  }

  lemma {:induction false} CountGrows(children: seq<Element>, i: nat, j: nat, name: Name, includeSkipped: bool)
    requires i <= j <= |children|
    ensures CountBefore(children, i, name, includeSkipped) <= CountBefore(children, j, name, includeSkipped)
    decreases j
  {
    if i == j {
    } else {
      CountGrows(children, i, j - 1, name, includeSkipped);
    }
  }

  // Siblings that are numbered at all are numbered apart.
  lemma ChildStepsDiffer(children: seq<Element>, i: nat, j: nat, includeSkipped: bool)
    requires i < j < |children|
    requires !Skipped(children[i], includeSkipped) && !Skipped(children[j], includeSkipped)
    ensures ChildStep(children, i, includeSkipped) != ChildStep(children, j, includeSkipped)
  {
    var name := PrefixedName(children[i].tag);
    if PrefixedName(children[j].tag) == name {
      CountGrows(children, i + 1, j, name, includeSkipped);
    }
  }

  // The running dictionary of the numbering loops after i children.
  ghost predicate CountsUpTo(counts: map<Name, nat>, children: seq<Element>, i: nat, includeSkipped: bool)
    requires i <= |children|
  {
    forall name :: (if name in counts then counts[name] else 0) == CountBefore(children, i, name, includeSkipped)
  }

  lemma NothingCounted(children: seq<Element>, includeSkipped: bool)
    ensures CountsUpTo(map[], children, 0, includeSkipped)
  {
  }

  function Bump(counts: map<Name, nat>, name: Name): map<Name, nat> {
    counts[name := (if name in counts then counts[name] else 0) + 1]
  }

  lemma BumpCounts(counts: map<Name, nat>, children: seq<Element>, i: nat, includeSkipped: bool)
    requires i < |children| && CountsUpTo(counts, children, i, includeSkipped)
    ensures Skipped(children[i], includeSkipped) ==> CountsUpTo(counts, children, i + 1, includeSkipped)
    ensures !Skipped(children[i], includeSkipped) ==>
      var name := PrefixedName(children[i].tag);
      && CountsUpTo(Bump(counts, name), children, i + 1, includeSkipped)
      && Step(name, Bump(counts, name)[name]) == ChildStep(children, i, includeSkipped)
  {
    forall name
      ensures CountBefore(children, i + 1, name, includeSkipped) == CountBefore(children, i, name, includeSkipped)
        + if !Skipped(children[i], includeSkipped) && PrefixedName(children[i].tag) == name then 1 else 0
    {
    }
  }
}
