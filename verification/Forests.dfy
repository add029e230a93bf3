// Forests over preorder ordinals: which node lies below which, and why walking
// child lists in order visits the members in ascending order.
module Forests {
  import opened Prelude

  // The parent of each ordinal, -1 for a root.
  type Parents = seq<int>

  // Every member's parent is an earlier member or -1, and no member between a
  // node and its parent hangs above that parent.
  ghost predicate Forest(parents: Parents, members: set<nat>) {
    && (forall o | o in members :: o < |parents| && -1 <= parents[o] < o && (parents[o] == -1 || parents[o] in members))
    && (forall j, k | j in members && k in members && parents[k] < j < k :: parents[j] >= parents[k])
  }

  lemma NothingAscends()
    ensures Ascending([])
  {
  }

  lemma AscendingCons(x: nat, s: seq<nat>)
    requires Ascending(s) && forall y | y in s :: x < y
    ensures Ascending([x] + s)
  {
    forall i, j | 0 <= i < j < |s| + 1
      ensures ([x] + s)[i] < ([x] + s)[j]
    {
      assert ([x] + s)[j] == s[j - 1] && s[j - 1] in s;
    }
  }

  // Ascending members from lo up to hi.
  function Between(members: set<nat>, lo: nat, hi: nat): seq<nat>
    decreases hi - lo
  {
    if lo >= hi then [] else (if lo in members then [lo] else []) + Between(members, lo + 1, hi)
  }

  // Ascending members from lo that hang directly below p.
  function Children(parents: Parents, members: set<nat>, p: int, lo: nat): seq<nat>
    decreases |parents| - lo
  {
    if lo >= |parents| then []
    else (if lo in members && parents[lo] == p then [lo] else []) + Children(parents, members, p, lo + 1)
  }

  lemma {:induction false} ChildrenShape(parents: Parents, members: set<nat>, p: int, lo: nat)
    ensures forall c :: c in Children(parents, members, p, lo) <==>
      lo <= c < |parents| && c in members && parents[c] == p
    ensures Ascending(Children(parents, members, p, lo))
    decreases |parents| - lo
  {
    hide Ascending;
    if |parents| <= lo {
      NothingAscends();
    } else {
      var rest := Children(parents, members, p, lo + 1);
      ChildrenShape(parents, members, p, lo + 1);
      if lo in members && parents[lo] == p {
        AscendingCons(lo, rest);
      } else {
        assert [] + rest == rest;
      }
    }
  }

  // What lies below p among its children from `lo` on, children in order.
  function Walk(parents: Parents, members: set<nat>, p: int, lo: nat): seq<nat>
    requires Forest(parents, members) && p < lo
    decreases |parents| - p, |parents| - lo
  {
    if lo >= |parents| then []
    else if lo in members && parents[lo] == p then
      [lo] + Walk(parents, members, lo, lo + 1) + Walk(parents, members, p, lo + 1)
    else Walk(parents, members, p, lo + 1)
  }

  // The first ordinal from k on that is a member hanging above p.
  function End(parents: Parents, members: set<nat>, p: int, k: nat): (end: nat)
    requires k <= |parents|
    ensures k <= end <= |parents|
    decreases |parents| - k
  {
    if k == |parents| || (k in members && parents[k] < p) then k else End(parents, members, p, k + 1)
  }

  lemma {:induction false} EndFound(parents: Parents, members: set<nat>, p: int, k: nat)
    requires k <= |parents|
    ensures var end := End(parents, members, p, k);
            && (forall o | k <= o < end && o in members :: parents[o] >= p)
            && (end < |parents| ==> end in members && parents[end] < p)
    decreases |parents| - k
  {
    if k == |parents| || (k in members && parents[k] < p) {
    } else {
      EndFound(parents, members, p, k + 1);
    }
  }

  // Nothing from `end`, the end of p, hangs below p or below anything in between.
  ghost predicate Closed(parents: Parents, members: set<nat>, p: int, end: nat)
    requires Forest(parents, members)
  {
    forall o | o in members && o >= end :: parents[o] < p || parents[o] >= end
  }

  lemma EndCloses(parents: Parents, members: set<nat>, p: nat)
    requires Forest(parents, members) && p < |parents|
    ensures Closed(parents, members, p, End(parents, members, p, p + 1))
  {
    hide Forest, End;
    MembersLink(parents, members);
    var end := End(parents, members, p, p + 1);
    EndFound(parents, members, p, p + 1);
    forall o | o in members && o >= end
      ensures parents[o] < p || parents[o] >= end
    {
      if parents[o] < end < o {
        NoCrossing(parents, members, end, o);
      }
    }
  }

  lemma MembersLink(parents: Parents, members: set<nat>)
    requires Forest(parents, members)
    ensures forall o | o in members :: o < |parents| && -1 <= parents[o] < o
  {
  }

  lemma NoCrossing(parents: Parents, members: set<nat>, j: nat, k: nat)
    requires Forest(parents, members) && j in members && k in members && parents[k] < j < k
    ensures parents[j] >= parents[k]
  {
  }

  // Members of [k, end) hang directly below p or below another of them.
  ghost predicate Boundary(parents: Parents, members: set<nat>, p: int, k: nat, end: nat)
    requires Forest(parents, members)
  {
    forall o | o in members && k <= o < end :: parents[o] == p || parents[o] >= k
  }

  // `end` is where the members below p end.
  ghost predicate EndsAt(parents: Parents, members: set<nat>, p: int, end: nat)
    requires Forest(parents, members)
  {
    && -1 <= p < end <= |parents|
    && Closed(parents, members, p, end)
    && (end < |parents| ==> end in members && parents[end] < p)
  }

  lemma {:induction false} WalkIsAscending(parents: Parents, members: set<nat>, p: int, k: nat, end: nat)
    requires Forest(parents, members) && p < k <= end
    requires EndsAt(parents, members, p, end) && Boundary(parents, members, p, k, end)
    ensures Walk(parents, members, p, k) == Between(members, k, end)
    decreases |parents| - p, |parents| - k
  {
    hide Forest;
    if k == end {
      NoMoreChildren(parents, members, p, k, |parents|);
    } else if k !in members {
      NextBoundary(parents, members, p, k, end);
      WalkIsAscending(parents, members, p, k + 1, end);
    } else {
      var inner := SubtreeEnds(parents, members, p, k, end);
      WalkIsAscending(parents, members, k, k + 1, inner);
      NoMoreChildren(parents, members, p, k + 1, inner);
      WalkIsAscending(parents, members, p, inner, end);
      BetweenSplits(members, k + 1, inner, end);
    }
  }

  lemma NextBoundary(parents: Parents, members: set<nat>, p: int, k: nat, end: nat)
    requires Forest(parents, members) && p < k < end && k !in members
    requires Boundary(parents, members, p, k, end)
    ensures Boundary(parents, members, p, k + 1, end)
  {
  }

  lemma SubtreeEnds(parents: Parents, members: set<nat>, p: int, k: nat, end: nat) returns (inner: nat)
    requires Forest(parents, members) && p < k < end && k in members
    requires EndsAt(parents, members, p, end) && Boundary(parents, members, p, k, end)
    ensures k < inner <= end && parents[k] == p
    ensures EndsAt(parents, members, k, inner) && Boundary(parents, members, k, k + 1, inner)
    ensures Boundary(parents, members, p, inner, end)
    ensures forall o | o in members && k + 1 <= o < inner :: parents[o] != p
  {
    inner := End(parents, members, k, k + 1);
    EndFound(parents, members, k, k + 1);
    EndCloses(parents, members, k);
  }

  lemma {:induction false} NoMoreChildren(parents: Parents, members: set<nat>, p: int, k: nat, end: nat)
    requires Forest(parents, members) && p < k <= end <= |parents|
    requires forall o | o in members && k <= o < end :: parents[o] != p
    ensures Walk(parents, members, p, k) == Walk(parents, members, p, end)
    decreases end - k
  {
    if k == end {
    } else {
      NoMoreChildren(parents, members, p, k + 1, end);
    }
  }

  lemma {:induction false} BetweenSplits(members: set<nat>, lo: nat, mid: nat, hi: nat)
    requires lo <= mid <= hi
    ensures Between(members, lo, hi) == Between(members, lo, mid) + Between(members, mid, hi)
    decreases mid - lo
  {
    if lo == mid {
    } else {
      BetweenSplits(members, lo + 1, mid, hi);
    }
  }

  // Walking the whole forest lists every member once, in ascending order.
  lemma ForestInOrder(parents: Parents, members: set<nat>)
    requires Forest(parents, members)
    ensures Walk(parents, members, -1, 0) == Between(members, 0, |parents|)
  {
    WalkIsAscending(parents, members, -1, 0, |parents|);
  }

  lemma {:induction false} BetweenShape(members: set<nat>, lo: nat, hi: nat)
    ensures forall o :: o in Between(members, lo, hi) <==> lo <= o < hi && o in members
    ensures Ascending(Between(members, lo, hi))
    decreases hi - lo
  {
    if hi <= lo {
    } else {
      BetweenShape(members, lo + 1, hi);
      AscendingCons(lo, Between(members, lo + 1, hi));
    }
  }

  // -- Projected trees --

  datatype Projected = Projected(ordinal: nat, parent: Option<nat>, childCount: nat, children: seq<Projected>,
      complete: bool)

  function Listing(node: Projected): seq<nat>
    decreases node, 0
  {
    [node.ordinal] + ListingOf(node.children)
  }

  function ListingOf(nodes: seq<Projected>): seq<nat>
    decreases nodes, 1
  {
    if nodes == [] then [] else Listing(nodes[0]) + ListingOf(nodes[1..])
  }
}
