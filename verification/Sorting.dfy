// The stable sort behind sorted() with a key and Array.sort with a comparison.
module Sorting {
  import opened Prelude

  // `upTo(a, b)` says that a may stand before b.
  ghost predicate IsOrder<T(!new)>(upTo: (T, T) -> bool) {
    && (forall a, b :: upTo(a, b) || upTo(b, a))
    && (forall a, b, c | upTo(a, b) && upTo(b, c) :: upTo(a, c))
  }

  predicate Sorted<T>(s: seq<T>, upTo: (T, T) -> bool) {
    forall i, j | 0 <= i < j < |s| :: upTo(s[i], s[j])
  }

  function Insert<T>(sorted: seq<T>, x: T, upTo: (T, T) -> bool): (inserted: seq<T>)
    ensures |inserted| == |sorted| + 1
  {
    if sorted == [] || upTo(sorted[|sorted| - 1], x) then sorted + [x]
    else Insert(sorted[..|sorted| - 1], x, upTo) + [sorted[|sorted| - 1]]
  }

  function Sort<T>(s: seq<T>, upTo: (T, T) -> bool): (sorted: seq<T>)
    ensures |sorted| == |s|
  {
    if s == [] then [] else Insert(Sort(s[..|s| - 1], upTo), s[|s| - 1], upTo)
  }

  lemma NothingSorted<T>(upTo: (T, T) -> bool)
    ensures Sorted([], upTo)
  {
  }

  lemma SortedFront<T>(s: seq<T>, upTo: (T, T) -> bool)
    requires Sorted(s, upTo) && s != []
    ensures Sorted(s[..|s| - 1], upTo)
    ensures forall i | 0 <= i < |s| - 1 :: upTo(s[i], s[|s| - 1])
  {
  }

  lemma SortedAppend<T>(s: seq<T>, last: T, upTo: (T, T) -> bool)
    requires Sorted(s, upTo) && forall x | x in s :: upTo(x, last)
    ensures Sorted(s + [last], upTo)
  {
  }

  lemma {:induction false} InsertSorts<T(!new)>(sorted: seq<T>, x: T, upTo: (T, T) -> bool)
    requires IsOrder(upTo) && Sorted(sorted, upTo)
    ensures Sorted(Insert(sorted, x, upTo), upTo)
    ensures multiset(Insert(sorted, x, upTo)) == multiset(sorted) + multiset{x}
  {
    hide Sorted;
    if sorted == [] {
      assert [] + [x] == [x];
      SortedAppend(sorted, x, upTo);
    } else {
      var front, last := sorted[..|sorted| - 1], sorted[|sorted| - 1];
      assert sorted == front + [last];
      SortedFront(sorted, upTo);
      if upTo(last, x) {
        SortedAppend(sorted, x, upTo);
      } else {
        var inserted := Insert(front, x, upTo);
        InsertSorts(front, x, upTo);
        forall y | y in inserted
          ensures upTo(y, last)
        {
          assert y in multiset(inserted);
        }
        SortedAppend(inserted, last, upTo);
      }
    }
  }

  lemma {:induction false} SortSorts<T(!new)>(s: seq<T>, upTo: (T, T) -> bool)
    requires IsOrder(upTo)
    ensures Sorted(Sort(s, upTo), upTo) && multiset(Sort(s, upTo)) == multiset(s)
  {
    hide Sorted, IsOrder;
    if s == [] {
      NothingSorted(upTo);
    } else {
      SortSorts(s[..|s| - 1], upTo);
      InsertSorts(Sort(s[..|s| - 1], upTo), s[|s| - 1], upTo);
      assert s == s[..|s| - 1] + [s[|s| - 1]];
    }
  }

  // No two elements may stand in either order.
  predicate NoTies<T>(s: seq<T>, upTo: (T, T) -> bool) {
    forall i, j | 0 <= i < j < |s| :: !(upTo(s[i], s[j]) && upTo(s[j], s[i]))
  }

  lemma SameFirst<T>(s: seq<T>, t: seq<T>, upTo: (T, T) -> bool)
    requires Sorted(s, upTo) && Sorted(t, upTo) && NoTies(s, upTo)
    requires s != [] && t != [] && multiset(s) == multiset(t)
    ensures s[0] == t[0]
  {
    assert s[0] in multiset(t) && t[0] in multiset(s);
    var i :| 0 <= i < |s| && s[i] == t[0];
    var j :| 0 <= j < |t| && t[j] == s[0];
    assert i > 0 ==> upTo(s[0], s[i]);
    assert j > 0 ==> upTo(t[0], t[j]);
  }

  lemma WithoutFirst<T>(s: seq<T>, upTo: (T, T) -> bool)
    requires s != []
    ensures s == [s[0]] + s[1..] && multiset(s[1..]) == multiset(s) - multiset{s[0]}
    ensures Sorted(s, upTo) ==> Sorted(s[1..], upTo)
    ensures NoTies(s, upTo) ==> NoTies(s[1..], upTo)
  {
    assert s == [s[0]] + s[1..];
  }

  // Without ties there is one sorted arrangement.
  lemma {:induction false} SortedIsUnique<T>(s: seq<T>, t: seq<T>, upTo: (T, T) -> bool)
    requires Sorted(s, upTo) && Sorted(t, upTo) && NoTies(s, upTo) && multiset(s) == multiset(t)
    ensures s == t
  {
    hide Sorted, NoTies;
    if s == [] || t == [] {
      assert |multiset(s)| == |s| && |multiset(t)| == |t|;
    } else {
      SameFirst(s, t, upTo);
      WithoutFirst(s, upTo);
      WithoutFirst(t, upTo);
      SortedIsUnique(s[1..], t[1..], upTo);
    }
  }

  // -- The last element of a kind --

  function LastOf<T>(s: seq<T>, wanted: T -> bool): (last: Option<T>)
    ensures last.Some? ==> last.value in s && wanted(last.value)
  {
    if s == [] then None
    else if wanted(s[|s| - 1]) then Some(s[|s| - 1])
    else LastOf(s[..|s| - 1], wanted)
  }

  lemma {:induction false} InsertedLast<T(!new)>(sorted: seq<T>, x: T, upTo: (T, T) -> bool, wanted: T -> bool)
    requires IsOrder(upTo) && Sorted(sorted, upTo)
    ensures var last := LastOf(sorted, wanted);
            LastOf(Insert(sorted, x, upTo), wanted) == if wanted(x)
                && (last.None? || upTo(last.value, x)) then Some(x) else last
  {
    hide Sorted;
    if sorted == [] {
      assert [x][..0] == [];
    } else {
      var front, last := sorted[..|sorted| - 1], sorted[|sorted| - 1];
      SortedFront(sorted, upTo);
      if upTo(last, x) {
        assert (sorted + [x])[..|sorted|] == sorted;
        assert upTo(last, last);
        assert forall y | y in sorted :: upTo(y, last);
      } else {
        InsertedLast(front, x, upTo, wanted);
        assert Insert(sorted, x, upTo)[..|sorted|] == Insert(front, x, upTo);
      }
    }
  }

  // The element at i is ahead of every other one of its kind: none goes after
  // it, and it comes later among equals.
  ghost predicate IsLast<T>(s: seq<T>, i: nat, upTo: (T, T) -> bool, wanted: T -> bool) {
    && i < |s| && wanted(s[i])
    && forall j | 0 <= j < |s| && wanted(s[j]) :: if j <= i then upTo(s[j], s[i]) else !upTo(s[i], s[j])
  }

  // Sorting is stable, so the last of a kind is a greatest one, the latest among equals.
  lemma {:induction false} SortedLast<T(!new)>(s: seq<T>, upTo: (T, T) -> bool, wanted: T -> bool)
    requires IsOrder(upTo)
    ensures LastOf(Sort(s, upTo), wanted).None? <==> forall x | x in s :: !wanted(x)
    ensures LastOf(Sort(s, upTo), wanted).Some? ==>
      exists i: nat :: i < |s| && IsLast(s, i, upTo, wanted) && LastOf(Sort(s, upTo), wanted) == Some(s[i])
  {
    hide Insert, IsLast;
    if s == [] {
    } else {
      var front, x := s[..|s| - 1], s[|s| - 1];
      assert s == front + [x];
      SortedLast(front, upTo, wanted);
      SortSorts(front, upTo);
      InsertedLast(Sort(front, upTo), x, upTo, wanted);
      if LastOf(Sort(front, upTo), wanted).Some? {
        var i: nat :| i < |front| && IsLast(front, i, upTo, wanted)
            && LastOf(Sort(front, upTo), wanted) == Some(front[i]);
        NextLast(front, i, x, upTo, wanted);
      } else if wanted(x) {
        OnlyLast(front, x, upTo, wanted);
      }
    }
  }

  lemma NextLast<T(!new)>(front: seq<T>, i: nat, x: T, upTo: (T, T) -> bool, wanted: T -> bool)
    requires IsOrder(upTo) && IsLast(front, i, upTo, wanted)
    ensures i < |front|
    ensures IsLast(front + [x], if wanted(x) && upTo(front[i], x) then |front| else i, upTo, wanted)
  {
    if wanted(x) && upTo(front[i], x) {
      forall j | 0 <= j < |front| && wanted(front[j])
        ensures upTo(front[j], x)
      {
        assert upTo(front[j], front[i]);
      }
    }
  }

  lemma OnlyLast<T(!new)>(front: seq<T>, x: T, upTo: (T, T) -> bool, wanted: T -> bool)
    requires IsOrder(upTo) && wanted(x) && forall y | y in front :: !wanted(y)
    ensures IsLast(front + [x], |front|, upTo, wanted)
  {
  }
}
