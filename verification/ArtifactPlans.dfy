// What every collection plan guarantees: conservation, exactness of its verdict,
// nothing left to plan after carrying it out, and no influence of input order.
module ArtifactPlans {
  import opened Prelude
  import opened Sorting
  import opened ArtifactRetention

  function Keep(items: seq<Item>, deleted: set<Id>): seq<Item> {
    if items == [] then []
    else
      var last := items[|items| - 1];
      Keep(items[..|items| - 1], deleted) + if last.id in deleted then [] else [last]
  }

  function Pick(items: seq<Item>, deleted: set<Id>): seq<Item> {
    if items == [] then []
    else
      var last := items[|items| - 1];
      Pick(items[..|items| - 1], deleted) + if last.id in deleted then [last] else []
  }

  function CandidateIds(plan: Plan): set<Id> {
    set c | c in plan.candidates :: c.id
  }

  function ReclaimableBytes(candidates: seq<Candidate>): nat {
    if candidates == [] then 0
    else ReclaimableBytes(candidates[..|candidates| - 1]) + candidates[|candidates| - 1].size
  }

  // -- Filtering and sorting --

  lemma {:induction false} KeepCounts(items: seq<Item>, deleted: set<Id>, x: Item)
    ensures multiset(Keep(items, deleted))[x] == if x.id in deleted then 0 else multiset(items)[x]
  {
    if items == [] {
    } else {
      KeepCounts(items[..|items| - 1], deleted, x);
      assert items == items[..|items| - 1] + [items[|items| - 1]];
    }
  }

  lemma {:induction false} KeepSorted(items: seq<Item>, deleted: set<Id>)
    requires Sorted(items, Older)
    ensures Sorted(Keep(items, deleted), Older) && forall x | x in Keep(items, deleted) ::
      x in items && x.id !in deleted
  {
    if items == [] {
    } else {
      hide Older;
      var front, last := items[..|items| - 1], items[|items| - 1];
      SortedFront(items, Older);
      KeepSorted(front, deleted);
      assert items == front + [last];
      assert forall x | x in front :: Older(x, last);
    }
  }

  lemma {:induction false} KeepWellFormed(items: seq<Item>, deleted: set<Id>)
    requires WellFormed(items)
    ensures WellFormed(Keep(items, deleted))
    ensures forall x | x in Keep(items, deleted) :: x in items
  {
    if items == [] {
    } else {
      var front, last := items[..|items| - 1], items[|items| - 1];
      assert items == front + [last];
      KeepWellFormed(front, deleted);
      assert forall x | x in front :: x.id != last.id;
    }
  }

  // Deleting and sorting commute.
  lemma SortKept(items: seq<Item>, deleted: set<Id>)
    requires WellFormed(items)
    ensures Sort(Keep(items, deleted), Older) == Keep(Sort(items, Older), deleted)
    ensures WellFormed(Keep(items, deleted))
  {
    hide Sorted, Sort, Keep;
    var kept := Keep(items, deleted);
    OlderIsOrder();
    SortSorts(items, Older);
    OlderIsOrder();
    SortSorts(kept, Older);
    KeepSorted(Sort(items, Older), deleted);
    KeepWellFormed(items, deleted);
    UniquePermuted(kept, Sort(kept, Older));
    forall x
      ensures multiset(Sort(kept, Older))[x] == multiset(Keep(Sort(items, Older), deleted))[x]
    {
      KeepCounts(items, deleted, x);
      KeepCounts(Sort(items, Older), deleted, x);
    }
    SortedIsUnique(Sort(kept, Older), Keep(Sort(items, Older), deleted), Older);
  }

  // -- What deleting takes away --

  lemma {:induction false} KeepOrPick(items: seq<Item>, deleted: set<Id>)
    ensures |Keep(items, deleted)| + |Pick(items, deleted)| == |items|
    ensures TotalBytes(Keep(items, deleted)) + TotalBytes(Pick(items, deleted)) == TotalBytes(items)
  {
    if items == [] {
    } else {
      var front, last := items[..|items| - 1], items[|items| - 1];
      KeepOrPick(front, deleted);
      BytesAppend(Keep(front, deleted), last);
      BytesAppend(Pick(front, deleted), last);
    }
  }

  lemma BytesAppend(items: seq<Item>, item: Item)
    ensures TotalBytes(items + [item]) == TotalBytes(items) + item.size
    ensures items + [] == items
  {
    assert (items + [item])[..|items|] == items;
  }

  // Deleting only eligible items takes no more than all of them.
  lemma {:induction false} PickWithin(items: seq<Item>, deleted: set<Id>)
    requires forall x | x in items && x.id in deleted :: IsEligible(x)
    ensures |Pick(items, deleted)| <= |Eligible(items)|
          && TotalBytes(Pick(items, deleted)) <= TotalBytes(Eligible(items))
  {
    if items == [] {
    } else {
      var front, last := items[..|items| - 1], items[|items| - 1];
      assert items == front + [last];
      PickWithin(front, deleted);
      BytesAppend(Pick(front, deleted), last);
      BytesAppend(Eligible(front), last);
    }
  }

  lemma {:induction false} EligibleKept(items: seq<Item>, deleted: set<Id>)
    ensures Eligible(Keep(items, deleted)) == Keep(Eligible(items), deleted)
    ensures (forall x | x in items && x.id in deleted :: IsEligible(x)) ==>
      Pick(items, deleted) == Pick(Eligible(items), deleted)
  {
    if items == [] {
    } else {
      var front, last := items[..|items| - 1], items[|items| - 1];
      assert items == front + [last];
      EligibleKept(front, deleted);
      FiltersAppend(Keep(front, deleted), last, deleted);
      FiltersAppend(Eligible(front), last, deleted);
    }
  }

  lemma FiltersAppend(items: seq<Item>, item: Item, deleted: set<Id>)
    ensures Eligible(items + [item]) == Eligible(items) + if IsEligible(item) then [item] else []
    ensures Keep(items + [item], deleted) == Keep(items, deleted) + if item.id in deleted then [] else [item]
    ensures Pick(items + [item], deleted) == Pick(items, deleted) + if item.id in deleted then [item] else []
    ensures items + [] == items
  {
    assert (items + [item])[..|items|] == items;
  }

  lemma NothingKept(deleted: set<Id>)
    ensures Keep([], deleted) == [] && Pick([], deleted) == []
  {
  }

  lemma {:induction false} KeepPrefix(items: seq<Item>, k: nat, i: nat)
    requires WellFormed(items) && k <= |items| && i <= |items|
    ensures Keep(items[..i], Ids(items[..k])) == items[Min(k, i)..i]
    ensures Pick(items[..i], Ids(items[..k])) == items[..Min(k, i)]
  {
    hide Keep, Pick, Ids, WellFormed;
    if i == 0 {
      NothingKept(Ids(items[..k]));
      assert items[..0] == [];
    } else {
      KeepPrefix(items, k, i - 1);
      IdsOfPrefix(items, k, i - 1);
      assert items[..i] == items[..i - 1] + [items[i - 1]];
      FiltersAppend(items[..i - 1], items[i - 1], Ids(items[..k]));
    }
  }

  lemma PrefixDeletesEligible(items: seq<Item>, k: nat)
    requires WellFormed(items) && k <= |Queue(items)|
    ensures forall x | x in Sort(items, Older) && x.id in Ids(Queue(items)[..k]) :: IsEligible(x)
  {
    forall j | 0 <= j < |Sort(items, Older)|
      ensures Sort(items, Older)[j].id in Ids(Queue(items)[..k]) ==> IsEligible(Sort(items, Older)[j])
    {
      if !IsEligible(Sort(items, Older)[j]) {
        IneligibleIsNotSelected(items, k, j);
      }
    }
  }

  // What is left after deleting the first k of the queue.
  lemma DeletePrefix(items: seq<Item>, k: nat)
    requires WellFormed(items) && k <= |Queue(items)|
    ensures var rest := Keep(items, Ids(Queue(items)[..k]));
            && WellFormed(rest) && Queue(rest) == Queue(items)[k..]
            && |rest| == CountAfter(items, k) && TotalBytes(rest) == BytesAfter(items, k)
  {
    hide IsEligible, WellFormed, Sort;
    var queue, deleted := Queue(items), Ids(Queue(items)[..k]);
    QueueShape(items);
    SortKept(items, deleted);
    SortBytes(items);
    SortBytes(Keep(items, deleted));
    KeepOrPick(Sort(items, Older), deleted);
    PrefixDeletesEligible(items, k);
    EligibleKept(Sort(items, Older), deleted);
    KeepPrefix(queue, k, |queue|);
    assert queue[..|queue|] == queue && queue[k..|queue|] == queue[k..];
  }

  lemma CandidatesArePrefix(items: seq<Item>, policy: Policy, now: int, plan: Plan)
    requires IsPlan(items, policy, now, plan)
    ensures CandidateIds(plan) == Ids(Queue(items)[..|plan.candidates|])
  {
    var prefix := Queue(items)[..|plan.candidates|];
    forall id
      ensures id in CandidateIds(plan) <==> id in Ids(prefix)
    {
      if id in CandidateIds(plan) {
        var c :| c in plan.candidates && c.id == id;
        var i :| 0 <= i < |plan.candidates| && plan.candidates[i] == c;
        assert prefix[i].id == id && prefix[i] in prefix;
      }
      if id in Ids(prefix) {
        var x :| x in prefix && x.id == id;
        var i :| 0 <= i < |prefix| && prefix[i] == x;
        assert plan.candidates[i].id == id && plan.candidates[i] in plan.candidates;
      }
    }
  }

  // -- Conservation --

  lemma {:induction false} ReclaimedOfPrefix(
      items: seq<Item>, policy: Policy, now: int, candidates: seq<Candidate>, i: nat)
    requires i <= |candidates| <= |Queue(items)|
    requires forall j | 0 <= j < |candidates| :: candidates[j] == CandidateAt(items, policy, now, j)
    ensures ReclaimableBytes(candidates[..i]) == TotalBytes(Queue(items)[..i])
  {
    if i == 0 {
    } else {
      ReclaimedOfPrefix(items, policy, now, candidates, i - 1);
      assert candidates[..i][..i - 1] == candidates[..i - 1];
      assert Queue(items)[..i][..i - 1] == Queue(items)[..i - 1];
    }
  }

  lemma PlanConserves(items: seq<Item>, policy: Policy, now: int, plan: Plan)
    requires IsPlan(items, policy, now, plan)
    ensures plan.remainingArtifacts + |plan.candidates| == |items|
    ensures plan.remainingBytes + ReclaimableBytes(plan.candidates) == TotalBytes(items)
  {
    ReclaimedOfPrefix(items, policy, now, plan.candidates, |plan.candidates|);
    assert plan.candidates[..|plan.candidates|] == plan.candidates;
  }

  // -- The verdict is exact --

  // Nothing that may be deleted has expired, and no limit is exceeded.
  ghost predicate Satisfies(items: seq<Item>, policy: Policy, now: int) {
    && !CountOver(policy, |items|) && !BytesOver(policy, TotalBytes(items))
    && forall x | x in items && IsEligible(x) :: !Expired(x, policy, now)
  }

  ghost predicate DeletesOnlyEligible(items: seq<Item>, deleted: set<Id>) {
    forall x | x in items && x.id in deleted :: IsEligible(x)
  }

  lemma EnoughIsSatisfied(items: seq<Item>, policy: Policy, now: int, k: nat)
    requires WellFormed(items) && k <= |Queue(items)|
    ensures Enough(items, policy, now, k) <==> Satisfies(Keep(items, Ids(Queue(items)[..k])), policy, now)
  {
    hide IsEligible, Expired, Sort, Eligible;
    var rest, queue := Keep(items, Ids(Queue(items)[..k])), Queue(items);
    DeletePrefix(items, k);
    QueueShape(rest);
    if NoneExpiredFrom(items, policy, now, k) {
      forall x | x in rest && IsEligible(x)
        ensures !Expired(x, policy, now)
      {
        assert x in queue[k..];
        var j :| 0 <= j < |queue[k..]| && queue[k..][j] == x;
        assert queue[k + j] == x;
      }
    }
    if Satisfies(rest, policy, now) {
      forall j | k <= j < |queue|
        ensures !Expired(queue[j], policy, now)
      {
        assert queue[k..][j - k] == queue[j] && queue[j] in Queue(rest);
      }
    }
  }

  // The plan satisfies the policy exactly when deleting some eligible items would.
  lemma VerdictIsExact(items: seq<Item>, policy: Policy, now: int, plan: Plan)
    requires WellFormed(items) && IsPlan(items, policy, now, plan)
    ensures plan.satisfiesPolicy <==> Satisfies(Keep(items, CandidateIds(plan)), policy, now)
    ensures DeletesOnlyEligible(items, CandidateIds(plan))
    ensures plan.satisfiesPolicy <==>
      exists deleted: set<Id> :: DeletesOnlyEligible(items, deleted) && Satisfies(Keep(items, deleted), policy, now)
  {
    hide Satisfies, Enough;
    var cut := |plan.candidates|;
    CandidatesArePrefix(items, policy, now, plan);
    EnoughIsSatisfied(items, policy, now, cut);
    PrefixDeletesOnlyEligible(items, cut);
    forall deleted: set<Id> | DeletesOnlyEligible(items, deleted) && Satisfies(Keep(items, deleted), policy, now)
      ensures plan.satisfiesPolicy
    {
      AllIsMost(items, policy, now, deleted);
    }
  }

  lemma PrefixDeletesOnlyEligible(items: seq<Item>, k: nat)
    requires WellFormed(items) && k <= |Queue(items)|
    ensures DeletesOnlyEligible(items, Ids(Queue(items)[..k]))
  {
    hide IsEligible;
    PrefixDeletesEligible(items, k);
    OlderIsOrder();
    SortSorts(items, Older);
    forall x | x in items
      ensures x in Sort(items, Older)
    {
      assert x in multiset(items);
    }
  }

  // If deleting some eligible items satisfies the policy, so does deleting all of them.
  lemma AllIsMost(items: seq<Item>, policy: Policy, now: int, deleted: set<Id>)
    requires WellFormed(items) && DeletesOnlyEligible(items, deleted) && Satisfies(Keep(items, deleted), policy, now)
    ensures Enough(items, policy, now, |Queue(items)|)
  {
    hide IsEligible, Sort, WellFormed, Sorted, Keep, Pick, TotalBytes, Eligible;
    var queue := Queue(items);
    OlderIsOrder();
    SortSorts(items, Older);
    SortBytes(items);
    forall x | x in Sort(items, Older) && x.id in deleted
      ensures IsEligible(x)
    {
      assert x in multiset(items);
    }
    KeepOrPick(items, deleted);
    SortKept(items, deleted);
    SortBytes(Keep(items, deleted));
    KeepOrPick(Sort(items, Older), deleted);
    PickWithin(Sort(items, Older), deleted);
    assert queue[..|queue|] == queue;
  }

  // -- Planning again after the deletion finds nothing to do --

  lemma ReplanningIsEmpty(items: seq<Item>, policy: Policy, now: int, plan: Plan, again: Plan)
    requires WellFormed(items) && IsPlan(items, policy, now, plan)
    requires IsPlan(Keep(items, CandidateIds(plan)), policy, now, again)
    ensures again.candidates == [] && (again.satisfiesPolicy <==> plan.satisfiesPolicy)
    ensures again.remainingArtifacts == plan.remainingArtifacts && again.remainingBytes == plan.remainingBytes
  {
    hide IsEligible, Expired, Sort, Eligible, Keep;
    var rest, cut := Keep(items, CandidateIds(plan)), |plan.candidates|;
    CandidatesArePrefix(items, policy, now, plan);
    DeletePrefix(items, cut);
    assert Queue(rest)[..0] == [];
    assert WithinLimits(rest, policy, 0) <==> WithinLimits(items, policy, cut);
    SameExpiry(items, rest, policy, now, cut);
    assert Enough(rest, policy, now, 0) <==> Enough(items, policy, now, cut);
    assert Cut(rest, policy, now, 0) == 0;
  }

  lemma SameExpiry(items: seq<Item>, rest: seq<Item>, policy: Policy, now: int, cut: nat)
    requires cut <= |Queue(items)| && Queue(rest) == Queue(items)[cut..]
    ensures NoneExpiredFrom(rest, policy, now, 0) <==> NoneExpiredFrom(items, policy, now, cut)
  {
    hide Queue, Expired;
    if NoneExpiredFrom(rest, policy, now, 0) {
      forall j | cut <= j < |Queue(items)|
        ensures !Expired(Queue(items)[j], policy, now)
      {
        assert Queue(rest)[j - cut] == Queue(items)[j];
      }
    }
  }

  // -- The plan does not depend on the order of the inventory --

  lemma OrderDoesNotMatter(a: seq<Item>, b: seq<Item>, policy: Policy, now: int, plan: Plan, other: Plan)
    requires WellFormed(a) && multiset(a) == multiset(b)
    requires IsPlan(a, policy, now, plan) && IsPlan(b, policy, now, other)
    ensures plan == other
  {
    hide Enough, Cut, Sorted, CandidateAt, Eligible, Sort;
    OlderIsOrder();
    SortSorts(a, Older);
    OlderIsOrder();
    SortSorts(b, Older);
    UniquePermuted(a, Sort(a, Older));
    SortedIsUnique(Sort(a, Older), Sort(b, Older), Older);
    SortBytes(a);
    SortBytes(b);
    SameCut(a, b, policy, now, 0);
    forall i | 0 <= i < |plan.candidates|
      ensures plan.candidates[i] == other.candidates[i]
    {
      SameCandidate(a, b, policy, now, i);
    }
  }

  lemma SameCandidate(a: seq<Item>, b: seq<Item>, policy: Policy, now: int, i: nat)
    requires Queue(a) == Queue(b) && TotalBytes(a) == TotalBytes(b) && |a| == |b| && i < |Queue(a)|
    ensures CandidateAt(a, policy, now, i) == CandidateAt(b, policy, now, i)
    ensures BytesAfter(a, i) == BytesAfter(b, i)
  {
  }

  lemma {:induction false} SameCut(a: seq<Item>, b: seq<Item>, policy: Policy, now: int, i: nat)
    requires Queue(a) == Queue(b) && TotalBytes(a) == TotalBytes(b) && |a| == |b| && i <= |Queue(a)|
    ensures Cut(a, policy, now, i) == Cut(b, policy, now, i)
    ensures Enough(a, policy, now, i) <==> Enough(b, policy, now, i)
    ensures Enough(a, policy, now, Cut(a, policy, now, i)) <==> Enough(b, policy, now, Cut(b, policy, now, i))
    decreases |Queue(a)| - i
  {
    hide Queue, Expired;
    if i == |Queue(a)| {
    } else {
      SameCut(a, b, policy, now, i + 1);
    }
  }
}
