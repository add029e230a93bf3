// Carrying out a reviewed collection plan, one artifact directory at a time.
module ArtifactCollection {
  import opened Prelude
  import opened Sorting
  import opened ArtifactRetention
  import opened ArtifactPlans

  // An artifact directory, as an inspection finds it.
  datatype Stored = Stored(id: Id, size: nat, createdAt: Option<int>, integrity: Integrity)

  ghost predicate StoreOk(stored: seq<Stored>) {
    && (forall i | 0 <= i < |stored| :: stored[i].integrity == Valid <==> stored[i].createdAt.Some?)
    && (forall i, j | 0 <= i < j < |stored| :: stored[i].id != stored[j].id)
  }

  function ItemOf(s: Stored, shielded: set<Id>): Item {
    Item(s.id, s.size, s.createdAt, s.integrity, s.id in shielded)
  }

  function Items(stored: seq<Stored>, shielded: set<Id>): seq<Item> {
    if stored == [] then [] else Items(stored[..|stored| - 1], shielded) + [ItemOf(stored[|stored| - 1], shielded)]
  }

  lemma {:induction false} ItemsShape(stored: seq<Stored>, shielded: set<Id>)
    ensures |Items(stored, shielded)| == |stored|
    ensures forall i | 0 <= i < |stored| :: Items(stored, shielded)[i] == ItemOf(stored[i], shielded)
    ensures StoreOk(stored) ==> WellFormed(Items(stored, shielded))
  {
    if stored == [] {
    } else {
      ItemsShape(stored[..|stored| - 1], shielded);
    }
  }

  function Without(stored: seq<Stored>, ids: set<Id>): seq<Stored> {
    if stored == [] then []
    else
      var last := stored[|stored| - 1];
      Without(stored[..|stored| - 1], ids) + if last.id in ids then [] else [last]
  }

  lemma WithoutAppend(stored: seq<Stored>, s: Stored, ids: set<Id>)
    ensures Without(stored + [s], ids) == Without(stored, ids) + if s.id in ids then [] else [s]
  {
    assert (stored + [s])[..|stored|] == stored;
  }

  lemma ItemsAppend(stored: seq<Stored>, s: Stored, shielded: set<Id>)
    ensures Items(stored + [s], shielded) == Items(stored, shielded) + [ItemOf(s, shielded)]
    ensures stored + [] == stored
  {
    assert (stored + [s])[..|stored|] == stored;
  }

  lemma {:induction false} WithoutTwice(stored: seq<Stored>, a: set<Id>, b: set<Id>)
    ensures Without(Without(stored, a), b) == Without(stored, a + b)
  {
    if stored == [] {
    } else {
      var front, last := stored[..|stored| - 1], stored[|stored| - 1];
      WithoutTwice(front, a, b);
      WithoutAppend(Without(front, a), last, b);
      assert Without(front, a) + [] == Without(front, a);
    }
  }

  lemma {:induction false} WithoutNothing(stored: seq<Stored>)
    ensures Without(stored, {}) == stored
  {
    if stored == [] {
    } else {
      WithoutNothing(stored[..|stored| - 1]);
    }
  }

  // Deleting from the store deletes from its inventory.
  lemma {:induction false} ItemsKept(stored: seq<Stored>, ids: set<Id>, shielded: set<Id>)
    ensures Items(Without(stored, ids), shielded) == Keep(Items(stored, shielded), ids)
  {
    if stored == [] {
    } else {
      var front, last := stored[..|stored| - 1], stored[|stored| - 1];
      ItemsKept(front, ids, shielded);
      FiltersAppend(Items(front, shielded), ItemOf(last, shielded), ids);
      ItemsAppend(Without(front, ids), last, shielded);
    }
  }

  // Ids removed by others up to step i.
  function VanishedTo(vanishing: nat -> set<Id>, i: nat): set<Id> {
    if i == 0 then {} else VanishedTo(vanishing, i - 1) + vanishing(i - 1)
  }

  function IdsOf(candidates: seq<Candidate>): set<Id> {
    set c | c in candidates :: c.id
  }

  // What the plan id is computed from.
  predicate SamePlanId(a: Plan, b: Plan) {
    && a.policy == b.policy && a.candidates == b.candidates
    && a.remainingArtifacts == b.remainingArtifacts && a.remainingBytes == b.remainingBytes
  }

  lemma SameCandidates(a: Plan, b: Plan)
    requires SamePlanId(a, b)
    ensures a.candidates == b.candidates
  {
  }

  // All but Collected are a stale-plan error, raised after `done` deletions.
  datatype Outcome =
    | Collected(reclaimed: nat)
    | PlanChanged
    | GainedReference(id: Id)
    | DirectoryGone(id: Id)

  class ArtifactRoot {
    var stored: seq<Stored>

    constructor (stored: seq<Stored>)
      ensures this.stored == stored
    {
      this.stored := stored;
    }

    method InventoryArtifacts(shielded: set<Id>) returns (items: seq<Item>)
      requires StoreOk(stored)
      ensures items == Sort(Items(stored, shielded), Older) && WellFormed(items)
    {
      items := [];
      for i := 0 to |stored|
        invariant items == Items(stored[..i], shielded)
      {
        assert stored[..i + 1][..i] == stored[..i];
        items := items + [ItemOf(stored[i], shielded)];
      }
      assert stored[..|stored|] == stored;
      ItemsShape(stored, shielded);
      OlderIsOrder();
      SortSorts(items, Older);
      UniquePermuted(items, Sort(items, Older));
      items := Sort(items, Older);
    }

    predicate IsDirectory(id: Id)
      reads this
    {
      exists s :: s in stored && s.id == id
    }

    // `shielding(0)` is the set of referenced artifacts read with the
    // inventory, `shielding(i + 1)` the one read before candidate i is deleted;
    // `vanishing(i)` are the directories others remove before that.
    method ApplyCollection(
        policy: Policy, expected: Plan, shielding: nat -> set<Id>, vanishing: nat -> set<Id>, now: int)
      returns (outcome: Outcome, done: nat)
      requires StoreOk(stored)
      modifies this
      ensures outcome == PlanChanged <==>
        forall plan | IsPlan(Items(old(stored), shielding(0)), policy, now, plan) :: !SamePlanId(plan, expected)
      ensures outcome == PlanChanged ==> done == 0 && stored == old(stored)
      ensures done <= |expected.candidates| || outcome == PlanChanged
      ensures outcome != PlanChanged ==>
        && stored == Without(old(stored), IdsOf(expected.candidates[..done])
             + VanishedTo(vanishing, if outcome.Collected? then done else done + 1))
        && (forall i | 0 <= i < done :: expected.candidates[i].id !in shielding(i + 1))
      ensures outcome.Collected? ==>
        done == |expected.candidates| && outcome.reclaimed == ReclaimableBytes(expected.candidates)
      ensures outcome.GainedReference? ==>
        done < |expected.candidates| && outcome.id == expected.candidates[done].id && outcome.id in shielding(done + 1)
      ensures outcome.DirectoryGone? ==>
        done < |expected.candidates| && outcome.id == expected.candidates[done].id && !IsDirectory(outcome.id)
    {
      hide IsPlan, StoreOk, Without, VanishedTo, IdsOf, Items, Sort, IsDirectory, SamePlanId;
      done := 0;
      var items := InventoryArtifacts(shielding(0));
      var plan := PlanArtifactCollection(items, policy, now);
      PlanOfInventory(stored, shielding(0), items, policy, now, plan);
      if !SamePlanId(plan, expected) {
        return PlanChanged, 0;
      }
      SameCandidates(plan, expected);
      var reclaimed := 0;
      var candidates := plan.candidates;
      NothingDone(stored, vanishing, candidates);
      for i := 0 to |candidates|
        invariant done == i
        invariant stored == Without(old(stored), IdsOf(candidates[..i]) + VanishedTo(vanishing, i))
        invariant forall k | 0 <= k < i :: candidates[k].id !in shielding(k + 1)
        invariant reclaimed == ReclaimableBytes(candidates[..i])
      {
        OneDone(old(stored), vanishing, candidates, i);
        assert candidates[..i + 1][..i] == candidates[..i];
        stored := Without(stored, vanishing(i));
        if candidates[i].id in shielding(i + 1) {
          return GainedReference(candidates[i].id), i;
        }
        if !IsDirectory(candidates[i].id) {
          return DirectoryGone(candidates[i].id), i;
        }
        stored := Without(stored, {candidates[i].id});
        reclaimed := reclaimed + candidates[i].size;
        done := i + 1;
      }
      assert candidates[..|candidates|] == candidates;
      outcome := Collected(reclaimed);
    }
  }

  // The plan made from the sorted inventory is the plan for the store.
  lemma PlanOfInventory(stored: seq<Stored>, shielded: set<Id>, items: seq<Item>, policy: Policy, now: int, plan: Plan)
    requires StoreOk(stored) && items == Sort(Items(stored, shielded), Older) && IsPlan(items, policy, now, plan)
    ensures IsPlan(Items(stored, shielded), policy, now, plan)
    ensures forall other | IsPlan(Items(stored, shielded), policy, now, other) :: other == plan
  {
    hide IsPlan, StoreOk, Items, Sort;
    var all := Items(stored, shielded);
    ItemsShape(stored, shielded);
    OlderIsOrder();
    SortSorts(all, Older);
    var own := SomePlan(all, policy, now);
    OrderDoesNotMatter(all, items, policy, now, own, plan);
    forall other | IsPlan(all, policy, now, other)
      ensures other == plan
    {
      OrderDoesNotMatter(all, items, policy, now, other, plan);
    }
  }

  lemma SomePlan(items: seq<Item>, policy: Policy, now: int) returns (plan: Plan)
    ensures IsPlan(items, policy, now, plan)
  {
    var cut := Cut(items, policy, now, 0);
    plan := Plan(policy, seq(cut, i requires 0 <= i < cut => CandidateAt(items, policy, now, i)),
                 CountAfter(items, cut), BytesAfter(items, cut), Enough(items, policy, now, cut));
  }

  lemma NothingDone(stored: seq<Stored>, vanishing: nat -> set<Id>, candidates: seq<Candidate>)
    ensures stored == Without(stored, IdsOf(candidates[..0]) + VanishedTo(vanishing, 0))
  {
    WithoutNothing(stored);
    assert IdsOf(candidates[..0]) + VanishedTo(vanishing, 0) == {};
  }

  lemma OneDone(stored: seq<Stored>, vanishing: nat -> set<Id>, candidates: seq<Candidate>, i: nat)
    requires i < |candidates|
    ensures var before := Without(stored, IdsOf(candidates[..i]) + VanishedTo(vanishing, i));
            var vanished := Without(before, vanishing(i));
            && vanished == Without(stored, IdsOf(candidates[..i]) + VanishedTo(vanishing, i + 1))
            && Without(vanished, {candidates[i].id})
                 == Without(stored, IdsOf(candidates[..i + 1]) + VanishedTo(vanishing, i + 1))
  {
    hide Without;
    var ids, gone := IdsOf(candidates[..i]), VanishedTo(vanishing, i);
    WithoutTwice(stored, ids + gone, vanishing(i));
    assert ids + gone + vanishing(i) == ids + VanishedTo(vanishing, i + 1);
    WithoutTwice(stored, ids + VanishedTo(vanishing, i + 1), {candidates[i].id});
    assert candidates[..i + 1] == candidates[..i] + [candidates[i]];
    assert IdsOf(candidates[..i + 1]) == ids + {candidates[i].id};
    assert ids + VanishedTo(vanishing, i + 1) + {candidates[i].id}
        == IdsOf(candidates[..i + 1]) + VanishedTo(vanishing, i + 1);
  }

  // Every planned deletion is of an artifact that was valid and unreferenced at planning time.
  lemma PlannedAreEligible(items: seq<Item>, policy: Policy, now: int, plan: Plan, i: nat)
    requires WellFormed(items) && IsPlan(items, policy, now, plan) && i < |plan.candidates|
    ensures exists x ::
      x in items && x.id == plan.candidates[i].id && x.size == plan.candidates[i].size && IsEligible(x)
  {
    QueueShape(items);
    var x := Queue(items)[i];
    assert x in Queue(items);
  }

  // A collection nobody interfered with leaves a store for which the same policy plans nothing.
  lemma CollectedIsSettled(stored: seq<Stored>, shielded: set<Id>, policy: Policy, now: int, plan: Plan, again: Plan)
    requires StoreOk(stored) && IsPlan(Items(stored, shielded), policy, now, plan)
    requires IsPlan(Items(Without(stored, IdsOf(plan.candidates)), shielded), policy, now, again)
    ensures again.candidates == [] && (again.satisfiesPolicy <==> plan.satisfiesPolicy)
  {
    hide IsPlan;
    ItemsShape(stored, shielded);
    ItemsKept(stored, IdsOf(plan.candidates), shielded);
    assert IdsOf(plan.candidates) == CandidateIds(plan);
    ReplanningIsEmpty(Items(stored, shielded), policy, now, plan, again);
  }
}
