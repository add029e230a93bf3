// The artifact collection planner: which valid, unprotected artifacts to delete,
// oldest first, to satisfy limits on age, number and size.
module ArtifactRetention {
  import opened Prelude
  import opened Sorting

  // Artifact ids are kept only as ordered values, times as seconds.
  type Id = nat

  datatype Integrity = Valid | Corrupt | Incompatible

  datatype Item = Item(id: Id, size: nat, createdAt: Option<int>, integrity: Integrity, shielded: bool)

  datatype Policy = Policy(maxArtifacts: Option<nat>, maxBytes: Option<nat>, maxAge: Option<nat>)

  datatype Reason = Age | TooMany | TooLarge

  datatype Candidate = Candidate(id: Id, size: nat, reasons: seq<Reason>)

  datatype Plan = Plan(policy: Policy, candidates: seq<Candidate>, remainingArtifacts: int, remainingBytes: int,
      satisfiesPolicy: bool)

  // Only valid artifacts have a creation time that could be read.
  predicate WellFormed(items: seq<Item>) {
    && (forall i | 0 <= i < |items| :: items[i].integrity == Valid <==> items[i].createdAt.Some?)
    && (forall i, j | 0 <= i < j < |items| :: items[i].id != items[j].id)
  }

  // -- Oldest first: by creation time, then by id; unreadable times come last --

  predicate Older(a: Item, b: Item) {
    match (a.createdAt, b.createdAt)
    case (Some(s), Some(t)) => s < t || (s == t && a.id <= b.id)
    case (Some(_), None) => true
    case (None, Some(_)) => false
    case (None, None) => a.id <= b.id
  }

  function TotalBytes(items: seq<Item>): nat {
    if items == [] then 0 else TotalBytes(items[..|items| - 1]) + items[|items| - 1].size
  }

  lemma OlderIsOrder()
    ensures IsOrder(Older)
  {
  }

  lemma {:induction false} InsertBytes(items: seq<Item>, item: Item)
    ensures TotalBytes(Insert(items, item, Older)) == TotalBytes(items) + item.size
    ensures |Insert(items, item, Older)| == |items| + 1
  {
    if items == [] || Older(items[|items| - 1], item) {
      assert (items + [item])[..|items|] == items;
    } else {
      var inserted := Insert(items[..|items| - 1], item, Older);
      InsertBytes(items[..|items| - 1], item);
      assert (inserted + [items[|items| - 1]])[..|inserted|] == inserted;
    }
  }

  lemma {:induction false} SortBytes(items: seq<Item>)
    ensures TotalBytes(Sort(items, Older)) == TotalBytes(items) && |Sort(items, Older)| == |items|
  {
    if items == [] {
    } else {
      SortBytes(items[..|items| - 1]);
      InsertBytes(Sort(items[..|items| - 1], Older), items[|items| - 1]);
    }
  }

  lemma {:induction false} UniquePermuted(a: seq<Item>, b: seq<Item>)
    requires multiset(a) == multiset(b) && WellFormed(a)
    ensures WellFormed(b)
  {
    forall i | 0 <= i < |b|
      ensures b[i].integrity == Valid <==> b[i].createdAt.Some?
    {
      assert b[i] in multiset(a);
    }
    forall i, j | 0 <= i < j < |b|
      ensures b[i].id != b[j].id
    {
      TwoPlaces(b, i, j);
      DistinctPlaces(a, b[i], b[j]);
    }
  }

  lemma TwoPlaces(s: seq<Item>, i: nat, j: nat)
    requires i < j < |s|
    ensures multiset{s[i], s[j]} <= multiset(s)
  {
    assert s == s[..i] + [s[i]] + s[i + 1..j] + [s[j]] + s[j + 1..];
  }

  lemma ApartFromLast(s: seq<Item>)
    requires s != [] && WellFormed(s)
    ensures var front, last := s[..|s| - 1], s[|s| - 1];
            && WellFormed(front) && multiset(s) == multiset(front) + multiset{last}
            && forall z: Item | z in multiset(front) :: z.id != last.id
  {
    assert s == s[..|s| - 1] + [s[|s| - 1]];
  }

  lemma {:induction false} DistinctPlaces(s: seq<Item>, x: Item, y: Item)
    requires multiset{x, y} <= multiset(s) && WellFormed(s)
    ensures x.id != y.id
  {
    hide WellFormed;
    if s == [] {
    } else {
      var front, last := s[..|s| - 1], s[|s| - 1];
      ApartFromLast(s);
      if x != last && y != last {
        DistinctPlaces(front, x, y);
      }
    }
  }

  // -- What the planner is to compute --

  predicate IsEligible(item: Item) {
    item.integrity == Valid && !item.shielded
  }

  function Eligible(items: seq<Item>): seq<Item> {
    if items == [] then []
    else
      var last := items[|items| - 1];
      Eligible(items[..|items| - 1]) + if IsEligible(last) then [last] else []
  }

  // The deletable artifacts, oldest first.
  function Queue(items: seq<Item>): seq<Item> {
    Eligible(Sort(items, Older))
  }

  predicate Expired(item: Item, policy: Policy, now: int) {
    policy.maxAge.Some? && item.createdAt.Some? && item.createdAt.value <= now - policy.maxAge.value
  }

  predicate CountOver(policy: Policy, count: int) {
    policy.maxArtifacts.Some? && count > policy.maxArtifacts.value
  }

  predicate BytesOver(policy: Policy, bytes: int) {
    policy.maxBytes.Some? && bytes > policy.maxBytes.value
  }

  function CountAfter(items: seq<Item>, i: nat): int {
    |items| - i
  }

  function BytesAfter(items: seq<Item>, i: nat): int
    requires i <= |Queue(items)|
  {
    TotalBytes(items) - TotalBytes(Queue(items)[..i])
  }

  predicate WithinLimits(items: seq<Item>, policy: Policy, i: nat)
    requires i <= |Queue(items)|
  {
    !CountOver(policy, CountAfter(items, i)) && !BytesOver(policy, BytesAfter(items, i))
  }

  predicate NoneExpiredFrom(items: seq<Item>, policy: Policy, now: int, i: nat)
    requires i <= |Queue(items)|
  {
    forall j | i <= j < |Queue(items)| :: !Expired(Queue(items)[j], policy, now)
  }

  // Deleting the first i of the queue leaves nothing expired and no limit exceeded.
  predicate Enough(items: seq<Item>, policy: Policy, now: int, i: nat)
    requires i <= |Queue(items)|
  {
    NoneExpiredFrom(items, policy, now, i) && WithinLimits(items, policy, i)
  }

  // The shortest prefix of the queue that is enough, or all of it.
  function Cut(items: seq<Item>, policy: Policy, now: int, i: nat): (cut: nat)
    requires i <= |Queue(items)|
    ensures i <= cut <= |Queue(items)|
    ensures forall j | i <= j < cut :: !Enough(items, policy, now, j)
    ensures cut < |Queue(items)| ==> Enough(items, policy, now, cut)
    decreases |Queue(items)| - i
  {
    if i == |Queue(items)| || Enough(items, policy, now, i) then i else Cut(items, policy, now, i + 1)
  }

  // Why the i-th of the queue goes.
  function ReasonsAt(items: seq<Item>, policy: Policy, now: int, i: nat): seq<Reason>
    requires i < |Queue(items)|
  {
    if Expired(Queue(items)[i], policy, now) then [Age]
    else
      (if CountOver(policy, CountAfter(items, i)) then [TooMany] else [])
      + (if BytesOver(policy, BytesAfter(items, i)) then [TooLarge] else [])
  }

  function CandidateAt(items: seq<Item>, policy: Policy, now: int, i: nat): Candidate
    requires i < |Queue(items)|
  {
    Candidate(Queue(items)[i].id, Queue(items)[i].size, ReasonsAt(items, policy, now, i))
  }

  // The plan that deletes exactly the shortest sufficient prefix.
  ghost predicate IsPlan(items: seq<Item>, policy: Policy, now: int, plan: Plan) {
    var cut := Cut(items, policy, now, 0);
    && plan.policy == policy
    && |plan.candidates| == cut
    && (forall i | 0 <= i < cut :: plan.candidates[i] == CandidateAt(items, policy, now, i))
    && plan.remainingArtifacts == CountAfter(items, cut)
    && plan.remainingBytes == BytesAfter(items, cut)
    && (plan.satisfiesPolicy <==> Enough(items, policy, now, cut))
  }

  // -- plan_artifact_collection --

  lemma {:induction false} EligibleMembers(items: seq<Item>)
    ensures forall x :: x in Eligible(items) <==> x in items && IsEligible(x)
  {
    if items == [] {
    } else {
      var front, last := items[..|items| - 1], items[|items| - 1];
      assert items == front + [last];
      EligibleMembers(front);
    }
  }

  lemma {:induction false} EligibleShape(items: seq<Item>)
    requires WellFormed(items) && Sorted(items, Older)
    ensures Sorted(Eligible(items), Older) && WellFormed(Eligible(items))
  {
    if items == [] {
    } else {
      hide IsEligible, Older;
      var front, last := items[..|items| - 1], items[|items| - 1];
      assert items == front + [last];
      SortedFront(items, Older);
      EligibleShape(front);
      EligibleMembers(front);
      forall i | 0 <= i < |Eligible(front)|
        ensures Older(Eligible(front)[i], last) && Eligible(front)[i].id != last.id
      {
        LastApart(items, Eligible(front)[i]);
      }
    }
  }

  lemma LastApart(items: seq<Item>, x: Item)
    requires WellFormed(items) && Sorted(items, Older) && items != [] && x in items[..|items| - 1]
    ensures Older(x, items[|items| - 1]) && x.id != items[|items| - 1].id
  {
  }

  lemma QueueShape(items: seq<Item>)
    requires WellFormed(items)
    ensures Sorted(Queue(items), Older) && WellFormed(Queue(items))
    ensures forall x :: x in Queue(items) <==> x in items && IsEligible(x)
    ensures WellFormed(Sort(items, Older)) && Sorted(Sort(items, Older), Older)
  {
    OlderIsOrder();
    SortSorts(items, Older);
    UniquePermuted(items, Sort(items, Older));
    EligibleShape(Sort(items, Older));
    EligibleMembers(Sort(items, Older));
    forall x
      ensures x in items <==> x in Sort(items, Older)
    {
      assert x in multiset(items) <==> x in multiset(Sort(items, Older));
    }
  }

  // Whatever is older than something expired has expired.
  lemma ExpiredComeFirst(items: seq<Item>, policy: Policy, now: int, i: nat, j: nat)
    requires WellFormed(items) && i <= j < |Queue(items)| && Expired(Queue(items)[j], policy, now)
    ensures Expired(Queue(items)[i], policy, now)
  {
    QueueShape(items);
    if i < j {
      assert Older(Queue(items)[i], Queue(items)[j]);
    }
  }

  function ExpiredCount(items: seq<Item>, policy: Policy, now: int, i: nat): (count: nat)
    requires i <= |Queue(items)|
    ensures count <= i
  {
    if i == 0 then 0
    else ExpiredCount(items, policy, now, i - 1) + if Expired(Queue(items)[i - 1], policy, now) then 1 else 0
  }

  // The expired are the first of the queue.
  lemma {:induction false} ExpiredPrefix(items: seq<Item>, policy: Policy, now: int, i: nat)
    requires WellFormed(items) && i <= |Queue(items)|
    ensures var e := ExpiredCount(items, policy, now, i);
            forall j | 0 <= j < i :: Expired(Queue(items)[j], policy, now) <==> j < e
  {
    if i == 0 {
    } else {
      ExpiredPrefix(items, policy, now, i - 1);
      if Expired(Queue(items)[i - 1], policy, now) && i >= 2 {
        ExpiredComeFirst(items, policy, now, i - 2, i - 1);
      }
    }
  }

  function Ids(items: seq<Item>): set<Id> {
    set x | x in items :: x.id
  }

  lemma IdsOfPrefix(items: seq<Item>, m: nat, i: nat)
    requires WellFormed(items) && m <= |items| && i < |items|
    ensures items[i].id in Ids(items[..m]) <==> i < m
    ensures i == m ==> Ids(items[..m + 1]) == Ids(items[..m]) + {items[m].id}
  {
    if items[i].id in Ids(items[..m]) {
      var x :| x in items[..m] && x.id == items[i].id;
      var j :| 0 <= j < m && items[..m][j] == x;
      assert items[j].id == items[i].id;
    }
    if i < m {
      assert items[..m][i] == items[i];
    }
    if i == m {
      assert items[..m + 1] == items[..m] + [items[m]];
    }
  }

  // What is recorded once the first m of the queue are selected.
  ghost predicate ReasonsFor(items: seq<Item>, policy: Policy, now: int, reasons: map<Id, seq<Reason>>, m: nat) {
    && m <= |Queue(items)|
    && reasons.Keys == Ids(Queue(items)[..m])
    && forall i | 0 <= i < m ::
         Queue(items)[i].id in reasons && reasons[Queue(items)[i].id] == ReasonsAt(items, policy, now, i)
  }

  lemma SelectNext(items: seq<Item>, policy: Policy, now: int, reasons: map<Id, seq<Reason>>, m: nat)
    requires WellFormed(items) && m < |Queue(items)| && ReasonsFor(items, policy, now, reasons, m)
    ensures Queue(items)[m].id !in reasons
    ensures ReasonsFor(items, policy, now, reasons[Queue(items)[m].id := ReasonsAt(items, policy, now, m)], m + 1)
  {
    hide ReasonsAt, Queue, WellFormed;
    QueueShape(items);
    IdsOfPrefix(Queue(items), m, m);
    forall i | 0 <= i < m
      ensures Queue(items)[i].id != Queue(items)[m].id
    {
      IdsOfPrefix(Queue(items), m, i);
    }
  }

  // -- The expired --

  method SelectExpired(items: seq<Item>, policy: Policy, now: int) returns (reasons: map<Id, seq<Reason>>)
    requires WellFormed(items)
    ensures ReasonsFor(items, policy, now, reasons, ExpiredCount(items, policy, now, |Queue(items)|))
  {
    hide ReasonsFor, Queue, WellFormed;
    var eligible := Queue(items);
    reasons := map[];
    NothingSelected(items, policy, now);
    if policy.maxAge.Some? {
      for i := 0 to |eligible|
        invariant ReasonsFor(items, policy, now, reasons, ExpiredCount(items, policy, now, i))
      {
        if Expired(eligible[i], policy, now) {
          ExpiredPrefix(items, policy, now, i + 1);
          SelectNext(items, policy, now, reasons, i);
          reasons := reasons[eligible[i].id := [Age]];
        }
      }
    } else {
      NoneExpires(items, policy, now, |eligible|);
    }
  }

  lemma NothingSelected(items: seq<Item>, policy: Policy, now: int)
    ensures ReasonsFor(items, policy, now, map[], 0)
  {
  }

  lemma {:induction false} NoneExpires(items: seq<Item>, policy: Policy, now: int, i: nat)
    requires policy.maxAge.None? && i <= |Queue(items)|
    ensures ExpiredCount(items, policy, now, i) == 0
  {
    if i == 0 {
    } else {
      NoneExpires(items, policy, now, i - 1);
    }
  }

  // -- The limits on number and size --

  lemma CutCoversExpired(items: seq<Item>, policy: Policy, now: int)
    requires WellFormed(items)
    ensures ExpiredCount(items, policy, now, |Queue(items)|) <= Cut(items, policy, now, 0)
  {
    var n, cut := |Queue(items)|, Cut(items, policy, now, 0);
    ExpiredPrefix(items, policy, now, n);
    if cut < n {
      assert !Expired(Queue(items)[cut], policy, now);
    }
  }

  // Selected after visiting the first i of the queue.
  function SelectedAt(items: seq<Item>, policy: Policy, now: int, i: nat): nat {
    Max(ExpiredCount(items, policy, now, |Queue(items)|), Min(i, Cut(items, policy, now, 0)))
  }

  // Past the expired, an item is selected exactly while a limit is exceeded.
  lemma LimitsDecide(items: seq<Item>, policy: Policy, now: int, i: nat)
    requires WellFormed(items) && i < |Queue(items)|
    ensures SelectedAt(items, policy, now, i) <= |Queue(items)|
    ensures var m := SelectedAt(items, policy, now, i);
            if i < m then SelectedAt(items, policy, now, i + 1) == m
            else if WithinLimits(items, policy, m) then SelectedAt(items, policy, now, i + 1) == m
            else i == m && SelectedAt(items, policy, now, i + 1) == m + 1 && !Expired(Queue(items)[i], policy, now)
  {
    hide Queue, WithinLimits, Expired;
    var n := |Queue(items)|;
    ExpiredPrefix(items, policy, now, n);
    CutCoversExpired(items, policy, now);
    assert i < Cut(items, policy, now, 0) ==> !Enough(items, policy, now, i);
  }

  method SelectByLimits(items: seq<Item>, policy: Policy, now: int, expired: map<Id, seq<Reason>>)
    returns (reasons: map<Id, seq<Reason>>, count: int, bytes: int)
    requires WellFormed(items)
    requires ReasonsFor(items, policy, now, expired, ExpiredCount(items, policy, now, |Queue(items)|))
    ensures var cut := Cut(items, policy, now, 0);
            ReasonsFor(items, policy, now, reasons, cut) && count == CountAfter(items, cut)
                && bytes == BytesAfter(items, cut)
  {
    hide ReasonsFor, Queue, WellFormed, BytesAfter, CountAfter, Cut, SelectedAt, ExpiredCount;
    var eligible := Queue(items);
    reasons := expired;
    count := |items| - |reasons.Keys|;
    bytes := TotalBytes(items) - SelectedBytes(eligible, reasons.Keys, |eligible|);
    StartingTotals(items, policy, now, expired);
    for i := 0 to |eligible|
      invariant SelectedAt(items, policy, now, i) <= |eligible|
      invariant ReasonsFor(items, policy, now, reasons, SelectedAt(items, policy, now, i))
      invariant count == CountAfter(items, SelectedAt(items, policy, now, i))
      invariant bytes == BytesAfter(items, SelectedAt(items, policy, now, i))
    {
      LimitsDecide(items, policy, now, i);
      ghost var m := SelectedAt(items, policy, now, i);
      AlreadySelected(items, policy, now, reasons, m, i);
      if eligible[i].id in reasons {
        continue;
      }
      var why := (if CountOver(policy, count) then [TooMany] else [])
          + (if BytesOver(policy, bytes) then [TooLarge] else []);
      if why == [] {
        continue;
      }
      SelectNext(items, policy, now, reasons, i);
      TotalsStep(items, i);
      reasons := reasons[eligible[i].id := why];
      count := count - 1;
      bytes := bytes - eligible[i].size;
    }
    EndsAtCut(items, policy, now);
  }

  function SelectedBytes(eligible: seq<Item>, ids: set<Id>, i: nat): nat
    requires i <= |eligible|
  {
    if i == 0 then 0
    else SelectedBytes(eligible, ids, i - 1) + if eligible[i - 1].id in ids then eligible[i - 1].size else 0
  }

  lemma {:induction false} SelectedBytesOfPrefix(eligible: seq<Item>, m: nat, i: nat)
    requires WellFormed(eligible) && m <= |eligible| && i <= |eligible|
    ensures SelectedBytes(eligible, Ids(eligible[..m]), i) == TotalBytes(eligible[..Min(m, i)])
  {
    if i == 0 {
    } else {
      SelectedBytesOfPrefix(eligible, m, i - 1);
      IdsOfPrefix(eligible, m, i - 1);
      assert i <= m ==> eligible[..i][..i - 1] == eligible[..i - 1];
    }
  }

  lemma {:induction false} IdsSize(items: seq<Item>, m: nat)
    requires WellFormed(items) && m <= |items|
    ensures |Ids(items[..m])| == m
  {
    if m == 0 {
    } else {
      IdsSize(items, m - 1);
      IdsOfPrefix(items, m - 1, m - 1);
    }
  }

  lemma StartingTotals(items: seq<Item>, policy: Policy, now: int, expired: map<Id, seq<Reason>>)
    requires WellFormed(items)
    requires ReasonsFor(items, policy, now, expired, ExpiredCount(items, policy, now, |Queue(items)|))
    ensures var e := ExpiredCount(items, policy, now, |Queue(items)|);
            && SelectedAt(items, policy, now, 0) == e
            && |items| - |expired.Keys| == CountAfter(items, e)
            && TotalBytes(items) - SelectedBytes(Queue(items), expired.Keys, |Queue(items)|) == BytesAfter(items, e)
  {
    hide Queue, WellFormed;
    var e := ExpiredCount(items, policy, now, |Queue(items)|);
    QueueShape(items);
    IdsSize(Queue(items), e);
    SelectedBytesOfPrefix(Queue(items), e, |Queue(items)|);
  }

  lemma AlreadySelected(items: seq<Item>, policy: Policy, now: int, reasons: map<Id, seq<Reason>>, m: nat, i: nat)
    requires WellFormed(items) && i < |Queue(items)| && ReasonsFor(items, policy, now, reasons, m)
    ensures Queue(items)[i].id in reasons <==> i < m
  {
    hide Queue, WellFormed;
    QueueShape(items);
    IdsOfPrefix(Queue(items), m, i);
  }

  lemma TotalsStep(items: seq<Item>, i: nat)
    requires i < |Queue(items)|
    ensures CountAfter(items, i + 1) == CountAfter(items, i) - 1
    ensures BytesAfter(items, i + 1) == BytesAfter(items, i) - Queue(items)[i].size
  {
    hide Queue;
    assert Queue(items)[..i + 1][..i] == Queue(items)[..i];
  }

  lemma EndsAtCut(items: seq<Item>, policy: Policy, now: int)
    requires WellFormed(items)
    ensures SelectedAt(items, policy, now, |Queue(items)|) == Cut(items, policy, now, 0)
  {
    CutCoversExpired(items, policy, now);
  }

  // -- The plan --

  method ListCandidates(items: seq<Item>, policy: Policy, now: int, reasons: map<Id, seq<Reason>>, ghost m: nat)
    returns (candidates: seq<Candidate>)
    requires WellFormed(items) && ReasonsFor(items, policy, now, reasons, m)
    ensures |candidates| == m && forall i | 0 <= i < m :: candidates[i] == CandidateAt(items, policy, now, i)
  {
    hide ReasonsFor, Queue, WellFormed, Sort, Eligible, CandidateAt;
    var ordered := Sort(items, Older);
    candidates := [];
    NoneListed(items, m);
    assert m <= |Queue(items)| by {
      SelectedFit(items, policy, now, reasons, m);
    }
    for j := 0 to |ordered|
      invariant |candidates| == Min(m, |Eligible(ordered[..j])|) <= |Queue(items)|
      invariant forall i | 0 <= i < |candidates| :: candidates[i] == CandidateAt(items, policy, now, i)
    {
      ListedStep(items, policy, now, reasons, m, j);
      if ordered[j].id in reasons {
        candidates := candidates + [Candidate(ordered[j].id, ordered[j].size, reasons[ordered[j].id])];
      }
    }
    AllListed(items);
  }

  lemma NoneListed(items: seq<Item>, m: nat)
    ensures Eligible(Sort(items, Older)[..0]) == []
  {
  }

  lemma SelectedFit(items: seq<Item>, policy: Policy, now: int, reasons: map<Id, seq<Reason>>, m: nat)
    requires ReasonsFor(items, policy, now, reasons, m)
    ensures m <= |Queue(items)|
  {
  }

  lemma AllListed(items: seq<Item>)
    ensures Eligible(Sort(items, Older)[..|Sort(items, Older)|]) == Queue(items)
  {
    assert Sort(items, Older)[..|Sort(items, Older)|] == Sort(items, Older);
  }

  lemma {:induction false} EligiblePrefix(items: seq<Item>, i: nat, j: nat)
    requires i <= j <= |items|
    ensures Eligible(items[..i]) <= Eligible(items[..j])
    ensures i < j && IsEligible(items[i]) ==>
      |Eligible(items[..i])| < |Eligible(items[..j])| && Eligible(items[..j])[|Eligible(items[..i])|] == items[i]
    decreases j
  {
    if i == j {
    } else {
      assert items[..j][..j - 1] == items[..j - 1];
      EligiblePrefix(items, i, j - 1);
    }
  }

  // The next item in order is selected exactly if it is among the first m of the queue.
  lemma ListedStep(items: seq<Item>, policy: Policy, now: int, reasons: map<Id, seq<Reason>>, m: nat, j: nat)
    requires WellFormed(items) && j < |Sort(items, Older)| && ReasonsFor(items, policy, now, reasons, m)
    ensures var ordered := Sort(items, Older);
            var c := |Eligible(ordered[..j])|;
            && c <= |Eligible(ordered[..j + 1])| <= |Queue(items)|
            && (if ordered[j].id in reasons then
                  c < m && |Eligible(ordered[..j + 1])| == c + 1
                  && Candidate(ordered[j].id, ordered[j].size, reasons[ordered[j].id])
                       == CandidateAt(items, policy, now, c)
                else Min(m, |Eligible(ordered[..j + 1])|) == Min(m, c))
  {
    hide ReasonsAt, WellFormed, Sort, Eligible, IsEligible, Queue;
    var ordered := Sort(items, Older);
    QueueShape(items);
    AllListed(items);
    EligibleNext(ordered, j);
    EligiblePrefix(ordered, j, |ordered|);
    EligiblePrefix(ordered, j + 1, |ordered|);
    var c := |Eligible(ordered[..j])|;
    if IsEligible(ordered[j]) {
      AlreadySelected(items, policy, now, reasons, m, c);
    } else if ordered[j].id in reasons {
      IneligibleIsNotSelected(items, m, j);
    }
  }

  lemma EligibleNext(ordered: seq<Item>, j: nat)
    requires j < |ordered|
    ensures Eligible(ordered[..j + 1]) == Eligible(ordered[..j]) + if IsEligible(ordered[j]) then [ordered[j]] else []
  {
    assert ordered[..j + 1][..j] == ordered[..j];
  }

  lemma IneligibleIsNotSelected(items: seq<Item>, m: nat, j: nat)
    requires WellFormed(items) && j < |Sort(items, Older)| && !IsEligible(Sort(items, Older)[j]) && m <= |Queue(items)|
    ensures Sort(items, Older)[j].id !in Ids(Queue(items)[..m])
  {
    QueueShape(items);
    OlderIsOrder();
    SortSorts(items, Older);
    forall x | x in Queue(items)[..m]
      ensures x.id != Sort(items, Older)[j].id
    {
      assert x in Queue(items);
      assert x in multiset(Sort(items, Older));
      var k :| 0 <= k < |Sort(items, Older)| && Sort(items, Older)[k] == x;
      assert k != j;
    }
  }

  method PlanArtifactCollection(items: seq<Item>, policy: Policy, now: int) returns (plan: Plan)
    requires WellFormed(items)
    ensures IsPlan(items, policy, now, plan)
  {
    hide ReasonsFor, Queue, WellFormed, BytesAfter, CountAfter, Cut, CandidateAt, Sort, ExpiredCount;
    var expired := SelectExpired(items, policy, now);
    var reasons, count, bytes := SelectByLimits(items, policy, now, expired);
    var candidates := ListCandidates(items, policy, now, reasons, Cut(items, policy, now, 0));
    var satisfies := !CountOver(policy, count) && !BytesOver(policy, bytes)
      && forall x | x in Sort(items, Older) ::
           x.shielded || x.integrity in {Corrupt, Incompatible} || !Expired(x, policy, now) || x.id in reasons;
    NoExpiredRemains(items, policy, now, reasons);
    plan := Plan(policy, candidates, count, bytes, satisfies);
  }

  lemma NoExpiredRemains(items: seq<Item>, policy: Policy, now: int, reasons: map<Id, seq<Reason>>)
    requires WellFormed(items) && ReasonsFor(items, policy, now, reasons, Cut(items, policy, now, 0))
    ensures NoneExpiredFrom(items, policy, now, Cut(items, policy, now, 0))
    ensures forall x | x in Sort(items, Older) ::
      x.shielded || x.integrity in {Corrupt, Incompatible} || !Expired(x, policy, now) || x.id in reasons
  {
    hide WellFormed, Sort;
    QueueShape(items);
    OlderIsOrder();
    SortSorts(items, Older);
    forall x | x in Sort(items, Older) && IsEligible(x) && Expired(x, policy, now)
      ensures x.id in reasons
    {
      assert x in multiset(items);
      var i :| 0 <= i < |Queue(items)| && Queue(items)[i] == x;
      ExpiredSelected(items, policy, now, i);
    }
    forall j | Cut(items, policy, now, 0) <= j < |Queue(items)|
      ensures !Expired(Queue(items)[j], policy, now)
    {
      ExpiredSelected(items, policy, now, j);
    }
  }

  lemma ExpiredSelected(items: seq<Item>, policy: Policy, now: int, i: nat)
    requires WellFormed(items) && i < |Queue(items)|
    ensures Expired(Queue(items)[i], policy, now) ==> i < Cut(items, policy, now, 0)
  {
    ExpiredPrefix(items, policy, now, |Queue(items)|);
    CutCoversExpired(items, policy, now);
  }
}
