// What the two selecting transactions choose: the claim loop and the
// single-flight acquisition, stated without their loops and queries.
module RunQueue {
  import opened Prelude
  import opened RunRecords
  import opened RunInvariants

  // ORDER BY created_at, run_id
  predicate Before(db: Db, a: RunId, b: RunId)
    requires a in db.runs && b in db.runs
  {
    db.runs[a].createdAt < db.runs[b].createdAt || (db.runs[a].createdAt == db.runs[b].createdAt && a < b)
  }

  predicate Waiting(db: Db, id: RunId) {
    id in db.runs && db.runs[id].status == Queued
  }

  predicate Claimable(db: Db, id: RunId) {
    Waiting(db, id) && !db.runs[id].cancellationRequested
  }

  // Which queued runs the claim disposes of before it stops.
  ghost predicate Dropped(db: Db, claimed: Option<RunId>, id: RunId)
    requires claimed.Some? ==> claimed.value in db.runs
  {
    && Waiting(db, id) && db.runs[id].cancellationRequested
    && (claimed.Some? ==> Before(db, id, claimed.value))
  }

  ghost predicate ClaimOutcome(db: Db, now: Time, next: Db, claimed: Option<RunId>) {
    && next.runs.Keys == db.runs.Keys
    && (match claimed
        case None => forall id :: !Claimable(db, id)
        case Some(c) => Claimable(db, c) && forall id | Claimable(db, id) && id != c :: Before(db, c, id))
    && forall id | id in db.runs ::
         next.runs[id] ==
           if claimed == Some(id) then db.runs[id].(status := Running, startedAt := Some(now))
           else if Dropped(db, claimed, id) then db.runs[id].(status := Cancelled, finishedAt := Some(now))
           else db.runs[id]
  }

  // claim_next starts the oldest queued run whose cancellation was not
  // requested, cancels exactly the requested ones queued before it, and
  // touches no other row.
  lemma {:induction false} ClaimNextOutcome(db: Db, now: Time)
    ensures var (next, claimed) := ClaimNext(db, now); ClaimOutcome(db, now, next, claimed)
    decreases |QueuedKeys(db)|
  {
    var queued := QueuedKeys(db);
    if queued == map[] {
      assert forall id | id in db.runs :: id !in queued;
    } else {
      var id := First(queued);
      ClaimNextTurns(db, now);
      assert forall other | Waiting(db, other) && other != id :: Before(db, id, other) by {
        forall other | Waiting(db, other) && other != id ensures Before(db, id, other) {
          assert other in queued;
        }
      }
      if db.runs[id].cancellationRequested {
        var turn := ClaimTurn(db, now);
        ClaimNextOutcome(turn, now);
        ClaimTurnExtends(db, now, ClaimNext(turn, now).0, ClaimNext(turn, now).1);
      }
    }
  }

  lemma ClaimTurnExtends(db: Db, now: Time, next: Db, claimed: Option<RunId>)
    requires QueuedKeys(db) != map[] && db.runs[First(QueuedKeys(db))].cancellationRequested
    requires forall other | Waiting(db, other) && other != First(QueuedKeys(db)) ::
      Before(db, First(QueuedKeys(db)), other)
    requires ClaimOutcome(ClaimTurn(db, now), now, next, claimed)
    ensures ClaimOutcome(db, now, next, claimed)
  {
    hide ClaimOutcome, Before;
    var first := First(QueuedKeys(db));
    FirstDropped(db, first, ClaimTurn(db, now), now, next, claimed);
  }

  lemma FirstDropped(db: Db, first: RunId, turn: Db, now: Time, next: Db, claimed: Option<RunId>)
    requires Waiting(db, first) && db.runs[first].cancellationRequested
    requires forall other | Waiting(db, other) && other != first :: Before(db, first, other)
    requires turn.runs == db.runs[first := db.runs[first].(status := Cancelled, finishedAt := Some(now))]
    requires ClaimOutcome(turn, now, next, claimed)
    ensures ClaimOutcome(db, now, next, claimed)
  {
    assert forall id :: Claimable(turn, id) <==> Claimable(db, id);
    assert claimed.Some? ==> Before(db, first, claimed.value);
    forall id | id in db.runs && id != first
      ensures turn.runs[id] == db.runs[id] && (Dropped(turn, claimed, id) <==> Dropped(db, claimed, id))
    {
    }
  }

  ghost predicate IsActive(db: Db, fingerprint: Fingerprint, id: RunId) {
    id in db.runs && db.runs[id].fingerprint == Some(fingerprint) && Active(db.runs[id].status)
  }

  ghost predicate IsReusable(db: Db, fingerprint: Fingerprint, excluded: set<RunId>, id: RunId) {
    id in db.runs && db.runs[id].fingerprint == Some(fingerprint) && db.runs[id].status == Completed && id !in excluded
  }

  // The three dispositions are decided by what the store holds, and the run
  // that is returned is determined by it.
  lemma AcquireOutcome(
      db: Db, freshId: RunId, historyPair: int, fingerprint: Fingerprint, repositoryId: string, excluded: set<RunId>,
          now: Time)
    requires Valid(db) && historyPair > 0 && freshId !in db.runs
    ensures var result := Acquire(db, freshId, historyPair, fingerprint, repositoryId, excluded, now);
      && result.Success?
      && var a := result.value;
         && (a.disposition == ActiveRun <==> exists id :: IsActive(db, fingerprint, id))
         && (a.disposition == New <==>
               !exists id :: IsActive(db, fingerprint, id) || IsReusable(db, fingerprint, excluded, id))
         && (a.disposition != New ==> a.db == db)
         && (a.disposition == ActiveRun ==> forall id :: IsActive(db, fingerprint, id) <==> id == a.run)
         && (a.disposition == Artifact ==>
               && IsReusable(db, fingerprint, excluded, a.run)
               && forall id | IsReusable(db, fingerprint, excluded, id) ::
                    db.runs[id].finishedAt.value <= db.runs[a.run].finishedAt.value)
         && (a.disposition == New ==>
               && a.run == freshId
               && a.db.runs == db.runs[freshId := NewRow(repositoryId, historyPair, Some(fingerprint), now)])
  {
    var active := ActiveKeys(db, fingerprint);
    var completed := CompletedKeys(db, fingerprint, excluded);
    assert forall id :: IsActive(db, fingerprint, id) <==> id in active;
    assert forall id :: IsReusable(db, fingerprint, excluded, id) <==> id in completed;
    if active != map[] {
      var first := First(active);
      assert IsActive(db, fingerprint, first);
    } else if completed != map[] {
      var first := First(completed);
      forall id | IsReusable(db, fingerprint, excluded, id)
        ensures db.runs[id].finishedAt.value <= db.runs[first].finishedAt.value
      {
        assert RunValid(db.runs[id], db.events[id]);
      }
    }
  }
}
