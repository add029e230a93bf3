// The run store as the mutable object its callers hold.
//
// Each method is one transaction.  It either commits the state that the
// corresponding function of RunRecords describes, or fails and leaves the
// tables as they were.
module RunStores {
  import opened Prelude
  import opened RunRecords
  import opened RunInvariants

  class RunStore {
    var runs: map<RunId, Row>
    var events: map<RunId, seq<Event>>

    ghost function Contents(): Db
      reads this
    {
      Db(runs, events)
    }

    constructor ()
      ensures Contents() == EMPTY_DB && Valid(Contents())
    {
      runs := map[];
      events := map[];
    }

    // COALESCE(MAX(sequence), 0) + 1, then the insert.
    method InsertEvent(id: RunId, kind: EventKind, status: Status, message: string, now: Time)
      modifies this`events
      ensures events == old(events)[id := WithEvent(LogOf(old(Contents()), id), kind, status, message, now)]
    {
      var log := if id in events then events[id] else [];
      events := events[id := log + [Event(MaxSequence(log) + 1, kind, status, message, now)]];
    }

    // UPDATE of one row followed by its event.
    method UpdateRun(id: RunId, row: Row, kind: EventKind, message: string, now: Time)
      modifies this
      ensures Contents() == Write(old(Contents()), id, row, kind, message, now)
    {
      runs := runs[id := row];
      InsertEvent(id, kind, row.status, message, now);
    }

    method CreateHistoryRun(id: RunId, historyPair: int, repositoryId: string, now: Time)
      returns (outcome: Result<RunId, StoreError>)
      requires Valid(Contents())
      modifies this
      ensures Valid(Contents()) && Later(old(Contents()), Contents())
      ensures Contents() == Apply(old(Contents()), OpCreate(id, repositoryId, historyPair, now))
      ensures outcome.Success? <==> historyPair > 0 && id !in old(runs)
    {
      ApplyKeepsValid(Contents(), OpCreate(id, repositoryId, historyPair, now));
      if historyPair <= 0 {
        return Failure(InvalidValue);
      }
      if id in runs {
        return Failure(DuplicateRun);
      }
      UpdateRun(id, NewRow(repositoryId, historyPair, None, now), StatusChange, QUEUED_MESSAGE, now);
      return Success(id);
    }

    // The run_id that ORDER BY key, run_id LIMIT 1 selects.
    method SelectFirst(keys: map<RunId, int>) returns (first: Option<RunId>)
      ensures first.None? <==> keys == map[]
      ensures first.Some? ==> IsFirst(keys, first.value)
    {
      first := None;
      var rest := keys.Keys;
      while rest != {}
        invariant rest <= keys.Keys
        invariant first.None? <==> rest == keys.Keys
        invariant first.Some? ==> first.value in keys && forall id | id in keys && id !in rest ::
          keys[first.value] < keys[id] || (keys[first.value] == keys[id] && first.value <= id)
        decreases |rest|
      {
        var id :| id in rest;
        rest := rest - {id};
        if first.None? || keys[id] < keys[first.value] || (keys[id] == keys[first.value] && id < first.value) {
          first := Some(id);
        }
      }
      if first.None? {
        assert keys.Keys == {};
      }
    }

    method AcquireHistoryRun(
        freshId: RunId, historyPair: int, fingerprint: Fingerprint, repositoryId: string, excluded: set<RunId>,
            now: Time)
      returns (outcome: Result<(RunId, Disposition), StoreError>)
      requires Valid(Contents())
      modifies this
      ensures Valid(Contents()) && Later(old(Contents()), Contents())
      ensures match Acquire(old(Contents()), freshId, historyPair, fingerprint, repositoryId, excluded, now)
              case Success(a) => Contents() == a.db && outcome == Success((a.run, a.disposition))
              case Failure(error) => Contents() == old(Contents()) && outcome == Failure(error)
    {
      hide Valid, Later, IsFirst, Write, NewRow;
      ApplyKeepsValid(Contents(), OpAcquire(freshId, historyPair, fingerprint, repositoryId, excluded, now));
      if historyPair <= 0 {
        return Failure(InvalidValue);
      }
      var active := map id | id in runs && runs[id].fingerprint == Some(fingerprint) && Active(runs[id].status)
        :: runs[id].createdAt;
      assert active == ActiveKeys(Contents(), fingerprint);
      var selected := SelectFirst(active);
      if selected.Some? {
        FirstUnique(active, selected.value, First(active));
        return Success((selected.value, ActiveRun));
      }
      var completed := map id | id in runs && runs[id].fingerprint == Some(fingerprint)
                             && runs[id].status == Completed && id !in excluded
        :: match runs[id].finishedAt case Some(t) => -t case None => 0;
      assert completed == CompletedKeys(Contents(), fingerprint, excluded);
      selected := SelectFirst(completed);
      if selected.Some? {
        FirstUnique(completed, selected.value, First(completed));
        return Success((selected.value, Artifact));
      }
      if freshId in runs {
        return Failure(DuplicateRun);
      }
      UpdateRun(freshId, NewRow(repositoryId, historyPair, Some(fingerprint), now), StatusChange, QUEUED_MESSAGE, now);
      return Success((freshId, New));
    }

    method ClaimLoop(now: Time) returns (claimed: Option<RunId>)
      modifies this
      ensures (Contents(), claimed) == ClaimNext(old(Contents()), now)
    {
      while true
        invariant ClaimNext(Contents(), now) == ClaimNext(old(Contents()), now)
        decreases |QueuedKeys(Contents())|
      {
        var queued := map id | id in runs && runs[id].status == Queued :: runs[id].createdAt;
        assert queued == QueuedKeys(Contents());
        var selected := SelectFirst(queued);
        if selected.None? {
          return None;
        }
        var id := selected.value;
        FirstUnique(queued, id, First(queued));
        ClaimNextTurns(Contents(), now);
        if runs[id].cancellationRequested {
          UpdateRun(id, runs[id].(status := Cancelled, finishedAt := Some(now)), StatusChange, CANCELLED_MESSAGE, now);
          continue;
        }
        UpdateRun(id, runs[id].(status := Running, startedAt := Some(now)), StatusChange, STARTED_MESSAGE, now);
        return Some(id);
      }
    }

    method ClaimNextRun(now: Time) returns (claimed: Option<RunId>)
      requires Valid(Contents())
      modifies this
      ensures Valid(Contents()) && Later(old(Contents()), Contents())
      ensures (Contents(), claimed) == ClaimNext(old(Contents()), now)
    {
      ClaimNextKeepsValid(Contents(), now);
      claimed := ClaimLoop(now);
    }

    // SELECT run_id FROM runs WHERE status = 'running', in whatever order.
    method FailLoop(now: Time) returns (count: nat)
      requires runs.Keys == events.Keys
      modifies this
      ensures Contents() == FailAbandoned(old(Contents()), now)
      ensures count == |RunningIds(old(Contents()))|
    {
      hide FailEach, Write, FailAbandoned, AbandonedRow, RunningIds;
      var ids := RunningIds(Db(runs, events));
      var rest := ids;
      ghost var before, done: set<RunId> := Contents(), {};
      RunningAreRuns(before);
      NoneFailed(before, now);
      while rest != {}
        invariant done !! rest && done + rest == ids
        invariant Contents() == FailEach(before, done, now)
        decreases |rest|
      {
        var id :| id in rest;
        FailOneMore(before, done, id, now);
        StillRunning(before, done, id, now);
        UpdateRun(id, AbandonedRow(runs[id], now), StatusChange, ABANDONED.message, now);
        rest, done := rest - {id}, done + {id};
      }
      FailsTheRunning(before, done, now);
      return |ids|;
    }

    method FailAbandonedRuns(now: Time) returns (count: nat)
      requires Valid(Contents())
      modifies this
      ensures Valid(Contents()) && Later(old(Contents()), Contents())
      ensures Contents() == FailAbandoned(old(Contents()), now)
      ensures count == |RunningIds(old(Contents()))|
    {
      FailAbandonedKeepsValid(Contents(), now);
      count := FailLoop(now);
    }

    method AppendProgressEvent(id: RunId, message: string, now: Time) returns (outcome: Result<Event, StoreError>)
      requires Valid(Contents())
      modifies this
      ensures Valid(Contents()) && Later(old(Contents()), Contents())
      ensures Contents() == Apply(old(Contents()), OpAppendProgress(id, message, now))
      ensures outcome.Success? <==> message != "" && id in old(runs) && old(runs)[id].status == Running
      ensures outcome.Success? ==>
        LogOf(Contents(), id) == LogOf(old(Contents()), id) + [outcome.value]
            && outcome.value.sequence == |LogOf(Contents(), id)|
    {
      ApplyKeepsValid(Contents(), OpAppendProgress(id, message, now));
      if message == "" {
        return Failure(InvalidValue);
      }
      if id !in runs {
        return Failure(RunNotFound);
      }
      if runs[id].status != Running {
        return Failure(InvalidTransition);
      }
      MaxOfNumbered(LogOf(Contents(), id));
      UpdateRun(id, runs[id], Progress, message, now);
      var log := events[id];
      return Success(log[|log| - 1]);
    }

    method RequestRunCancellation(id: RunId, now: Time) returns (outcome: Result<RunId, StoreError>)
      requires Valid(Contents())
      modifies this
      ensures Valid(Contents()) && Later(old(Contents()), Contents())
      ensures Contents() == Commit(old(Contents()), RequestCancellation(old(Contents()), id, now))
      ensures outcome.Success? <==> id in old(runs) && old(runs)[id].status !in {Completed, Failed}
      ensures outcome.Success? ==> runs[id].cancellationRequested || runs[id].status == Cancelled
    {
      RequestKeepsValid(Contents(), id, now);
      if id !in runs {
        return Failure(RunNotFound);
      }
      var status := runs[id].status;
      if status == Cancelled {
        return Success(id);
      }
      if Terminal(status) {
        return Failure(InvalidTransition);
      }
      if !runs[id].cancellationRequested {
        UpdateRun(id, runs[id].(cancellationRequested := true), CancellationRequested, REQUESTED_MESSAGE, now);
      }
      return Success(id);
    }

    method TransitionRun(
        id: RunId, expected: set<Status>, status: Status, message: string, artifactId: Option<ArtifactId>,
        diagnostic: Option<Diagnostic>, setFinished: bool, rejectCancellation: bool, now: Time)
      returns (outcome: Result<RunId, StoreError>)
      modifies this
      ensures var result :=
        Transition(old(Contents()), id, expected, status, message, artifactId, diagnostic, setFinished,
            rejectCancellation, now);
              && Contents() == Commit(old(Contents()), result)
              && (outcome.Success? <==> result.Success?)
    {
      if id !in runs {
        return Failure(RunNotFound);
      }
      var row := runs[id];
      if row.status !in expected {
        return Failure(InvalidTransition);
      }
      if rejectCancellation && row.cancellationRequested {
        return Failure(InvalidTransition);
      }
      var finishedAt := if setFinished then Some(now) else row.finishedAt;
      UpdateRun(id, row.(status := status, artifactId := artifactId, diagnostic := diagnostic, finishedAt :=
        finishedAt),
                StatusChange, message, now);
      return Success(id);
    }

    method CompleteRun(id: RunId, artifactId: ArtifactId, now: Time) returns (outcome: Result<RunId, StoreError>)
      requires Valid(Contents())
      modifies this
      ensures Valid(Contents()) && Later(old(Contents()), Contents())
      ensures Contents() == Apply(old(Contents()), OpComplete(id, artifactId, now))
      ensures outcome.Success? <==>
        id in old(runs) && old(runs)[id].status == Running && !old(runs)[id].cancellationRequested
    {
      hide Valid, Later, Write;
      ApplyKeepsValid(Contents(), OpComplete(id, artifactId, now));
      outcome := TransitionRun(id, {Running}, Completed, PUBLISHED_MESSAGE, Some(artifactId), None, true, true, now);
    }

    method FailRun(id: RunId, diagnostic: Diagnostic, now: Time) returns (outcome: Result<RunId, StoreError>)
      requires Valid(Contents())
      modifies this
      ensures Valid(Contents()) && Later(old(Contents()), Contents())
      ensures Contents() == Apply(old(Contents()), OpFail(id, diagnostic, now))
      ensures outcome.Success? <==>
        diagnostic.code != "" && diagnostic.message != "" && id in old(runs) && Active(old(runs)[id].status)
    {
      hide Valid, Later, Write;
      ApplyKeepsValid(Contents(), OpFail(id, diagnostic, now));
      if diagnostic.code == "" || diagnostic.message == "" {
        return Failure(InvalidValue);
      }
      outcome := TransitionRun(id, {Queued, Running}, Failed, diagnostic.message, None, Some(diagnostic), true, false,
          now);
    }

    method CancelRun(id: RunId, now: Time) returns (outcome: Result<RunId, StoreError>)
      requires Valid(Contents())
      modifies this
      ensures Valid(Contents()) && Later(old(Contents()), Contents())
      ensures Contents() == Apply(old(Contents()), OpCancel(id, now))
      ensures outcome.Success? <==> id in old(runs) && Active(old(runs)[id].status)
    {
      hide Valid, Later, Write;
      ApplyKeepsValid(Contents(), OpCancel(id, now));
      outcome := TransitionRun(id, {Queued, Running}, Cancelled, CANCELLED_MESSAGE, None, None, true, false, now);
    }

    // SELECT ... WHERE sequence > after ORDER BY sequence LIMIT limit.
    method ReadEvents(id: RunId, after: int, limit: int) returns (outcome: Result<seq<Event>, StoreError>)
      requires Valid(Contents())
      ensures outcome == RunRecords.ReadEvents(Contents(), id, after, limit)
      ensures outcome.Success? <==> after >= 0 && 1 <= limit <= 500 && id in runs
      ensures outcome.Success? ==>
        var log := LogOf(Contents(), id);
        outcome.value == log[Min(after, |log|)..Min(after + limit, |log|)]
    {
      if after < 0 || !(1 <= limit <= 500) {
        return Failure(InvalidValue);
      }
      if id !in runs {
        return Failure(RunNotFound);
      }
      PageIsSlice(events[id], after, limit);
      return Success(Page(events[id], after, limit));
    }

    method ReferencedArtifactIds() returns (ids: set<ArtifactId>)
      requires Valid(Contents())
      ensures forall a :: a in ids <==>
        exists id :: id in runs && runs[id].status == Completed && runs[id].artifactId == Some(a)
    {
      ids := set id | id in runs && runs[id].artifactId.Some? :: runs[id].artifactId.value;
    }
  }
}
