// The reuse loop of the run-creation endpoint.
module RunRoute {
  import opened Prelude
  import opened RunRecords
  import opened RunInvariants
  import opened RunQueue
  import opened RunStores

  // ORDER BY finished_at DESC, run_id among completed runs.
  ghost predicate Preferred(db: Db, a: RunId, b: RunId)
    requires a in db.runs && b in db.runs && db.runs[a].finishedAt.Some? && db.runs[b].finishedAt.Some?
  {
    db.runs[a].finishedAt.value > db.runs[b].finishedAt.value
    || (db.runs[a].finishedAt.value == db.runs[b].finishedAt.value && a < b)
  }

  ghost predicate Offerable(db: Db, fingerprint: Fingerprint, validates: ArtifactId -> bool, id: RunId) {
    && IsReusable(db, fingerprint, {}, id)
    && db.runs[id].artifactId.Some? && db.runs[id].finishedAt.Some?
    && validates(db.runs[id].artifactId.value)
  }

  lemma FirstCompletedIsPreferred(db: Db, fingerprint: Fingerprint, excluded: set<RunId>)
    requires Valid(db) && CompletedKeys(db, fingerprint, excluded) != map[]
    ensures var first := First(CompletedKeys(db, fingerprint, excluded));
      && IsReusable(db, fingerprint, excluded, first)
      && db.runs[first].artifactId.Some? && db.runs[first].finishedAt.Some?
      && forall id | IsReusable(db, fingerprint, excluded, id) && id != first ::
           db.runs[id].finishedAt.Some? && Preferred(db, first, id)
  {
    var keys := CompletedKeys(db, fingerprint, excluded);
    var first := First(keys);
    assert RunValid(db.runs[first], db.events[first]);
    forall id | IsReusable(db, fingerprint, excluded, id) && id != first
      ensures db.runs[id].finishedAt.Some? && Preferred(db, first, id)
    {
      assert id in keys && RunValid(db.runs[id], db.events[id]);
    }
  }

  // What a request is answered with, in terms of the store it found.
  ghost predicate Answer(
      db: Db, fingerprint: Fingerprint, validates: ArtifactId -> bool, freshId: RunId, run: RunId,
          disposition: Disposition)
  {
    match disposition
    case ActiveRun => forall id :: IsActive(db, fingerprint, id) <==> id == run
    case Artifact =>
      && (forall id :: !IsActive(db, fingerprint, id))
      && Offerable(db, fingerprint, validates, run)
      && (forall id | Offerable(db, fingerprint, validates, id) && id != run :: Preferred(db, run, id))
    case New =>
      && run == freshId
      && (forall id :: !IsActive(db, fingerprint, id) && !Offerable(db, fingerprint, validates, id))
  }

  // Without concurrent commits the loop terminates; it offers the preferred
  // completed run whose artifact validates, and queues a new run only when
  // there is neither active work nor a valid artifact.
  method CreateHistoryRun(
      store: RunStore, freshId: RunId, historyPair: int, fingerprint: Fingerprint, repositoryId: string,
      validates: ArtifactId -> bool, now: Time)
    returns (outcome: Result<(RunId, Disposition), StoreError>)
    requires Valid(store.Contents())
    modifies store
    ensures Valid(store.Contents())
    ensures outcome.Success? ==>
      Answer(old(store.Contents()), fingerprint, validates, freshId, outcome.value.0, outcome.value.1)
    ensures outcome.Failure? || outcome.value.1 != New ==> store.Contents() == old(store.Contents())
    ensures historyPair > 0 && freshId !in old(store.runs) ==> outcome.Success?
    ensures outcome.Success? && outcome.value.1 == New ==>
      store.runs == old(store.runs)[freshId := NewRow(repositoryId, historyPair, Some(fingerprint), now)]
  {
    ghost var db := store.Contents();
    var excluded: set<RunId> := {};
    while true
      invariant store.Contents() == db
      invariant forall id | id in excluded ::
        IsReusable(db, fingerprint, {}, id) && !Offerable(db, fingerprint, validates, id)
      decreases |CompletedKeys(db, fingerprint, excluded)|
    {
      var acquired := store.AcquireHistoryRun(freshId, historyPair, fingerprint, repositoryId, excluded, now);
      match acquired {
        case Failure(error) => return Failure(error);
        case Success((run, disposition)) =>
          AcquiredFacts(db, freshId, historyPair, fingerprint, repositoryId, excluded, now);
          if disposition != Artifact {
            AnswerStands(db, fingerprint, validates, excluded, freshId, run, disposition);
            return Success((run, disposition));
          }
          if validates(store.runs[run].artifactId.value) {
            AnswerStands(db, fingerprint, validates, excluded, freshId, run, disposition);
            return Success((run, Artifact));
          }
          ExcludingShrinks(db, fingerprint, excluded, run);
          excluded := excluded + {run};
      }
    }
  }

  // What acquire_history_run returned, in the vocabulary of Answer.
  ghost predicate Acquired(
      db: Db, fingerprint: Fingerprint, excluded: set<RunId>, freshId: RunId, run: RunId, disposition: Disposition) {
    match disposition
    case ActiveRun => forall id :: IsActive(db, fingerprint, id) <==> id == run
    case Artifact =>
      && (forall id :: !IsActive(db, fingerprint, id))
      && IsReusable(db, fingerprint, excluded, run)
      && db.runs[run].artifactId.Some? && db.runs[run].finishedAt.Some?
      && (forall id | IsReusable(db, fingerprint, excluded, id) && id != run ::
            db.runs[id].finishedAt.Some? && Preferred(db, run, id))
    case New =>
      && run == freshId
      && (forall id :: !IsActive(db, fingerprint, id) && !IsReusable(db, fingerprint, excluded, id))
  }

  lemma AnswerStands(
      db: Db, fingerprint: Fingerprint, validates: ArtifactId -> bool, excluded: set<RunId>, freshId: RunId,
      run: RunId, disposition: Disposition)
    requires Acquired(db, fingerprint, excluded, freshId, run, disposition)
    requires forall id | id in excluded :: !Offerable(db, fingerprint, validates, id)
    requires disposition == Artifact ==> validates(db.runs[run].artifactId.value)
    ensures Answer(db, fingerprint, validates, freshId, run, disposition)
  {
    assert forall id | Offerable(db, fingerprint, validates, id) :: IsReusable(db, fingerprint, excluded, id);
  }

  lemma AcquiredFacts(
      db: Db, freshId: RunId, historyPair: int, fingerprint: Fingerprint, repositoryId: string, excluded: set<RunId>,
          now: Time)
    requires Valid(db)
    ensures var result := Acquire(db, freshId, historyPair, fingerprint, repositoryId, excluded, now);
      && (historyPair > 0 && freshId !in db.runs ==> result.Success?)
      && (result.Success? ==>
            && Acquired(db, fingerprint, excluded, freshId, result.value.run, result.value.disposition)
            && (result.value.disposition != New ==> result.value.db == db)
            && (result.value.disposition == New ==>
                  result.value.db.runs
                      == db.runs[freshId := NewRow(repositoryId, historyPair, Some(fingerprint), now)]))
  {
    if historyPair > 0 {
      var active := ActiveKeys(db, fingerprint);
      var completed := CompletedKeys(db, fingerprint, excluded);
      assert forall id :: IsActive(db, fingerprint, id) <==> id in active;
      assert forall id :: IsReusable(db, fingerprint, excluded, id) <==> id in completed;
      if active != map[] {
        AcquireActiveUnique(db, fingerprint);
      } else if completed != map[] {
        FirstCompletedIsPreferred(db, fingerprint, excluded);
      }
    }
  }

  lemma AcquireActiveUnique(db: Db, fingerprint: Fingerprint)
    requires Valid(db) && ActiveKeys(db, fingerprint) != map[]
    ensures forall id :: IsActive(db, fingerprint, id) <==> id == First(ActiveKeys(db, fingerprint))
  {
    var active := ActiveKeys(db, fingerprint);
    assert forall id :: IsActive(db, fingerprint, id) <==> id in active;
  }

  lemma ExcludingShrinks(db: Db, fingerprint: Fingerprint, excluded: set<RunId>, run: RunId)
    requires IsReusable(db, fingerprint, excluded, run)
    ensures |CompletedKeys(db, fingerprint, excluded + {run})| < |CompletedKeys(db, fingerprint, excluded)|
  {
    assert run in CompletedKeys(db, fingerprint, excluded);
    assert CompletedKeys(db, fingerprint, excluded + {run}).Keys
        == CompletedKeys(db, fingerprint, excluded).Keys - {run};
  }
}
