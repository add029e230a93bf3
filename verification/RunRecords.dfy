// The durable run table and its event log, as values.
//
// A `Db` is one committed state of the database.  Every transaction of the
// store is a function from a committed state to the next one; a transaction
// that raises is rolled back and is a `Failure` that carries no state.
module RunRecords {
  import opened Prelude

  // Identifiers and timestamps matter only through equality and order.
  type RunId = nat
  type ArtifactId = nat
  type Time = int
  type Fingerprint = string

  datatype Status = Queued | Running | Completed | Failed | Cancelled

  datatype EventKind = StatusChange | Progress | CancellationRequested

  datatype Event = Event(sequence: nat, kind: EventKind, status: Status, message: string, createdAt: Time)

  datatype Diagnostic = Diagnostic(code: string, message: string)

  datatype Row = Row(
    repositoryId: string,
    historyPair: int,
    fingerprint: Option<Fingerprint>,
    status: Status,
    artifactId: Option<ArtifactId>,
    cancellationRequested: bool,
    diagnostic: Option<Diagnostic>,
    createdAt: Time,
    startedAt: Option<Time>,
    finishedAt: Option<Time>)

  // `events[id]` lists the rows of `run_events` for one run in primary-key order.
  datatype Db = Db(runs: map<RunId, Row>, events: map<RunId, seq<Event>>)

  datatype StoreError = RunNotFound | InvalidTransition | InvalidValue | DuplicateRun

  const EMPTY_DB := Db(map[], map[])

  const QUEUED_MESSAGE := "History visualization queued."
  const STARTED_MESSAGE := "History visualization started."
  const CANCELLED_MESSAGE := "History visualization cancelled."
  const REQUESTED_MESSAGE := "Cancellation requested."
  const PUBLISHED_MESSAGE := "Visualization artifact published."
  const ABANDONED := Diagnostic("worker-restarted", "The history worker stopped before this run completed.")

  predicate Terminal(status: Status) {
    status in {Completed, Failed, Cancelled}
  }

  predicate Active(status: Status) {
    status in {Queued, Running}
  }

  // COALESCE(MAX(sequence), 0)
  function MaxSequence(log: seq<Event>): nat {
    if log == [] then 0 else Max(MaxSequence(log[..|log| - 1]), log[|log| - 1].sequence)
  }

  function LogOf(db: Db, id: RunId): seq<Event> {
    if id in db.events then db.events[id] else []
  }

  function WithEvent(log: seq<Event>, kind: EventKind, status: Status, message: string, now: Time): seq<Event> {
    log + [Event(MaxSequence(log) + 1, kind, status, message, now)]
  }

  // One UPDATE (or INSERT) of a row together with its event, in one transaction.
  function Write(db: Db, id: RunId, row: Row, kind: EventKind, message: string, now: Time): Db {
    Db(db.runs[id := row], db.events[id := WithEvent(LogOf(db, id), kind, row.status, message, now)])
  }

  function NewRow(repositoryId: string, historyPair: int, fingerprint: Option<Fingerprint>, now: Time): Row {
    Row(repositoryId, historyPair, fingerprint, Queued, None, false, None, now, None, None)
  }

  function Create(
      db: Db, id: RunId, repositoryId: string, historyPair: int, fingerprint: Option<Fingerprint>, now: Time)
    : Result<Db, StoreError>
  {
    if historyPair <= 0 then Failure(InvalidValue)
    else if id in db.runs then Failure(DuplicateRun)
    else Success(Write(db, id, NewRow(repositoryId, historyPair, fingerprint, now), StatusChange, QUEUED_MESSAGE, now))
  }

  function Transition(
      db: Db, id: RunId, expected: set<Status>, status: Status, message: string,
      artifactId: Option<ArtifactId>, diagnostic: Option<Diagnostic>,
      setFinished: bool, rejectCancellation: bool, now: Time)
    : Result<Db, StoreError>
  {
    if id !in db.runs then Failure(RunNotFound)
    else
      var row := db.runs[id];
      if row.status !in expected then Failure(InvalidTransition)
      else if rejectCancellation && row.cancellationRequested then Failure(InvalidTransition)
      else
        var finishedAt := if setFinished then Some(now) else row.finishedAt;
        var updated := row.(status := status, artifactId := artifactId, diagnostic := diagnostic, finishedAt :=
          finishedAt);
        Success(Write(db, id, updated, StatusChange, message, now))
  }

  function Complete(db: Db, id: RunId, artifactId: ArtifactId, now: Time): Result<Db, StoreError> {
    Transition(db, id, {Running}, Completed, PUBLISHED_MESSAGE, Some(artifactId), None, true, true, now)
  }

  function Fail(db: Db, id: RunId, diagnostic: Diagnostic, now: Time): Result<Db, StoreError> {
    if diagnostic.code == "" || diagnostic.message == "" then Failure(InvalidValue)
    else Transition(db, id, {Queued, Running}, Failed, diagnostic.message, None, Some(diagnostic), true, false, now)
  }

  function Cancel(db: Db, id: RunId, now: Time): Result<Db, StoreError> {
    Transition(db, id, {Queued, Running}, Cancelled, CANCELLED_MESSAGE, None, None, true, false, now)
  }

  function AppendProgress(db: Db, id: RunId, message: string, now: Time): Result<Db, StoreError> {
    if message == "" then Failure(InvalidValue)
    else if id !in db.runs then Failure(RunNotFound)
    else if db.runs[id].status != Running then Failure(InvalidTransition)
    else Success(Write(db, id, db.runs[id], Progress, message, now))
  }

  function RequestCancellation(db: Db, id: RunId, now: Time): Result<Db, StoreError> {
    if id !in db.runs then Failure(RunNotFound)
    else
      var row := db.runs[id];
      if row.status == Cancelled then Success(db)
      else if Terminal(row.status) then Failure(InvalidTransition)
      else if row.cancellationRequested then Success(db)
      else Success(Write(db, id, row.(cancellationRequested := true), CancellationRequested, REQUESTED_MESSAGE, now))
  }

  // ORDER BY key, run_id LIMIT 1
  ghost predicate IsFirst(keys: map<RunId, int>, first: RunId) {
    && first in keys
    && forall id | id in keys :: keys[first] < keys[id] || (keys[first] == keys[id] && first <= id)
  }

  lemma {:induction false} FirstExists(keys: map<RunId, int>)
    requires keys != map[]
    ensures exists first :: IsFirst(keys, first)
    decreases |keys|
  {
    var some :| some in keys;
    var rest := map id | id in keys && id != some :: keys[id];
    assert rest.Keys == keys.Keys - {some};
    if rest == map[] {
      assert forall id | id in keys :: id == some by {
        forall id | id in keys ensures id == some {
          assert id in rest.Keys || id == some;
        }
      }
      assert IsFirst(keys, some);
    } else {
      FirstExists(rest);
      var best :| IsFirst(rest, best);
      var first := if keys[best] < keys[some] || (keys[best] == keys[some] && best <= some) then best else some;
      forall id | id in keys ensures keys[first] < keys[id] || (keys[first] == keys[id] && first <= id) {
        assert id == some || id in rest;
      }
      assert IsFirst(keys, first);
    }
  }

  ghost function First(keys: map<RunId, int>): (first: RunId)
    requires keys != map[]
    ensures IsFirst(keys, first)
  {
    FirstExists(keys);
    var first :| IsFirst(keys, first);
    first
  }

  lemma FirstUnique(keys: map<RunId, int>, a: RunId, b: RunId)
    requires IsFirst(keys, a) && IsFirst(keys, b)
    ensures a == b
  {
  }

  function QueuedKeys(db: Db): map<RunId, int> {
    map id | id in db.runs && db.runs[id].status == Queued :: db.runs[id].createdAt
  }

  function ActiveKeys(db: Db, fingerprint: Fingerprint): map<RunId, int> {
    map id | id in db.runs && db.runs[id].fingerprint == Some(fingerprint) && Active(db.runs[id].status)
      :: db.runs[id].createdAt
  }

  // finished_at DESC is the ascending order of its negation.
  function CompletedKeys(db: Db, fingerprint: Fingerprint, excluded: set<RunId>): map<RunId, int> {
    map id | id in db.runs && db.runs[id].fingerprint == Some(fingerprint)
          && db.runs[id].status == Completed && id !in excluded
      :: match db.runs[id].finishedAt case Some(t) => -t case None => 0
  }

  function CancelQueued(db: Db, id: RunId, now: Time): Db
    requires id in db.runs
  {
    Write(db, id, db.runs[id].(status := Cancelled, finishedAt := Some(now)), StatusChange, CANCELLED_MESSAGE, now)
  }

  function StartQueued(db: Db, id: RunId, now: Time): Db
    requires id in db.runs
  {
    Write(db, id, db.runs[id].(status := Running, startedAt := Some(now)), StatusChange, STARTED_MESSAGE, now)
  }

  // The loop of `claim_next` as a recursion.
  ghost function ClaimNext(db: Db, now: Time): (result: (Db, Option<RunId>))
    decreases |QueuedKeys(db)|
  {
    var queued := QueuedKeys(db);
    if queued == map[] then (db, None)
    else
      var id := First(queued);
      if db.runs[id].cancellationRequested then
        var next := CancelQueued(db, id, now);
        assert QueuedKeys(next).Keys == queued.Keys - {id};
        ClaimNext(next, now)
      else (StartQueued(db, id, now), Some(id))
  }

  function RunningIds(db: Db): set<RunId> {
    set id | id in db.runs && db.runs[id].status == Running
  }

  // The loop of `fail_abandoned_runs` after it has visited `done`.
  function FailEach(db: Db, done: set<RunId>, now: Time): Db {
    Db(
      map id | id in db.runs :: if id in done then AbandonedRow(db.runs[id], now) else db.runs[id],
      map id | id in db.runs.Keys + db.events.Keys ::
        if id in done then WithEvent(LogOf(db, id), StatusChange, Failed, ABANDONED.message, now) else LogOf(db, id))
  }

  function FailAbandoned(db: Db, now: Time): Db {
    FailEach(db, RunningIds(db), now)
  }

  lemma FailOneMore(db: Db, done: set<RunId>, id: RunId, now: Time)
    requires id in db.runs && id !in done
    ensures FailEach(db, done + {id}, now)
         == Write(FailEach(db, done, now), id, AbandonedRow(db.runs[id], now), StatusChange, ABANDONED.message, now)
  {
    var next := Write(FailEach(db, done, now), id, AbandonedRow(db.runs[id], now), StatusChange, ABANDONED.message,
        now);
    assert FailEach(db, done + {id}, now).runs == next.runs;
    assert FailEach(db, done + {id}, now).events == next.events;
  }

  lemma NoneFailed(db: Db, now: Time)
    requires db.runs.Keys == db.events.Keys
    ensures FailEach(db, {}, now) == db
  {
  }

  lemma FailsTheRunning(db: Db, ids: set<RunId>, now: Time)
    requires ids == RunningIds(db)
    ensures FailEach(db, ids, now) == FailAbandoned(db, now)
  {
  }

  lemma RunningAreRuns(db: Db)
    ensures RunningIds(db) <= db.runs.Keys
  {
  }

  lemma StillRunning(db: Db, done: set<RunId>, id: RunId, now: Time)
    requires id in db.runs && id !in done
    ensures id in FailEach(db, done, now).runs && FailEach(db, done, now).runs[id] == db.runs[id]
  {
  }

  function AbandonedRow(row: Row, now: Time): Row {
    row.(status := Failed, diagnostic := Some(ABANDONED), finishedAt := Some(now))
  }

  datatype Disposition = New | ActiveRun | Artifact

  datatype Acquisition = Acquisition(db: Db, run: RunId, disposition: Disposition)

  ghost function Acquire(
      db: Db, freshId: RunId, historyPair: int, fingerprint: Fingerprint, repositoryId: string,
      excluded: set<RunId>, now: Time)
    : Result<Acquisition, StoreError>
  {
    if historyPair <= 0 then Failure(InvalidValue)
    else
      var active := ActiveKeys(db, fingerprint);
      var completed := CompletedKeys(db, fingerprint, excluded);
      if active != map[] then Success(Acquisition(db, First(active), ActiveRun))
      else if completed != map[] then Success(Acquisition(db, First(completed), Artifact))
      else
        match Create(db, freshId, repositoryId, historyPair, Some(fingerprint), now)
        case Success(next) => Success(Acquisition(next, freshId, New))
        case Failure(error) => Failure(error)
  }

  // read_events: sequence > after ORDER BY sequence LIMIT limit
  function After(log: seq<Event>, after: nat): seq<Event> {
    if log == [] then []
    else (if log[0].sequence > after then [log[0]] else []) + After(log[1..], after)
  }

  function Page(log: seq<Event>, after: nat, limit: nat): seq<Event> {
    var rows := After(log, after);
    if |rows| <= limit then rows else rows[..limit]
  }

  function ReadEvents(db: Db, id: RunId, after: int, limit: int): Result<seq<Event>, StoreError> {
    if after < 0 || !(1 <= limit <= 500) then Failure(InvalidValue)
    else if id !in db.runs then Failure(RunNotFound)
    else Success(Page(LogOf(db, id), after, limit))
  }
}
