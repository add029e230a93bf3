// What every committed state of the run store satisfies, and what no
// transaction can undo.
module RunInvariants {
  import opened Prelude
  import opened RunRecords

  // The row columns that an event log determines.
  datatype Phase = Phase(status: Status, cancellationRequested: bool)

  // The documented lifecycle as an automaton over events.  `None` is a rejected log.
  function Follow(phase: Option<Phase>, event: Event): Option<Phase> {
    match phase
    case None =>
      if event.kind == StatusChange && event.status == Queued then Some(Phase(Queued, false)) else None
    case Some(p) =>
      if Terminal(p.status) then None
      else
        match event.kind
        case Progress => if p.status == Running && event.status == Running then phase else None
        case CancellationRequested =>
          if event.status == p.status && !p.cancellationRequested then Some(Phase(p.status, true)) else None
        case StatusChange =>
          if (p.status == Queued && event.status == Running && !p.cancellationRequested)
            || (p.status == Running && event.status == Completed && !p.cancellationRequested)
            || event.status == Failed || event.status == Cancelled
          then Some(Phase(event.status, p.cancellationRequested))
          else None
  }

  // Replays a nonempty log from its first event.
  function Replay(log: seq<Event>): Option<Phase> {
    if log == [] then None
    else if |log| == 1 then Follow(None, log[0])
    else
      var before := Replay(log[..|log| - 1]);
      if before == None then None else Follow(before, log[|log| - 1])
  }

  ghost predicate Numbered(log: seq<Event>) {
    forall i | 0 <= i < |log| :: log[i].sequence == i + 1
  }

  // The CHECK constraints of the runs table.
  predicate RowConsistent(row: Row) {
    && (row.status == Completed <==> row.artifactId.Some?)
    && (row.status == Failed <==> row.diagnostic.Some?)
    && (Terminal(row.status) <==> row.finishedAt.Some?)
    && row.historyPair > 0
  }

  ghost predicate RunValid(row: Row, log: seq<Event>) {
    && RowConsistent(row)
    && Numbered(log)
    && Replay(log) == Some(Phase(row.status, row.cancellationRequested))
    && (row.status == Completed ==> !row.cancellationRequested)
  }

  // The partial unique index on active fingerprints.
  ghost predicate SingleFlight(db: Db) {
    forall a, b | a in db.runs && b in db.runs && Active(db.runs[a].status) && Active(db.runs[b].status)
               && db.runs[a].fingerprint.Some? && db.runs[a].fingerprint == db.runs[b].fingerprint :: a == b
  }

  ghost predicate Valid(db: Db) {
    && db.runs.Keys == db.events.Keys
    && (forall id | id in db.runs :: RunValid(db.runs[id], db.events[id]))
    && SingleFlight(db)
  }

  lemma {:induction false} MaxOfNumbered(log: seq<Event>)
    requires Numbered(log)
    ensures MaxSequence(log) == |log|
  {
    if log == [] {
    } else {
      MaxOfNumbered(log[..|log| - 1]);
    }
  }

  // In a log numbered from base + 1 the rows after a cursor are a suffix.
  lemma {:induction false} AfterIsSuffix(log: seq<Event>, base: nat, after: nat)
    requires forall i | 0 <= i < |log| :: log[i].sequence == base + i + 1
    ensures After(log, after)
          == if after <= base then log else if after - base <= |log| then log[after - base..] else []
  {
    if log == [] {
    } else {
      AfterIsSuffix(log[1..], base + 1, after);
      if after <= base + 1 {
        assert log == [log[0]] + log[1..];
      }
    }
  }

  lemma AfterNumbered(log: seq<Event>, after: nat)
    requires Numbered(log)
    ensures After(log, after) == if after <= |log| then log[after..] else []
  {
    AfterIsSuffix(log, 0, after);
  }

  // A page is the stretch of the log its bounds name.
  lemma PageIsSlice(log: seq<Event>, after: nat, limit: nat)
    requires Numbered(log)
    ensures Page(log, after, limit) == log[Min(after, |log|)..Min(after + limit, |log|)]
  {
    AfterNumbered(log, after);
  }

  // Appending with COALESCE(MAX(sequence), 0) + 1 keeps a log numbered 1..n.
  lemma WithEventNumbered(log: seq<Event>, kind: EventKind, status: Status, message: string, now: Time)
    requires Numbered(log)
    ensures Numbered(WithEvent(log, kind, status, message, now))
    ensures |WithEvent(log, kind, status, message, now)| == |log| + 1
  {
    MaxOfNumbered(log);
  }

  function PhaseOf(db: Db, id: RunId): Option<Phase> {
    if id in db.runs then Some(Phase(db.runs[id].status, db.runs[id].cancellationRequested)) else None
  }

  // One row of the table changes, consistently with its event.
  ghost predicate LegalWrite(db: Db, id: RunId, row: Row, kind: EventKind) {
    && RowConsistent(row)
    && (row.status == Completed ==> !row.cancellationRequested)
    && Follow(PhaseOf(db, id), Event(0, kind, row.status, "", 0)) == Some(Phase(row.status, row.cancellationRequested))
    && (id in db.runs ==> row.fingerprint == db.runs[id].fingerprint)
    && (id !in db.runs && row.fingerprint.Some? ==> NoActive(db, row.fingerprint))
  }

  ghost predicate NoActive(db: Db, fingerprint: Option<Fingerprint>) {
    forall id | id in db.runs && Active(db.runs[id].status) :: db.runs[id].fingerprint != fingerprint
  }

  lemma WriteKeepsLog(db: Db, id: RunId, row: Row, kind: EventKind, message: string, now: Time)
    requires Valid(db) && LegalWrite(db, id, row, kind)
    ensures var log := WithEvent(LogOf(db, id), kind, row.status, message, now);
            Numbered(log) && Replay(log) == Some(Phase(row.status, row.cancellationRequested))
  {
    var before := LogOf(db, id);
    var log := WithEvent(before, kind, row.status, message, now);
    WithEventNumbered(before, kind, row.status, message, now);
    assert log[..|log| - 1] == before;
    if id in db.runs {
      assert before == db.events[id] && before != [];
    } else {
      assert before == [];
    }
  }

  lemma WriteKeepsValid(db: Db, id: RunId, row: Row, kind: EventKind, message: string, now: Time)
    requires Valid(db) && LegalWrite(db, id, row, kind)
    ensures Valid(Write(db, id, row, kind, message, now))
  {
    hide Numbered, Replay, Follow, RowConsistent, SingleFlight, WithEvent;
    WriteKeepsLog(db, id, row, kind, message, now);
    WriteKeepsSingleFlight(db, id, row, kind, message, now);
  }

  lemma WriteKeepsSingleFlight(db: Db, id: RunId, row: Row, kind: EventKind, message: string, now: Time)
    requires SingleFlight(db) && LegalWrite(db, id, row, kind)
    ensures SingleFlight(Write(db, id, row, kind, message, now))
  {
    hide RowConsistent;
    assert id in db.runs && Active(row.status) ==> Active(db.runs[id].status);
  }

  // `b` is a committed state that can follow `a`: logs only grow, terminal
  // runs are frozen, cancellation requests are never withdrawn.
  ghost predicate Later(a: Db, b: Db) {
    forall id | id in a.runs :: id in b.runs && RowLater(a.runs[id], LogOf(a, id), b.runs[id], LogOf(b, id))
  }

  ghost predicate RowLater(row: Row, log: seq<Event>, row': Row, log': seq<Event>) {
    && log <= log'
    && row'.fingerprint == row.fingerprint
    && (row.cancellationRequested ==> row'.cancellationRequested)
    && (Terminal(row.status) ==> row' == row && log' == log)
  }

  lemma LaterReflexive(db: Db)
    ensures Later(db, db)
  {
  }

  lemma LaterTransitive(a: Db, b: Db, c: Db)
    requires Later(a, b) && Later(b, c)
    ensures Later(a, c)
  {
  }

  lemma WriteIsLater(db: Db, id: RunId, row: Row, kind: EventKind, message: string, now: Time)
    requires Valid(db) && LegalWrite(db, id, row, kind)
    ensures Later(db, Write(db, id, row, kind, message, now))
  {
  }

  // Every transaction of the store.  A rejected one is rolled back.
  datatype Op =
    | OpCreate(id: RunId, repositoryId: string, historyPair: int, now: Time)
    | OpAcquire(freshId: RunId, historyPair: int, fingerprint: Fingerprint, repositoryId: string, excluded: set<RunId>,
        now: Time)
    | OpClaimNext(now: Time)
    | OpFailAbandoned(now: Time)
    | OpAppendProgress(id: RunId, message: string, now: Time)
    | OpRequestCancellation(id: RunId, now: Time)
    | OpComplete(id: RunId, artifactId: ArtifactId, now: Time)
    | OpFail(id: RunId, diagnostic: Diagnostic, now: Time)
    | OpCancel(id: RunId, now: Time)

  ghost function Commit(db: Db, result: Result<Db, StoreError>): Db {
    match result
    case Success(next) => next
    case Failure(_) => db
  }

  ghost function Apply(db: Db, op: Op): Db {
    match op
    case OpCreate(id, repositoryId, historyPair, now) => Commit(db,
        Create(db, id, repositoryId, historyPair, None, now))
    case OpAcquire(freshId, historyPair, fingerprint, repositoryId, excluded, now) =>
      (match Acquire(db, freshId, historyPair, fingerprint, repositoryId, excluded, now)
       case Success(acquisition) => acquisition.db
       case Failure(_) => db)
    case OpClaimNext(now) => ClaimNext(db, now).0
    case OpFailAbandoned(now) => FailAbandoned(db, now)
    case OpAppendProgress(id, message, now) => Commit(db, AppendProgress(db, id, message, now))
    case OpRequestCancellation(id, now) => Commit(db, RequestCancellation(db, id, now))
    case OpComplete(id, artifactId, now) => Commit(db, Complete(db, id, artifactId, now))
    case OpFail(id, diagnostic, now) => Commit(db, Fail(db, id, diagnostic, now))
    case OpCancel(id, now) => Commit(db, Cancel(db, id, now))
  }

  ghost function ApplyAll(db: Db, ops: seq<Op>): Db {
    if ops == [] then db else Apply(ApplyAll(db, ops[..|ops| - 1]), ops[|ops| - 1])
  }

  lemma CreateKeepsValid(
      db: Db, id: RunId, repositoryId: string, historyPair: int, fingerprint: Option<Fingerprint>, now: Time)
    requires Valid(db)
    requires fingerprint.Some? ==> ActiveKeys(db, fingerprint.value) == map[]
    ensures var next := Commit(db, Create(db, id, repositoryId, historyPair, fingerprint, now));
            Valid(next) && Later(db, next)
  {
    if historyPair > 0 && id !in db.runs {
      var row := NewRow(repositoryId, historyPair, fingerprint, now);
      assert fingerprint.Some? ==> NoActive(db, fingerprint) by {
        if fingerprint.Some? {
          assert forall other | other in db.runs :: other !in ActiveKeys(db, fingerprint.value);
        }
      }
      WriteKeepsValid(db, id, row, StatusChange, QUEUED_MESSAGE, now);
      WriteIsLater(db, id, row, StatusChange, QUEUED_MESSAGE, now);
    }
  }

  lemma TransitionKeepsValid(
      db: Db, id: RunId, expected: set<Status>, status: Status, message: string,
      artifactId: Option<ArtifactId>, diagnostic: Option<Diagnostic>, rejectCancellation: bool, now: Time)
    requires Valid(db)
    requires expected <= {Queued, Running} && Terminal(status)
    requires status == Completed ==> rejectCancellation && expected == {Running}
    requires artifactId.Some? <==> status == Completed
    requires diagnostic.Some? <==> status == Failed
    ensures var next :=
      Commit(db, Transition(db, id, expected, status, message, artifactId, diagnostic, true, rejectCancellation, now));
            Valid(next) && Later(db, next)
  {
    if id in db.runs && db.runs[id].status in expected && !(rejectCancellation && db.runs[id].cancellationRequested) {
      var row := db.runs[id].(status := status, artifactId := artifactId, diagnostic := diagnostic, finishedAt :=
        Some(now));
      WriteKeepsValid(db, id, row, StatusChange, message, now);
      WriteIsLater(db, id, row, StatusChange, message, now);
    }
  }

  lemma ClaimStepKeepsValid(db: Db, id: RunId, row: Row, message: string, now: Time)
    requires Valid(db) && id in db.runs && db.runs[id].status == Queued
    requires row == db.runs[id].(status := Cancelled, finishedAt := Some(now))
          || (row == db.runs[id].(status := Running, startedAt := Some(now)) && !row.cancellationRequested)
    ensures var next := Write(db, id, row, StatusChange, message, now);
            Valid(next) && Later(db, next)
  {
    WriteKeepsValid(db, id, row, StatusChange, message, now);
    WriteIsLater(db, id, row, StatusChange, message, now);
  }

  // One turn of the loop: cancel or start the first queued run.
  ghost function ClaimTurn(db: Db, now: Time): Db
    requires QueuedKeys(db) != map[]
  {
    var id := First(QueuedKeys(db));
    if db.runs[id].cancellationRequested then CancelQueued(db, id, now) else StartQueued(db, id, now)
  }

  lemma ClaimTurnKeepsValid(db: Db, now: Time)
    requires Valid(db) && QueuedKeys(db) != map[]
    ensures Valid(ClaimTurn(db, now)) && Later(db, ClaimTurn(db, now))
  {
    var id := First(QueuedKeys(db));
    var message := if db.runs[id].cancellationRequested then CANCELLED_MESSAGE else STARTED_MESSAGE;
    ClaimStepKeepsValid(db, id, ClaimTurn(db, now).runs[id], message, now);
  }

  lemma ClaimNextTurns(db: Db, now: Time)
    requires QueuedKeys(db) != map[]
    ensures var id := First(QueuedKeys(db));
            if db.runs[id].cancellationRequested
            then ClaimNext(db, now) == ClaimNext(ClaimTurn(db, now), now)
              && |QueuedKeys(ClaimTurn(db, now))| < |QueuedKeys(db)|
            else ClaimNext(db, now) == (ClaimTurn(db, now), Some(id))
  {
    var id := First(QueuedKeys(db));
    if db.runs[id].cancellationRequested {
      assert QueuedKeys(ClaimTurn(db, now)).Keys == QueuedKeys(db).Keys - {id};
    }
  }

  lemma {:induction false} ClaimNextKeepsValid(db: Db, now: Time)
    requires Valid(db)
    ensures Valid(ClaimNext(db, now).0) && Later(db, ClaimNext(db, now).0)
    decreases |QueuedKeys(db)|
  {
    if QueuedKeys(db) == map[] {
    } else {
      ClaimTurnKeepsValid(db, now);
      ClaimNextTurns(db, now);
      if db.runs[First(QueuedKeys(db))].cancellationRequested {
        ClaimNextKeepsValid(ClaimTurn(db, now), now);
        LaterTransitive(db, ClaimTurn(db, now), ClaimNext(db, now).0);
      }
    }
  }

  lemma AbandonedRowValid(db: Db, id: RunId, now: Time)
    requires Valid(db) && id in db.runs
    ensures var next := FailAbandoned(db, now);
            && RunValid(next.runs[id], next.events[id])
            && RowLater(db.runs[id], LogOf(db, id), next.runs[id], LogOf(next, id))
  {
    if db.runs[id].status == Running {
      WriteKeepsLog(db, id, AbandonedRow(db.runs[id], now), StatusChange, ABANDONED.message, now);
    }
  }

  lemma AbandonedSingleFlight(db: Db, now: Time)
    requires SingleFlight(db)
    ensures SingleFlight(FailAbandoned(db, now))
  {
    assert forall id | id in db.runs && Active(FailAbandoned(db, now).runs[id].status) ::
      FailAbandoned(db, now).runs[id] == db.runs[id];
  }

  lemma FailAbandonedKeepsValid(db: Db, now: Time)
    requires Valid(db)
    ensures Valid(FailAbandoned(db, now)) && Later(db, FailAbandoned(db, now))
  {
    var next := FailAbandoned(db, now);
    AbandonedSingleFlight(db, now);
    assert next.runs.Keys == next.events.Keys == db.runs.Keys;
    forall id | id in db.runs
      ensures RunValid(next.runs[id], next.events[id])
      ensures RowLater(db.runs[id], LogOf(db, id), next.runs[id], LogOf(next, id))
    {
      AbandonedRowValid(db, id, now);
    }
  }

  lemma RequestKeepsValid(db: Db, id: RunId, now: Time)
    requires Valid(db)
    ensures var next := Commit(db, RequestCancellation(db, id, now)); Valid(next) && Later(db, next)
  {
    if id in db.runs && Active(db.runs[id].status) && !db.runs[id].cancellationRequested {
      var row := db.runs[id].(cancellationRequested := true);
      WriteKeepsValid(db, id, row, CancellationRequested, REQUESTED_MESSAGE, now);
      WriteIsLater(db, id, row, CancellationRequested, REQUESTED_MESSAGE, now);
    }
  }

  lemma ProgressKeepsValid(db: Db, id: RunId, message: string, now: Time)
    requires Valid(db)
    ensures var next := Commit(db, AppendProgress(db, id, message, now)); Valid(next) && Later(db, next)
  {
    if message != "" && id in db.runs && db.runs[id].status == Running {
      WriteKeepsValid(db, id, db.runs[id], Progress, message, now);
      WriteIsLater(db, id, db.runs[id], Progress, message, now);
    }
  }

  lemma AcquireKeepsValid(
      db: Db, freshId: RunId, historyPair: int, fingerprint: Fingerprint, repositoryId: string, excluded: set<RunId>,
          now: Time)
    requires Valid(db)
    ensures var next := Apply(db, OpAcquire(freshId, historyPair, fingerprint, repositoryId, excluded, now));
            Valid(next) && Later(db, next)
  {
    if historyPair > 0 && ActiveKeys(db, fingerprint) == map[] && CompletedKeys(db, fingerprint, excluded) == map[] {
      CreateKeepsValid(db, freshId, repositoryId, historyPair, Some(fingerprint), now);
    }
  }

  // Every transaction keeps the invariant and only moves the store forward.
  lemma ApplyKeepsValid(db: Db, op: Op)
    requires Valid(db)
    ensures Valid(Apply(db, op)) && Later(db, Apply(db, op))
  {
    hide Valid, Later, Transition, Create, Acquire, AppendProgress, RequestCancellation;
    LaterReflexive(db);
    match op
    case OpCreate(id, repositoryId, historyPair, now) => CreateKeepsValid(db, id, repositoryId, historyPair, None, now);
    case OpAcquire(freshId, historyPair, fingerprint, repositoryId, excluded, now) =>
      AcquireKeepsValid(db, freshId, historyPair, fingerprint, repositoryId, excluded, now);
    case OpClaimNext(now) => ClaimNextKeepsValid(db, now);
    case OpFailAbandoned(now) => FailAbandonedKeepsValid(db, now);
    case OpAppendProgress(id, message, now) => ProgressKeepsValid(db, id, message, now);
    case OpRequestCancellation(id, now) => RequestKeepsValid(db, id, now);
    case OpComplete(id, artifactId, now) =>
      TransitionKeepsValid(db, id, {Running}, Completed, PUBLISHED_MESSAGE, Some(artifactId), None, true, now);
    case OpFail(id, diagnostic, now) =>
      TransitionKeepsValid(db, id, {Queued, Running}, Failed, diagnostic.message, None, Some(diagnostic), false, now);
    case OpCancel(id, now) =>
      TransitionKeepsValid(db, id, {Queued, Running}, Cancelled, CANCELLED_MESSAGE, None, None, false, now);
  }

  // Every store reachable by any sequence of transactions, accepted or rejected.
  lemma {:induction false} ReachableIsValid(ops: seq<Op>)
    ensures Valid(ApplyAll(EMPTY_DB, ops))
  {
    if ops == [] {
    } else {
      ReachableIsValid(ops[..|ops| - 1]);
      ApplyKeepsValid(ApplyAll(EMPTY_DB, ops[..|ops| - 1]), ops[|ops| - 1]);
    }
  }

  // Two stores in one history, the second `more` transactions later.
  lemma {:induction false} HistoryMovesForward(db: Db, more: seq<Op>)
    requires Valid(db)
    ensures Valid(ApplyAll(db, more)) && Later(db, ApplyAll(db, more))
  {
    if more == [] {
    } else {
      var earlier := ApplyAll(db, more[..|more| - 1]);
      HistoryMovesForward(db, more[..|more| - 1]);
      ApplyKeepsValid(earlier, more[|more| - 1]);
      LaterTransitive(db, earlier, ApplyAll(db, more));
    }
  }

  // -- What replaying means for the shape of a log. --

  ghost predicate LogShape(log: seq<Event>) {
    && (forall i | 0 <= i < |log| - 1 :: !Terminal(log[i].status))
    && (forall i, j | 0 <= i < j < |log| ::
          !(log[i].kind == CancellationRequested && log[j].kind == CancellationRequested))
    && (forall i | 0 < i < |log| && log[i].kind == Progress :: log[i - 1].status == Running && log[i].status == Running)
    && (forall i | 0 <= i < |log| :: log[i].status == Completed ==>
          i == |log| - 1 && forall j | 0 <= j < |log| :: log[j].kind != CancellationRequested)
    && (forall i | 0 <= i < |log| :: log[i].status == Queued && log[i].kind == StatusChange <==> i == 0)
  }

  predicate HasRequest(log: seq<Event>) {
    exists i :: 0 <= i < |log| && log[i].kind == CancellationRequested
  }

  lemma {:induction false} ReplayShape(log: seq<Event>)
    requires Replay(log).Some?
    ensures LogShape(log)
    ensures log[|log| - 1].status == Replay(log).value.status
    ensures Replay(log).value.cancellationRequested <==> HasRequest(log)
  {
    hide LogShape, HasRequest, Follow;
    if |log| <= 1 {
      FirstShape(log);
    } else {
      var init, last := log[..|log| - 1], log[|log| - 1];
      assert log == init + [last];
      ReplayShape(init);
      NextShape(init, last, Replay(init).value, Replay(log).value);
    }
  }

  lemma FirstShape(log: seq<Event>)
    requires |log| == 1 && Follow(None, log[0]).Some?
    ensures LogShape(log) && Follow(None, log[0]).value == Phase(log[0].status, false) && !HasRequest(log)
  {
  }

  lemma NextShape(init: seq<Event>, last: Event, before: Phase, after: Phase)
    requires init != [] && LogShape(init) && init[|init| - 1].status == before.status
    requires before.cancellationRequested <==> HasRequest(init)
    requires Follow(Some(before), last) == Some(after)
    ensures LogShape(init + [last]) && last.status == after.status
    ensures after.cancellationRequested <==> HasRequest(init + [last])
  {
    NextRequested(init, last);
    NextFollows(init, last, before);
  }

  lemma NextRequested(init: seq<Event>, last: Event)
    ensures HasRequest(init + [last]) <==> HasRequest(init) || last.kind == CancellationRequested
  {
    if HasRequest(init) {
      var i :| 0 <= i < |init| && init[i].kind == CancellationRequested;
      assert (init + [last])[i].kind == CancellationRequested;
    } else if last.kind == CancellationRequested {
      assert (init + [last])[|init|].kind == CancellationRequested;
    }
  }

  lemma NextFollows(init: seq<Event>, last: Event, before: Phase)
    requires init != [] && LogShape(init) && init[|init| - 1].status == before.status
    requires before.cancellationRequested <==> HasRequest(init)
    requires Follow(Some(before), last).Some?
    ensures LogShape(init + [last])
  {
    assert !Terminal(before.status);
    assert last.kind == CancellationRequested || last.status == Completed ==> !before.cancellationRequested;
  }

  // In every reachable store: sequences are 1..n, the log replays to the row,
  // at most one cancellation event, progress only while running, nothing
  // after a terminal event, no completion once cancellation was requested.
  lemma ReachableLogs(ops: seq<Op>, id: RunId)
    requires id in ApplyAll(EMPTY_DB, ops).runs
    ensures var db := ApplyAll(EMPTY_DB, ops);
            && Numbered(LogOf(db, id)) && LogShape(LogOf(db, id))
            && Replay(LogOf(db, id)) == Some(Phase(db.runs[id].status, db.runs[id].cancellationRequested))
            && RowConsistent(db.runs[id])
            && !(db.runs[id].status == Completed && db.runs[id].cancellationRequested)
  {
    ReachableIsValid(ops);
    ReplayShape(LogOf(ApplyAll(EMPTY_DB, ops), id));
  }
}
