// The queue worker, its child executor, executors orphaned by a crashed
// worker, and the API, interleaved one transaction at a time.
//
// Each constructor of `Worker` and `Stage` is a program point of the source;
// an action is what happens between two program points.  A process may stop
// at any point.  Disabled actions leave the system unchanged, so every
// sequence of actions is an interleaving.
module RunWorkers {
  import opened Prelude
  import opened RunRecords
  import opened RunInvariants
  import opened RunQueue

  type Pid = nat

  // HistoryRunExecutor.execute and _build in one child process.
  datatype Stage =
    | Starting    // before the status check
    | Building    // inside _build, before publication
    | Published   // artifact renamed into place, cancellation not yet re-read
    | Completing  // cancellation re-read as absent, about to call complete
    | Handling    // in the exception handler, before its read_run
    | Failing     // handler read no cancellation, about to call fail

  datatype Executor = Executor(run: RunId, artifact: ArtifactId, stage: Stage)

  datatype Reason = UserCancelled | WorkerStopped | ChildFailed

  // HistoryRunWorker.process_next and _monitor.
  datatype Worker =
    | Down                                   // no process holds the lock
    | Recovering                             // lock taken, fail_abandoned_runs next
    | Idle(returned: Option<RunId>)          // process_next has just returned for this run
    | Claimed(run: RunId)                    // child not started yet
    | Polling(run: RunId, child: Pid)        // process.poll() next
    | Reading(run: RunId, child: Pid)        // child was alive, read_run next
    | Deciding(run: RunId, child: Pid)       // no cancellation read, stop_event next
    | Terminating(run: RunId, child: Pid, reason: Reason)
    | Rereading(run: RunId, reason: Reason)  // child reaped, read_run next
    | Closing(run: RunId, reason: Reason)    // row read as not terminal, cancel or fail next
    | Reaped(run: RunId)                     // poll() returned an exit status
    | Raised(run: RunId)                     // cancel or fail raised

  datatype System = System(db: Db, worker: Worker, executors: map<Pid, Executor>, published: set<ArtifactId>)

  const INITIAL := System(EMPTY_DB, Down, map[], {})

  datatype Action =
    | ApiCreate(id: RunId, repositoryId: string, historyPair: int, now: Time)
    | ApiAcquire(id: RunId, historyPair: int, fingerprint: Fingerprint, repositoryId: string, excluded: set<RunId>,
        now: Time)
    | ApiCancel(id: RunId, now: Time)
    | TakeLock
    | Recover(now: Time)
    | Claim(now: Time)
    | Spawn(pid: Pid, artifact: ArtifactId)
    | Poll
    | Read
    | Decide(stop: bool)
    | Terminate
    | Reread
    | Close(now: Time)
    | ReadReaped
    | Stop
    | Crash
    | ExecStart(pid: Pid)
    | ExecProgress(pid: Pid, message: string, now: Time)
    | ExecPublish(pid: Pid)
    | ExecRaise(pid: Pid)
    | ExecRecheck(pid: Pid)
    | ExecComplete(pid: Pid, now: Time, readBackFails: bool)
    | ExecHandle(pid: Pid)
    | ExecFail(pid: Pid, diagnostic: Diagnostic, now: Time)
    | ExecDie(pid: Pid)

  function DiagnosticFor(reason: Reason): Diagnostic {
    match reason
    case WorkerStopped => Diagnostic("worker-stopped", "The history worker stopped before this run completed.")
    case _ => Diagnostic("worker-process-failed", "The history execution process stopped unexpectedly.")
  }

  function CloseCall(db: Db, run: RunId, reason: Reason, now: Time): Result<Db, StoreError> {
    if reason == UserCancelled then Cancel(db, run, now) else Fail(db, run, DiagnosticFor(reason), now)
  }

  predicate Requested(db: Db, id: RunId) {
    id in db.runs && db.runs[id].cancellationRequested
  }

  predicate Finished(db: Db, id: RunId) {
    id in db.runs && Terminal(db.runs[id].status)
  }

  predicate IsRunning(db: Db, id: RunId) {
    id in db.runs && db.runs[id].status == Running
  }

  ghost function WorkerStep(s: System, a: Action): System {
    match a
    case TakeLock => if s.worker.Down? then s.(worker := Recovering) else s
    case Recover(now) =>
      if s.worker.Recovering? then s.(db := FailAbandoned(s.db, now), worker := Idle(None)) else s
    case Claim(now) =>
      if s.worker.Idle? then
        var (next, claimed) := ClaimNext(s.db, now);
        s.(db := next, worker := match claimed case None => Idle(None) case Some(run) => Claimed(run))
      else s
    case Spawn(pid, artifact) =>
      if s.worker.Claimed? && pid !in s.executors then
        s.(executors := s.executors[pid := Executor(s.worker.run, artifact, Starting)], worker :=
          Polling(s.worker.run, pid))
      else s
    case Poll =>
      if !s.worker.Polling? then s
      else if s.worker.child in s.executors then s.(worker := Reading(s.worker.run, s.worker.child))
      else s.(worker := Reaped(s.worker.run))
    case Read =>
      if !s.worker.Reading? then s
      else if Requested(s.db, s.worker.run) then s.(worker := Terminating(s.worker.run, s.worker.child, UserCancelled))
      else s.(worker := Deciding(s.worker.run, s.worker.child))
    case Decide(stop) =>
      if !s.worker.Deciding? then s
      else if stop then s.(worker := Terminating(s.worker.run, s.worker.child, WorkerStopped))
      else s.(worker := Polling(s.worker.run, s.worker.child))
    case Terminate =>
      if s.worker.Terminating?
      then s.(executors := s.executors - {s.worker.child}, worker := Rereading(s.worker.run, s.worker.reason))
      else s
    case Reread =>
      if !s.worker.Rereading? then s
      else if Finished(s.db, s.worker.run) then s.(worker := Idle(Some(s.worker.run)))
      else s.(worker := Closing(s.worker.run, s.worker.reason))
    case Close(now) =>
      if !s.worker.Closing? then s
      else
        (match CloseCall(s.db, s.worker.run, s.worker.reason, now)
         case Success(next) => s.(db := next, worker := Idle(Some(s.worker.run)))
         case Failure(_) => s.(worker := Raised(s.worker.run)))
    case ReadReaped =>
      if !s.worker.Reaped? then s
      else if Finished(s.db, s.worker.run) then s.(worker := Idle(Some(s.worker.run)))
      else if Requested(s.db, s.worker.run) then s.(worker := Closing(s.worker.run, UserCancelled))
      else s.(worker := Closing(s.worker.run, ChildFailed))
    case Stop => if s.worker.Idle? then s.(worker := Down) else s
    case Crash => s.(worker := Down)
    case _ => s
  }

  function Exit(s: System, pid: Pid): System {
    s.(executors := s.executors - {pid})
  }

  function Enter(s: System, pid: Pid, stage: Stage): System
    requires pid in s.executors
  {
    s.(executors := s.executors[pid := s.executors[pid].(stage := stage)])
  }

  function ExecutorStep(s: System, pid: Pid, a: Action): System
    requires pid in s.executors
  {
    var e := s.executors[pid];
    match a
    case ExecStart(_) =>
      if !e.stage.Starting? then s
      else if !IsRunning(s.db, e.run) || Requested(s.db, e.run) then Exit(s, pid)
      else Enter(s, pid, Building)
    case ExecProgress(_, message, now) =>
      if e.stage !in {Building, Published} then s
      else
        (match AppendProgress(s.db, e.run, message, now)
         case Success(next) => s.(db := next)
         case Failure(_) => Enter(s, pid, Handling))
    case ExecPublish(_) =>
      if !e.stage.Building? then s
      else Enter(s, pid, Published).(published := s.published + {e.artifact})
    case ExecRaise(_) => if e.stage in {Building, Published, Completing} then Enter(s, pid, Handling) else s
    case ExecRecheck(_) =>
      if !e.stage.Published? then s
      else if Requested(s.db, e.run) then Exit(s, pid)
      else Enter(s, pid, Completing)
    case ExecComplete(_, now, readBackFails) =>
      if !e.stage.Completing? then s
      else
        (match Complete(s.db, e.run, e.artifact, now)
         case Success(next) => if readBackFails then Enter(s, pid, Handling).(db := next) else Exit(s, pid).(db := next)
         case Failure(_) => Enter(s, pid, Handling))
    case ExecHandle(_) =>
      if !e.stage.Handling? then s
      else if Requested(s.db, e.run) then Exit(s, pid)
      else Enter(s, pid, Failing)
    case ExecFail(_, diagnostic, now) =>
      if !e.stage.Failing? then s
      else
        (match Fail(s.db, e.run, diagnostic, now)
         case Success(next) => Exit(s, pid).(db := next)
         case Failure(_) => Exit(s, pid))
    case ExecDie(_) => Exit(s, pid)
    case _ => s
  }

  // The transaction of an API request.
  function ApiOp(a: Action): Option<Op> {
    match a
    case ApiCreate(id, repositoryId, historyPair, now) => Some(OpCreate(id, repositoryId, historyPair, now))
    case ApiAcquire(id, historyPair, fingerprint, repositoryId, excluded, now) =>
      Some(OpAcquire(id, historyPair, fingerprint, repositoryId, excluded, now))
    case ApiCancel(id, now) => Some(OpRequestCancellation(id, now))
    case _ => None
  }

  // The process an executor action belongs to.
  function ActingPid(a: Action): Option<Pid> {
    match a
    case ExecStart(pid) => Some(pid)
    case ExecProgress(pid, _, _) => Some(pid)
    case ExecPublish(pid) => Some(pid)
    case ExecRaise(pid) => Some(pid)
    case ExecRecheck(pid) => Some(pid)
    case ExecComplete(pid, _, _) => Some(pid)
    case ExecHandle(pid) => Some(pid)
    case ExecFail(pid, _, _) => Some(pid)
    case ExecDie(pid) => Some(pid)
    case _ => None
  }

  ghost function Step(s: System, a: Action): System {
    if ApiOp(a).Some? then s.(db := Apply(s.db, ApiOp(a).value))
    else if ActingPid(a).Some? then
      if ActingPid(a).value in s.executors then ExecutorStep(s, ActingPid(a).value, a) else s
    else WorkerStep(s, a)
  }

  ghost function Execute(s: System, actions: seq<Action>): System {
    if actions == [] then s else Step(Execute(s, actions[..|actions| - 1]), actions[|actions| - 1])
  }

  // -- The inductive invariant --

  // The run a worker is responsible for.
  function Owned(w: Worker): Option<RunId> {
    match w
    case Claimed(run) => Some(run)
    case Polling(run, _) => Some(run)
    case Reading(run, _) => Some(run)
    case Deciding(run, _) => Some(run)
    case Terminating(run, _, _) => Some(run)
    case Rereading(run, _) => Some(run)
    case Closing(run, _) => Some(run)
    case Reaped(run) => Some(run)
    case _ => None
  }

  // The child a worker may still be waiting for.
  function Child(w: Worker): Option<Pid> {
    match w
    case Polling(_, child) => Some(child)
    case Reading(_, child) => Some(child)
    case Deciding(_, child) => Some(child)
    case Terminating(_, child, _) => Some(child)
    case _ => None
  }

  // At most one row is running; which one it can be is known to the worker.
  ghost predicate RowsFit(db: Db, w: Worker) {
    && (forall a, b | IsRunning(db, a) && IsRunning(db, b) :: a == b)
    && (w.Idle? ==> forall id :: !IsRunning(db, id))
    && (w.Idle? && w.returned.Some? ==> Finished(db, w.returned.value))
    && (match Owned(w)
        case None => true
        case Some(run) =>
          && (IsRunning(db, run) || Finished(db, run))
          && (forall id | IsRunning(db, id) :: id == run)
          && (w.Claimed? || w.Closing? ==> IsRunning(db, run)))
  }

  // No live process works on a queued or cancelled run, and only the
  // monitored child works on the owned one.
  ghost predicate ExecutorFits(db: Db, w: Worker, published: set<ArtifactId>, pid: Pid, e: Executor) {
    && e.run in db.runs
    && db.runs[e.run].status !in {Queued, Cancelled}
    && (e.stage in {Published, Completing} ==> e.artifact in published)
    && (Owned(w) == Some(e.run) ==> Child(w) == Some(pid))
  }

  ghost predicate ArtifactsFit(db: Db, published: set<ArtifactId>) {
    forall id | id in db.runs && db.runs[id].artifactId.Some? :: db.runs[id].artifactId.value in published
  }

  ghost predicate Fits(db: Db, w: Worker, executors: map<Pid, Executor>, published: set<ArtifactId>) {
    && !w.Raised?
    && RowsFit(db, w)
    && (forall pid | pid in executors :: ExecutorFits(db, w, published, pid, executors[pid]))
    && ArtifactsFit(db, published)
  }

  ghost predicate Invariant(s: System) {
    Valid(s.db) && Fits(s.db, s.worker, s.executors, s.published)
  }

  // Transactions of the API: no existing row changes status.
  ghost predicate StatusesKept(a: Db, b: Db) {
    && (forall id | id in a.runs ::
          id in b.runs && b.runs[id].status == a.runs[id].status && b.runs[id].artifactId == a.runs[id].artifactId)
    && (forall id | id in b.runs && id !in a.runs :: b.runs[id].status == Queued && b.runs[id].artifactId == None)
  }

  lemma KeepingStatusesFits(db: Db, next: Db, w: Worker, executors: map<Pid, Executor>, published: set<ArtifactId>)
    requires Fits(db, w, executors, published) && StatusesKept(db, next)
    ensures Fits(next, w, executors, published)
  {
    assert forall id :: IsRunning(next, id) <==> IsRunning(db, id);
    assert forall id :: Finished(next, id) <==> Finished(db, id);
  }

  lemma ApiKeepsStatuses(db: Db, a: Action)
    requires ApiOp(a).Some?
    ensures StatusesKept(db, Apply(db, ApiOp(a).value))
  {
  }

  // Worker actions that read but do not write the store.
  lemma SilentWorkerStepFits(s: System, a: Action)
    requires Fits(s.db, s.worker, s.executors, s.published)
    requires ApiOp(a).None? && ActingPid(a).None? && !a.Recover? && !a.Claim? && !a.Close?
    ensures var t := Step(s, a);
            t.db == s.db && t.published == s.published && Fits(t.db, t.worker, t.executors, t.published)
  {
    hide Apply, ExecutorStep, ClaimNext, FailAbandoned, CloseCall, ArtifactsFit;
  }

  // Every running row has been finished without an artifact.
  lemma IdleFits(
      db: Db, w: Worker, next: Db, returned: Option<RunId>, executors: map<Pid, Executor>, published: set<ArtifactId>)
    requires Fits(db, w, executors, published)
    requires next.runs.Keys == db.runs.Keys
    requires forall id: RunId :: !IsRunning(next, id)
    requires forall id | id in db.runs :: (
      next.runs[id] == db.runs[id]
      || (next.runs[id].status in {Failed, Cancelled} && next.runs[id].artifactId in {None, db.runs[id].artifactId}))
    requires forall pid | pid in executors :: next.runs[executors[pid].run].status != Cancelled
    requires returned.Some? ==> Finished(next, returned.value)
    ensures Fits(next, Idle(returned), executors, published)
  {
    forall pid | pid in executors
      ensures ExecutorFits(next, Idle(returned), published, pid, executors[pid])
    {
      assert ExecutorFits(db, w, published, pid, executors[pid]);
    }
  }

  lemma RecoverFits(s: System, now: Time)
    requires Fits(s.db, s.worker, s.executors, s.published) && s.worker.Recovering?
    ensures Fits(FailAbandoned(s.db, now), Idle(None), s.executors, s.published)
  {
    var next := FailAbandoned(s.db, now);
    assert forall id | id in s.db.runs ::
      next.runs[id] == (if s.db.runs[id].status == Running then AbandonedRow(s.db.runs[id], now) else s.db.runs[id]);
    assert forall id: RunId :: !IsRunning(next, id);
    forall pid | pid in s.executors
      ensures s.executors[pid].run in next.runs && next.runs[s.executors[pid].run].status != Cancelled
    {
      assert ExecutorFits(s.db, s.worker, s.published, pid, s.executors[pid]);
    }
    IdleFits(s.db, s.worker, next, None, s.executors, s.published);
  }

  lemma ClaimRows(db: Db, now: Time, next: Db, claimed: Option<RunId>)
    requires ClaimOutcome(db, now, next, claimed) && forall id :: !IsRunning(db, id)
    ensures next.runs.Keys == db.runs.Keys
    ensures forall id: RunId :: IsRunning(next, id) <==> claimed == Some(id)
    ensures forall id | id in db.runs && db.runs[id].status != Queued ::
      next.runs[id] == db.runs[id] && claimed != Some(id)
    ensures forall id | id in db.runs :: next.runs[id].artifactId == db.runs[id].artifactId
  {
    forall id: RunId
      ensures IsRunning(next, id) <==> claimed == Some(id)
    {
      assert !IsRunning(db, id);
      assert id in next.runs <==> id in db.runs;
    }
  }

  lemma ClaimedFits(
      db: Db, returned: Option<RunId>, now: Time, next: Db, claimed: Option<RunId>, executors: map<Pid, Executor>,
          published: set<ArtifactId>)
    requires Fits(db, Idle(returned), executors, published) && ClaimOutcome(db, now, next, claimed)
    ensures Fits(next, if claimed.Some? then Claimed(claimed.value) else Idle(None), executors, published)
  {
    ClaimRows(db, now, next, claimed);
    var w := if claimed.Some? then Claimed(claimed.value) else Idle(None);
    forall pid | pid in executors
      ensures ExecutorFits(next, w, published, pid, executors[pid])
    {
      assert ExecutorFits(db, Idle(returned), published, pid, executors[pid]);
    }
  }

  lemma ClaimFits(s: System, now: Time)
    requires Fits(s.db, s.worker, s.executors, s.published) && s.worker.Idle?
    ensures var t := Step(s, Claim(now)); Fits(t.db, t.worker, t.executors, t.published)
  {
    hide Fits, ClaimOutcome, ClaimNext, ExecutorStep, Apply;
    ClaimNextOutcome(s.db, now);
    ClaimedFits(s.db, s.worker.returned, now, ClaimNext(s.db, now).0, ClaimNext(s.db, now).1, s.executors, s.published);
  }

  // The check-then-act call of the monitor is accepted: between the read and
  // the call nobody else can finish the row.
  lemma CloseAccepted(s: System, now: Time)
    requires Fits(s.db, s.worker, s.executors, s.published) && s.worker.Closing?
    ensures var result := CloseCall(s.db, s.worker.run, s.worker.reason, now);
      && result.Success?
      && s.worker.run in result.value.runs
      && var row := result.value.runs[s.worker.run];
         && row.status == (if s.worker.reason == UserCancelled then Cancelled else Failed)
         && row.artifactId == None
         && result.value.runs == s.db.runs[s.worker.run := row]
  {
    hide ArtifactsFit, ExecutorFits, WithEvent, LogOf;
  }

  lemma ClosedFits(
      db: Db, run: RunId, reason: Reason, next: Db, executors: map<Pid, Executor>, published: set<ArtifactId>)
    requires Fits(db, Closing(run, reason), executors, published)
    requires run in next.runs && next.runs == db.runs[run := next.runs[run]]
    requires next.runs[run].status in {Failed, Cancelled} && next.runs[run].artifactId == None
    ensures Fits(next, Idle(Some(run)), executors, published)
  {
    var w := Closing(run, reason);
    assert IsRunning(db, run);
    forall id: RunId
      ensures !IsRunning(next, id)
    {
      assert id != run ==> (IsRunning(next, id) <==> IsRunning(db, id));
    }
    forall pid | pid in executors
      ensures executors[pid].run in next.runs && next.runs[executors[pid].run].status != Cancelled
    {
      assert ExecutorFits(db, w, published, pid, executors[pid]);
      assert executors[pid].run != run;
    }
    IdleFits(db, w, next, Some(run), executors, published);
  }

  lemma CloseFits(s: System, now: Time)
    requires Fits(s.db, s.worker, s.executors, s.published) && s.worker.Closing?
    ensures var t := Step(s, Close(now)); Fits(t.db, t.worker, t.executors, t.published)
  {
    CloseAccepted(s, now);
    var next := CloseCall(s.db, s.worker.run, s.worker.reason, now).value;
    assert Step(s, Close(now)) == s.(db := next, worker := Idle(Some(s.worker.run)));
    ClosedFits(s.db, s.worker.run, s.worker.reason, next, s.executors, s.published);
  }

  // The committed state after a worker action is the result of one transaction, or unchanged.
  function WorkerOp(s: System, a: Action): Option<Op> {
    match a
    case Recover(now) => if s.worker.Recovering? then Some(OpFailAbandoned(now)) else None
    case Claim(now) => if s.worker.Idle? then Some(OpClaimNext(now)) else None
    case Close(now) =>
      if !s.worker.Closing? then None
      else if s.worker.reason == UserCancelled then Some(OpCancel(s.worker.run, now))
      else Some(OpFail(s.worker.run, DiagnosticFor(s.worker.reason), now))
    case _ => None
  }

  lemma WorkerStepCommits(s: System, a: Action)
    requires ApiOp(a).None? && ActingPid(a).None?
    ensures Step(s, a).db == (if WorkerOp(s, a).Some? then Apply(s.db, WorkerOp(s, a).value) else s.db)
    ensures Step(s, a).published == s.published
  {
    if a.Close? && s.worker.Closing? {
      CloseCommits(s, a.now);
    }
  }

  lemma CloseCommits(s: System, now: Time)
    requires s.worker.Closing?
    ensures WorkerStep(s, Close(now)).db == Apply(s.db, WorkerOp(s, Close(now)).value)
    ensures WorkerStep(s, Close(now)).published == s.published
  {
    hide Cancel, Fail, ClaimNext, FailAbandoned, Acquire;
    var result := CloseCall(s.db, s.worker.run, s.worker.reason, now);
    assert Apply(s.db, WorkerOp(s, Close(now)).value) == Commit(s.db, result);
  }

  lemma WorkerStepFits(s: System, a: Action)
    requires Fits(s.db, s.worker, s.executors, s.published) && ApiOp(a).None? && ActingPid(a).None?
    ensures var t := Step(s, a); Fits(t.db, t.worker, t.executors, t.published)
  {
    if WorkerOp(s, a).Some? {
      match a
      case Recover(now) => RecoverFits(s, now);
      case Claim(now) => ClaimFits(s, now);
      case Close(now) => CloseFits(s, now);
    } else if a.Recover? || a.Claim? || a.Close? {
      assert Step(s, a) == s;
    } else {
      SilentWorkerStepFits(s, a);
    }
  }

  // A process that stops, or moves on, does not disturb the others.
  lemma ProcessFits(
      db: Db, w: Worker, executors: map<Pid, Executor>, published: set<ArtifactId>, pid: Pid, e: Executor,
      published': set<ArtifactId>)
    requires Fits(db, w, executors, published) && pid in executors && published <= published'
    requires e.run == executors[pid].run && (e.stage in {Published, Completing} ==> e.artifact in published')
    ensures Fits(db, w, executors[pid := e], published')
    ensures Fits(db, w, executors - {pid}, published)
  {
    assert ExecutorFits(db, w, published, pid, executors[pid]);
  }

  // Executor actions that do not write the store.
  lemma SilentExecutorStepFits(s: System, pid: Pid, a: Action)
    requires Fits(s.db, s.worker, s.executors, s.published) && pid in s.executors
    requires !a.ExecProgress? && !a.ExecComplete? && !a.ExecFail?
    ensures var t := ExecutorStep(s, pid, a);
            t.db == s.db && s.published <= t.published && Fits(t.db, t.worker, t.executors, t.published)
  {
    var t := ExecutorStep(s, pid, a);
    assert ExecutorFits(s.db, s.worker, s.published, pid, s.executors[pid]);
    if pid in t.executors {
      ProcessFits(s.db, s.worker, s.executors, s.published, pid, t.executors[pid], t.published);
      assert t == s || t.executors == s.executors[pid := t.executors[pid]];
    } else {
      ProcessFits(s.db, s.worker, s.executors, s.published, pid, s.executors[pid], s.published);
    }
  }

  // An executor's transaction leaves its own row running or finishes it.
  ghost predicate OwnRowOnly(db: Db, next: Db, run: RunId, published: set<ArtifactId>) {
    && run in db.runs
    && next.runs.Keys == db.runs.Keys
    && (forall id | id in db.runs && id != run :: next.runs[id] == db.runs[id])
    && (next.runs[run].status == db.runs[run].status
          || (IsRunning(db, run) && next.runs[run].status in {Completed, Failed}))
    && (next.runs[run].artifactId.Some? ==> next.runs[run].artifactId.value in published)
  }

  lemma OwnRowFits(s: System, pid: Pid, next: Db, executors: map<Pid, Executor>)
    requires Fits(s.db, s.worker, s.executors, s.published) && pid in s.executors
    requires OwnRowOnly(s.db, next, s.executors[pid].run, s.published)
    requires executors == s.executors - {pid} || executors == s.executors
          || executors == s.executors[pid := s.executors[pid].(stage := Handling)]
    ensures Fits(next, s.worker, executors, s.published)
  {
    assert forall id :: IsRunning(next, id) ==> IsRunning(s.db, id);
    assert forall id :: Finished(s.db, id) ==> Finished(next, id);
    var run := s.executors[pid].run;
    if Owned(s.worker) == Some(run) {
      assert Child(s.worker) == Some(pid);
    }
  }

  function ExecutorOp(s: System, pid: Pid, a: Action): Option<Op>
    requires pid in s.executors
  {
    var e := s.executors[pid];
    match a
    case ExecProgress(_, message, now) =>
      if e.stage in {Building, Published} then Some(OpAppendProgress(e.run, message, now)) else None
    case ExecComplete(_, now, _) => if e.stage.Completing? then Some(OpComplete(e.run, e.artifact, now)) else None
    case ExecFail(_, diagnostic, now) => if e.stage.Failing? then Some(OpFail(e.run, diagnostic, now)) else None
    case _ => None
  }

  lemma ExecutorStepCommits(s: System, pid: Pid, a: Action)
    requires pid in s.executors
    ensures var t := ExecutorStep(s, pid, a);
            && t.db == (if ExecutorOp(s, pid, a).Some? then Apply(s.db, ExecutorOp(s, pid, a).value) else s.db)
            && s.published <= t.published
  {
  }

  // An accepted transaction of an executor finds its row running, because no
  // live executor's row is queued.
  lemma ExecutorOwnRow(s: System, pid: Pid, a: Action)
    requires Fits(s.db, s.worker, s.executors, s.published) && pid in s.executors
    ensures OwnRowOnly(s.db, ExecutorStep(s, pid, a).db, s.executors[pid].run, s.published)
  {
    assert ExecutorFits(s.db, s.worker, s.published, pid, s.executors[pid]);
  }

  lemma ExecutorStepParts(s: System, pid: Pid, a: Action)
    requires pid in s.executors && (a.ExecProgress? || a.ExecComplete? || a.ExecFail?)
    ensures var t := ExecutorStep(s, pid, a);
      && t.worker == s.worker && t.published == s.published
      && (|| t.executors == s.executors - {pid} || t.executors == s.executors
          || t.executors == s.executors[pid := s.executors[pid].(stage := Handling)])
  {
  }

  lemma ExecutorStepFits(s: System, pid: Pid, a: Action)
    requires Fits(s.db, s.worker, s.executors, s.published) && pid in s.executors
    ensures var t := ExecutorStep(s, pid, a); Fits(t.db, t.worker, t.executors, t.published)
  {
    if a.ExecProgress? || a.ExecComplete? || a.ExecFail? {
      var t := ExecutorStep(s, pid, a);
      ExecutorOwnRow(s, pid, a);
      ExecutorStepParts(s, pid, a);
      OwnRowFits(s, pid, t.db, t.executors);
    } else {
      SilentExecutorStepFits(s, pid, a);
    }
  }

  // The transaction an action commits, if any.
  function StepOp(s: System, a: Action): Option<Op> {
    if ApiOp(a).Some? then ApiOp(a)
    else if ActingPid(a).Some? then
      if ActingPid(a).value in s.executors then ExecutorOp(s, ActingPid(a).value, a) else None
    else WorkerOp(s, a)
  }

  // No action writes the store except through one of its transactions.
  lemma StepCommits(s: System, a: Action)
    ensures Step(s, a).db == (if StepOp(s, a).Some? then Apply(s.db, StepOp(s, a).value) else s.db)
    ensures s.published <= Step(s, a).published
  {
    if ActingPid(a).Some? {
      if ActingPid(a).value in s.executors {
        ExecutorStepCommits(s, ActingPid(a).value, a);
      }
    } else if ApiOp(a).None? {
      WorkerStepCommits(s, a);
    }
  }

  lemma StepFits(s: System, a: Action)
    requires Fits(s.db, s.worker, s.executors, s.published)
    ensures var t := Step(s, a); Fits(t.db, t.worker, t.executors, t.published)
  {
    if ApiOp(a).Some? {
      ApiKeepsStatuses(s.db, a);
      KeepingStatusesFits(s.db, Step(s, a).db, s.worker, s.executors, s.published);
    } else if ActingPid(a).None? {
      WorkerStepFits(s, a);
    } else if ActingPid(a).value in s.executors {
      ExecutorStepFits(s, ActingPid(a).value, a);
    }
  }

  lemma StepKeepsInvariant(s: System, a: Action)
    requires Invariant(s)
    ensures Invariant(Step(s, a)) && Later(s.db, Step(s, a).db) && s.published <= Step(s, a).published
  {
    StepCommits(s, a);
    StepFits(s, a);
    if StepOp(s, a).Some? {
      ApplyKeepsValid(s.db, StepOp(s, a).value);
    }
  }

  // -- Safety over every interleaving --

  lemma {:induction false} ReachableInvariant(actions: seq<Action>)
    ensures Invariant(Execute(INITIAL, actions))
  {
    if actions == [] {
    } else {
      ReachableInvariant(actions[..|actions| - 1]);
      StepKeepsInvariant(Execute(INITIAL, actions[..|actions| - 1]), actions[|actions| - 1]);
    }
  }

  lemma {:induction false} LaterInvariant(s: System, more: seq<Action>)
    requires Invariant(s)
    ensures var t := Execute(s, more); Invariant(t) && Later(s.db, t.db) && s.published <= t.published
  {
    if more == [] {
    } else {
      var u := Execute(s, more[..|more| - 1]);
      LaterInvariant(s, more[..|more| - 1]);
      StepKeepsInvariant(u, more[|more| - 1]);
      LaterTransitive(s.db, u.db, Execute(s, more).db);
    }
  }

  // In every reachable state: at most one run is running; a run whose
  // cancellation was requested is not completed; a completed run's artifact
  // was published; nothing is still executing a cancelled run; the monitor's
  // cancel and fail calls have never raised; and when process_next has
  // returned, the run it claimed is terminal.
  lemma WorkerSafety(actions: seq<Action>)
    ensures var s := Execute(INITIAL, actions);
      && (forall a, b | IsRunning(s.db, a) && IsRunning(s.db, b) :: a == b)
      && (forall id | id in s.db.runs && s.db.runs[id].status == Completed ::
            !s.db.runs[id].cancellationRequested && s.db.runs[id].artifactId.Some?
                && s.db.runs[id].artifactId.value in s.published)
      && (forall id, pid | id in s.db.runs && s.db.runs[id].status == Cancelled && pid in s.executors ::
            s.executors[pid].run != id)
      && !s.worker.Raised?
      && (s.worker.Idle? && s.worker.returned.Some? ==> Finished(s.db, s.worker.returned.value))
  {
    ReachableInvariant(actions);
    var s := Execute(INITIAL, actions);
    forall id | id in s.db.runs && s.db.runs[id].status == Completed
      ensures !s.db.runs[id].cancellationRequested && s.db.runs[id].artifactId.Some?
            && s.db.runs[id].artifactId.value in s.published
    {
      assert RunValid(s.db.runs[id], s.db.events[id]);
    }
    forall id, pid | id in s.db.runs && s.db.runs[id].status == Cancelled && pid in s.executors
      ensures s.executors[pid].run != id
    {
      assert ExecutorFits(s.db, s.worker, s.published, pid, s.executors[pid]);
    }
  }

  // Whatever happens next: a terminal row and its log never change, and a
  // requested run never becomes completed.
  lemma WorkerStability(actions: seq<Action>, more: seq<Action>, id: RunId)
    requires id in Execute(INITIAL, actions).db.runs
    ensures var s, t := Execute(INITIAL, actions), Execute(Execute(INITIAL, actions), more);
      && id in t.db.runs
      && LogOf(s.db, id) <= LogOf(t.db, id)
      && (Terminal(s.db.runs[id].status) ==> t.db.runs[id] == s.db.runs[id] && LogOf(t.db, id) == LogOf(s.db, id))
      && (s.db.runs[id].cancellationRequested ==> t.db.runs[id].status != Completed)
  {
    ReachableInvariant(actions);
    LaterInvariant(Execute(INITIAL, actions), more);
    var t := Execute(Execute(INITIAL, actions), more);
    assert RunValid(t.db.runs[id], t.db.events[id]);
  }

  // The action that completes a run comes after the one that published its artifact.
  lemma CompletionFollowsPublication(actions: seq<Action>, a: Action, id: RunId)
    requires var t := Step(Execute(INITIAL, actions), a); id in t.db.runs && t.db.runs[id].status == Completed
    requires id in Execute(INITIAL, actions).db.runs && Execute(INITIAL, actions).db.runs[id].status != Completed
    ensures a.ExecComplete?
    ensures Step(Execute(INITIAL, actions), a).db.runs[id].artifactId.value in Execute(INITIAL, actions).published
    ensures !Execute(INITIAL, actions).db.runs[id].cancellationRequested
  {
    var s := Execute(INITIAL, actions);
    ReachableInvariant(actions);
    StepCommits(s, a);
    var op := StepOp(s, a).value;
    OnlyCompleteCompletes(s.db, op, id);
    var pid := ActingPid(a).value;
    assert ExecutorFits(s.db, s.worker, s.published, pid, s.executors[pid]);
  }

  lemma OnlyCompleteCompletes(db: Db, op: Op, id: RunId)
    requires id in db.runs && db.runs[id].status != Completed
    requires id in Apply(db, op).runs && Apply(db, op).runs[id].status == Completed
    ensures op.OpComplete? && op.id == id && !db.runs[id].cancellationRequested
    ensures Apply(db, op).runs[id].artifactId == Some(op.artifactId)
  {
    if op.OpClaimNext? {
      ClaimNextOutcome(db, op.now);
    }
  }
}
