/** The import worker (workers/import_worker.py) as a protocol between the
    committed database, a lossy Redis list and one worker process that can
    crash at any point. */
module ImportWorker {
  import opened Base
  import opened Text
  import opened CsvRows
  import opened Storage
  import opened DeckService
  import opened ImportJob
  import opened Ledger

  /** Where the worker process is. What it holds here is lost in a crash. Open,
      Done and Failing hold the lock on the job; RolledBack does not. */
  datatype Phase =
    | Down
    | Ready
    | Popped(id: JobId)
    | DbTurn
    | Open(id: JobId, fromRedis: bool, processing: Job)
    | Done(id: JobId, fromRedis: bool, now: int, fault: Fault, rows: seq<Row>, deckRow: Deck, job: Job)
    | RolledBack(id: JobId, fromRedis: bool, now: int, fault: Fault, errors: seq<JobError>)
    | Failing(id: JobId, fromRedis: bool, now: int, fault: Fault, job: Job)
    | Requeueing(id: JobId)

  datatype Sys = Sys(db: Db, queue: seq<JobId>, phase: Phase)

  datatype Event =
    | Requested(req: Request)
    | Uploaded(upload: Upload)
    | Enqueued(id: JobId)
    | Lost(at: nat)
    | Duplicated(at: nat)
    | Start
    | Crash
    | Dequeue
    | DequeueFails
    | Lock
    | Claim
    | Process(now: int, fault: Fault)
    | Reload
    | ProcessRaises
    | Commit
    | CommitThenRaise
    | CommitRaises
    | Requeue(delivered: bool)

  /** Jobs a previous process left in PROCESSING are queued again. */
  function ResetStuck(db: Db): Db {
    db.(jobs := map j | j in db.jobs ::
      if db.jobs[j].status == Processing then db.jobs[j].(status := Queued) else db.jobs[j])
  }

  /** The least queued identifier at or above from: the oldest queued job. */
  function FirstQueued(db: Db, from: JobId): (r: Option<JobId>)
    ensures r.Some? ==> from <= r.value && IsQueued(db, r.value)
    ensures r.Some? ==> forall j :: from <= j < r.value ==> !IsQueued(db, j)
    ensures r.None? ==> forall j :: from <= j < db.nextJob ==> !IsQueued(db, j)
    decreases db.nextJob - from
  {
    if from >= db.nextJob then None
    else if IsQueued(db, from) then Some(from)
    else FirstQueued(db, from + 1)
  }

  function OldestQueued(db: Db): Option<JobId> {
    FirstQueued(db, 0)
  }

  /** A job to work on opens a transaction with PROCESSING flushed into it;
      any other identifier is dropped. */
  function Opened(s: Sys, id: JobId, fromRedis: bool, otherwise: Phase): Sys {
    if IsQueued(s.db, id) then s.(phase := Open(id, fromRedis, s.db.jobs[id].(status := Processing)))
    else s.(phase := otherwise)
  }

  /** After an exception, or for a job that is gone, the Redis path puts the
      identifier back and the database path goes on to the next turn. */
  function Raised(s: Sys): Sys
    requires s.phase.Open? || s.phase.Done? || s.phase.RolledBack? || s.phase.Failing?
  {
    s.(phase := if s.phase.fromRedis then Requeueing(s.phase.id) else Ready)
  }

  /** The rows the worker's transaction writes: its job, and for a completed
      import its cards and the row of its deck. */
  function CommittedDb(s: Sys): Db
    requires s.phase.Done? || s.phase.Failing?
  {
    var jobs := s.db.jobs[s.phase.id := s.phase.job];
    if s.phase.Failing? then s.db.(jobs := jobs)
    else
      var d, wipe := s.phase.job.deck, s.phase.job.mode.Replace?;
      s.db.(lib := Written(s.db.lib, d, s.phase.deckRow, s.phase.rows, wipe), jobs := jobs)
  }

  predicate CanCommit(s: Sys) {
    (s.phase.Done? || s.phase.Failing?) && FitsColumns(CommittedDb(s).lib)
  }

  /** The request waits for the worker's transaction: it would remove the
      locked job, or needs rows of the deck being imported into. No lock forces
      the latter; it is assumed, so that no update of the deck is lost. */
  predicate Waits(s: Sys, req: Request) {
    match s.phase
    case Open(id, _, _) => id in s.db.jobs && Deletes(s.db.lib, req, s.db.jobs[id].deck)
    case Failing(id, _, _, _, _) => id in s.db.jobs && Deletes(s.db.lib, req, s.db.jobs[id].deck)
    case Done(id, _, _, _, _, _, job) => Touches(s.db.lib, req, job.deck)
    case _ => false
  }

  /** The import in the worker's transaction: computed, or raised and rolled
      back. */
  function Processed(t: Locale, s: Sys, now: int, fault: Fault): Sys
    requires s.phase.Open?
  {
    var id, redis, job := s.phase.id, s.phase.fromRedis, s.phase.processing;
    match FailureOf(t, s.db.lib, job, fault)
    case Some(errors) => s.(phase := RolledBack(id, redis, now, fault, errors))
    case None =>
      var (lib, done) := Import(t, s.db.lib, job, now, fault);
      s.(phase := Done(id, redis, now, fault, RowsToAdd(t, s.db.lib, job), lib.decks[job.deck], done))
  }

  /** After the rollback the job is read again: to be marked as failed, unless
      it has gone in the meantime. */
  function Reloaded(s: Sys): Sys
    requires s.phase.RolledBack?
  {
    var id := s.phase.id;
    if id in s.db.jobs then
      var failed := FailedJob(s.db.jobs[id], s.phase.errors, s.phase.now);
      s.(phase := Failing(id, s.phase.fromRedis, s.phase.now, s.phase.fault, failed))
    else Raised(s)
  }

  /** One step. An event that does not apply leaves everything as it is. */
  function Next(t: Locale, s: Sys, e: Event): Sys {
    match e
    case Requested(req) => if Waits(s, req) then s else s.(db := Transact(t, s.db, req))
    case Uploaded(upload) => s.(db := Submitted(s.db, upload))
    case Enqueued(id) => s.(queue := s.queue + [id])
    case Lost(at) => if at < |s.queue| then s.(queue := s.queue[..at] + s.queue[at + 1..]) else s
    case Duplicated(at) => if at < |s.queue| then s.(queue := s.queue + [s.queue[at]]) else s
    case Start => if s.phase.Down? then Sys(ResetStuck(s.db), s.queue, Ready) else s
    case Crash => s.(phase := Down)
    case Dequeue =>
      if s.phase.Ready? && s.queue != [] then Sys(s.db, s.queue[1..], Popped(s.queue[0])) else s
    case DequeueFails => if s.phase.Ready? then s.(phase := DbTurn) else s
    case Lock => if s.phase.Popped? then Opened(s, s.phase.id, true, DbTurn) else s
    case Claim =>
      if s.phase.DbTurn? then
        match OldestQueued(s.db)
        case Some(id) => Opened(s, id, false, Ready)
        case None => s.(phase := Ready)
      else s
    case Process(now, fault) => if s.phase.Open? then Processed(t, s, now, fault) else s
    case Reload => if s.phase.RolledBack? then Reloaded(s) else s
    case ProcessRaises => if s.phase.Open? || s.phase.RolledBack? then Raised(s) else s
    case Commit =>
      if CanCommit(s) then s.(db := CommittedDb(s), phase := Ready)
      else if s.phase.Done? || s.phase.Failing? then Raised(s)
      else s
    case CommitThenRaise => if CanCommit(s) then Raised(s).(db := CommittedDb(s)) else s
    case CommitRaises => if s.phase.Done? || s.phase.Failing? then Raised(s) else s
    case Requeue(delivered) =>
      if s.phase.Requeueing? then
        Sys(s.db, if delivered then s.queue + [s.phase.id] else s.queue, DbTurn)
      else s
  }

  function Run(t: Locale, s: Sys, events: seq<Event>): Sys {
    if events == [] then s
    else Next(t, Run(t, s, events[..|events| - 1]), events[|events| - 1])
  }

  // ---------------------------------------------------------------------
  // Refinement: the protocol does nothing but atomic acts
  // ---------------------------------------------------------------------

  /** The act a step commits, if it commits one. */
  function ActsOf(s: Sys, e: Event): seq<Act> {
    match e
    case Requested(req) => if Waits(s, req) then [] else [Serving(req)]
    case Uploaded(upload) => [Submitting(upload)]
    case Commit => if CanCommit(s) then [Finishing(s.phase.id, s.phase.now, s.phase.fault)] else []
    case CommitThenRaise => if CanCommit(s) then [Finishing(s.phase.id, s.phase.now, s.phase.fault)] else []
    case _ => []
  }

  function Trace(t: Locale, s: Sys, events: seq<Event>): seq<Act> {
    if events == [] then []
    else
      var before := events[..|events| - 1];
      Trace(t, s, before) + ActsOf(Run(t, s, before), events[|events| - 1])
  }

  /** The transaction holds the locked job's import, computed from its file
      and deck as they still are. */
  ghost predicate HoldsImport(t: Locale, db: Db, p: Phase)
    requires p.Done? && IsQueued(db, p.id)
  {
    var job := db.jobs[p.id];
    var (lib, done) := Import(t, db.lib, job, p.now, p.fault);
    && FailureOf(t, db.lib, job, p.fault).None?
    && p.job == done && p.rows == RowsToAdd(t, db.lib, job)
    && job.deck in db.lib.decks && job.deck in lib.decks && p.deckRow == lib.decks[job.deck]
  }

  ghost predicate PhaseInv(t: Locale, db: Db, p: Phase) {
    match p
    case Open(id, _, processing) => IsQueued(db, id) && processing == db.jobs[id].(status := Processing)
    case Done(id, _, _, _, _, _, _) => IsQueued(db, id) && HoldsImport(t, db, p)
    case RolledBack(id, _, now, fault, errors) =>
      id < db.nextJob
      && (id in db.jobs ==> IsQueued(db, id) && FailureOf(t, db.lib, db.jobs[id], fault) == Some(errors))
    case Failing(id, _, now, fault, job) =>
      IsQueued(db, id)
      && var errors := FailureOf(t, db.lib, db.jobs[id], fault);
         errors.Some? && job == FailedJob(db.jobs[id], errors.value, now)
    case _ => true
  }

  ghost predicate SysInv(t: Locale, s: Sys) {
    DbInv(t, s.db) && PhaseInv(t, s.db, s.phase)
  }

  /** No job is ever committed as PROCESSING, so the reset at start-up finds
      nothing to do. */
  lemma ResetFindsNothing(t: Locale, db: Db)
    requires DbInv(t, db)
    ensures ResetStuck(db) == db
  {
  }

  /** Whatever was committed before, a reset leaves no job in PROCESSING. */
  lemma ResetClearsProcessing(db: Db)
    ensures forall j :: j in ResetStuck(db).jobs ==>
      && ResetStuck(db).jobs[j].status != Processing
      && (db.jobs[j].status != Processing ==> ResetStuck(db).jobs[j] == db.jobs[j])
  {
  }

  /** What the transaction writes row by row is what an atomic import leaves,
      whatever was requested for other decks in the meantime. */
  lemma CommitIsFinish(t: Locale, s: Sys)
    requires SysInv(t, s) && CanCommit(s)
    ensures IsQueued(s.db, s.phase.id) && Storable(t, s.db.lib, s.db.jobs[s.phase.id], s.phase.fault)
    ensures CommittedDb(s) == Finished(t, s.db, s.phase.id, s.phase.now, s.phase.fault)
    ensures Terminal(s.phase.job.status)
  {
    var job := s.db.jobs[s.phase.id];
    ImportShape(t, s.db.lib, job, s.phase.now, s.phase.fault);
    if s.phase.Done? {
      WrittenIsImported(s.db.lib, job.deck, s.phase.rows, job.filename, job.mode.Replace?);
    }
  }

  lemma CommitWrites(t: Locale, s: Sys, e: Event)
    requires e.Commit? || e.CommitThenRaise?
    ensures Next(t, s, e).db == if CanCommit(s) then CommittedDb(s) else s.db
  {
  }

  /** A step commits its act, or nothing. */
  lemma StepCommits(t: Locale, s: Sys, e: Event)
    requires SysInv(t, s)
    ensures var acts := ActsOf(s, e);
      && |acts| <= 1
      && Next(t, s, e).db == (if acts == [] then s.db else Perform(t, s.db, acts[0]))
  {
    if e.Start? {
      ResetFindsNothing(t, s.db);
    } else if e.Commit? || e.CommitThenRaise? {
      CommitWrites(t, s, e);
      if CanCommit(s) {
        CommitIsFinish(t, s);
      }
    }
  }

  lemma UploadKeepsPhase(t: Locale, db: Db, upload: Upload, p: Phase)
    requires DbInv(t, db) && PhaseInv(t, db, p)
    ensures PhaseInv(t, Submitted(db, upload), p)
  {
  }

  lemma RequestKeepsPhase(t: Locale, s: Sys, req: Request)
    requires SysInv(t, s) && !Waits(s, req)
    ensures PhaseInv(t, Transact(t, s.db, req), s.phase)
  {
    RequestOnJobs(t, s.db, req);
    RequestJobRows(t, s.db, req);
    if s.phase.Done? {
      var job := s.db.jobs[s.phase.id];
      UntouchedDeckSame(t, s.db, req, job.deck);
      ImportSeesItsDeck(t, s.db.lib, Transact(t, s.db, req).lib, job, s.phase.now, s.phase.fault);
    }
  }

  lemma ProcessKeepsPhase(t: Locale, s: Sys, now: int, fault: Fault)
    requires SysInv(t, s) && s.phase.Open?
    ensures PhaseInv(t, s.db, Processed(t, s, now, fault).phase)
  {
    ImportIgnoresStatus(t, s.db.lib, s.db.jobs[s.phase.id], Processing, now, fault);
  }

  /** What the worker holds between steps agrees with what is committed. */
  lemma StepKeepsPhase(t: Locale, s: Sys, e: Event)
    requires SysInv(t, s)
    ensures PhaseInv(t, Next(t, s, e).db, Next(t, s, e).phase)
  {
    match e
    case Requested(req) =>
      if !Waits(s, req) {
        RequestKeepsPhase(t, s, req);
      }
    case Uploaded(upload) => UploadKeepsPhase(t, s.db, upload, s.phase);
    case Process(now, fault) =>
      if s.phase.Open? {
        ProcessKeepsPhase(t, s, now, fault);
      }
    case _ =>
  }

  lemma {:induction false} StepRefines(t: Locale, s: Sys, e: Event)
    requires SysInv(t, s)
    ensures SysInv(t, Next(t, s, e))
    ensures Next(t, s, e).db == PerformAll(t, s.db, ActsOf(s, e))
  {
    var acts := ActsOf(s, e);
    StepCommits(t, s, e);
    if acts != [] {
      assert acts == [acts[0]] && acts[..0] == [];
      ActKeepsLaws(t, s.db, acts[0]);
    }
    StepKeepsPhase(t, s, e);
  }

  lemma PerformAllAppend(t: Locale, db: Db, first: seq<Act>, more: seq<Act>)
    requires |more| <= 1
    ensures PerformAll(t, db, first + more) == PerformAll(t, PerformAll(t, db, first), more)
  {
    if more == [] {
      assert first + more == first;
    } else {
      assert (first + more)[..|first|] == first;
      assert more[..0] == [];
    }
  }

  /** Every run of the protocol, with lost and duplicated identifiers, crashes,
      retries and polls, leaves the database its atomic acts would leave. */
  lemma {:induction false} ProtocolRefinesLedger(t: Locale, s: Sys, events: seq<Event>)
    requires SysInv(t, s)
    ensures SysInv(t, Run(t, s, events))
    ensures Run(t, s, events).db == PerformAll(t, s.db, Trace(t, s, events))
  {
    if events != [] {
      var before := events[..|events| - 1];
      ProtocolRefinesLedger(t, s, before);
      StepRefines(t, Run(t, s, before), events[|events| - 1]);
      PerformAllAppend(t, s.db, Trace(t, s, before), ActsOf(Run(t, s, before), events[|events| - 1]));
    }
  }

  // ---------------------------------------------------------------------
  // Exactly once
  // ---------------------------------------------------------------------

  /** The acts of a trace that finish the job. */
  function FinishingActs(trace: seq<Act>, id: JobId): seq<Act> {
    if trace == [] then []
    else
      var act := trace[|trace| - 1];
      FinishingActs(trace[..|trace| - 1], id) + if act.Finishing? && act.id == id then [act] else []
  }

  lemma StepFinishes(t: Locale, s: Sys, e: Event)
    requires SysInv(t, s)
    ensures forall act :: act in ActsOf(s, e) && act.Finishing? ==> Finishes(t, s.db, act, act.id)
  {
    if CanCommit(s) {
      CommitIsFinish(t, s);
    }
  }

  lemma FinishersAppend(t: Locale, db: Db, trace: seq<Act>, acts: seq<Act>, id: JobId)
    requires |acts| <= 1
    requires forall act :: act in acts && act.Finishing? ==> Finishes(t, PerformAll(t, db, trace), act, act.id)
    ensures |Finishers(t, db, trace + acts, id)| - |Finishers(t, db, trace, id)| ==
      |FinishingActs(trace + acts, id)| - |FinishingActs(trace, id)|
  {
    if acts == [] {
      assert trace + acts == trace;
    } else {
      assert (trace + acts)[..|trace|] == trace;
      assert acts[0] in acts;
    }
  }

  /** Every finishing act of a run finds its job queued and storable. */
  lemma {:induction false} FinishersOfRun(t: Locale, s: Sys, events: seq<Event>, id: JobId)
    requires SysInv(t, s)
    ensures |Finishers(t, s.db, Trace(t, s, events), id)| == |FinishingActs(Trace(t, s, events), id)|
  {
    if events != [] {
      var before := events[..|events| - 1];
      FinishersOfRun(t, s, before, id);
      ProtocolRefinesLedger(t, s, before);
      StepCommits(t, Run(t, s, before), events[|events| - 1]);
      StepFinishes(t, Run(t, s, before), events[|events| - 1]);
      FinishersAppend(t, s.db, Trace(t, s, before), ActsOf(Run(t, s, before), events[|events| - 1]), id);
    }
  }

  /** Over every run at most one act finishes a job. The job ends as COMPLETED
      if and only if that act added its rows to the library, and as FAILED if
      and only if it left the library alone and recorded the errors. */
  lemma {:induction false} ImportedExactlyOnce(t: Locale, s: Sys, events: seq<Event>, id: JobId)
    requires SysInv(t, s)
    requires if id in s.db.jobs then IsQueued(s.db, id) else s.db.nextJob <= id
    ensures var trace, after := Trace(t, s, events), Run(t, s, events).db;
      var finishers := Finishers(t, s.db, trace, id);
      && |FinishingActs(trace, id)| == |finishers| <= 1
      && (id in after.jobs ==>
            && (after.jobs[id].status == Completed <==>
                  finishers != [] && Completes(t, finishers[0].0, finishers[0].1, id))
            && (after.jobs[id].status == Failed <==>
                  finishers != [] && Fails(t, finishers[0].0, finishers[0].1, id)))
  {
    FinishersOfRun(t, s, events, id);
    ProtocolRefinesLedger(t, s, events);
    FinalStatusExplained(t, s.db, Trace(t, s, events), id);
  }

  /** A finished job never changes again. */
  lemma {:induction false} FinalStatusAbsorbing(t: Locale, s: Sys, events: seq<Event>, id: JobId)
    requires SysInv(t, s) && id in s.db.jobs && Terminal(s.db.jobs[id].status)
    ensures var after := Run(t, s, events).db;
      id in after.jobs ==> after.jobs[id] == s.db.jobs[id]
  {
    ProtocolRefinesLedger(t, s, events);
    FinalRecordStays(t, s.db, Trace(t, s, events), id);
  }

  /** A job that has gone never comes back. */
  lemma {:induction false} RemovedJobStaysRemoved(t: Locale, s: Sys, events: seq<Event>, id: JobId)
    requires SysInv(t, s) && id < s.db.nextJob && id !in s.db.jobs
    ensures var after := Run(t, s, events).db;
      id !in after.jobs && id < after.nextJob
  {
    ProtocolRefinesLedger(t, s, events);
    RemovedStaysRemoved(t, s.db, Trace(t, s, events), id);
  }

  /** Apart from requests, the library changes only in the step that commits
      a job as COMPLETED, and then by that job's rows. A job that ends as
      FAILED changes nothing in it. */
  lemma {:induction false} OnlyCompletionTouchesLibrary(t: Locale, s: Sys, e: Event)
    requires SysInv(t, s) && !e.Requested?
    ensures var s' := Next(t, s, e);
      s'.db.lib != s.db.lib ==>
        && s.phase.Done? && IsQueued(s.db, s.phase.id)
        && Completes(t, s.db, Finishing(s.phase.id, s.phase.now, s.phase.fault), s.phase.id)
        && s'.db == Perform(t, s.db, Finishing(s.phase.id, s.phase.now, s.phase.fault))
  {
    StepCommits(t, s, e);
    if CanCommit(s) {
      CommitIsFinish(t, s);
      FinishCompletesOrFails(t, s.db, Finishing(s.phase.id, s.phase.now, s.phase.fault), s.phase.id);
    }
  }

  // ---------------------------------------------------------------------
  // From the upload to the deck
  // ---------------------------------------------------------------------

  /** Whatever happens after an upload by the deck's owner, its job carries what
      was uploaded for as long as it exists. */
  lemma JobCarriesUpload(t: Locale, s: Sys, u: Upload, events: seq<Event>)
    requires SysInv(t, s) && u.deck in s.db.lib.decks && s.db.lib.decks[u.deck].user == u.user
    ensures var id, after := s.db.nextJob, Run(t, Next(t, s, Uploaded(u)), events).db;
      SysInv(t, Next(t, s, Uploaded(u))) && id < after.nextJob && (id in after.jobs ==> Carries(after.jobs[id], u))
  {
    var begun := Next(t, s, Uploaded(u));
    UploadMakesJob(s.db, u);
    StepRefines(t, s, Uploaded(u));
    ProtocolRefinesLedger(t, begun, events);
    RunKeepsUpload(t, begun.db, Trace(t, begun, events), s.db.nextJob, u);
  }

  /** And the step, of any run, that makes the job COMPLETED is the one that
      gives the deck the uploaded file, in the mode that was asked for. */
  lemma UploadTakesEffect(t: Locale, s: Sys, u: Upload, events: seq<Event>, e: Event)
    requires SysInv(t, s) && u.deck in s.db.lib.decks && s.db.lib.decks[u.deck].user == u.user
    ensures var before := Run(t, Next(t, s, Uploaded(u)), events);
      var after := Next(t, before, e);
      var id := s.db.nextJob;
      id in after.db.jobs && after.db.jobs[id].status == Completed
      && (id in before.db.jobs ==> before.db.jobs[id].status != Completed) ==>
        TakesEffect(t, before.db.lib, after.db.lib, u)
  {
    var before := Run(t, Next(t, s, Uploaded(u)), events);
    var id := s.db.nextJob;
    JobCarriesUpload(t, s, u, events);
    ProtocolRefinesLedger(t, Next(t, s, Uploaded(u)), events);
    StepCommits(t, before, e);
    var acts, after := ActsOf(before, e), Next(t, before, e);
    if acts != [] && id in after.db.jobs && after.db.jobs[id].status == Completed
       && (id in before.db.jobs ==> before.db.jobs[id].status != Completed) {
      CompletingAct(t, before.db, acts[0], id, u);
    }
  }

  // ---------------------------------------------------------------------
  // A job that is removed while the worker holds no lock on it
  // ---------------------------------------------------------------------

  /** Reading a removed job again changes nothing in the database; the Redis
      path goes on to put the identifier back. */
  lemma RemovedJobIsRetried(t: Locale, s: Sys)
    requires SysInv(t, s) && s.phase.RolledBack?
    ensures var s' := Next(t, s, Reload);
      && s'.db == s.db && s'.queue == s.queue
      && (s.phase.id !in s.db.jobs <==> s'.phase == if s.phase.fromRedis then Requeueing(s.phase.id) else Ready)
  {
  }

  /** Whenever such an identifier is taken from Redis again, after whatever
      run, it is dropped and nothing else happens. */
  lemma {:induction false} RetriedIdentifierIsDropped(t: Locale, s: Sys, events: seq<Event>, id: JobId)
    requires SysInv(t, s) && id < s.db.nextJob && id !in s.db.jobs
    requires var s' := Run(t, s, events); s'.phase == Popped(id)
    ensures var s' := Run(t, s, events); Next(t, s', Lock) == s'.(phase := DbTurn)
  {
    RemovedJobStaysRemoved(t, s, events, id);
  }
}
