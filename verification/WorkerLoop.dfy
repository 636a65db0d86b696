/** The loop of the import worker when nothing outside the import fails: what
    its functions do, and that an iteration is a run of the protocol. */
module WorkerLoop {
  import opened Base
  import opened Text
  import opened Storage
  import opened DeckService
  import opened ImportJob
  import opened Ledger
  import opened ImportWorker

  /** What befalls one attempt at a job: the fault that strikes, and the
      requests that take effect between a rollback and reading the job again. */
  datatype Attempt = Attempt(fault: Fault, gap: seq<Request>)

  /** Clock and circumstances of one iteration, which may try two jobs. */
  datatype Tick = Tick(now: int, redis: Attempt, poll: Attempt)

  datatype Outcome = Returned(processed: bool, retriable: bool) | Exception

  /** What _process_job commits, and how it ends. */
  function Tried(t: Locale, db: Db, id: JobId, now: int, a: Attempt): (Db, Outcome) {
    if !IsQueued(db, id) then (db, Returned(false, false))
    else
      match FailureOf(t, db.lib, db.jobs[id], a.fault)
      case None =>
        if Storable(t, db.lib, db.jobs[id], a.fault) then (Finished(t, db, id, now, a.fault), Returned(true, false))
        else (db, Exception)
      case Some(errors) =>
        var after := TransactAll(t, db, a.gap);
        if id in after.jobs then
          (after.(jobs := after.jobs[id := FailedJob(after.jobs[id], errors, now)]), Returned(true, false))
        else (after, Returned(false, true))
  }

  /** The identifier goes back to Redis. */
  predicate Requeues(outcome: Outcome) {
    outcome == Exception || outcome.retriable
  }

  predicate Succeeds(outcome: Outcome) {
    outcome != Exception && outcome.processed
  }

  /** What _process_redis_job does, and whether it reports success. */
  function RedisTurn(t: Locale, s: Sys, tick: Tick): (Sys, bool) {
    if s.queue == [] then (s, false)
    else
      var id, rest := s.queue[0], s.queue[1..];
      var (db, outcome) := Tried(t, s.db, id, tick.now, tick.redis);
      (Sys(db, if Requeues(outcome) then rest + [id] else rest, s.phase), Succeeds(outcome))
  }

  /** What _process_db_job does: an attempt at the oldest queued job. */
  function DbJobTurn(t: Locale, s: Sys, tick: Tick): Sys {
    match OldestQueued(s.db)
    case None => s
    case Some(id) => s.(db := Tried(t, s.db, id, tick.now, tick.poll).0)
  }

  /** One iteration of the worker's loop. */
  function Turn(t: Locale, s: Sys, tick: Tick): Sys {
    var (after, ok) := RedisTurn(t, s, tick);
    if ok then after else DbJobTurn(t, after, tick)
  }

  function Turns(t: Locale, s: Sys, ticks: seq<Tick>): Sys {
    if ticks == [] then s
    else Turn(t, Turns(t, s, ticks[..|ticks| - 1]), ticks[|ticks| - 1])
  }

  // ---------------------------------------------------------------------
  // The worker's functions
  // ---------------------------------------------------------------------

  lemma {:induction false} RequestsFit(t: Locale, db: Db, reqs: seq<Request>)
    requires FitsColumns(db.lib)
    ensures FitsColumns(TransactAll(t, db, reqs).lib)
  {
    if reqs != [] {
      RequestsFit(t, db, reqs[..|reqs| - 1]);
    }
  }

  lemma TriedFits(t: Locale, db: Db, id: JobId, now: int, a: Attempt)
    requires FitsColumns(db.lib)
    ensures FitsColumns(Tried(t, db, id, now, a).0.lib)
  {
    RequestsFit(t, db, a.gap);
    if IsQueued(db, id) {
      ImportShape(t, db.lib, db.jobs[id], now, a.fault);
    }
  }

  class Worker {
    const db: Database
    var queue: seq<JobId>

    constructor (db: Database, queue: seq<JobId>)
      ensures this.db == db && this.queue == queue
    {
      this.db := db;
      this.queue := queue;
    }

    function State(): Sys
      reads this, db
    {
      Sys(db.committed, queue, Ready)
    }

    /** Between two steps no transaction is open. */
    predicate Idle()
      reads this, db
    {
      db.working == db.committed && FitsColumns(db.committed.lib)
    }

    method ResetStuckJobs()
      requires FitsColumns(db.committed.lib)
      modifies db
      ensures Idle() && db.committed == ResetStuck(old(db.committed))
    {
      db.Rollback();
      db.working := ResetStuck(db.working);
      var _ := db.Commit();
    }

    method DequeueJobId() returns (id: Option<JobId>)
      modifies this`queue
      ensures old(queue) == [] ==> id.None? && queue == []
      ensures old(queue) != [] ==> id == Some(old(queue)[0]) && queue == old(queue)[1..]
    {
      id := None;
      if queue != [] {
        id := Some(queue[0]);
        queue := queue[1..];
      }
    }

    method RequeueJobId(id: JobId)
      modifies this`queue
      ensures queue == old(queue) + [id]
    {
      queue := queue + [id];
    }

    /** Runs the import in a session of its own and commits a final status.
        When there is none, because the job has gone, it is to be retried. */
    method ProcessJob(t: Locale, id: JobId, now: int, a: Attempt) returns (outcome: Outcome)
      requires Idle()
      modifies db
      ensures Idle() && (db.committed, outcome) == Tried(t, old(db.committed), id, now, a)
    {
      if id !in db.working.jobs || db.working.jobs[id].status != Queued {
        return Returned(false, false);
      }
      TriedFits(t, db.committed, id, now, a);
      RequestsFit(t, db.committed, a.gap);
      ImportShape(t, db.committed.lib, db.committed.jobs[id], now, a.fault);
      var result := ImportJob.ProcessImportJob(t, db, id, now, a.fault, a.gap);
      if result.Some? && Terminal(result.value.status) {
        var ok := db.Commit();
        outcome := if ok then Returned(true, false) else Exception;
      } else {
        db.Rollback();
        outcome := Returned(false, true);
      }
    }

    method ProcessRedisJob(t: Locale, tick: Tick) returns (processed: bool)
      requires Idle()
      modifies this`queue, db
      ensures Idle() && (State(), processed) == RedisTurn(t, old(State()), tick)
    {
      var id := DequeueJobId();
      if id.None? {
        return false;
      }
      var outcome := ProcessJob(t, id.value, tick.now, tick.redis);
      if outcome == Exception {
        RequeueJobId(id.value);
        return false;
      }
      if outcome.retriable {
        RequeueJobId(id.value);
      }
      processed := outcome.processed;
    }

    method ProcessDbJob(t: Locale, tick: Tick) returns (outcome: Outcome)
      requires Idle()
      modifies db
      ensures Idle() && State() == DbJobTurn(t, old(State()), tick)
    {
      var claimed := OldestQueued(db.working);
      if claimed.None? {
        return Returned(false, false);
      }
      outcome := ProcessJob(t, claimed.value, tick.now, tick.poll);
    }

    /** run_worker: the reset, then the loop for as many iterations as there
        are ticks. */
    method RunWorker(t: Locale, ticks: seq<Tick>)
      requires FitsColumns(db.committed.lib)
      modifies this`queue, db
      ensures State() == Turns(t, Sys(ResetStuck(old(db.committed)), old(queue), Ready), ticks)
    {
      ResetStuckJobs();
      ghost var start := State();
      for i := 0 to |ticks|
        invariant Idle() && State() == Turns(t, start, ticks[..i])
      {
        assert ticks[..i + 1][..i] == ticks[..i];
        var processed := ProcessRedisJob(t, ticks[i]);
        if !processed {
          var _ := ProcessDbJob(t, ticks[i]);
        }
      }
      assert ticks[..|ticks|] == ticks;
    }
  }

  // ---------------------------------------------------------------------
  // When a job is to be retried
  // ---------------------------------------------------------------------

  /** A job is reported as retriable exactly when its import fails and its
      owner deletes the deck before the job is read again. */
  lemma {:induction false} RetriableExactly(t: Locale, db: Db, id: JobId, now: int, a: Attempt)
    requires DbInv(t, db)
    ensures Tried(t, db, id, now, a).1 == Returned(false, true) <==>
      && IsQueued(db, id) && FailureOf(t, db.lib, db.jobs[id], a.fault).Some?
      && DeletedBy(db.lib, a.gap, db.jobs[id].deck)
  {
    if id in db.jobs {
      RequestsOnJob(t, db, a.gap, id);
    }
  }

  /** The state in which an attempt finds the job when it marks its end. */
  function BeforeFinish(t: Locale, db: Db, id: JobId, a: Attempt): Db {
    if IsQueued(db, id) && FailureOf(t, db.lib, db.jobs[id], a.fault).Some? then TransactAll(t, db, a.gap) else db
  }

  lemma FailureIsFinish(t: Locale, db: Db, after: Db, id: JobId, now: int, fault: Fault)
    requires JobsSurvive(db, after) && FitsColumns(after.lib) && IsQueued(db, id)
    requires FailureOf(t, db.lib, db.jobs[id], fault).Some?
    ensures var errors := FailureOf(t, db.lib, db.jobs[id], fault).value;
      Finished(t, after, id, now, fault) ==
        if id in after.jobs then after.(jobs := after.jobs[id := FailedJob(after.jobs[id], errors, now)]) else after
  {
    if id in after.jobs {
      assert FailureOf(t, after.lib, after.jobs[id], fault) == FailureOf(t, db.lib, db.jobs[id], fault);
    }
  }

  /** An attempt is the requests of the gap and a finishing act, if any. */
  lemma TriedIsActs(t: Locale, db: Db, id: JobId, now: int, a: Attempt)
    requires DbInv(t, db)
    ensures DbInv(t, BeforeFinish(t, db, id, a)) && JobsSurvive(db, BeforeFinish(t, db, id, a))
    ensures Tried(t, db, id, now, a).0 == Finished(t, BeforeFinish(t, db, id, a), id, now, a.fault)
    ensures DbInv(t, Tried(t, db, id, now, a).0)
  {
    RequestsKeepJobs(t, db, a.gap);
    FinishKeepsLaws(t, BeforeFinish(t, db, id, a), id, now, a.fault);
    if IsQueued(db, id) && FailureOf(t, db.lib, db.jobs[id], a.fault).Some? {
      FailureIsFinish(t, db, TransactAll(t, db, a.gap), id, now, a.fault);
    }
  }

  // ---------------------------------------------------------------------
  // A turn is a run of the protocol
  // ---------------------------------------------------------------------

  function RequestEvents(reqs: seq<Request>): seq<Event> {
    seq(|reqs|, i requires 0 <= i < |reqs| => Requested(reqs[i]))
  }

  /** The steps that end an attempt once the import has been tried. */
  function EndEvents(t: Locale, db: Db, id: JobId, a: Attempt, fromRedis: bool): seq<Event>
    requires IsQueued(db, id)
  {
    var job := db.jobs[id];
    if FailureOf(t, db.lib, job, a.fault).None? then
      if Storable(t, db.lib, job, a.fault) || !fromRedis then [Commit] else [Commit, Requeue(true)]
    else if id in TransactAll(t, db, a.gap).jobs then [Reload, Commit]
    else if fromRedis then [Reload, Requeue(true)]
    else [Reload]
  }

  /** The steps of an attempt at a job that has been opened. */
  function AttemptEvents(t: Locale, db: Db, id: JobId, now: int, a: Attempt, fromRedis: bool): seq<Event> {
    if !IsQueued(db, id) then []
    else
      var gap := if FailureOf(t, db.lib, db.jobs[id], a.fault).Some? then RequestEvents(a.gap) else [];
      ([Process(now, a.fault)] + gap) + EndEvents(t, db, id, a, fromRedis)
  }

  function RedisEvents(t: Locale, s: Sys, tick: Tick): seq<Event> {
    if s.queue == [] then [DequeueFails]
    else [Dequeue, Lock] + AttemptEvents(t, s.db, s.queue[0], tick.now, tick.redis, true)
  }

  function DbEvents(t: Locale, s: Sys, tick: Tick): seq<Event> {
    match OldestQueued(s.db)
    case None => [Claim]
    case Some(id) => [Claim] + AttemptEvents(t, s.db, id, tick.now, tick.poll, false)
  }

  lemma {:induction false} RunAppend(t: Locale, s: Sys, first: seq<Event>, more: seq<Event>)
    ensures Run(t, s, first + more) == Run(t, Run(t, s, first), more)
    decreases |more|
  {
    if more == [] {
      assert first + more == first;
    } else {
      var last := |more| - 1;
      assert (first + more)[..|first + more| - 1] == first + more[..last];
      RunAppend(t, s, first, more[..last]);
    }
  }

  lemma RunOne(t: Locale, s: Sys, e: Event)
    ensures Run(t, s, [e]) == Next(t, s, e)
  {
    assert [e][..0] == [];
  }

  lemma RunTwo(t: Locale, s: Sys, e: Event, f: Event)
    ensures Run(t, s, [e, f]) == Next(t, Next(t, s, e), f)
  {
    RunOne(t, s, e);
    assert [e, f][..1] == [e];
  }

  /** After a rollback nothing holds requests up. */
  lemma {:induction false} GapRuns(t: Locale, s: Sys, reqs: seq<Request>)
    requires s.phase.RolledBack?
    ensures Run(t, s, RequestEvents(reqs)) == s.(db := TransactAll(t, s.db, reqs))
  {
    if reqs != [] {
      var last := |reqs| - 1;
      GapRuns(t, s, reqs[..last]);
      assert RequestEvents(reqs)[..last] == RequestEvents(reqs[..last]);
    }
  }

  /** The worker's state after the attempt at an opened job. */
  function AfterAttempt(t: Locale, s: Sys, id: JobId, now: int, a: Attempt, fromRedis: bool): Sys {
    var (db, outcome) := Tried(t, s.db, id, now, a);
    var back := fromRedis && Requeues(outcome);
    Sys(db, if back then s.queue + [id] else s.queue, if back then DbTurn else Ready)
  }

  lemma CanCommitExactly(t: Locale, s: Sys)
    requires SysInv(t, s) && s.phase.Done?
    ensures CanCommit(s) <==> Storable(t, s.db.lib, s.db.jobs[s.phase.id], s.phase.fault)
  {
    var job := s.db.jobs[s.phase.id];
    ImportShape(t, s.db.lib, job, s.phase.now, s.phase.fault);
    WrittenIsImported(s.db.lib, job.deck, s.phase.rows, job.filename, job.mode.Replace?);
  }

  lemma CommitRuns(t: Locale, s: Sys)
    requires s.phase.Done?
    ensures CanCommit(s) ==> Run(t, s, [Commit]) == Sys(CommittedDb(s), s.queue, Ready)
    ensures !CanCommit(s) && s.phase.fromRedis ==>
      Run(t, s, [Commit, Requeue(true)]) == Sys(s.db, s.queue + [s.phase.id], DbTurn)
    ensures !CanCommit(s) && !s.phase.fromRedis ==> Run(t, s, [Commit]) == Sys(s.db, s.queue, Ready)
  {
    RunOne(t, s, Commit);
    RunTwo(t, s, Commit, Requeue(true));
  }

  lemma CompletedAttemptEnds(t: Locale, s: Sys, id: JobId, now: int, a: Attempt, fromRedis: bool)
    requires s.phase.Done? && s.phase.id == id && s.phase.fromRedis == fromRedis
    requires IsQueued(s.db, id) && FailureOf(t, s.db.lib, s.db.jobs[id], a.fault).None?
    requires CanCommit(s) <==> Storable(t, s.db.lib, s.db.jobs[id], a.fault)
    requires CanCommit(s) ==> CommittedDb(s) == Finished(t, s.db, id, now, a.fault)
    ensures Run(t, s, EndEvents(t, s.db, id, a, fromRedis)) == AfterAttempt(t, s, id, now, a, fromRedis)
  {
    CommitRuns(t, s);
  }

  lemma OpenJobFails(t: Locale, s: Sys, fault: Fault)
    requires s.phase.Open? && PhaseInv(t, s.db, s.phase)
    ensures FailureOf(t, s.db.lib, s.phase.processing, fault) == FailureOf(t, s.db.lib, s.db.jobs[s.phase.id], fault)
  {
    ImportIgnoresStatus(t, s.db.lib, s.db.jobs[s.phase.id], Processing, 0, fault);
  }

  lemma ProcessLeadsToDone(t: Locale, s: Sys, now: int, fault: Fault)
    requires s.phase.Open? && FailureOf(t, s.db.lib, s.phase.processing, fault).None?
    ensures var done := Next(t, s, Process(now, fault));
      && done == Processed(t, s, now, fault)
      && done.phase.Done? && done.db == s.db && done.queue == s.queue
      && done.phase.id == s.phase.id && done.phase.fromRedis == s.phase.fromRedis
      && done.phase.now == now && done.phase.fault == fault
  {
  }

  lemma ProcessCompletes(t: Locale, s: Sys, now: int, fault: Fault)
    requires s.phase.Open? && SysInv(t, s)
    requires FailureOf(t, s.db.lib, s.db.jobs[s.phase.id], fault).None?
    ensures var done := Next(t, s, Process(now, fault));
      && done.phase.Done? && SysInv(t, done) && done.db == s.db && done.queue == s.queue
      && done.phase.id == s.phase.id && done.phase.fromRedis == s.phase.fromRedis
      && done.phase.now == now && done.phase.fault == fault
  {
    ProcessKeepsPhase(t, s, now, fault);
    OpenJobFails(t, s, fault);
    ProcessLeadsToDone(t, s, now, fault);
  }

  lemma CompletedAttemptRuns(t: Locale, s: Sys, id: JobId, now: int, a: Attempt, fromRedis: bool)
    requires s.phase.Open? && SysInv(t, s) && s.phase.id == id && s.phase.fromRedis == fromRedis
    requires FailureOf(t, s.db.lib, s.db.jobs[id], a.fault).None?
    ensures Run(t, Next(t, s, Process(now, a.fault)), EndEvents(t, s.db, id, a, fromRedis)) ==
      AfterAttempt(t, s, id, now, a, fromRedis)
  {
    var done := Next(t, s, Process(now, a.fault));
    ProcessCompletes(t, s, now, a.fault);
    CanCommitExactly(t, done);
    if CanCommit(done) {
      CommitIsFinish(t, done);
    }
    CompletedAttemptEnds(t, done, id, now, a, fromRedis);
  }

  lemma ReloadAndCommit(t: Locale, s: Sys)
    requires s.phase.RolledBack? && s.phase.id in s.db.jobs && FitsColumns(s.db.lib)
    ensures var failed := FailedJob(s.db.jobs[s.phase.id], s.phase.errors, s.phase.now);
      Run(t, s, [Reload, Commit]) == Sys(s.db.(jobs := s.db.jobs[s.phase.id := failed]), s.queue, Ready)
  {
    RunTwo(t, s, Reload, Commit);
  }

  lemma ReloadAndRequeue(t: Locale, s: Sys)
    requires s.phase.RolledBack? && s.phase.id !in s.db.jobs
    ensures s.phase.fromRedis ==> Run(t, s, [Reload, Requeue(true)]) == Sys(s.db, s.queue + [s.phase.id], DbTurn)
    ensures !s.phase.fromRedis ==> Run(t, s, [Reload]) == Sys(s.db, s.queue, Ready)
  {
    RunOne(t, s, Reload);
    RunTwo(t, s, Reload, Requeue(true));
  }

  lemma FailedAttemptEnds(t: Locale, s: Sys, db: Db, id: JobId, now: int, a: Attempt, fromRedis: bool)
    requires s.phase.RolledBack? && s.phase.id == id && s.phase.fromRedis == fromRedis && s.phase.now == now
    requires IsQueued(db, id) && FailureOf(t, db.lib, db.jobs[id], a.fault) == Some(s.phase.errors)
    requires s.db == TransactAll(t, db, a.gap) && FitsColumns(s.db.lib)
    ensures Run(t, s, EndEvents(t, db, id, a, fromRedis)) ==
      AfterAttempt(t, Sys(db, s.queue, s.phase), id, now, a, fromRedis)
  {
    if id in s.db.jobs {
      ReloadAndCommit(t, s);
    } else {
      ReloadAndRequeue(t, s);
    }
  }

  lemma FailedAttemptRuns(t: Locale, s: Sys, id: JobId, now: int, a: Attempt, fromRedis: bool)
    requires s.phase.Open? && SysInv(t, s) && s.phase.id == id && s.phase.fromRedis == fromRedis
    requires FailureOf(t, s.db.lib, s.db.jobs[id], a.fault).Some?
    ensures Run(t, Run(t, Next(t, s, Process(now, a.fault)), RequestEvents(a.gap)),
                EndEvents(t, s.db, id, a, fromRedis)) ==
      AfterAttempt(t, s, id, now, a, fromRedis)
  {
    ImportIgnoresStatus(t, s.db.lib, s.db.jobs[id], Processing, now, a.fault);
    var raised := Next(t, s, Process(now, a.fault));
    GapRuns(t, raised, a.gap);
    RequestsFit(t, s.db, a.gap);
    FailedAttemptEnds(t, raised.(db := TransactAll(t, s.db, a.gap)), s.db, id, now, a, fromRedis);
  }

  lemma AttemptRuns(t: Locale, s: Sys, id: JobId, now: int, a: Attempt, fromRedis: bool)
    requires s.phase.Open? && SysInv(t, s) && s.phase.id == id && s.phase.fromRedis == fromRedis
    ensures Run(t, s, AttemptEvents(t, s.db, id, now, a, fromRedis)) == AfterAttempt(t, s, id, now, a, fromRedis)
  {
    var process, end := [Process(now, a.fault)], EndEvents(t, s.db, id, a, fromRedis);
    RunOne(t, s, Process(now, a.fault));
    if FailureOf(t, s.db.lib, s.db.jobs[id], a.fault).None? {
      assert process + [] == process;
      RunAppend(t, s, process, end);
      CompletedAttemptRuns(t, s, id, now, a, fromRedis);
    } else {
      RunAppend(t, s, process, RequestEvents(a.gap));
      RunAppend(t, s, process + RequestEvents(a.gap), end);
      FailedAttemptRuns(t, s, id, now, a, fromRedis);
    }
  }

  /** Popping an identifier and locking its job. */
  lemma PopAndLock(t: Locale, s: Sys)
    requires s.phase.Ready? && s.queue != []
    ensures Run(t, s, [Dequeue, Lock]) == Opened(Sys(s.db, s.queue[1..], Popped(s.queue[0])), s.queue[0], true, DbTurn)
  {
    RunTwo(t, s, Dequeue, Lock);
  }

  /** The Redis half of a turn is a run that ends at the top of the loop when
      it succeeds, and otherwise where the database is polled. */
  lemma RedisTurnRuns(t: Locale, s: Sys, tick: Tick)
    requires s.phase.Ready? && DbInv(t, s.db)
    ensures var (after, ok) := RedisTurn(t, s, tick);
      Run(t, s, RedisEvents(t, s, tick)) == after.(phase := if ok then Ready else DbTurn)
  {
    if s.queue == [] {
      RunOne(t, s, DequeueFails);
    } else {
      var id := s.queue[0];
      var locked := Opened(Sys(s.db, s.queue[1..], Popped(id)), id, true, DbTurn);
      PopAndLock(t, s);
      RunAppend(t, s, [Dequeue, Lock], AttemptEvents(t, s.db, id, tick.now, tick.redis, true));
      if IsQueued(s.db, id) {
        AttemptRuns(t, locked, id, tick.now, tick.redis, true);
      }
    }
  }

  lemma ClaimOpens(t: Locale, s: Sys, id: JobId)
    requires s.phase.DbTurn? && OldestQueued(s.db) == Some(id)
    ensures Run(t, s, [Claim]) == Opened(s, id, false, Ready) && IsQueued(s.db, id)
  {
    RunOne(t, s, Claim);
  }

  lemma DbJobTurnRuns(t: Locale, s: Sys, tick: Tick)
    requires s.phase.DbTurn? && DbInv(t, s.db)
    ensures Run(t, s, DbEvents(t, s, tick)) == DbJobTurn(t, s, tick).(phase := Ready)
  {
    match OldestQueued(s.db)
    case None =>
      RunOne(t, s, Claim);
    case Some(id) =>
      ClaimOpens(t, s, id);
      RunAppend(t, s, [Claim], AttemptEvents(t, s.db, id, tick.now, tick.poll, false));
      AttemptRuns(t, Opened(s, id, false, Ready), id, tick.now, tick.poll, false);
  }

  /** One iteration of the loop is a run of the protocol, so everything proved
      of all runs holds of the loop. */
  lemma {:induction false} TurnRuns(t: Locale, s: Sys, tick: Tick) returns (events: seq<Event>)
    requires s.phase.Ready? && SysInv(t, s)
    ensures Run(t, s, events) == Turn(t, s, tick)
    ensures SysInv(t, Turn(t, s, tick)) && Turn(t, s, tick).phase.Ready?
  {
    events := RedisEvents(t, s, tick);
    RedisTurnRuns(t, s, tick);
    var (after, ok) := RedisTurn(t, s, tick);
    if !ok {
      ProtocolRefinesLedger(t, s, events);
      var polled := DbEvents(t, after, tick);
      DbJobTurnRuns(t, after.(phase := DbTurn), tick);
      RunAppend(t, s, events, polled);
      events := events + polled;
    }
    ProtocolRefinesLedger(t, s, events);
  }

  /** The state of a worker that crashes and is started again. */
  function Restarted(t: Locale, s: Sys): Sys {
    Next(t, Next(t, s, Crash), Start)
  }

  lemma RestartKeepsCommitted(t: Locale, s: Sys)
    requires SysInv(t, s)
    ensures Restarted(t, s) == Sys(s.db, s.queue, Ready)
  {
    ResetFindsNothing(t, s.db);
  }

  // ---------------------------------------------------------------------
  // What Redis may hold
  // ---------------------------------------------------------------------

  lemma {:induction false} EverythingLost(t: Locale, s: Sys) returns (events: seq<Event>)
    ensures Run(t, s, events) == s.(queue := [])
    decreases |s.queue|
  {
    events := [];
    if s.queue != [] {
      var rest := EverythingLost(t, s.(queue := s.queue[1..]));
      RunOne(t, s, Lost(0));
      assert s.queue[..0] + s.queue[1..] == s.queue[1..];
      RunAppend(t, s, [Lost(0)], rest);
      events := [Lost(0)] + rest;
    }
  }

  lemma {:induction false} AllEnqueued(t: Locale, s: Sys, ids: seq<JobId>) returns (events: seq<Event>)
    ensures Run(t, s, events) == s.(queue := s.queue + ids)
  {
    events := [];
    if ids == [] {
      assert s.queue + ids == s.queue;
    } else {
      var last := |ids| - 1;
      events := AllEnqueued(t, s, ids[..last]);
      RunAppend(t, s, events, [Enqueued(ids[last])]);
      RunOne(t, s.(queue := s.queue + ids[..last]), Enqueued(ids[last]));
      assert s.queue + ids[..last] + [ids[last]] == s.queue + ids;
      events := events + [Enqueued(ids[last])];
    }
  }

  /** Redis is not trusted: whatever it holds, a run may leave it with any list
      of identifiers at all, and nothing else changed. */
  lemma AnyQueue(t: Locale, s: Sys, ids: seq<JobId>) returns (events: seq<Event>)
    ensures Run(t, s, events) == s.(queue := ids)
  {
    var lost := EverythingLost(t, s);
    var enqueued := AllEnqueued(t, s.(queue := []), ids);
    RunAppend(t, s, lost, enqueued);
    assert s.(queue := []).queue + ids == ids;
    events := lost + enqueued;
  }
}
