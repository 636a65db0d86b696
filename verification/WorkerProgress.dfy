/** Which import jobs the worker finishes, and when its loop drains. */
module WorkerProgress {
  import opened Base
  import opened Text
  import opened CsvRows
  import opened Storage
  import opened DeckService
  import opened ImportJob
  import opened Ledger
  import opened ImportWorker
  import opened WorkerLoop
  import D = Draining

  function QueuedJobs(db: Db): set<JobId> {
    set j | j in db.jobs && IsQueued(db, j)
  }

  function BacklogOf(s: Sys): D.Backlog {
    D.Backlog(QueuedJobs(s.db), s.queue)
  }

  /** Work left: queued jobs and identifiers waiting in Redis. */
  function Backlog(s: Sys): nat {
    D.Size(BacklogOf(s))
  }

  /** The job fails, or all distinct rows of its file fit the card columns. */
  predicate CanFinish(t: Locale, db: Db, id: JobId)
    requires id in db.jobs
  {
    var job := db.jobs[id];
    !Owns(db.lib, job.user, job.deck) || job.readerFails || FileFits(t, job)
  }

  ghost predicate AllCanFinish(t: Locale, db: Db) {
    forall j :: j in db.jobs && IsQueued(db, j) ==> CanFinish(t, db, j)
  }

  // ---------------------------------------------------------------------
  // What an attempt leaves of the other jobs
  // ---------------------------------------------------------------------

  lemma FinishKeepsOthers(t: Locale, db: Db, id: JobId, now: int, fault: Fault)
    requires DbInv(t, db)
    ensures var after := Finished(t, db, id, now, fault);
      && after.jobs.Keys == db.jobs.Keys
      && after.lib.decks.Keys == db.lib.decks.Keys
      && (forall d :: d in db.lib.decks ==> after.lib.decks[d].user == db.lib.decks[d].user)
      && (forall j :: j in db.jobs && j != id ==> after.jobs[j] == db.jobs[j])
      && (IsQueued(after, id) ==> after == db)
  {
    if IsQueued(db, id) && Storable(t, db.lib, db.jobs[id], fault) {
      ImportShape(t, db.lib, db.jobs[id], now, fault);
      ImportKeepsOwners(t, db.lib, db.jobs[id], now, fault);
    }
  }

  lemma ImportKeepsOwners(t: Locale, lib: Library, job: Job, now: int, fault: Fault)
    ensures var after := Import(t, lib, job, now, fault).0;
      after.decks.Keys == lib.decks.Keys
      && forall d :: d in lib.decks ==> after.decks[d].user == lib.decks[d].user
  {
  }

  /** Jobs still queued were queued before, with the same prospects. */
  ghost predicate KeepsOthers(t: Locale, db: Db, after: Db) {
    && QueuedJobs(after) <= QueuedJobs(db)
    && forall j :: j in QueuedJobs(after) ==> (CanFinish(t, after, j) <==> CanFinish(t, db, j))
  }

  lemma SurvivorsKept(t: Locale, db: Db, after: Db)
    requires JobsSurvive(db, after)
    ensures KeepsOthers(t, db, after)
  {
  }

  lemma FinishKeepsProspects(t: Locale, db: Db, id: JobId, now: int, fault: Fault)
    requires DbInv(t, db)
    ensures KeepsOthers(t, db, Finished(t, db, id, now, fault))
  {
    var after := Finished(t, db, id, now, fault);
    FinishKeepsOthers(t, db, id, now, fault);
    forall j | j in QueuedJobs(after) && j != id
      ensures j in QueuedJobs(db) && (CanFinish(t, after, j) <==> CanFinish(t, db, j))
    {
      assert after.jobs[j] == db.jobs[j];
    }
  }

  lemma KeepsOthersTransitive(t: Locale, a: Db, b: Db, c: Db)
    requires KeepsOthers(t, a, b) && KeepsOthers(t, b, c)
    ensures KeepsOthers(t, a, c)
  {
  }

  lemma TriedKeepsOthers(t: Locale, db: Db, id: JobId, now: int, a: Attempt)
    requires DbInv(t, db)
    ensures DbInv(t, Tried(t, db, id, now, a).0) && KeepsOthers(t, db, Tried(t, db, id, now, a).0)
  {
    var before := BeforeFinish(t, db, id, a);
    TriedIsActs(t, db, id, now, a);
    SurvivorsKept(t, db, before);
    FinishKeepsProspects(t, before, id, now, a.fault);
    KeepsOthersTransitive(t, db, before, Finished(t, before, id, now, a.fault));
  }

  lemma CanFinishIsStorable(t: Locale, db: Db, id: JobId, fault: Fault)
    requires DbInv(t, db) && IsQueued(db, id) && CanFinish(t, db, id)
    ensures FailureOf(t, db.lib, db.jobs[id], fault).None? ==> Storable(t, db.lib, db.jobs[id], fault)
  {
    if FailureOf(t, db.lib, db.jobs[id], fault).None? {
      FittingFileIsStorable(t, db.lib, db.jobs[id], fault);
    }
  }

  /** An attempt at a job that can finish gets it out of the way. */
  lemma TriedFinishes(t: Locale, db: Db, id: JobId, now: int, a: Attempt)
    requires DbInv(t, db) && IsQueued(db, id) && CanFinish(t, db, id)
    ensures var (after, outcome) := Tried(t, db, id, now, a);
      outcome != Exception && QueuedJobs(after) <= QueuedJobs(db) - {id}
  {
    CanFinishIsStorable(t, db, id, a.fault);
    TriedKeepsOthers(t, db, id, now, a);
    if FailureOf(t, db.lib, db.jobs[id], a.fault).None? {
      ImportShape(t, db.lib, db.jobs[id], now, a.fault);
    }
  }

  lemma OldestIsLeast(db: Db)
    requires JobsInv(db)
    ensures OldestQueued(db).None? <==> QueuedJobs(db) == {}
    ensures OldestQueued(db).Some? ==> D.IsLeast(QueuedJobs(db), OldestQueued(db).value)
  {
    if OldestQueued(db).Some? {
      assert OldestQueued(db).value in QueuedJobs(db);
    }
  }

  // ---------------------------------------------------------------------
  // Draining, whatever faults and requests intervene
  // ---------------------------------------------------------------------

  lemma SmallerSet(a: set<JobId>, b: set<JobId>)
    requires a <= b
    ensures |a| <= |b| && (a != b ==> |a| < |b|)
  {
    assert b == a + (b - a);
    assert |b| == |a| + |b - a|;
  }

  lemma RedisHalfShrinks(t: Locale, s: Sys, tick: Tick)
    requires DbInv(t, s.db) && AllCanFinish(t, s.db)
    ensures var (after, ok) := RedisTurn(t, s, tick);
      && DbInv(t, after.db) && AllCanFinish(t, after.db)
      && (s.queue != [] ==> Backlog(after) < Backlog(s))
      && (s.queue == [] ==> after == s && !ok)
  {
    if s.queue != [] {
      var id := s.queue[0];
      var after := Tried(t, s.db, id, tick.now, tick.redis).0;
      TriedKeepsOthers(t, s.db, id, tick.now, tick.redis);
      SmallerSet(QueuedJobs(after), QueuedJobs(s.db));
      if IsQueued(s.db, id) {
        TriedFinishes(t, s.db, id, tick.now, tick.redis);
        assert id in QueuedJobs(s.db) && id !in QueuedJobs(after);
      }
    }
  }

  lemma PollShrinks(t: Locale, s: Sys, tick: Tick)
    requires DbInv(t, s.db) && AllCanFinish(t, s.db)
    ensures var after := DbJobTurn(t, s, tick);
      && DbInv(t, after.db) && AllCanFinish(t, after.db) && after.queue == s.queue
      && (QueuedJobs(s.db) != {} ==> Backlog(after) < Backlog(s))
      && (QueuedJobs(s.db) == {} ==> after == s)
  {
    OldestIsLeast(s.db);
    if OldestQueued(s.db).Some? {
      var id := OldestQueued(s.db).value;
      var after := Tried(t, s.db, id, tick.now, tick.poll).0;
      TriedKeepsOthers(t, s.db, id, tick.now, tick.poll);
      TriedFinishes(t, s.db, id, tick.now, tick.poll);
      assert id in QueuedJobs(s.db) && id !in QueuedJobs(after);
      SmallerSet(QueuedJobs(after), QueuedJobs(s.db));
    }
  }

  /** When every queued job can finish, each iteration lowers the backlog until
      it is empty. */
  lemma {:induction false} TurnShrinks(t: Locale, s: Sys, tick: Tick)
    requires DbInv(t, s.db) && AllCanFinish(t, s.db)
    ensures var after := Turn(t, s, tick);
      && DbInv(t, after.db) && AllCanFinish(t, after.db)
      && (Backlog(s) > 0 ==> Backlog(after) < Backlog(s))
      && (Backlog(s) == 0 ==> after == s)
  {
    RedisHalfShrinks(t, s, tick);
    PollShrinks(t, RedisTurn(t, s, tick).0, tick);
  }

  lemma {:induction false} TurnsShrink(t: Locale, s: Sys, ticks: seq<Tick>)
    requires DbInv(t, s.db) && AllCanFinish(t, s.db)
    ensures var after := Turns(t, s, ticks);
      DbInv(t, after.db) && AllCanFinish(t, after.db) && Backlog(after) <= Max(0, Backlog(s) - |ticks|)
  {
    if ticks != [] {
      TurnsShrink(t, s, ticks[..|ticks| - 1]);
      TurnShrinks(t, Turns(t, s, ticks[..|ticks| - 1]), ticks[|ticks| - 1]);
    }
  }

  lemma NoneQueuedMeansTerminal(db: Db)
    requires JobsInv(db)
    ensures QueuedJobs(db) == {} <==> forall j :: j in db.jobs ==> Terminal(db.jobs[j].status)
  {
    if QueuedJobs(db) == {} {
      forall j | j in db.jobs
        ensures Terminal(db.jobs[j].status)
      {
        assert j !in QueuedJobs(db);
      }
    }
  }

  /** Whatever Redis has lost, wherever the worker has crashed, and whatever
      faults and requests intervene: when every queued job can finish, a
      restarted worker has finished them all, and emptied the list, after as
      many iterations as the backlog is large. */
  lemma {:induction false} NoJobStranded(t: Locale, s: Sys, ticks: seq<Tick>)
    requires SysInv(t, s) && AllCanFinish(t, s.db) && |ticks| >= Backlog(s)
    ensures var after := Turns(t, Restarted(t, s), ticks);
      after.queue == [] && forall j :: j in after.db.jobs ==> Terminal(after.db.jobs[j].status)
  {
    RestartKeepsCommitted(t, s);
    TurnsShrink(t, Sys(s.db, s.queue, Ready), ticks);
    NoneQueuedMeansTerminal(Turns(t, Sys(s.db, s.queue, Ready), ticks).db);
  }

  // ---------------------------------------------------------------------
  // When a job can be stored
  // ---------------------------------------------------------------------

  const QUIET := Attempt(NoFault, [])

  /** No fault strikes, and nothing is requested in between. */
  ghost predicate Quiet(ticks: seq<Tick>) {
    forall i :: 0 <= i < |ticks| ==> ticks[i].redis == QUIET && ticks[i].poll == QUIET
  }

  function FileRows(t: Locale, job: Job): seq<Row> {
    DistinctRows(t, ParsedRows(t, job.records))
  }

  /** No card of deck d, and no row of a queued file for it that fits, has this
      normalised pair. */
  ghost predicate UnusedKey(t: Locale, db: Db, d: DeckId, key: Row) {
    && key !in ExistingPairs(t, db.lib, d)
    && forall i, row ::
         (i in db.jobs && IsQueued(db, i) && db.jobs[i].deck == d
          && row in FileRows(t, db.jobs[i]) && Fits(row)) ==> NormalizePair(t, row) != key
  }

  /** When merging, a row too long for the card columns does not have the
      normalised pair of one that fits, so it is not skipped as a duplicate. */
  ghost predicate LongRowsDiffer(t: Locale, db: Db) {
    forall j, row ::
      (j in db.jobs && IsQueued(db, j) && db.jobs[j].mode.Merge? && row in FileRows(t, db.jobs[j]) && !Fits(row)) ==>
        UnusedKey(t, db, db.jobs[j].deck, NormalizePair(t, row))
  }

  lemma FileRowIsParsed(t: Locale, job: Job, row: Row)
    requires row in FileRows(t, job)
    ensures row in ParsedRows(t, job.records)
  {
    KeptCount(t, ParsedRows(t, job.records), {}, |ParsedRows(t, job.records)|);
  }

  /** So it is whenever lower-casing keeps the length of a string. */
  lemma {:induction false} LengthsKeptMeansLongRowsDiffer(isSpace: char -> bool, lower: string -> string, db: Db)
    requires FitsColumns(db.lib) && forall x :: |lower(x)| == |x|
    ensures LongRowsDiffer(LocaleOf(isSpace, lower), db)
  {
    var t := LocaleOf(isSpace, lower);
    forall j, row | j in db.jobs && IsQueued(db, j) && row in FileRows(t, db.jobs[j]) && !Fits(row)
      ensures UnusedKey(t, db, db.jobs[j].deck, NormalizePair(t, row))
    {
      FileRowIsParsed(t, db.jobs[j], row);
      StrippedKeyLength(isSpace, lower, db.jobs[j].records, row);
      var key := NormalizePair(t, row);
      assert !Fits(key);
      forall c | c in db.lib.cards
        ensures NormalizePair(t, (db.lib.cards[c].question, db.lib.cards[c].answer)) != key
      {
        StripShortens(isSpace, db.lib.cards[c].question);
        StripShortens(isSpace, db.lib.cards[c].answer);
      }
      forall i, other | i in db.jobs && other in FileRows(t, db.jobs[i]) && Fits(other)
        ensures NormalizePair(t, other) != key
      {
        StripShortens(isSpace, other.0);
        StripShortens(isSpace, other.1);
      }
    }
  }

  lemma StrippedKeyLength(isSpace: char -> bool, lower: string -> string, records: seq<Record>, row: Row)
    requires forall x :: |lower(x)| == |x|
    requires row in ParsedRows(LocaleOf(isSpace, lower), records)
    ensures var key := NormalizePair(LocaleOf(isSpace, lower), row);
      |key.0| == |row.0| && |key.1| == |row.1|
  {
    RowsAreClean(isSpace, lower, records, |records|);
    StripTrims(isSpace, row.0);
    StripTrims(isSpace, row.1);
  }

  lemma LongRowIsAdded(t: Locale, db: Db, id: JobId)
    requires IsQueued(db, id) && LongRowsDiffer(t, db) && !FileFits(t, db.jobs[id])
    ensures exists row :: row in RowsToAdd(t, db.lib, db.jobs[id]) && !Fits(row)
  {
    var job := db.jobs[id];
    var rows := ParsedRows(t, job.records);
    assert FileRows(t, job) == DistinctRows(t, rows);
    var row :| row in FileRows(t, job) && !Fits(row);
    if job.mode.Merge? {
      assert UnusedKey(t, db, job.deck, NormalizePair(t, row));
      DistinctRowIsKept(t, rows, ExistingPairs(t, db.lib, job.deck), row);
    }
    assert row in RowsToAdd(t, db.lib, job);
  }

  /** Without faults a queued job can be stored exactly when it can finish, a
      condition on its file that does not change while it waits. */
  lemma {:induction false} StorableIfCanFinish(t: Locale, db: Db, id: JobId)
    requires DbInv(t, db) && IsQueued(db, id) && LongRowsDiffer(t, db)
    ensures Storable(t, db.lib, db.jobs[id], NoFault) <==> CanFinish(t, db, id)
  {
    StorableExactly(t, db.lib, db.jobs[id], NoFault);
    if CanFinish(t, db, id) {
      CanFinishIsStorable(t, db, id, NoFault);
    } else {
      LongRowIsAdded(t, db, id);
    }
  }

  /** A deck with one card, and a queued file with one long row for it. */
  function DuplicateDb(short: string, long: string): Db {
    var lib := Library(map[0 := Deck(0, "Deck", None, [], 1, 2, None)],
                       map[0 := Card(0, short, "answer", None, [], DEFAULT_DIFFICULTY)], map[], 1, 1);
    Db(lib, map[0 := Job(0, 0, Queued, Merge, [[long, "answer"]], false, None, 0, 0, [], None)], 1)
  }

  lemma OneCardDbIsValid(t: Locale, short: string, long: string)
    requires |short| <= QUESTION_COLUMN
    ensures DbInv(t, DuplicateDb(short, long))
  {
    assert DeckCards(DuplicateDb(short, long).lib, 0) == {0};
  }

  /** The condition on long rows is needed: where lower-casing takes a question
      too long for its column to the same string as one that fits, the long row
      is skipped as a duplicate of a card, and its job is completed. */
  lemma LongDuplicateIsSkipped(t: Locale, short: string, long: string, now: int)
    requires t.lower(short) == t.lower(long) && t.lower(long) != "question"
    requires t.strip(short) == short && t.strip(long) == long && t.strip("answer") == "answer"
    requires |short| <= QUESTION_COLUMN < |long|
    ensures var db := DuplicateDb(short, long);
      && DbInv(t, db) && IsQueued(db, 0) && !CanFinish(t, db, 0)
      && Storable(t, db.lib, db.jobs[0], NoFault)
      && Finished(t, db, 0, now, NoFault).lib == db.lib
      && Finished(t, db, 0, now, NoFault).jobs[0].status == Completed
  {
    var db := DuplicateDb(short, long);
    var job := db.jobs[0];
    OneCardDbIsValid(t, short, long);
    assert Classify(t, job.records, 0) == Accepted((long, "answer"));
    assert RowsOf(t, job.records, 0) == [];
    var rows := ParsedRows(t, job.records);
    assert rows == [(long, "answer")];
    assert Kept(t, rows, {}, 0) == [] && FileRows(t, job) == [(long, "answer")];
    assert (long, "answer") in FileRows(t, job);
    assert NormalizePair(t, (db.lib.cards[0].question, db.lib.cards[0].answer)) in ExistingPairs(t, db.lib, 0);
    NothingNewKept(t, rows, ExistingPairs(t, db.lib, 0), 1);
    assert RowsToAdd(t, db.lib, job) == [];
    StorableExactly(t, db.lib, job, NoFault);
  }

  // ---------------------------------------------------------------------
  // Quiet iterations are iterations of the backlog
  // ---------------------------------------------------------------------

  lemma PairsAfterImport(t: Locale, lib: Library, job: Job, now: int, d: DeckId)
    requires LibraryInv(t, lib) && job.deck in lib.decks && d in lib.decks
    requires FailureOf(t, lib, job, NoFault).None?
    ensures ExistingPairs(t, Import(t, lib, job, now, NoFault).0, d) <=
      ExistingPairs(t, lib, d) + (if d == job.deck then Keys(t, ParsedRows(t, job.records)) else {})
  {
    if d == job.deck {
      ImportedKeys(t, lib, job, now);
    } else {
      ImportEffect(lib, job.deck, RowsToAdd(t, lib, job), job.filename, job.mode.Replace?);
      SameDeckSamePairs(t, lib, Import(t, lib, job, now, NoFault).0, d);
    }
  }

  lemma UnusedKeyNotInFile(t: Locale, db: Db, id: JobId, key: Row)
    requires IsQueued(db, id) && FileFits(t, db.jobs[id]) && UnusedKey(t, db, db.jobs[id].deck, key)
    ensures key !in Keys(t, ParsedRows(t, db.jobs[id].records))
  {
    var rows := ParsedRows(t, db.jobs[id].records);
    KeptKeys(t, rows, {}, |rows|);
    assert rows[..|rows|] == rows;
    KeysMembership(t, FileRows(t, db.jobs[id]), key);
    forall i | 0 <= i < |FileRows(t, db.jobs[id])|
      ensures NormalizePair(t, FileRows(t, db.jobs[id])[i]) != key
    {
      assert FileRows(t, db.jobs[id])[i] in FileRows(t, db.jobs[id]);
    }
  }

  lemma PairsAfterFinish(t: Locale, db: Db, id: JobId, now: int, d: DeckId, key: Row)
    requires DbInv(t, db) && IsQueued(db, id) && CanFinish(t, db, id) && d in db.lib.decks
    requires UnusedKey(t, db, d, key)
    ensures key !in ExistingPairs(t, Finished(t, db, id, now, NoFault).lib, d)
  {
    var job := db.jobs[id];
    if FailureOf(t, db.lib, job, NoFault).None? {
      PairsAfterImport(t, db.lib, job, now, d);
      if job.deck == d {
        UnusedKeyNotInFile(t, db, id, key);
      }
    }
  }

  lemma FinishKeepsUnusedKey(t: Locale, db: Db, id: JobId, now: int, d: DeckId, key: Row)
    requires DbInv(t, db) && IsQueued(db, id) && CanFinish(t, db, id) && d in db.lib.decks
    requires UnusedKey(t, db, d, key)
    ensures UnusedKey(t, Finished(t, db, id, now, NoFault), d, key)
  {
    PairsAfterFinish(t, db, id, now, d, key);
    FinishKeepsOthers(t, db, id, now, NoFault);
  }

  lemma FinishKeepsLongRowsDiffer(t: Locale, db: Db, id: JobId, now: int)
    requires DbInv(t, db) && IsQueued(db, id) && CanFinish(t, db, id) && LongRowsDiffer(t, db)
    ensures LongRowsDiffer(t, Finished(t, db, id, now, NoFault))
  {
    var after := Finished(t, db, id, now, NoFault);
    FinishKeepsOthers(t, db, id, now, NoFault);
    forall j, row |
      j in after.jobs && IsQueued(after, j) && after.jobs[j].mode.Merge?
      && row in FileRows(t, after.jobs[j]) && !Fits(row)
      ensures UnusedKey(t, after, after.jobs[j].deck, NormalizePair(t, row))
    {
      FinishKeepsUnusedKey(t, db, id, now, db.jobs[j].deck, NormalizePair(t, row));
    }
  }

  lemma QuietIsFinish(t: Locale, db: Db, id: JobId, now: int)
    requires DbInv(t, db) && IsQueued(db, id) && CanFinish(t, db, id)
    ensures Tried(t, db, id, now, QUIET) == (Finished(t, db, id, now, NoFault), Returned(true, false))
  {
    CanFinishIsStorable(t, db, id, NoFault);
    TriedIsActs(t, db, id, now, QUIET);
    assert TransactAll(t, db, []) == db;
  }

  lemma QuietFinish(t: Locale, db: Db, id: JobId, now: int)
    requires DbInv(t, db) && IsQueued(db, id) && CanFinish(t, db, id)
    ensures var after := Finished(t, db, id, now, NoFault);
      after.jobs.Keys == db.jobs.Keys && QueuedJobs(after) == QueuedJobs(db) - {id}
  {
    FinishKeepsOthers(t, db, id, now, NoFault);
    QuietIsFinish(t, db, id, now);
    TriedFinishes(t, db, id, now, QUIET);
  }

  /** A quiet attempt finishes the job, or does nothing. */
  lemma QuietAttempt(t: Locale, db: Db, id: JobId, now: int)
    requires DbInv(t, db) && LongRowsDiffer(t, db) && IsQueued(db, id)
    ensures var (after, outcome) := Tried(t, db, id, now, QUIET);
      && LongRowsDiffer(t, after) && after.jobs.Keys == db.jobs.Keys
      && if CanFinish(t, db, id) then outcome == Returned(true, false) && QueuedJobs(after) == QueuedJobs(db) - {id}
         else outcome == Exception && after == db
  {
    if CanFinish(t, db, id) {
      QuietIsFinish(t, db, id, now);
      QuietFinish(t, db, id, now);
      FinishKeepsLongRowsDiffer(t, db, id, now);
    } else {
      StorableIfCanFinish(t, db, id);
    }
  }

  /** What stays true between quiet iterations; good are the jobs that can
      finish. */
  ghost predicate Steady(t: Locale, db: Db, good: set<JobId>) {
    && DbInv(t, db) && LongRowsDiffer(t, db)
    && forall j :: j in QueuedJobs(db) ==> (j in good <==> CanFinish(t, db, j))
  }

  lemma QuietAttemptStaysSteady(t: Locale, db: Db, id: JobId, now: int, good: set<JobId>)
    requires Steady(t, db, good)
    ensures var (after, outcome) := Tried(t, db, id, now, QUIET);
      && Steady(t, after, good) && after.jobs.Keys == db.jobs.Keys
      && (id !in QueuedJobs(db) ==> after == db && outcome == Returned(false, false))
      && (id in QueuedJobs(db) && id in good ==>
            outcome == Returned(true, false) && QueuedJobs(after) == QueuedJobs(db) - {id})
      && (id in QueuedJobs(db) && id !in good ==> outcome == Exception && after == db)
  {
    if IsQueued(db, id) {
      QuietAttempt(t, db, id, now);
      TriedKeepsOthers(t, db, id, now, QUIET);
    }
  }

  lemma QuietPoll(t: Locale, s: Sys, tick: Tick, good: set<JobId>)
    requires Steady(t, s.db, good) && tick.poll == QUIET
    ensures var after := DbJobTurn(t, s, tick);
      && Steady(t, after.db, good) && after.db.jobs.Keys == s.db.jobs.Keys
      && after.queue == s.queue && after.phase == s.phase
      && (QueuedJobs(s.db) == {} ==> QueuedJobs(after.db) == {})
      && forall m :: D.IsLeast(QueuedJobs(s.db), m) ==>
           QueuedJobs(after.db) == if m in good then QueuedJobs(s.db) - {m} else QueuedJobs(s.db)
  {
    OldestIsLeast(s.db);
    if OldestQueued(s.db).Some? {
      QuietAttemptStaysSteady(t, s.db, OldestQueued(s.db).value, tick.now, good);
    }
  }

  lemma QuietTurn(t: Locale, s: Sys, tick: Tick, good: set<JobId>)
    requires Steady(t, s.db, good) && tick.redis == QUIET && tick.poll == QUIET
    ensures var after := Turn(t, s, tick);
      && Steady(t, after.db, good) && after.db.jobs.Keys == s.db.jobs.Keys
      && D.Iterates(good, BacklogOf(s), BacklogOf(after))
  {
    var after := RedisTurn(t, s, tick).0;
    if s.queue != [] {
      QuietAttemptStaysSteady(t, s.db, s.queue[0], tick.now, good);
    }
    QuietPoll(t, after, tick, good);
  }

  function Backlogs(t: Locale, s: Sys, ticks: seq<Tick>): seq<D.Backlog> {
    if ticks == [] then [BacklogOf(s)]
    else Backlogs(t, s, ticks[..|ticks| - 1]) + [BacklogOf(Turns(t, s, ticks))]
  }

  lemma {:induction false} QuietRunIsSteady(t: Locale, s: Sys, ticks: seq<Tick>, good: set<JobId>)
    requires Steady(t, s.db, good) && Quiet(ticks)
    ensures Steady(t, Turns(t, s, ticks).db, good) && Turns(t, s, ticks).db.jobs.Keys == s.db.jobs.Keys
  {
    if ticks != [] {
      QuietRunIsSteady(t, s, ticks[..|ticks| - 1], good);
      QuietTurn(t, Turns(t, s, ticks[..|ticks| - 1]), ticks[|ticks| - 1], good);
    }
  }

  lemma LastBacklog(t: Locale, s: Sys, ticks: seq<Tick>)
    ensures Backlogs(t, s, ticks) != []
    ensures Backlogs(t, s, ticks)[|Backlogs(t, s, ticks)| - 1] == BacklogOf(Turns(t, s, ticks))
  {
  }

  lemma QuietStep(t: Locale, s: Sys, ticks: seq<Tick>, good: set<JobId>)
    requires Steady(t, s.db, good) && Quiet(ticks) && ticks != []
    ensures D.Iterates(good, BacklogOf(Turns(t, s, ticks[..|ticks| - 1])), BacklogOf(Turns(t, s, ticks)))
  {
    QuietRunIsSteady(t, s, ticks[..|ticks| - 1], good);
    QuietTurn(t, Turns(t, s, ticks[..|ticks| - 1]), ticks[|ticks| - 1], good);
  }

  lemma {:induction false} QuietRun(t: Locale, s: Sys, ticks: seq<Tick>, good: set<JobId>)
    requires Steady(t, s.db, good) && Quiet(ticks)
    ensures var history := Backlogs(t, s, ticks);
      && |history| == |ticks| + 1 && history[0] == BacklogOf(s)
      && D.IsRun(good, history)
  {
    if ticks != [] {
      QuietRun(t, s, ticks[..|ticks| - 1], good);
      LastBacklog(t, s, ticks[..|ticks| - 1]);
      QuietStep(t, s, ticks, good);
      D.RunExtends(good, Backlogs(t, s, ticks[..|ticks| - 1]), BacklogOf(Turns(t, s, ticks)));
    }
  }

  ghost function Good(t: Locale, db: Db): set<JobId> {
    set j | j in QueuedJobs(db) && CanFinish(t, db, j)
  }

  // ---------------------------------------------------------------------
  // Which jobs are finished
  // ---------------------------------------------------------------------

  /** The worker gets to the job: Redis knows it, or every older queued job can
      finish. */
  ghost predicate IsReached(t: Locale, s: Sys, id: JobId) {
    id in s.queue || forall i :: i in s.db.jobs && IsQueued(s.db, i) && i < id ==> CanFinish(t, s.db, i)
  }

  lemma ReachedMeansReachable(t: Locale, s: Sys, id: JobId)
    ensures IsReached(t, s, id) <==> D.Reachable(Good(t, s.db), BacklogOf(s), id)
  {
    assert forall i :: i in s.db.jobs && IsQueued(s.db, i) <==> i in QueuedJobs(s.db);
  }

  lemma QueuedOrTerminal(db: Db, id: JobId)
    requires JobsInv(db) && id in db.jobs
    ensures Terminal(db.jobs[id].status) <==> id !in QueuedJobs(db)
  {
  }

  /** From any state of the protocol, a restarted worker that meets no faults
      has finished a queued job, after as many iterations as the backlog is
      large, if and only if the job can finish and the worker gets to it. */
  lemma {:induction false} JobFinishedExactly(t: Locale, s: Sys, ticks: seq<Tick>, id: JobId)
    requires SysInv(t, s) && LongRowsDiffer(t, s.db) && Quiet(ticks) && |ticks| >= Backlog(s)
    requires IsQueued(s.db, id)
    ensures var after := Turns(t, Restarted(t, s), ticks).db;
      && id in after.jobs
      && (Terminal(after.jobs[id].status) <==> CanFinish(t, s.db, id) && IsReached(t, s, id))
  {
    var start := Sys(s.db, s.queue, Ready);
    RestartKeepsCommitted(t, s);
    QuietRun(t, start, ticks, Good(t, s.db));
    QuietRunIsSteady(t, start, ticks, Good(t, s.db));
    LastBacklog(t, start, ticks);
    D.FinishedExactly(Good(t, s.db), Backlogs(t, start, ticks), id);
    ReachedMeansReachable(t, s, id);
    QueuedOrTerminal(Turns(t, start, ticks).db, id);
  }

  /** A job that cannot finish, or that the worker does not get to, stays
      queued over any number of iterations. */
  lemma {:induction false} JobStuckForEver(t: Locale, s: Sys, ticks: seq<Tick>, id: JobId)
    requires SysInv(t, s) && LongRowsDiffer(t, s.db) && Quiet(ticks)
    requires IsQueued(s.db, id) && !(CanFinish(t, s.db, id) && IsReached(t, s, id))
    ensures IsQueued(Turns(t, Restarted(t, s), ticks).db, id)
  {
    var start := Sys(s.db, s.queue, Ready);
    RestartKeepsCommitted(t, s);
    QuietRun(t, start, ticks, Good(t, s.db));
    QuietRunIsSteady(t, start, ticks, Good(t, s.db));
    LastBacklog(t, start, ticks);
    ReachedMeansReachable(t, s, id);
    D.StuckForEver(Good(t, s.db), Backlogs(t, start, ticks), id);
  }

  /** The worker drains if and only if every queued job can finish. */
  lemma {:induction false} DrainsExactly(t: Locale, s: Sys, ticks: seq<Tick>)
    requires SysInv(t, s) && LongRowsDiffer(t, s.db) && Quiet(ticks) && |ticks| >= Backlog(s)
    ensures var after := Turns(t, Restarted(t, s), ticks).db;
      (forall j :: j in after.jobs ==> Terminal(after.jobs[j].status)) <==> AllCanFinish(t, s.db)
  {
    if AllCanFinish(t, s.db) {
      NoJobStranded(t, s, ticks);
    } else {
      var j :| j in s.db.jobs && IsQueued(s.db, j) && !CanFinish(t, s.db, j);
      JobFinishedExactly(t, s, ticks, j);
    }
  }

  // ---------------------------------------------------------------------
  // Progress of one iteration, for every locale
  // ---------------------------------------------------------------------

  lemma UndisturbedAttempt(t: Locale, db: Db, id: JobId, now: int, a: Attempt)
    requires DbInv(t, db) && a.gap == []
    ensures Tried(t, db, id, now, a).0 != db <==> IsQueued(db, id) && Storable(t, db.lib, db.jobs[id], a.fault)
    ensures Tried(t, db, id, now, a).0 != db <==> Succeeds(Tried(t, db, id, now, a).1)
  {
    if IsQueued(db, id) {
      ImportShape(t, db.lib, db.jobs[id], now, a.fault);
      var after := Tried(t, db, id, now, a).0;
      assert after == db || (id in after.jobs && Terminal(after.jobs[id].status));
    }
  }

  /** An iteration during which nothing is requested changes the database if
      and only if the job at the head of the list or the oldest queued job can
      be stored. */
  lemma {:induction false} ProgressExactly(t: Locale, s: Sys, tick: Tick)
    requires DbInv(t, s.db) && tick.redis.gap == [] && tick.poll.gap == []
    ensures Turn(t, s, tick).db != s.db <==>
      var oldest := OldestQueued(s.db);
      || (s.queue != [] && IsQueued(s.db, s.queue[0])
          && Storable(t, s.db.lib, s.db.jobs[s.queue[0]], tick.redis.fault))
      || (oldest.Some? && Storable(t, s.db.lib, s.db.jobs[oldest.value], tick.poll.fault))
  {
    if s.queue != [] {
      UndisturbedAttempt(t, s.db, s.queue[0], tick.now, tick.redis);
    }
    if OldestQueued(s.db).Some? {
      UndisturbedAttempt(t, s.db, OldestQueued(s.db).value, tick.now, tick.poll);
    }
  }

  /** Neither Redis nor the job table offers a job that can be stored. */
  ghost predicate Blocked(t: Locale, db: Db, queue: seq<JobId>) {
    && (OldestQueued(db).Some? ==> !Storable(t, db.lib, db.jobs[OldestQueued(db).value], NoFault))
    && forall id :: id in queue && IsQueued(db, id) ==> !Storable(t, db.lib, db.jobs[id], NoFault)
  }

  /** Then nothing ever changes again, although other queued jobs may be fine. */
  lemma {:induction false} BlockedForEver(t: Locale, s: Sys, ticks: seq<Tick>)
    requires DbInv(t, s.db) && Blocked(t, s.db, s.queue) && Quiet(ticks)
    ensures var after := Turns(t, s, ticks);
      after.db == s.db && forall id :: id in after.queue ==> id in s.queue
  {
    if ticks != [] {
      var before := Turns(t, s, ticks[..|ticks| - 1]);
      BlockedForEver(t, s, ticks[..|ticks| - 1]);
      ProgressExactly(t, before, ticks[|ticks| - 1]);
    }
  }

  // ---------------------------------------------------------------------
  // An example
  // ---------------------------------------------------------------------

  function ExampleQuestion(): string {
    seq(QUESTION_COLUMN + 1, _ => 'x')
  }

  function ExampleUpload(question: string): Upload {
    Upload(0, 0, Merge, [[question, "answer"]], false, None)
  }

  /** A user makes a deck and uploads a file whose question is a character too
      long, of which Redis may hear, and then a good one, of which it does not. */
  function ExampleEvents(heard: bool): seq<Event> {
    [Requested(CreateDeck(0, "Deck", None, [])), Uploaded(ExampleUpload(ExampleQuestion()))]
    + ((if heard then [Enqueued(0)] else []) + [Uploaded(ExampleUpload("question one")), Start])
  }

  function ExampleDb(): Db {
    var bad := Job(0, 0, Queued, Merge, [[ExampleQuestion(), "answer"]], false, None, 0, 0, [], None);
    var lib := Library(map[0 := Deck(0, "Deck", None, [], 0, 1, None)], map[], map[], 1, 0);
    Db(lib, map[0 := bad, 1 := bad.(records := [["question one", "answer"]])], 2)
  }

  function BadUploaded(): Db {
    var db := ExampleDb();
    Db(db.lib, map[0 := db.jobs[0]], 1)
  }

  lemma ExampleBegins(t: Locale)
    ensures Run(t, Sys(EMPTY_DB, [], Down),
                [Requested(CreateDeck(0, "Deck", None, [])), Uploaded(ExampleUpload(ExampleQuestion()))]) ==
      Sys(BadUploaded(), [], Down)
  {
    RunTwo(t, Sys(EMPTY_DB, [], Down), Requested(CreateDeck(0, "Deck", None, [])),
           Uploaded(ExampleUpload(ExampleQuestion())));
  }

  lemma ExampleGoesOn(t: Locale, queue: seq<JobId>)
    ensures Run(t, Sys(BadUploaded(), queue, Down), [Uploaded(ExampleUpload("question one")), Start]) ==
      Sys(ExampleDb(), queue, Ready)
  {
    RunTwo(t, Sys(BadUploaded(), queue, Down), Uploaded(ExampleUpload("question one")), Start);
    assert BadUploaded().jobs[1 := ExampleDb().jobs[1]] == ExampleDb().jobs;
    assert ResetStuck(ExampleDb()) == ExampleDb();
  }

  lemma ExampleReached(t: Locale, heard: bool)
    ensures Run(t, Sys(EMPTY_DB, [], Down), ExampleEvents(heard)) ==
      Sys(ExampleDb(), if heard then [0] else [], Ready)
  {
    var notice := if heard then [Enqueued(0)] else [];
    var rest := [Uploaded(ExampleUpload("question one")), Start];
    ExampleBegins(t);
    RunAppend(t, Sys(EMPTY_DB, [], Down),
              [Requested(CreateDeck(0, "Deck", None, [])), Uploaded(ExampleUpload(ExampleQuestion()))],
              notice + rest);
    RunAppend(t, Sys(BadUploaded(), [], Down), notice, rest);
    RunOne(t, Sys(BadUploaded(), [], Down), Enqueued(0));
    assert [] + [0] == [0];
    ExampleGoesOn(t, if heard then [0] else []);
  }

  /** Stripping and lower-casing leave the strings of the example alone. */
  ghost predicate KeepsExample(t: Locale) {
    forall x :: x in {ExampleQuestion(), "question one", "answer"} ==> t.strip(x) == x && t.lower(x) == x
  }

  /** As they do whenever its letters are neither white space nor changed by
      lower-casing. */
  lemma OrdinaryLocaleKeepsExample(isSpace: char -> bool, lower: string -> string)
    requires !isSpace('x') && !isSpace('q') && !isSpace('e') && !isSpace('a') && !isSpace('r')
    requires forall x :: x in {ExampleQuestion(), "question one", "answer"} ==> lower(x) == x
    ensures KeepsExample(LocaleOf(isSpace, lower))
  {
    StripTrims(isSpace, ExampleQuestion());
    StripTrims(isSpace, "question one");
    StripTrims(isSpace, "answer");
  }

  /** A file with one data row and nothing else is that row. */
  lemma OneRowFile(t: Locale, lib: Library, job: Job, question: string, answer: string)
    requires t.strip(question) == question && t.lower(question) == question && question !in {"", "question"}
    requires t.strip(answer) == answer && answer != ""
    requires job.records == [[question, answer]]
    requires forall c :: c in lib.cards ==> lib.cards[c].deck != job.deck
    ensures ParsedRows(t, job.records) == [(question, answer)]
    ensures FileRows(t, job) == [(question, answer)]
    ensures RowsToAdd(t, lib, job) == [(question, answer)]
  {
    assert Classify(t, job.records, 0) == Accepted((question, answer));
    assert RowsOf(t, job.records, 0) == [];
    var rows := ParsedRows(t, job.records);
    assert rows == [(question, answer)];
    assert ExistingPairs(t, lib, job.deck) == {};
    assert Kept(t, rows, {}, 0) == [];
  }

  lemma BadFileIsStuck(t: Locale)
    requires KeepsExample(t)
    ensures !Storable(t, ExampleDb().lib, ExampleDb().jobs[0], NoFault)
  {
    var db, question := ExampleDb(), ExampleQuestion();
    assert |question| != |"question"|;
    OneRowFile(t, db.lib, db.jobs[0], question, "answer");
    assert (question, "answer") in RowsToAdd(t, db.lib, db.jobs[0]) && !Fits((question, "answer"));
    StorableExactly(t, db.lib, db.jobs[0], NoFault);
  }

  lemma GoodFileCanFinish(t: Locale)
    requires KeepsExample(t)
    ensures CanFinish(t, ExampleDb(), 1)
  {
    assert |"question one"| != |"question"|;
    OneRowFile(t, ExampleDb().lib, ExampleDb().jobs[1], "question one", "answer");
  }

  lemma ExampleIsBlocked(t: Locale)
    requires KeepsExample(t)
    ensures Blocked(t, ExampleDb(), [0]) && Blocked(t, ExampleDb(), [])
    ensures IsQueued(ExampleDb(), 0) && IsQueued(ExampleDb(), 1) && CanFinish(t, ExampleDb(), 1)
  {
    BadFileIsStuck(t);
    GoodFileCanFinish(t);
  }

  /** Once the worker starts, neither file is ever finished, whether or not
      Redis has heard of the first. */
  lemma {:induction false} OversizedRowExample(t: Locale, heard: bool, ticks: seq<Tick>)
    requires KeepsExample(t) && Quiet(ticks)
    ensures var s := Run(t, Sys(EMPTY_DB, [], Down), ExampleEvents(heard));
      && s.phase.Ready? && IsQueued(s.db, 0) && IsQueued(s.db, 1)
      && s.queue == (if heard then [0] else [])
      && CanFinish(t, s.db, 1)
      && Turns(t, s, ticks).db == s.db
  {
    ExampleReached(t, heard);
    EmptyDbIsValid(t);
    ProtocolRefinesLedger(t, Sys(EMPTY_DB, [], Down), ExampleEvents(heard));
    ExampleIsBlocked(t);
    BlockedForEver(t, Sys(ExampleDb(), if heard then [0] else [], Ready), ticks);
  }
}
