/** The committed database as a sequence of atomic acts: requests, uploads and
    finished import jobs. */
module Ledger {
  import opened Base
  import opened Text
  import opened CsvRows
  import opened Storage
  import opened DeckService
  import opened ImportJob

  /** What an upload records about its file. */
  datatype Upload = Upload(
    user: UserId,
    deck: DeckId,
    mode: ImportMode,
    records: seq<Record>,
    readerFails: bool,
    filename: Option<string>)

  datatype Act =
    | Serving(req: Request)
    | Submitting(upload: Upload)
    | Finishing(id: JobId, now: int, fault: Fault)

  /** create_import_job, after the route has found the deck. */
  function Submitted(db: Db, u: Upload): Db {
    if !Owns(db.lib, u.user, u.deck) then db
    else
      var job := Job(u.user, u.deck, Queued, u.mode, u.records, u.readerFails, u.filename, 0, 0, [], None);
      db.(jobs := db.jobs[db.nextJob := job], nextJob := db.nextJob + 1)
  }

  predicate IsQueued(db: Db, id: JobId) {
    id in db.jobs && db.jobs[id].status == Queued
  }

  /** The rows the import would leave can be stored. */
  predicate Storable(t: Locale, lib: Library, job: Job, fault: Fault) {
    FitsColumns(Import(t, lib, job, 0, fault).0)
  }

  /** A queued job whose result can be stored reaches its final status in one
      step, together with its effect on the library. */
  function Finished(t: Locale, db: Db, id: JobId, now: int, fault: Fault): Db {
    if IsQueued(db, id) && Storable(t, db.lib, db.jobs[id], fault) then
      var (lib, job) := Import(t, db.lib, db.jobs[id], now, fault);
      db.(lib := lib, jobs := db.jobs[id := job])
    else db
  }

  function Perform(t: Locale, db: Db, act: Act): Db {
    match act
    case Serving(req) => Transact(t, db, req)
    case Submitting(upload) => Submitted(db, upload)
    case Finishing(id, now, fault) => Finished(t, db, id, now, fault)
  }

  function PerformAll(t: Locale, db: Db, acts: seq<Act>): Db {
    if acts == [] then db
    else Perform(t, PerformAll(t, db, acts[..|acts| - 1]), acts[|acts| - 1])
  }

  const EMPTY_DB := Db(Library(map[], map[], map[], 0, 0), map[], 0)

  // ---------------------------------------------------------------------
  // When a job can be finished
  // ---------------------------------------------------------------------

  /** Exactly when the result can be stored: the import fails, or every row it
      would add fits the card columns. */
  lemma StorableExactly(t: Locale, lib: Library, job: Job, fault: Fault)
    requires FitsColumns(lib)
    ensures Storable(t, lib, job, fault) <==>
      FailureOf(t, lib, job, fault).Some? || forall row :: row in RowsToAdd(t, lib, job) ==> Fits(row)
  {
    if FailureOf(t, lib, job, fault).None? {
      var rows := RowsToAdd(t, lib, job);
      AddedRowsFit(if job.mode.Replace? then Wiped(lib, job.deck) else lib, job.deck, rows, job.filename);
    }
  }

  /** Every distinct row the parser accepts from the file fits the card columns. */
  predicate FileFits(t: Locale, job: Job) {
    forall row :: row in DistinctRows(t, ParsedRows(t, job.records)) ==> Fits(row)
  }

  lemma FittingFileIsStorable(t: Locale, lib: Library, job: Job, fault: Fault)
    requires FitsColumns(lib) && FileFits(t, job)
    ensures Storable(t, lib, job, fault)
  {
    StorableExactly(t, lib, job, fault);
    var parsed := ParsedRows(t, job.records);
    forall row | row in RowsToAdd(t, lib, job)
      ensures Fits(row)
    {
      KeptAmongDistinct(t, parsed, if job.mode.Replace? then {} else ExistingPairs(t, lib, job.deck), |parsed|, row);
    }
  }

  // ---------------------------------------------------------------------
  // What every act keeps
  // ---------------------------------------------------------------------

  lemma SubmitKeepsLaws(t: Locale, db: Db, upload: Upload)
    requires DbInv(t, db)
    ensures var after := Submitted(db, upload);
      DbInv(t, after) && after.lib == db.lib
  {
  }

  lemma JobReplaced(db: Db, lib: Library, id: JobId, job: Job)
    requires JobsInv(db) && id in db.jobs && lib.decks.Keys == db.lib.decks.Keys
    requires job.deck == db.jobs[id].deck && Terminal(job.status) && job.completedAt.Some?
    ensures JobsInv(db.(lib := lib, jobs := db.jobs[id := job]))
  {
  }

  lemma FinishKeepsLaws(t: Locale, db: Db, id: JobId, now: int, fault: Fault)
    requires DbInv(t, db)
    ensures var after := Finished(t, db, id, now, fault);
      DbInv(t, after) && VersionLaw(db.lib, after.lib)
  {
    if IsQueued(db, id) && Storable(t, db.lib, db.jobs[id], fault) {
      var (lib, job) := Import(t, db.lib, db.jobs[id], now, fault);
      ImportShape(t, db.lib, db.jobs[id], now, fault);
      ImportKeepsLaws(t, db.lib, db.jobs[id], now, fault);
      JobReplaced(db, lib, id, job);
    } else {
      UnchangedKeepsLaws(db.lib);
    }
  }

  /** Every act keeps the invariants, and each deck's version moves by what
      the act changed in that deck. */
  lemma {:induction false} ActKeepsLaws(t: Locale, db: Db, act: Act)
    requires DbInv(t, db)
    ensures var after := Perform(t, db, act);
      DbInv(t, after) && VersionLaw(db.lib, after.lib)
  {
    match act
    case Serving(req) =>
      RequestKeepsLaws(t, db, req);
    case Submitting(upload) =>
      SubmitKeepsLaws(t, db, upload);
      UnchangedKeepsLaws(db.lib);
    case Finishing(id, now, fault) =>
      FinishKeepsLaws(t, db, id, now, fault);
  }

  lemma {:induction false} RunKeepsInvariant(t: Locale, db: Db, acts: seq<Act>)
    requires DbInv(t, db)
    ensures DbInv(t, PerformAll(t, db, acts))
  {
    if acts != [] {
      RunKeepsInvariant(t, db, acts[..|acts| - 1]);
      ActKeepsLaws(t, PerformAll(t, db, acts[..|acts| - 1]), acts[|acts| - 1]);
    }
  }

  /** Everything that changed in deck d over the run, step by step. */
  ghost function TotalChanges(t: Locale, db: Db, acts: seq<Act>, d: DeckId): nat {
    if acts == [] then 0
    else
      var before := PerformAll(t, db, acts[..|acts| - 1]);
      var after := PerformAll(t, db, acts);
      TotalChanges(t, db, acts[..|acts| - 1], d)
      + (if d in before.lib.decks && d in after.lib.decks then Changes(before.lib, after.lib, d) else 0)
  }

  lemma {:induction false} UnusedDeckUnchanged(t: Locale, acts: seq<Act>, d: DeckId)
    requires d >= PerformAll(t, EMPTY_DB, acts).lib.nextDeck
    ensures TotalChanges(t, EMPTY_DB, acts, d) == 0
  {
    if acts != [] {
      var before := acts[..|acts| - 1];
      EmptyDbIsValid(t);
      RunKeepsInvariant(t, EMPTY_DB, before);
      ActKeepsLaws(t, PerformAll(t, EMPTY_DB, before), acts[|acts| - 1]);
      UnusedDeckUnchanged(t, before, d);
    }
  }

  lemma EmptyDbIsValid(t: Locale)
    ensures DbInv(t, EMPTY_DB)
  {
  }

  /** After any run from an empty database each deck's counter is the number
      of its cards, and its version is one more than everything that was ever
      created, deleted or edited in it. */
  lemma {:induction false} LedgerBalances(t: Locale, acts: seq<Act>, d: DeckId)
    requires d in PerformAll(t, EMPTY_DB, acts).lib.decks
    ensures var lib := PerformAll(t, EMPTY_DB, acts).lib;
      && lib.decks[d].cardCount == |DeckCards(lib, d)|
      && lib.decks[d].version == 1 + TotalChanges(t, EMPTY_DB, acts, d)
  {
    EmptyDbIsValid(t);
    RunKeepsInvariant(t, EMPTY_DB, acts);
    if acts != [] {
      var prefix := acts[..|acts| - 1];
      var before := PerformAll(t, EMPTY_DB, prefix);
      RunKeepsInvariant(t, EMPTY_DB, prefix);
      ActKeepsLaws(t, before, acts[|acts| - 1]);
      if d in before.lib.decks {
        LedgerBalances(t, prefix, d);
      } else {
        UnusedDeckUnchanged(t, prefix, d);
      }
    }
  }

  /** A finished job keeps its record for as long as it exists. */
  lemma {:induction false} FinalRecordStays(t: Locale, db: Db, acts: seq<Act>, id: JobId)
    requires DbInv(t, db) && id in db.jobs && Terminal(db.jobs[id].status)
    ensures var after := PerformAll(t, db, acts);
      id < after.nextJob && (id in after.jobs ==> after.jobs[id] == db.jobs[id])
  {
    if acts != [] {
      var before := acts[..|acts| - 1];
      FinalRecordStays(t, db, before, id);
      RunKeepsInvariant(t, db, before);
      OtherActsKeepJob(t, PerformAll(t, db, before), acts[|acts| - 1], id);
    }
  }

  lemma {:induction false} RemovedStaysRemoved(t: Locale, db: Db, acts: seq<Act>, id: JobId)
    requires DbInv(t, db) && id !in db.jobs && id < db.nextJob
    ensures id !in PerformAll(t, db, acts).jobs && id < PerformAll(t, db, acts).nextJob
  {
    if acts != [] {
      var before := acts[..|acts| - 1];
      RemovedStaysRemoved(t, db, before, id);
      RunKeepsInvariant(t, db, before);
      OtherActsKeepJob(t, PerformAll(t, db, before), acts[|acts| - 1], id);
    }
  }

  // ---------------------------------------------------------------------
  // Why a job has its final status
  // ---------------------------------------------------------------------

  /** The act finishes the job: it is queued, and the result can be stored. */
  predicate Finishes(t: Locale, db: Db, act: Act, id: JobId) {
    act.Finishing? && act.id == id && IsQueued(db, id) && Storable(t, db.lib, db.jobs[id], act.fault)
  }

  /** It completes the job, and the library gains the job's rows. */
  ghost predicate Completes(t: Locale, db: Db, act: Act, id: JobId) {
    Finishes(t, db, act, id)
    && var job, after := db.jobs[id], Perform(t, db, act);
       && FailureOf(t, db.lib, job, act.fault).None? && job.deck in db.lib.decks
       && after.lib == Imported(db.lib, job.deck, RowsToAdd(t, db.lib, job), job.filename, job.mode.Replace?)
       && id in after.jobs && after.jobs[id].status == Completed
       && after.jobs[id].cardsImported == |RowsToAdd(t, db.lib, job)|
  }

  /** It fails the job, and the library stays as it was. */
  ghost predicate Fails(t: Locale, db: Db, act: Act, id: JobId) {
    Finishes(t, db, act, id)
    && var errors, after := FailureOf(t, db.lib, db.jobs[id], act.fault), Perform(t, db, act);
       && errors.Some? && after.lib == db.lib
       && id in after.jobs && after.jobs[id] == FailedJob(db.jobs[id], errors.value, act.now)
  }

  lemma FinishCompletesOrFails(t: Locale, db: Db, act: Act, id: JobId)
    requires Finishes(t, db, act, id)
    ensures id in Perform(t, db, act).jobs
    ensures Completes(t, db, act, id) <==> Perform(t, db, act).jobs[id].status == Completed
    ensures Fails(t, db, act, id) <==> Perform(t, db, act).jobs[id].status == Failed
    ensures Completes(t, db, act, id) || Fails(t, db, act, id)
  {
    ImportShape(t, db.lib, db.jobs[id], act.now, act.fault);
  }

  /** Any other act keeps the job's record, removes the job, or creates it. */
  lemma OtherActsKeepJob(t: Locale, db: Db, act: Act, id: JobId)
    requires JobsInv(db) && !Finishes(t, db, act, id)
    ensures var after := Perform(t, db, act);
      && db.nextJob <= after.nextJob
      && (id in after.jobs ==>
            || (id in db.jobs && after.jobs[id] == db.jobs[id])
            || (db.nextJob <= id < after.nextJob && after.jobs[id].status == Queued))
  {
  }

  /** The acts of the run that finish the job, each with the state it found. */
  function Finishers(t: Locale, db: Db, acts: seq<Act>, id: JobId): seq<(Db, Act)> {
    if acts == [] then []
    else
      var before, act := PerformAll(t, db, acts[..|acts| - 1]), acts[|acts| - 1];
      Finishers(t, db, acts[..|acts| - 1], id) + if Finishes(t, before, act, id) then [(before, act)] else []
  }

  /** The job's status is the work of these acts. */
  ghost predicate Explained(t: Locale, db: Db, id: JobId, finishers: seq<(Db, Act)>) {
    && |finishers| <= 1
    && (finishers != [] ==> id < db.nextJob)
    && (id in db.jobs ==>
          && (db.jobs[id].status == Completed <==>
                finishers != [] && Completes(t, finishers[0].0, finishers[0].1, id))
          && (db.jobs[id].status == Failed <==>
                finishers != [] && Fails(t, finishers[0].0, finishers[0].1, id))
          && (finishers != [] ==> Terminal(db.jobs[id].status)))
  }

  lemma ExplainedAfterAct(t: Locale, db: Db, act: Act, id: JobId, finishers: seq<(Db, Act)>)
    requires JobsInv(db) && Explained(t, db, id, finishers)
    ensures Explained(t, Perform(t, db, act), id,
                      finishers + if Finishes(t, db, act, id) then [(db, act)] else [])
  {
    if Finishes(t, db, act, id) {
      assert finishers == [];
      FinishCompletesOrFails(t, db, act, id);
      FinishKeepsCounter(t, db, act);
      assert (finishers + [(db, act)])[0] == (db, act);
    } else {
      OtherActsKeepJob(t, db, act, id);
      assert finishers + [] == finishers;
    }
  }

  lemma FinishKeepsCounter(t: Locale, db: Db, act: Act)
    requires act.Finishing?
    ensures Perform(t, db, act).nextJob == db.nextJob
  {
  }

  /** Over every run a job that was queued, or not yet there, is COMPLETED if
      and only if some act added its rows to the library, FAILED if and only if
      some act failed it and left the library alone; one act at most did. */
  lemma {:induction false} FinalStatusExplained(t: Locale, db: Db, acts: seq<Act>, id: JobId)
    requires DbInv(t, db)
    requires if id in db.jobs then IsQueued(db, id) else db.nextJob <= id
    ensures Explained(t, PerformAll(t, db, acts), id, Finishers(t, db, acts, id))
  {
    if acts != [] {
      var before := acts[..|acts| - 1];
      FinalStatusExplained(t, db, before, id);
      RunKeepsInvariant(t, db, before);
      ExplainedAfterAct(t, PerformAll(t, db, before), acts[|acts| - 1], id, Finishers(t, db, before, id));
    }
  }

  // ---------------------------------------------------------------------
  // From the upload to the deck
  // ---------------------------------------------------------------------

  /** The job carries what was uploaded. */
  ghost predicate Carries(job: Job, u: Upload) {
    && job.user == u.user && job.deck == u.deck && job.mode == u.mode
    && job.records == u.records && job.readerFails == u.readerFails && job.filename == u.filename
  }

  /** An upload to one's own deck makes a queued job, under the next identifier;
      any other makes none. */
  lemma UploadMakesJob(db: Db, u: Upload)
    requires JobsInv(db)
    ensures var after := Submitted(db, u);
      if u.deck in db.lib.decks && db.lib.decks[u.deck].user == u.user then
        && db.nextJob in after.jobs && db.nextJob !in db.jobs && after.nextJob == db.nextJob + 1
        && var job := after.jobs[db.nextJob];
           && Carries(job, u) && job.status == Queued && job.completedAt.None? && job.errors == []
           && job.cardsImported == 0 && job.cardsSkipped == 0
      else after == db
    ensures Submitted(db, u).lib == db.lib
    ensures forall j :: j in db.jobs ==> j in Submitted(db, u).jobs && Submitted(db, u).jobs[j] == db.jobs[j]
  {
  }

  lemma ActKeepsUpload(t: Locale, db: Db, act: Act, id: JobId, u: Upload)
    requires JobsInv(db) && id < db.nextJob && (id in db.jobs ==> Carries(db.jobs[id], u))
    ensures var after := Perform(t, db, act);
      id < after.nextJob && (id in after.jobs ==> Carries(after.jobs[id], u))
  {
    if Finishes(t, db, act, id) {
      CompletesExactly(t, db.lib, db.jobs[id], act.now, act.fault);
      FinishKeepsCounter(t, db, act);
    } else {
      OtherActsKeepJob(t, db, act, id);
    }
  }

  /** Over every run a job goes on to carry what was uploaded. */
  lemma {:induction false} RunKeepsUpload(t: Locale, db: Db, acts: seq<Act>, id: JobId, u: Upload)
    requires DbInv(t, db) && id in db.jobs && Carries(db.jobs[id], u)
    ensures var after := PerformAll(t, db, acts);
      id < after.nextJob && (id in after.jobs ==> Carries(after.jobs[id], u))
  {
    if acts != [] {
      var before := acts[..|acts| - 1];
      RunKeepsUpload(t, db, before, id, u);
      RunKeepsInvariant(t, db, before);
      ActKeepsUpload(t, PerformAll(t, db, before), acts[|acts| - 1], id, u);
    }
  }

  /** What a completed upload does to its deck: replacing, it leaves one card
      for each distinct row of the file and nothing else; merging, it keeps the
      cards there were and adds the keys that were missing. */
  ghost predicate TakesEffect(t: Locale, a: Library, b: Library, u: Upload) {
    var rows := ParsedRows(t, u.records);
    && u.deck in a.decks && u.deck in b.decks && rows != []
    && (u.mode == Replace ==> DeckHolds(b, u.deck, a.nextCard, DistinctRows(t, rows)))
    && (u.mode == Merge ==>
          && ExistingPairs(t, b, u.deck) == ExistingPairs(t, a, u.deck) + Keys(t, rows)
          && forall c :: c in DeckCards(a, u.deck) ==> c in DeckCards(b, u.deck) && b.cards[c] == a.cards[c])
  }

  lemma CompletionTakesEffect(t: Locale, db: Db, act: Act, id: JobId, u: Upload)
    requires DbInv(t, db) && Completes(t, db, act, id) && Carries(db.jobs[id], u)
    ensures TakesEffect(t, db.lib, Perform(t, db, act).lib, u)
  {
    var job := db.jobs[id];
    CompletesExactly(t, db.lib, job, act.now, act.fault);
    assert act.fault == NoFault;
    CompletedRecord(t, db.lib, job, act.now, NoFault);
    if u.mode == Replace {
      ReplaceHoldsFile(t, db.lib, job, act.now);
    } else {
      ImportedKeys(t, db.lib, job, act.now);
      forall c | c in DeckCards(db.lib, u.deck)
        ensures c in DeckCards(Perform(t, db, act).lib, u.deck)
      {
        ImportOnCards(t, db.lib, job, act.now, NoFault, c);
      }
    }
  }

  /** The act that makes a job COMPLETED is the one that imports its upload. */
  lemma CompletingAct(t: Locale, db: Db, act: Act, id: JobId, u: Upload)
    requires DbInv(t, db) && id < db.nextJob && (id in db.jobs ==> Carries(db.jobs[id], u))
    requires id in db.jobs ==> db.jobs[id].status != Completed
    requires var after := Perform(t, db, act); id in after.jobs && after.jobs[id].status == Completed
    ensures TakesEffect(t, db.lib, Perform(t, db, act).lib, u)
  {
    if Finishes(t, db, act, id) {
      FinishCompletesOrFails(t, db, act, id);
      CompletionTakesEffect(t, db, act, id, u);
    } else {
      OtherActsKeepJob(t, db, act, id);
    }
  }
}
