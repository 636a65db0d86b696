/** Processing of one CSV import job inside a transaction
    (services/import_job.py). */
module ImportJob {
  import opened Base
  import opened Text
  import opened CsvRows
  import opened Storage
  import opened DeckService

  /** Where an exception other than the expected ones strikes, if at all. */
  datatype Fault = NoFault | BeforeParse | BeforeCompletion

  function BadRows(errors: seq<RowError>): seq<JobError> {
    seq(|errors|, i requires 0 <= i < |errors| => BadRow(errors[i]))
  }

  function ExistingPairs(t: Locale, lib: Library, d: DeckId): set<Row> {
    set c | c in lib.cards && lib.cards[c].deck == d ::
      NormalizePair(t, (lib.cards[c].question, lib.cards[c].answer))
  }

  /** The rows a job adds: new to the deck when merging, new among
      themselves when replacing. */
  function RowsToAdd(t: Locale, lib: Library, job: Job): seq<Row> {
    KeptRows(t, ParsedRows(t, job.records),
             if job.mode.Replace? then {} else ExistingPairs(t, lib, job.deck))
  }

  /** The errors a job fails with, or None when it completes. */
  function FailureOf(t: Locale, lib: Library, job: Job, fault: Fault): Option<seq<JobError>> {
    var parseErrors := ParseErrors(t, job.records);
    if fault.BeforeParse? then Some(job.errors + [Unexpected])
    else if !Owns(lib, job.user, job.deck) then Some(job.errors + [DeckNotFound])
    else if job.readerFails then Some(job.errors + [ReaderFailed])
    else if ParsedRows(t, job.records) == [] then
      Some(BadRows(parseErrors) + [if parseErrors != [] then AllRowsBad(parseErrors) else NoValidRows])
    else if fault.BeforeCompletion? then Some(BadRows(parseErrors) + [Unexpected])
    else None
  }

  /** The deck with its cards removed, each counted in the version. */
  function Wiped(lib: Library, d: DeckId): Library
    requires d in lib.decks
  {
    var gone := CardsOf(lib, d);
    var deck := lib.decks[d];
    WithoutCards(lib, gone).(decks := lib.decks[d := deck.(cardCount := 0, version := deck.version + |gone|)])
  }

  predicate InRange(first: nat, n: nat, c: nat) {
    first <= c < first + n
  }

  /** The identifiers n new cards take, from first upwards. */
  function NewIds(first: CardId, n: nat): set<CardId> {
    set c: CardId | c < first + n && InRange(first, n, c)
  }

  lemma {:induction false} NewIdsCount(first: CardId, n: nat)
    ensures |NewIds(first, n)| == n
  {
    if n == 0 {
      assert NewIds(first, n) == {};
    } else {
      NewIdsCount(first, n - 1);
      assert forall c :: InRange(first, n, c) <==> InRange(first, n - 1, c) || c == first + n - 1;
      assert NewIds(first, n) == NewIds(first, n - 1) + {first + n - 1};
    }
  }

  function NewCard(d: DeckId, row: Row): Card {
    Card(d, row.0, row.1, None, [], DEFAULT_DIFFICULTY)
  }

  function NewCards(d: DeckId, first: CardId, rows: seq<Row>): map<CardId, Card> {
    map c | c in NewIds(first, |rows|) :: NewCard(d, rows[c - first])
  }

  function WithRowsAdded(lib: Library, d: DeckId, rows: seq<Row>, filename: Option<string>): Library
    requires d in lib.decks
  {
    if rows == [] then lib
    else
      var deck := lib.decks[d];
      var file := if filename.Some? && filename.value != "" then filename else deck.sourceFile;
      lib.(cards := lib.cards + NewCards(d, lib.nextCard, rows),
           nextCard := lib.nextCard + |rows|,
           decks := lib.decks[d := deck.(cardCount := deck.cardCount + |rows|,
                                         version := deck.version + |rows|,
                                         sourceFile := file)])
  }

  function Imported(lib: Library, d: DeckId, rows: seq<Row>, filename: Option<string>, wipe: bool): Library
    requires d in lib.decks
  {
    WithRowsAdded(if wipe then Wiped(lib, d) else lib, d, rows, filename)
  }

  /** The record of a job that fails. */
  function FailedJob(job: Job, errors: seq<JobError>, now: int): Job {
    job.(status := Failed, errors := errors, completedAt := Some(now))
  }

  /** The library and the job once the job has been processed. */
  function Import(t: Locale, lib: Library, job: Job, now: int, fault: Fault): (Library, Job) {
    match FailureOf(t, lib, job, fault)
    case Some(errors) =>
      (lib, FailedJob(job, errors, now))
    case None =>
      var kept := RowsToAdd(t, lib, job);
      var parsed := ParsedRows(t, job.records);
      KeptCount(t, parsed, if job.mode.Replace? then {} else ExistingPairs(t, lib, job.deck), |parsed|);
      (Imported(lib, job.deck, kept, job.filename, job.mode.Replace?),
       job.(status := Completed, errors := BadRows(ParseErrors(t, job.records)),
            cardsImported := |kept|, cardsSkipped := |parsed| - |kept|, completedAt := Some(now)))
  }

  /** The outcome does not depend on the status the job has when read. */
  lemma ImportIgnoresStatus(t: Locale, lib: Library, job: Job, status: JobStatus, now: int, fault: Fault)
    ensures FailureOf(t, lib, job.(status := status), fault) == FailureOf(t, lib, job, fault)
    ensures FailureOf(t, lib, job, fault).None? ==>
      RowsToAdd(t, lib, job.(status := status)) == RowsToAdd(t, lib, job)
      && Import(t, lib, job.(status := status), now, fault) == Import(t, lib, job, now, fault)
  {
    var other := job.(status := status);
    assert FailureOf(t, lib, other, fault) == FailureOf(t, lib, job, fault);
    assert RowsToAdd(t, lib, other) == RowsToAdd(t, lib, job);
  }

  /** The record of a job that completes, from the one it had while it was
      being processed. */
  lemma CompletedRecord(t: Locale, lib: Library, job: Job, now: int, fault: Fault)
    requires FailureOf(t, lib, job, fault).None?
    ensures var kept, parsed := RowsToAdd(t, lib, job), ParsedRows(t, job.records);
      && |kept| <= |parsed| && job.deck in lib.decks
      && Import(t, lib, job, now, fault) ==
           (Imported(lib, job.deck, kept, job.filename, job.mode.Replace?),
            job.(status := Completed, errors := BadRows(ParseErrors(t, job.records)),
                 cardsImported := |kept|, cardsSkipped := |parsed| - |kept|, completedAt := Some(now)))
  {
    var parsed := ParsedRows(t, job.records);
    KeptCount(t, parsed, if job.mode.Replace? then {} else ExistingPairs(t, lib, job.deck), |parsed|);
  }

  // ---------------------------------------------------------------------
  // The service
  // ---------------------------------------------------------------------

  method WipeDeckCards(db: Database, d: DeckId) returns (deletedCount: nat)
    modifies db
    ensures db.committed == old(db.committed)
    ensures deletedCount == |CardsOf(old(db.working).lib, d)|
    ensures db.working == old(db.working).(lib := WithoutCards(old(db.working).lib, CardsOf(old(db.working).lib, d)))
  {
    var lib := db.working.lib;
    var gone := CardsOf(lib, d);
    deletedCount := |gone|;
    if deletedCount > 0 {
      lib := lib.(memories := map k | k in lib.memories && k.0 !in gone :: lib.memories[k]);
      lib := lib.(cards := map c | c in lib.cards && c !in gone :: lib.cards[c]);
    } else {
      assert gone == {};
      assert lib == WithoutCards(lib, gone);
    }
    db.working := db.working.(lib := lib);
  }

  method WipeForReplace(db: Database, d: DeckId)
    requires d in db.working.lib.decks
    modifies db
    ensures db.committed == old(db.committed)
    ensures db.working == old(db.working).(lib := Wiped(old(db.working).lib, d))
  {
    var deletedCount := WipeDeckCards(db, d);
    var deck := db.working.lib.decks[d];
    deck := deck.(cardCount := 0);
    if deletedCount > 0 {
      deck := deck.(version := deck.version + deletedCount);
    }
    db.working := db.working.(lib := db.working.lib.(decks := db.working.lib.decks[d := deck]));
  }

  method AddRows(db: Database, d: DeckId, rows: seq<Row>, filename: Option<string>)
    requires d in db.working.lib.decks
    modifies db
    ensures db.committed == old(db.committed)
    ensures db.working == old(db.working).(lib := WithRowsAdded(old(db.working).lib, d, rows, filename))
  {
    if rows != [] {
      var lib := db.working.lib;
      var deck := lib.decks[d];
      var cardsAdded := |rows|;
      deck := deck.(cardCount := deck.cardCount + cardsAdded);
      deck := deck.(version := deck.version + cardsAdded);
      if filename.Some? && filename.value != "" {
        deck := deck.(sourceFile := filename);
      }
      db.working := db.working.(lib := lib.(cards := lib.cards + NewCards(d, lib.nextCard, rows),
                                            nextCard := lib.nextCard + cardsAdded,
                                            decks := lib.decks[d := deck]));
    }
  }

  /** The part of the import that may raise. What it leaves in the open
      transaction after raising is about to be rolled back. */
  method TryImport(t: Locale, db: Database, processing: Job, fault: Fault)
    returns (job: Job, raised: Option<JobError>)
    modifies db
    ensures db.committed == old(db.committed)
    ensures raised.Some? ==>
      FailureOf(t, old(db.working).lib, processing, fault) == Some(job.errors + [raised.value])
    ensures raised.None? ==>
      var lib := old(db.working).lib;
      && FailureOf(t, lib, processing, fault).None?
      && var kept, parsed := RowsToAdd(t, lib, processing), ParsedRows(t, processing.records);
      && |kept| <= |parsed|
      && db.working == old(db.working).(
           lib := Imported(lib, processing.deck, kept, processing.filename, processing.mode.Replace?))
      && job == processing.(errors := BadRows(ParseErrors(t, processing.records)),
                            cardsImported := |kept|, cardsSkipped := |parsed| - |kept|)
  {
    job, raised := processing, None;
    if fault.BeforeParse? {
      return job, Some(Unexpected);
    }
    if !Owns(db.working.lib, job.user, job.deck) {
      return job, Some(DeckNotFound);
    }
    if job.readerFails {
      return job, Some(ReaderFailed);
    }
    var rows, parseErrors := ParseCsvRows(t, job.records);
    job := job.(errors := BadRows(parseErrors));
    if rows == [] {
      return job, Some(if parseErrors != [] then AllRowsBad(parseErrors) else NoValidRows);
    }

    var skipped: nat;
    if job.mode.Replace? {
      WipeForReplace(db, job.deck);
      rows, skipped := DedupeRows(t, rows, {});
    } else {
      rows, skipped := DedupeRows(t, rows, ExistingPairs(t, db.working.lib, job.deck));
    }
    job := job.(cardsSkipped := skipped);
    AddRows(db, job.deck, rows, job.filename);
    if fault.BeforeCompletion? {
      return job, Some(Unexpected);
    }
    job := job.(cardsImported := |rows|);
  }

  /** What others commit while no lock is held. */
  method OthersCommit(t: Locale, db: Database, gap: seq<Request>)
    requires db.working == db.committed
    modifies db
    ensures db.committed == db.working == TransactAll(t, old(db.committed), gap)
  {
    db.committed := TransactAll(t, db.committed, gap);
    db.working := db.committed;
  }

  /** Rows of the job's file become cards of its deck, or the transaction is
      rolled back and the job marked as failed. Nothing is committed here. The
      rollback releases the lock on the job, so the requests in the gap may
      take effect before the job is read again, and may even remove it. */
  method ProcessImportJob(t: Locale, db: Database, id: JobId, now: int, fault: Fault, gap: seq<Request>)
    returns (result: Option<Job>)
    requires db.working == db.committed
    modifies db
    ensures id !in old(db.committed).jobs ==>
      result.None? && db.working == db.committed == old(db.committed)
    ensures id in old(db.committed).jobs && Terminal(old(db.committed).jobs[id].status) ==>
      result == Some(old(db.committed).jobs[id]) && db.working == db.committed == old(db.committed)
    ensures id in old(db.committed).jobs && !Terminal(old(db.committed).jobs[id].status) ==>
      var before := old(db.committed);
      match FailureOf(t, before.lib, before.jobs[id], fault)
      case None =>
        var (lib, job) := Import(t, before.lib, before.jobs[id], now, fault);
        && db.committed == before && result == Some(job)
        && db.working == before.(lib := lib, jobs := before.jobs[id := job])
      case Some(errors) =>
        var after := TransactAll(t, before, gap);
        && db.committed == after
        && if id !in after.jobs then result.None? && db.working == after
           else
             && result == Some(FailedJob(after.jobs[id], errors, now))
             && db.working == after.(jobs := after.jobs[id := result.value])
  {
    if id !in db.working.jobs {
      return None;
    }
    var job := db.working.jobs[id];
    if job.status != Queued && job.status != Processing {
      return Some(job);
    }
    job := job.(status := Processing);
    db.working := db.working.(jobs := db.working.jobs[id := job]);

    var raised: Option<JobError>;
    ImportIgnoresStatus(t, db.committed.lib, db.committed.jobs[id], Processing, now, fault);
    job, raised := TryImport(t, db, job, fault);
    if raised.None? {
      CompletedRecord(t, db.committed.lib, db.committed.jobs[id], now, fault);
      job := job.(status := Completed, completedAt := Some(now));
    } else {
      var errorsSnapshot := job.errors;
      db.Rollback();
      OthersCommit(t, db, gap);
      if id !in db.working.jobs {
        return None;
      }
      job := db.working.jobs[id];
      job := job.(status := Failed);
      job := job.(errors := errorsSnapshot + [raised.value]);
      job := job.(completedAt := Some(now));
    }
    db.working := db.working.(jobs := db.working.jobs[id := job]);
    result := Some(job);
  }

  // ---------------------------------------------------------------------
  // What an import keeps
  // ---------------------------------------------------------------------

  lemma WipeEffect(lib: Library, d: DeckId)
    requires References(lib) && d in lib.decks
    ensures var after := Wiped(lib, d);
      && References(after)
      && DeckCards(after, d) == {}
      && after.nextCard == lib.nextCard
      && (forall c :: c in DeckCards(lib, d) ==> c < lib.nextCard)
      && after.decks[d].version == lib.decks[d].version + |DeckCards(lib, d)|
      && forall e :: e in lib.decks && e != d ==> SameDeck(lib, after, e)
  {
    var after := Wiped(lib, d);
    OtherDecksSame(lib, after, d);
  }

  /** b is a with one new card of deck d for each row. */
  ghost predicate RowsAdded(a: Library, b: Library, d: DeckId, rows: seq<Row>) {
    && d in a.decks && b.decks.Keys == a.decks.Keys
    && (forall e :: e in a.decks && e != d ==> b.decks[e] == a.decks[e])
    && b.decks[d].user == a.decks[d].user && Attributes(b.decks[d]) == Attributes(a.decks[d])
    && b.decks[d].version == a.decks[d].version + |rows|
    && b.decks[d].cardCount == a.decks[d].cardCount + |rows|
    && b.cards.Keys == a.cards.Keys + NewIds(a.nextCard, |rows|)
    && (forall c :: c in a.cards ==> c in b.cards && b.cards[c] == a.cards[c])
    && (forall c :: c in NewIds(a.nextCard, |rows|) ==> c in b.cards && b.cards[c] == NewCard(d, rows[c - a.nextCard]))
    && b.memories == a.memories && b.nextDeck == a.nextDeck && b.nextCard == a.nextCard + |rows|
  }

  lemma AddingRows(lib: Library, d: DeckId, rows: seq<Row>, filename: Option<string>)
    requires References(lib) && d in lib.decks
    ensures RowsAdded(lib, WithRowsAdded(lib, d, rows, filename), d, rows)
  {
    assert rows == [] ==> NewIds(lib.nextCard, |rows|) == {};
  }

  lemma AddKeepsReferences(a: Library, b: Library, d: DeckId, rows: seq<Row>)
    requires References(a) && RowsAdded(a, b, d, rows)
    ensures References(b) && AgreeOutside(a, b, d)
  {
  }

  lemma AddEffect(a: Library, b: Library, d: DeckId, rows: seq<Row>)
    requires References(a) && RowsAdded(a, b, d, rows)
    ensures References(b)
    ensures DeckCards(b, d) == DeckCards(a, d) + NewIds(a.nextCard, |rows|)
    ensures DeckCards(a, d) !! NewIds(a.nextCard, |rows|)
    ensures forall e :: e in a.decks && e != d ==> SameDeck(a, b, e)
  {
    AddKeepsReferences(a, b, d, rows);
    OtherDecksSame(a, b, d);
  }

  lemma SameDeckTransitive(a: Library, b: Library, c: Library, d: DeckId)
    requires SameDeck(a, b, d) && SameDeck(b, c, d)
    ensures SameDeck(a, c, d)
  {
  }

  /** What an import does to the library, whatever its functions are called. */
  ghost predicate ImportLaw(a: Library, b: Library, d: DeckId, rows: seq<Row>, wipe: bool) {
    && References(b) && d in a.decks && b.nextDeck == a.nextDeck && b.decks.Keys == a.decks.Keys
    && Attributes(b.decks[d]) == Attributes(a.decks[d]) && b.decks[d].user == a.decks[d].user
    && DeckCards(b, d) == (if wipe then {} else DeckCards(a, d)) + NewIds(a.nextCard, |rows|)
    && DeckCards(a, d) !! NewIds(a.nextCard, |rows|)
    && b.decks[d].version == a.decks[d].version + Changes(a, b, d)
    && b.decks[d].cardCount == (if wipe then 0 else a.decks[d].cardCount) + |rows|
    && forall e :: e in a.decks && e != d ==> SameDeck(a, b, e)
  }

  lemma WipeThenAdd(a: Library, base: Library, b: Library, d: DeckId, rows: seq<Row>)
    requires References(a) && References(base) && d in a.decks && RowsAdded(base, b, d, rows)
    requires base.nextCard == a.nextCard && base.nextDeck == a.nextDeck && base.decks.Keys == a.decks.Keys
    requires Attributes(base.decks[d]) == Attributes(a.decks[d]) && base.decks[d].user == a.decks[d].user
    requires DeckCards(base, d) == {} && base.decks[d].cardCount == 0
    requires base.decks[d].version == a.decks[d].version + |DeckCards(a, d)|
    requires forall e :: e in a.decks && e != d ==> SameDeck(a, base, e)
    ensures ImportLaw(a, b, d, rows, true)
  {
    AddEffect(base, b, d, rows);
    NewIdsCount(a.nextCard, |rows|);
    assert DeckCards(a, d) !! NewIds(a.nextCard, |rows|);
    CountChanges(a, b, d, DeckCards(a, d), NewIds(a.nextCard, |rows|));
    forall e | e in a.decks && e != d
      ensures SameDeck(a, b, e)
    {
      SameDeckTransitive(a, base, b, e);
    }
  }

  lemma AddOnly(a: Library, b: Library, d: DeckId, rows: seq<Row>)
    requires References(a) && RowsAdded(a, b, d, rows)
    ensures ImportLaw(a, b, d, rows, false)
  {
    AddEffect(a, b, d, rows);
    NewIdsCount(a.nextCard, |rows|);
    CountChanges(a, b, d, {}, NewIds(a.nextCard, |rows|));
  }

  /** Effect of an import: the wiped cards go, the kept rows come, and no
      other deck is touched. */
  lemma ImportEffect(lib: Library, d: DeckId, rows: seq<Row>, filename: Option<string>, wipe: bool)
    requires References(lib) && d in lib.decks
    ensures ImportLaw(lib, Imported(lib, d, rows, filename, wipe), d, rows, wipe)
  {
    var after := Imported(lib, d, rows, filename, wipe);
    if wipe {
      WipeEffect(lib, d);
      AddingRows(Wiped(lib, d), d, rows, filename);
      WipeThenAdd(lib, Wiped(lib, d), after, d, rows);
    } else {
      AddingRows(lib, d, rows, filename);
      AddOnly(lib, after, d, rows);
    }
  }

  lemma AddedRowsFit(base: Library, d: DeckId, rows: seq<Row>, filename: Option<string>)
    requires d in base.decks && FitsColumns(base)
    ensures FitsColumns(WithRowsAdded(base, d, rows, filename)) <==> forall i :: 0 <= i < |rows| ==> Fits(rows[i])
  {
    var after := WithRowsAdded(base, d, rows, filename);
    if FitsColumns(after) && rows != [] {
      forall i | 0 <= i < |rows|
        ensures Fits(rows[i])
      {
        assert after.cards[base.nextCard + i].question == rows[i].0;
      }
    }
  }

  lemma ImportedKeepsLaws(t: Locale, lib: Library, d: DeckId, rows: seq<Row>, filename: Option<string>, wipe: bool)
    requires LibraryInv(t, lib) && d in lib.decks
    requires FitsColumns(Imported(lib, d, rows, filename, wipe))
    ensures var after := Imported(lib, d, rows, filename, wipe);
      LibraryInv(t, after) && VersionLaw(lib, after)
  {
    var after := Imported(lib, d, rows, filename, wipe);
    ImportEffect(lib, d, rows, filename, wipe);
    NewIdsCount(lib.nextCard, |rows|);
    OneDeckUpdated(t, lib, after, d);
  }

  /** The final record of a job is that of the same job, and decks neither
      come nor go. */
  lemma ImportShape(t: Locale, lib: Library, job: Job, now: int, fault: Fault)
    ensures var (after, done) := Import(t, lib, job, now, fault);
      && done.deck == job.deck && done.completedAt == Some(now) && Terminal(done.status)
      && after.decks.Keys == lib.decks.Keys
      && after == Import(t, lib, job, 0, fault).0
  {
  }

  /** The import of a job either fails and leaves the library alone, or keeps
      its invariants and moves each version by what changed in the deck. */
  lemma {:induction false} ImportKeepsLaws(t: Locale, lib: Library, job: Job, now: int, fault: Fault)
    requires LibraryInv(t, lib) && FitsColumns(Import(t, lib, job, now, fault).0)
    ensures var (after, done) := Import(t, lib, job, now, fault);
      && (done.status == Failed ==> after == lib)
      && LibraryInv(t, after) && VersionLaw(lib, after)
  {
    if FailureOf(t, lib, job, fault).Some? {
      UnchangedKeepsLaws(lib);
    } else {
      ImportedKeepsLaws(t, lib, job.deck, RowsToAdd(t, lib, job), job.filename, job.mode.Replace?);
    }
  }

  // ---------------------------------------------------------------------
  // An import beside requests for other decks
  // ---------------------------------------------------------------------

  /** What a transaction that computed these rows and this deck row writes. */
  function Written(lib: Library, d: DeckId, deckRow: Deck, rows: seq<Row>, wipe: bool): Library {
    var base := if wipe then WithoutCards(lib, CardsOf(lib, d)) else lib;
    base.(cards := base.cards + NewCards(d, base.nextCard, rows),
          nextCard := base.nextCard + |rows|,
          decks := base.decks[d := deckRow])
  }

  lemma WrittenIsImported(lib: Library, d: DeckId, rows: seq<Row>, filename: Option<string>, wipe: bool)
    requires d in lib.decks
    ensures var after := Imported(lib, d, rows, filename, wipe);
      d in after.decks && after == Written(lib, d, after.decks[d], rows, wipe)
  {
    var base := if wipe then Wiped(lib, d) else lib;
    if rows == [] {
      assert NewIds(base.nextCard, 0) == {};
      assert NewCards(d, base.nextCard, rows) == map[];
      assert base.cards + map[] == base.cards;
    }
    var after := Imported(lib, d, rows, filename, wipe);
    assert after.decks == lib.decks[d := after.decks[d]];
  }

  lemma SameDeckSamePairs(t: Locale, a: Library, b: Library, d: DeckId)
    requires SameDeck(a, b, d)
    ensures ExistingPairs(t, a, d) == ExistingPairs(t, b, d)
  {
    assert forall c :: c in a.cards && a.cards[c].deck == d <==> c in DeckCards(a, d);
    assert forall c :: c in b.cards && b.cards[c].deck == d <==> c in DeckCards(b, d);
  }

  lemma SameDeckSameRow(a: Library, b: Library, d: DeckId, rows: seq<Row>, filename: Option<string>, wipe: bool)
    requires SameDeck(a, b, d)
    ensures d in Imported(a, d, rows, filename, wipe).decks && d in Imported(b, d, rows, filename, wipe).decks
    ensures Imported(a, d, rows, filename, wipe).decks[d] == Imported(b, d, rows, filename, wipe).decks[d]
  {
    assert CardsOf(a, d) == CardsOf(b, d);
  }

  /** An import computes the same rows, deck row and record from two states
      that agree on its deck. */
  lemma ImportSeesItsDeck(t: Locale, a: Library, b: Library, job: Job, now: int, fault: Fault)
    requires SameDeck(a, b, job.deck)
    ensures FailureOf(t, a, job, fault) == FailureOf(t, b, job, fault)
    ensures Import(t, a, job, now, fault).1 == Import(t, b, job, now, fault).1
    ensures FailureOf(t, a, job, fault).None? ==>
      var (libA, libB) := (Import(t, a, job, now, fault).0, Import(t, b, job, now, fault).0);
      && RowsToAdd(t, a, job) == RowsToAdd(t, b, job)
      && job.deck in libA.decks && job.deck in libB.decks
      && libA.decks[job.deck] == libB.decks[job.deck]
  {
    SameDeckSamePairs(t, a, b, job.deck);
    SameDeckSameRow(a, b, job.deck, RowsToAdd(t, a, job), job.filename, job.mode.Replace?);
  }

  // ---------------------------------------------------------------------
  // Merging and replacing
  // ---------------------------------------------------------------------

  lemma AddedRowsHaveCards(t: Locale, a: Library, b: Library, d: DeckId, rows: seq<Row>, k: Row)
    requires RowsAdded(a, b, d, rows) && k in Keys(t, rows)
    ensures k in ExistingPairs(t, b, d)
  {
    KeysMembership(t, rows, k);
    var i :| 0 <= i < |rows| && NormalizePair(t, rows[i]) == k;
    var c := a.nextCard + i;
    assert c in NewIds(a.nextCard, |rows|) && b.cards[c] == NewCard(d, rows[i]);
  }

  lemma AddedCardsHaveRows(t: Locale, a: Library, b: Library, d: DeckId, rows: seq<Row>, c: CardId)
    requires RowsAdded(a, b, d, rows) && c in NewIds(a.nextCard, |rows|)
    ensures c in b.cards && NormalizePair(t, (b.cards[c].question, b.cards[c].answer)) in Keys(t, rows)
  {
    KeysMembership(t, rows, NormalizePair(t, rows[c - a.nextCard]));
  }

  lemma AddedKeys(t: Locale, a: Library, b: Library, d: DeckId, rows: seq<Row>)
    requires RowsAdded(a, b, d, rows)
    ensures ExistingPairs(t, b, d) == ExistingPairs(t, a, d) + Keys(t, rows)
  {
    forall k | k in Keys(t, rows)
      ensures k in ExistingPairs(t, b, d)
    {
      AddedRowsHaveCards(t, a, b, d, rows, k);
    }
    forall c | c in NewIds(a.nextCard, |rows|)
      ensures c in b.cards && NormalizePair(t, (b.cards[c].question, b.cards[c].answer)) in Keys(t, rows)
    {
      AddedCardsHaveRows(t, a, b, d, rows, c);
    }
  }

  lemma CompletedImport(t: Locale, lib: Library, job: Job, now: int)
    requires FailureOf(t, lib, job, NoFault).None?
    ensures var (after, done) := Import(t, lib, job, now, NoFault);
      && job.deck in lib.decks && ParsedRows(t, job.records) != []
      && after == Imported(lib, job.deck, RowsToAdd(t, lib, job), job.filename, job.mode.Replace?)
      && done.status == Completed && done.cardsImported == |RowsToAdd(t, lib, job)|
  {
  }

  lemma FileKeysAdded(t: Locale, base: Library, d: DeckId, rows: seq<Row>, filename: Option<string>)
    requires References(base) && d in base.decks
    ensures var added := KeptRows(t, rows, ExistingPairs(t, base, d));
      ExistingPairs(t, WithRowsAdded(base, d, added, filename), d) == ExistingPairs(t, base, d) + Keys(t, rows)
  {
    var existing := ExistingPairs(t, base, d);
    KeptKeys(t, rows, existing, |rows|);
    assert rows[..|rows|] == rows;
    AddingRows(base, d, KeptRows(t, rows, existing), filename);
    AddedKeys(t, base, WithRowsAdded(base, d, KeptRows(t, rows, existing), filename), d, KeptRows(t, rows, existing));
  }

  lemma WipedHasNoPairs(t: Locale, lib: Library, d: DeckId)
    requires References(lib) && d in lib.decks
    ensures References(Wiped(lib, d)) && ExistingPairs(t, Wiped(lib, d), d) == {}
  {
    WipeEffect(lib, d);
    var after := Wiped(lib, d);
    assert forall c :: c in after.cards && after.cards[c].deck == d ==> c in DeckCards(after, d);
  }

  /** When a job completes, the deck's keys are those of the file and, when
      merging, also those it had. */
  lemma {:induction false} ImportedKeys(t: Locale, lib: Library, job: Job, now: int)
    requires References(lib) && FailureOf(t, lib, job, NoFault).None?
    ensures ExistingPairs(t, Import(t, lib, job, now, NoFault).0, job.deck) ==
        (if job.mode.Replace? then {} else ExistingPairs(t, lib, job.deck))
        + Keys(t, ParsedRows(t, job.records))
  {
    CompletedImport(t, lib, job, now);
    if job.mode.Replace? {
      WipedHasNoPairs(t, lib, job.deck);
      FileKeysAdded(t, Wiped(lib, job.deck), job.deck, ParsedRows(t, job.records), job.filename);
    } else {
      FileKeysAdded(t, lib, job.deck, ParsedRows(t, job.records), job.filename);
    }
  }

  lemma NothingToMerge(t: Locale, lib: Library, job: Job, now: int)
    requires job.mode.Merge? && FailureOf(t, lib, job, NoFault).None? && RowsToAdd(t, lib, job) == []
    ensures var (after, done) := Import(t, lib, job, now, NoFault);
      && after == lib && done.status == Completed && done.cardsImported == 0
      && done.cardsSkipped == |ParsedRows(t, job.records)|
  {
  }

  lemma PresentRowsAreSkipped(t: Locale, lib: Library, job: Job)
    requires job.mode.Merge? && Keys(t, ParsedRows(t, job.records)) <= ExistingPairs(t, lib, job.deck)
    ensures RowsToAdd(t, lib, job) == []
  {
    var rows := ParsedRows(t, job.records);
    forall i | 0 <= i < |rows|
      ensures NormalizePair(t, rows[i]) in ExistingPairs(t, lib, job.deck)
    {
      KeysMembership(t, rows, NormalizePair(t, rows[i]));
    }
    NothingNewKept(t, rows, ExistingPairs(t, lib, job.deck), |rows|);
  }

  lemma CompletedKeepsOwner(t: Locale, lib: Library, job: Job, now: int, user: UserId)
    ensures Owns(Import(t, lib, job, now, NoFault).0, user, job.deck) == Owns(lib, user, job.deck)
  {
  }

  /** Merging a file into a deck that has just taken it changes nothing. */
  lemma {:induction false} MergeAgainAddsNothing(t: Locale, lib: Library, first: Job, again: Job, now: int, later: int)
    requires References(lib) && FailureOf(t, lib, first, NoFault).None?
    requires again.records == first.records && again.deck == first.deck && again.user == first.user
    requires again.mode.Merge? && !again.readerFails
    ensures var (after, _) := Import(t, lib, first, now, NoFault);
      var (after', again') := Import(t, after, again, later, NoFault);
      && after' == after
      && again'.status == Completed && again'.cardsImported == 0
      && again'.cardsSkipped == |ParsedRows(t, first.records)|
  {
    var (after, _) := Import(t, lib, first, now, NoFault);
    ImportedKeys(t, lib, first, now);
    CompletedKeepsOwner(t, lib, first, now, first.user);
    PresentRowsAreSkipped(t, after, again);
    NothingToMerge(t, after, again, later);
  }

  /** The deck's cards are exactly these rows, one card each, in the order of
      their identifiers from first upwards. */
  ghost predicate DeckHolds(lib: Library, d: DeckId, first: CardId, rows: seq<Row>) {
    && DeckCards(lib, d) == NewIds(first, |rows|)
    && forall c :: c in NewIds(first, |rows|) ==>
         c in lib.cards && (lib.cards[c].question, lib.cards[c].answer) == rows[c - first]
  }

  lemma NonemptyKeepsSome(t: Locale, rows: seq<Row>)
    requires rows != []
    ensures KeptRows(t, rows, {}) != []
  {
    KeptKeys(t, rows, {}, |rows|);
    assert rows[..|rows|] == rows;
    KeysMembership(t, rows, NormalizePair(t, rows[0]));
  }

  lemma FilledDeckHolds(lib: Library, after: Library, d: DeckId, rows: seq<Row>)
    requires RowsAdded(lib, after, d, rows) && References(lib) && DeckCards(lib, d) == {}
    ensures DeckHolds(after, d, lib.nextCard, rows)
  {
    AddEffect(lib, after, d, rows);
    assert {} + NewIds(lib.nextCard, |rows|) == NewIds(lib.nextCard, |rows|);
  }

  lemma ReplacedDeckHolds(lib: Library, d: DeckId, rows: seq<Row>, filename: Option<string>)
    requires References(lib) && d in lib.decks
    ensures DeckHolds(Imported(lib, d, rows, filename, true), d, lib.nextCard, rows)
  {
    WipeEffect(lib, d);
    AddingRows(Wiped(lib, d), d, rows, filename);
    FilledDeckHolds(Wiped(lib, d), Imported(lib, d, rows, filename, true), d, rows);
  }

  /** Replacing leaves the distinct rows of the file and nothing else, so
      replacing again gives the same sequence of questions and answers. */
  lemma {:induction false} ReplaceHoldsFile(t: Locale, lib: Library, job: Job, now: int)
    requires References(lib) && job.mode.Replace? && FailureOf(t, lib, job, NoFault).None?
    ensures var (after, done) := Import(t, lib, job, now, NoFault);
      var rows := KeptRows(t, ParsedRows(t, job.records), {});
      DeckHolds(after, job.deck, lib.nextCard, rows) && rows != [] && done.cardsImported == |rows|
  {
    CompletedImport(t, lib, job, now);
    var rows := KeptRows(t, ParsedRows(t, job.records), {});
    NonemptyKeepsSome(t, ParsedRows(t, job.records));
    ReplacedDeckHolds(lib, job.deck, rows, job.filename);
  }

  // ---------------------------------------------------------------------
  // How an import ends, and what it leaves alone
  // ---------------------------------------------------------------------

  /** A job completes exactly when nothing unexpected happens, its deck is its
      user's, the file can be read and has a row; it then records its rows and
      the errors of the others. */
  lemma CompletesExactly(t: Locale, lib: Library, job: Job, now: int, fault: Fault)
    ensures var (after, done) := Import(t, lib, job, now, fault);
      && (done.status == Completed <==>
            && fault.NoFault? && job.deck in lib.decks && lib.decks[job.deck].user == job.user
            && !job.readerFails && ParsedRows(t, job.records) != [])
      && (done.status == Completed || done.status == Failed) && done.completedAt == Some(now)
      && (done.status == Completed ==>
            && done.cardsImported == |RowsToAdd(t, lib, job)|
            && done.cardsImported + done.cardsSkipped == |ParsedRows(t, job.records)|
            && |done.errors| == |ParseErrors(t, job.records)|
            && forall i :: 0 <= i < |done.errors| ==> done.errors[i] == BadRow(ParseErrors(t, job.records)[i]))
      && done.user == job.user && done.deck == job.deck && done.mode == job.mode
      && done.records == job.records && done.readerFails == job.readerFails && done.filename == job.filename
  {
    if FailureOf(t, lib, job, fault).None? {
      CompletedRecord(t, lib, job, now, fault);
    }
  }

  /** The error a failed job records last says why it failed. */
  lemma FailureReason(t: Locale, lib: Library, job: Job, now: int, fault: Fault)
    ensures var done := Import(t, lib, job, now, fault).1;
      done.status == Failed ==>
        && done.errors != []
        && var last := done.errors[|done.errors| - 1];
           var own := job.deck in lib.decks && lib.decks[job.deck].user == job.user;
           && (last == DeckNotFound <==> !fault.BeforeParse? && !own)
           && (last == ReaderFailed <==> !fault.BeforeParse? && own && job.readerFails)
           && (last == Unexpected <==>
                 fault.BeforeParse?
                 || (own && !job.readerFails && ParsedRows(t, job.records) != [] && fault.BeforeCompletion?))
           && (last.AllRowsBad? || last.NoValidRows? <==>
                 !fault.BeforeParse? && own && !job.readerFails && ParsedRows(t, job.records) == [])
           && (last.AllRowsBad? ==> last.errors == ParseErrors(t, job.records) != [])
           && (last.NoValidRows? ==> ParseErrors(t, job.records) == [])
           && done.errors[..|done.errors| - 1] ==
                (if fault.BeforeParse? || !own || job.readerFails then job.errors
                 else BadRows(ParseErrors(t, job.records)))
  {
  }

  /** What a reader finds in a card that an import made: a row of the file. */
  lemma ImportedCardReads(t: Locale, lib: Library, job: Job, now: int, fault: Fault, c: CardId)
    requires References(lib) && c !in lib.cards && c in Import(t, lib, job, now, fault).0.cards
    ensures var card := Import(t, lib, job, now, fault).0.cards[c];
      && lib.nextCard <= c && card.deck == job.deck
      && (card.question, card.answer) in RowsToAdd(t, lib, job)
      && card.sourceRef.None? && card.tags == [] && card.difficulty == 3
  {
    if FailureOf(t, lib, job, fault).None? {
      CompletedRecord(t, lib, job, now, fault);
    }
  }

  /** A completed import that adds rows notes the name of its file. */
  lemma ImportNotesFile(t: Locale, lib: Library, job: Job, now: int, fault: Fault)
    requires job.deck in lib.decks
    ensures var (after, done) := Import(t, lib, job, now, fault);
      && job.deck in after.decks
      && after.decks[job.deck].sourceFile ==
           if done.status == Completed && done.cardsImported > 0 && job.filename.Some? && job.filename.value != ""
           then job.filename
           else lib.decks[job.deck].sourceFile
  {
    if FailureOf(t, lib, job, fault).None? {
      CompletedRecord(t, lib, job, now, fault);
    }
  }

  /** An import changes no card, and the only cards it removes are those of its
      own deck when it replaces. */
  lemma ImportOnCards(t: Locale, lib: Library, job: Job, now: int, fault: Fault, c: CardId)
    requires References(lib) && c in lib.cards
    ensures var (after, done) := Import(t, lib, job, now, fault);
      && (c in after.cards ==> after.cards[c] == lib.cards[c])
      && (c !in after.cards <==> done.status == Completed && job.mode.Replace? && lib.cards[c].deck == job.deck)
  {
    if FailureOf(t, lib, job, fault).None? {
      CompletedRecord(t, lib, job, now, fault);
    }
  }

  lemma WipeKeepsMemories(lib: Library, d: DeckId)
    requires References(lib) && d in lib.decks
    ensures MemoryLaw(lib, Wiped(lib, d), {})
  {
  }

  lemma AddKeepsMemories(lib: Library, d: DeckId, rows: seq<Row>, filename: Option<string>)
    requires References(lib) && d in lib.decks
    ensures MemoryLaw(lib, WithRowsAdded(lib, d, rows, filename), {})
  {
  }

  lemma MemoryLawTransitive(a: Library, b: Library, c: Library)
    requires References(a) && MemoryLaw(a, b, {}) && MemoryLaw(b, c, {})
    requires forall k :: k in a.cards && k !in b.cards ==> k !in c.cards
    ensures MemoryLaw(a, c, {})
  {
  }

  lemma ImportKeepsMemories(t: Locale, lib: Library, job: Job, now: int, fault: Fault)
    requires References(lib)
    ensures MemoryLaw(lib, Import(t, lib, job, now, fault).0, {})
  {
    if FailureOf(t, lib, job, fault).None? {
      CompletedRecord(t, lib, job, now, fault);
      var d, rows := job.deck, RowsToAdd(t, lib, job);
      if job.mode.Replace? {
        WipeEffect(lib, d);
        WipeKeepsMemories(lib, d);
        AddKeepsMemories(Wiped(lib, d), d, rows, job.filename);
        MemoryLawTransitive(lib, Wiped(lib, d), WithRowsAdded(Wiped(lib, d), d, rows, job.filename));
      } else {
        AddKeepsMemories(lib, d, rows, job.filename);
      }
    }
  }
}
