/** The tables the services share, what holds of them in every committed
    state, and the session through which a service changes them. */
module Storage {
  import opened Base
  import opened Text
  import opened CsvRows
  import SR = SpacedRepetition

  type UserId = nat
  type DeckId = nat
  type CardId = nat
  type JobId = nat

  datatype Deck = Deck(
    user: UserId,
    name: string,
    description: Option<string>,
    tags: seq<string>,
    cardCount: int,
    version: int,
    sourceFile: Option<string>)

  datatype Card = Card(
    deck: DeckId,
    question: string,
    answer: string,
    sourceRef: Option<string>,
    tags: seq<string>,
    difficulty: int)

  const DEFAULT_DIFFICULTY := 3
  const QUESTION_COLUMN := 1000
  const ANSWER_COLUMN := 2000

  /** Decks, cards and memory states. New identifiers are taken from counters. */
  datatype Library = Library(
    decks: map<DeckId, Deck>,
    cards: map<CardId, Card>,
    memories: map<(CardId, UserId), SR.Memory>,
    nextDeck: nat,
    nextCard: nat)

  datatype JobStatus = Queued | Processing | Completed | Failed

  datatype ImportMode = Merge | Replace

  /** An entry of a job's error list. */
  datatype JobError =
    | BadRow(error: RowError)
    | DeckNotFound
    | ReaderFailed
    | AllRowsBad(errors: seq<RowError>)
    | NoValidRows
    | Unexpected

  /** An import job. The uploaded text appears as the records the CSV reader
      yields, or as a failure of that reader. */
  datatype Job = Job(
    user: UserId,
    deck: DeckId,
    status: JobStatus,
    mode: ImportMode,
    records: seq<Record>,
    readerFails: bool,
    filename: Option<string>,
    cardsImported: nat,
    cardsSkipped: nat,
    errors: seq<JobError>,
    completedAt: Option<int>)

  datatype Db = Db(lib: Library, jobs: map<JobId, Job>, nextJob: nat)

  ghost function DeckCards(lib: Library, d: DeckId): set<CardId> {
    set c | c in lib.cards && lib.cards[c].deck == d
  }

  predicate Fits(row: Row) {
    |row.0| <= QUESTION_COLUMN && |row.1| <= ANSWER_COLUMN
  }

  /** The width limits of the flashcard columns, checked on flush. */
  predicate FitsColumns(lib: Library) {
    forall c :: c in lib.cards ==> Fits((lib.cards[c].question, lib.cards[c].answer))
  }

  predicate Terminal(status: JobStatus) {
    status == Completed || status == Failed
  }

  // ---------------------------------------------------------------------
  // Invariants of committed states
  // ---------------------------------------------------------------------

  ghost predicate References(lib: Library) {
    && (forall d :: d in lib.decks ==> d < lib.nextDeck)
    && (forall c :: c in lib.cards ==> c < lib.nextCard && lib.cards[c].deck in lib.decks)
    && (forall k :: k in lib.memories ==> k.0 in lib.cards)
  }

  /** The denormalised counter is exact for every deck. */
  ghost predicate CountsExact(lib: Library) {
    forall d :: d in lib.decks ==> lib.decks[d].cardCount == |DeckCards(lib, d)|
  }

  ghost predicate NamesDistinct(t: Locale, lib: Library) {
    forall d, e :: d in lib.decks && e in lib.decks && d != e && lib.decks[d].user == lib.decks[e].user
      ==> t.lower(lib.decks[d].name) != t.lower(lib.decks[e].name)
  }

  ghost predicate LibraryInv(t: Locale, lib: Library) {
    References(lib) && CountsExact(lib) && NamesDistinct(t, lib) && FitsColumns(lib)
  }

  ghost predicate JobsInv(db: Db) {
    forall j :: j in db.jobs ==>
      && j < db.nextJob
      && db.jobs[j].deck in db.lib.decks
      && db.jobs[j].status != Processing
      && (Terminal(db.jobs[j].status) <==> db.jobs[j].completedAt.Some?)
  }

  ghost predicate DbInv(t: Locale, db: Db) {
    LibraryInv(t, db.lib) && JobsInv(db)
  }

  // ---------------------------------------------------------------------
  // What an observer sees change in a deck between two states
  // ---------------------------------------------------------------------

  ghost function Created(a: Library, b: Library, d: DeckId): set<CardId> {
    DeckCards(b, d) - DeckCards(a, d)
  }

  ghost function Edited(a: Library, b: Library, d: DeckId): set<CardId> {
    set c | c in DeckCards(a, d) && c in DeckCards(b, d) && a.cards[c] != b.cards[c]
  }

  function Attributes(deck: Deck): (string, Option<string>, seq<string>) {
    (deck.name, deck.description, deck.tags)
  }

  /** Cards that appeared, disappeared or changed, and the deck's own edit. */
  ghost function Changes(a: Library, b: Library, d: DeckId): nat
    requires d in a.decks && d in b.decks
  {
    |Created(a, b, d)| + |Created(b, a, d)| + |Edited(a, b, d)|
    + (if Attributes(a.decks[d]) != Attributes(b.decks[d]) then 1 else 0)
  }

  /** The version of a deck moves by exactly what changed in it; a new deck
      starts at one, with an identifier never used before. */
  ghost predicate VersionLaw(a: Library, b: Library) {
    && a.nextDeck <= b.nextDeck
    && (forall d :: d in a.decks && d in b.decks ==>
          b.decks[d].version == a.decks[d].version + Changes(a, b, d))
    && (forall d :: d in b.decks && d !in a.decks ==>
          a.nextDeck <= d && b.decks[d].version == 1 && DeckCards(b, d) == {})
  }

  // ---------------------------------------------------------------------
  // The session
  // ---------------------------------------------------------------------

  /** A database session: the committed rows and the open transaction's copy. */
  class Database {
    var committed: Db
    var working: Db

    constructor (db: Db)
      ensures committed == working == db
    {
      committed := db;
      working := db;
    }

    /** Fails, and leaves the committed rows alone, when a card does not fit
        its columns. */
    method Commit() returns (ok: bool)
      modifies this
      ensures ok == FitsColumns(old(working).lib)
      ensures committed == (if ok then old(working) else old(committed))
      ensures working == committed
    {
      ok := FitsColumns(working.lib);
      if ok {
        committed := working;
      } else {
        working := committed;
      }
    }

    method Rollback()
      modifies this
      ensures committed == working == old(committed)
    {
      working := committed;
    }
  }
}
