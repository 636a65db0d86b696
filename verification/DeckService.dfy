/** Decks and cards (services/deck.py, services/flashcard.py) and the memory
    state an answer leaves (services/spaced_repetition.py). */
module DeckService {
  import opened Base
  import opened Text
  import opened Storage
  import SR = SpacedRepetition

  datatype ServiceError = NoSuchDeck | NoSuchCard | NameConflict

  /** A request that changes decks, cards or memory states. */
  datatype Request =
    | CreateDeck(user: UserId, name: string, description: Option<string>, tags: seq<string>)
    | UpdateDeck(user: UserId, deck: DeckId, newName: Option<string>,
                 newDescription: Option<string>, newTags: Option<seq<string>>)
    | DeleteDeck(user: UserId, deck: DeckId)
    | CreateCard(user: UserId, deck: DeckId, question: string, answer: string,
                 sourceRef: Option<string>, tags: seq<string>, difficulty: int)
    | UpdateCard(user: UserId, card: CardId, edit: CardEdit)
    | DeleteCard(user: UserId, card: CardId)
    | AnswerCard(user: UserId, card: CardId, score: int, now: int)

  /** Fields of a card to overwrite. Only the source reference can be cleared. */
  datatype CardEdit = CardEdit(
    question: Option<string>,
    answer: Option<string>,
    sourceRef: Option<string>,
    sourceRefSet: bool,
    tags: Option<seq<string>>,
    difficulty: Option<int>)

  predicate Owns(lib: Library, user: UserId, d: DeckId) {
    d in lib.decks && lib.decks[d].user == user
  }

  /** The user owns the deck the card is in. */
  predicate OwnsCard(lib: Library, user: UserId, c: CardId) {
    c in lib.cards && Owns(lib, user, lib.cards[c].deck)
  }

  /** Another deck of the user has this name, up to letter case. */
  predicate NameTaken(t: Locale, lib: Library, user: UserId, name: string, except: Option<DeckId>) {
    exists d :: d in lib.decks && Some(d) != except
      && lib.decks[d].user == user && t.lower(lib.decks[d].name) == t.lower(name)
  }

  // ---------------------------------------------------------------------
  // Specification of each operation
  // ---------------------------------------------------------------------

  function EditedDeck(deck: Deck, name: Option<string>, description: Option<string>, tags: Option<seq<string>>): Deck {
    deck.(name := name.GetOr(deck.name),
          description := if description.Some? then description else deck.description,
          tags := tags.GetOr(deck.tags))
  }

  function EditedCard(card: Card, e: CardEdit): Card {
    Card(card.deck, e.question.GetOr(card.question), e.answer.GetOr(card.answer),
         if e.sourceRefSet then e.sourceRef else card.sourceRef,
         e.tags.GetOr(card.tags), e.difficulty.GetOr(card.difficulty))
  }

  function WithoutCards(lib: Library, gone: set<CardId>): Library {
    lib.(cards := map c | c in lib.cards && c !in gone :: lib.cards[c],
         memories := map k | k in lib.memories && k.0 !in gone :: lib.memories[k])
  }

  function CardsOf(lib: Library, d: DeckId): (s: set<CardId>)
    ensures s == DeckCards(lib, d)
  {
    set c | c in lib.cards && lib.cards[c].deck == d
  }

  function WithDeckDeleted(lib: Library, d: DeckId): Library {
    WithoutCards(lib, CardsOf(lib, d)).(decks := lib.decks - {d})
  }

  function WithDeckAdded(lib: Library, user: UserId, name: string,
                         description: Option<string>, tags: seq<string>): Library {
    lib.(decks := lib.decks[lib.nextDeck := Deck(user, name, description, tags, 0, 1, None)],
         nextDeck := lib.nextDeck + 1)
  }

  function WithDeckEdited(lib: Library, d: DeckId, edited: Deck): Library
    requires d in lib.decks
  {
    var deck := lib.decks[d];
    lib.(decks := lib.decks[d := edited.(version := deck.version + if edited != deck then 1 else 0)])
  }

  function WithCardAdded(lib: Library, d: DeckId, card: Card): Library
    requires d in lib.decks
  {
    var deck := lib.decks[d];
    lib.(cards := lib.cards[lib.nextCard := card],
         nextCard := lib.nextCard + 1,
         decks := lib.decks[d := deck.(cardCount := deck.cardCount + 1, version := deck.version + 1)])
  }

  function WithCardEdited(lib: Library, c: CardId, edited: Card): Library
    requires c in lib.cards && lib.cards[c].deck in lib.decks
  {
    var d := lib.cards[c].deck;
    var deck := lib.decks[d];
    lib.(cards := lib.cards[c := edited],
         decks := lib.decks[d := deck.(version := deck.version + if edited != lib.cards[c] then 1 else 0)])
  }

  function WithCardDeleted(lib: Library, c: CardId): Library
    requires c in lib.cards && lib.cards[c].deck in lib.decks
  {
    var d := lib.cards[c].deck;
    var deck := lib.decks[d];
    var count := Max(0, deck.cardCount - 1);
    WithoutCards(lib, {c}).(decks := lib.decks[d := deck.(cardCount := count, version := deck.version + 1)])
  }

  function MemoryOf(lib: Library, c: CardId, user: UserId): SR.Memory {
    if (c, user) in lib.memories then lib.memories[(c, user)] else SR.FRESH
  }

  /** The rows after the request, or the error it is answered with. */
  function Serve(t: Locale, db: Db, req: Request): Result<Db, ServiceError> {
    var lib := db.lib;
    match req
    case CreateDeck(user, name, description, tags) =>
      if NameTaken(t, lib, user, name, None) then Err(NameConflict)
      else Ok(db.(lib := WithDeckAdded(lib, user, name, description, tags)))
    case UpdateDeck(user, d, name, description, tags) =>
      if !Owns(lib, user, d) then Err(NoSuchDeck)
      else if name.Some? && name.value != lib.decks[d].name && NameTaken(t, lib, user, name.value, Some(d)) then
        Err(NameConflict)
      else Ok(db.(lib := WithDeckEdited(lib, d, EditedDeck(lib.decks[d], name, description, tags))))
    case DeleteDeck(user, d) =>
      if !Owns(lib, user, d) then Err(NoSuchDeck)
      else
        Ok(db.(lib := WithDeckDeleted(lib, d),
               jobs := map j | j in db.jobs && db.jobs[j].deck != d :: db.jobs[j]))
    case CreateCard(user, d, question, answer, sourceRef, tags, difficulty) =>
      if !Owns(lib, user, d) then Err(NoSuchDeck)
      else Ok(db.(lib := WithCardAdded(lib, d, Card(d, question, answer, sourceRef, tags, difficulty))))
    case UpdateCard(user, c, edit) =>
      if !OwnsCard(lib, user, c) then Err(NoSuchCard)
      else Ok(db.(lib := WithCardEdited(lib, c, EditedCard(lib.cards[c], edit))))
    case DeleteCard(user, c) =>
      if !OwnsCard(lib, user, c) then Err(NoSuchCard)
      else Ok(db.(lib := WithCardDeleted(lib, c)))
    case AnswerCard(user, c, score, now) =>
      if c !in lib.cards then Err(NoSuchCard)
      else Ok(db.(lib := lib.(memories := lib.memories[(c, user) := SR.Answered(MemoryOf(lib, c, user), score, now)])))
  }

  /** One request in its own transaction: an error, or a card that does not
      fit its columns, rolls everything back. */
  function Transact(t: Locale, db: Db, req: Request): Db {
    match Serve(t, db, req)
    case Ok(after) => if FitsColumns(after.lib) then after else db
    case Err(_) => db
  }

  /** Requests served one after the other. */
  function TransactAll(t: Locale, db: Db, reqs: seq<Request>): Db {
    if reqs == [] then db
    else Transact(t, TransactAll(t, db, reqs[..|reqs| - 1]), reqs[|reqs| - 1])
  }

  // ---------------------------------------------------------------------
  // The services
  // ---------------------------------------------------------------------

  method CreateDeckRow(t: Locale, db: Database, user: UserId, name: string,
                       description: Option<string>, tags: seq<string>)
    returns (r: Result<DeckId, ServiceError>)
    modifies db
    ensures db.committed == old(db.committed)
    ensures Serve(t, old(db.working), CreateDeck(user, name, description, tags)) ==
            if r.Ok? then Ok(db.working) else Err(r.error)
    ensures r.Err? ==> db.working == old(db.working)
    ensures r.Ok? ==> r.value == old(db.working).lib.nextDeck
  {
    var lib := db.working.lib;
    if NameTaken(t, lib, user, name, None) {
      return Err(NameConflict);
    }
    var id := lib.nextDeck;
    var deck := Deck(user, name, description, tags, 0, 1, None);
    db.working := db.working.(lib := lib.(decks := lib.decks[id := deck], nextDeck := id + 1));
    r := Ok(id);
  }

  method UpdateDeckRow(t: Locale, db: Database, user: UserId, d: DeckId, name: Option<string>,
                       description: Option<string>, tags: Option<seq<string>>)
    returns (r: Result<Deck, ServiceError>)
    modifies db
    ensures db.committed == old(db.committed)
    ensures Serve(t, old(db.working), UpdateDeck(user, d, name, description, tags)) ==
            if r.Ok? then Ok(db.working) else Err(r.error)
    ensures r.Err? ==> db.working == old(db.working)
  {
    var lib := db.working.lib;
    if !Owns(lib, user, d) {
      return Err(NoSuchDeck);
    }
    var deck := lib.decks[d];
    var changed := false;

    if name.Some? && name.value != deck.name {
      if NameTaken(t, lib, user, name.value, Some(d)) {
        return Err(NameConflict);
      }
      deck := deck.(name := name.value);
      changed := true;
    }
    if description.Some? && description != deck.description {
      deck := deck.(description := description);
      changed := true;
    }
    if tags.Some? && tags.value != deck.tags {
      deck := deck.(tags := tags.value);
      changed := true;
    }
    assert deck == EditedDeck(lib.decks[d], name, description, tags);
    assert changed <==> deck != lib.decks[d];
    if changed {
      deck := deck.(version := deck.version + 1);
    }
    db.working := db.working.(lib := lib.(decks := lib.decks[d := deck]));
    r := Ok(deck);
  }

  method DeleteDeckRow(t: Locale, db: Database, user: UserId, d: DeckId)
    returns (r: Result<(), ServiceError>)
    modifies db
    ensures db.committed == old(db.committed)
    ensures Serve(t, old(db.working), DeleteDeck(user, d)) ==
            if r.Ok? then Ok(db.working) else Err(r.error)
    ensures r.Err? ==> db.working == old(db.working)
  {
    var lib := db.working.lib;
    if !Owns(lib, user, d) {
      return Err(NoSuchDeck);
    }
    var cardIds := CardsOf(lib, d);
    if cardIds != {} {
      lib := lib.(memories := map k | k in lib.memories && k.0 !in cardIds :: lib.memories[k]);
      lib := lib.(cards := map c | c in lib.cards && c !in cardIds :: lib.cards[c]);
    } else {
      assert lib == WithoutCards(lib, cardIds);
    }
    lib := lib.(decks := lib.decks - {d});
    var jobs := db.working.jobs;
    db.working := db.working.(lib := lib, jobs := map j | j in jobs && jobs[j].deck != d :: jobs[j]);
    r := Ok(());
  }

  method CreateCardRow(t: Locale, db: Database, user: UserId, d: DeckId, question: string, answer: string,
                       sourceRef: Option<string>, tags: seq<string>, difficulty: int)
    returns (r: Result<CardId, ServiceError>)
    modifies db
    ensures db.committed == old(db.committed)
    ensures Serve(t, old(db.working), CreateCard(user, d, question, answer, sourceRef, tags, difficulty)) ==
            if r.Ok? then Ok(db.working) else Err(r.error)
    ensures r.Err? ==> db.working == old(db.working)
  {
    var lib := db.working.lib;
    if !Owns(lib, user, d) {
      return Err(NoSuchDeck);
    }
    var id := lib.nextCard;
    lib := lib.(cards := lib.cards[id := Card(d, question, answer, sourceRef, tags, difficulty)], nextCard := id + 1);
    var deck := lib.decks[d];
    deck := deck.(cardCount := deck.cardCount + 1);
    deck := deck.(version := deck.version + 1);
    db.working := db.working.(lib := lib.(decks := lib.decks[d := deck]));
    r := Ok(id);
  }

  method UpdateCardRow(t: Locale, db: Database, user: UserId, c: CardId, e: CardEdit)
    returns (r: Result<Card, ServiceError>)
    modifies db
    ensures db.committed == old(db.committed)
    ensures Serve(t, old(db.working), UpdateCard(user, c, e)) ==
            if r.Ok? then Ok(db.working) else Err(r.error)
    ensures r.Err? ==> db.working == old(db.working)
  {
    var lib := db.working.lib;
    if !OwnsCard(lib, user, c) {
      return Err(NoSuchCard);
    }
    var card := lib.cards[c];
    var deck := lib.decks[card.deck];
    var changed := false;

    if e.question.Some? && e.question.value != card.question {
      card := card.(question := e.question.value);
      changed := true;
    }
    if e.answer.Some? && e.answer.value != card.answer {
      card := card.(answer := e.answer.value);
      changed := true;
    }
    if e.sourceRefSet && e.sourceRef != card.sourceRef {
      card := card.(sourceRef := e.sourceRef);
      changed := true;
    }
    if e.tags.Some? && e.tags.value != card.tags {
      card := card.(tags := e.tags.value);
      changed := true;
    }
    if e.difficulty.Some? && e.difficulty.value != card.difficulty {
      card := card.(difficulty := e.difficulty.value);
      changed := true;
    }
    assert card == EditedCard(lib.cards[c], e);
    assert changed <==> card != lib.cards[c];
    if changed {
      deck := deck.(version := deck.version + 1);
    }
    db.working := db.working.(lib := lib.(cards := lib.cards[c := card], decks := lib.decks[card.deck := deck]));
    r := Ok(card);
  }

  method DeleteCardRow(t: Locale, db: Database, user: UserId, c: CardId)
    returns (r: Result<(), ServiceError>)
    modifies db
    ensures db.committed == old(db.committed)
    ensures Serve(t, old(db.working), DeleteCard(user, c)) ==
            if r.Ok? then Ok(db.working) else Err(r.error)
    ensures r.Err? ==> db.working == old(db.working)
  {
    var lib := db.working.lib;
    if !OwnsCard(lib, user, c) {
      return Err(NoSuchCard);
    }
    var d := lib.cards[c].deck;
    lib := WithoutCards(lib, {c});
    var deck := lib.decks[d];
    deck := deck.(cardCount := Max(0, deck.cardCount - 1));
    deck := deck.(version := deck.version + 1);
    db.working := db.working.(lib := lib.(decks := lib.decks[d := deck]));
    r := Ok(());
  }

  // ---------------------------------------------------------------------
  // What every request keeps
  // ---------------------------------------------------------------------

  /** Nothing of deck d differs between the two states. */
  ghost predicate SameDeck(a: Library, b: Library, d: DeckId) {
    && d in a.decks && d in b.decks && a.decks[d] == b.decks[d]
    && DeckCards(a, d) == DeckCards(b, d)
    && forall c :: c in DeckCards(a, d) ==> a.cards[c] == b.cards[c]
  }

  lemma SameDeckHasNoChanges(a: Library, b: Library, d: DeckId)
    requires SameDeck(a, b, d)
    ensures Changes(a, b, d) == 0
  {
    assert Created(a, b, d) == {} && Created(b, a, d) == {} && Edited(a, b, d) == {};
  }

  /** The two states agree on every deck but d and on the cards outside d. */
  ghost predicate AgreeOutside(a: Library, b: Library, d: DeckId) {
    && (forall e :: e in a.decks && e != d ==> e in b.decks && b.decks[e] == a.decks[e])
    && (forall c :: c in a.cards && a.cards[c].deck != d ==> c in b.cards && b.cards[c] == a.cards[c])
    && (forall c :: c in b.cards && b.cards[c].deck != d ==> c in a.cards && a.cards[c] == b.cards[c])
  }

  lemma OtherDecksSame(a: Library, b: Library, d: DeckId)
    requires AgreeOutside(a, b, d)
    ensures forall e :: e in a.decks && e != d ==> SameDeck(a, b, e)
  {
    forall e | e in a.decks && e != d
      ensures SameDeck(a, b, e)
    {
      assert DeckCards(a, e) == DeckCards(b, e);
    }
  }

  /** Counting what changed in a deck that lost some cards, gained some and
      kept the others as they were. */
  lemma CountChanges(a: Library, b: Library, d: DeckId, gone: set<CardId>, added: set<CardId>)
    requires d in a.decks && d in b.decks && Attributes(a.decks[d]) == Attributes(b.decks[d])
    requires gone <= DeckCards(a, d) && added <= DeckCards(b, d) && added !! DeckCards(a, d)
    requires forall c :: c in DeckCards(b, d) <==> c in added || (c in DeckCards(a, d) && c !in gone)
    requires forall c :: c in DeckCards(a, d) && c in DeckCards(b, d) ==> a.cards[c] == b.cards[c]
    ensures Changes(a, b, d) == |gone| + |added|
  {
    assert Created(a, b, d) == added && Created(b, a, d) == gone && Edited(a, b, d) == {};
  }

  /** The laws of one step, given that only deck d was touched. */
  lemma OneDeckTouched(t: Locale, a: Library, b: Library, d: DeckId)
    requires LibraryInv(t, a) && References(b) && FitsColumns(b) && NamesDistinct(t, b)
    requires a.nextDeck == b.nextDeck && a.decks.Keys == b.decks.Keys && d in a.decks
    requires forall e :: e in a.decks && e != d ==> SameDeck(a, b, e)
    requires b.decks[d].version == a.decks[d].version + Changes(a, b, d)
    requires b.decks[d].cardCount == |DeckCards(b, d)|
    ensures LibraryInv(t, b) && VersionLaw(a, b)
  {
    forall e | e in a.decks && e != d
      ensures b.decks[e].version == a.decks[e].version + Changes(a, b, e)
      ensures b.decks[e].cardCount == |DeckCards(b, e)|
    {
      SameDeckHasNoChanges(a, b, e);
    }
  }

  /** The same when the deck keeps its owner and name. */
  lemma OneDeckUpdated(t: Locale, a: Library, b: Library, d: DeckId)
    requires LibraryInv(t, a) && References(b) && FitsColumns(b)
    requires a.nextDeck == b.nextDeck && a.decks.Keys == b.decks.Keys && d in a.decks
    requires b.decks[d].user == a.decks[d].user && b.decks[d].name == a.decks[d].name
    requires forall e :: e in a.decks && e != d ==> SameDeck(a, b, e)
    requires b.decks[d].version == a.decks[d].version + Changes(a, b, d)
    requires b.decks[d].cardCount == |DeckCards(b, d)|
    ensures LibraryInv(t, b) && VersionLaw(a, b)
  {
    NamesKept(t, a, b);
    OneDeckTouched(t, a, b, d);
  }

  lemma NamesKept(t: Locale, a: Library, b: Library)
    requires NamesDistinct(t, a)
    requires forall d :: d in b.decks ==>
      d in a.decks && a.decks[d].user == b.decks[d].user && a.decks[d].name == b.decks[d].name
    ensures NamesDistinct(t, b)
  {
  }

  lemma DeckAddedKeepsLaws(t: Locale, a: Library, user: UserId, name: string,
                           description: Option<string>, tags: seq<string>)
    requires LibraryInv(t, a) && !NameTaken(t, a, user, name, None)
    ensures var b := WithDeckAdded(a, user, name, description, tags);
      LibraryInv(t, b) && VersionLaw(a, b)
  {
    var b := WithDeckAdded(a, user, name, description, tags);
    assert DeckCards(b, a.nextDeck) == {};
    forall e | e in a.decks
      ensures b.decks[e].version == a.decks[e].version + Changes(a, b, e)
      ensures b.decks[e].cardCount == |DeckCards(b, e)|
    {
      assert DeckCards(a, e) == DeckCards(b, e);
      SameDeckHasNoChanges(a, b, e);
    }
  }

  lemma DeckEditedKeepsLaws(t: Locale, a: Library, user: UserId, d: DeckId, name: Option<string>,
                            description: Option<string>, tags: Option<seq<string>>)
    requires LibraryInv(t, a) && Owns(a, user, d)
    requires name.Some? && name.value != a.decks[d].name ==> !NameTaken(t, a, user, name.value, Some(d))
    ensures var b := WithDeckEdited(a, d, EditedDeck(a.decks[d], name, description, tags));
      LibraryInv(t, b) && VersionLaw(a, b)
  {
    var b := WithDeckEdited(a, d, EditedDeck(a.decks[d], name, description, tags));
    forall e | e in a.decks
      ensures DeckCards(a, e) == DeckCards(b, e)
    {
    }
    assert Created(a, b, d) == {} && Created(b, a, d) == {} && Edited(a, b, d) == {};
    OneDeckTouched(t, a, b, d);
  }

  lemma CardAddedKeepsReferences(a: Library, d: DeckId, card: Card)
    requires References(a) && d in a.decks && card.deck == d
    ensures References(WithCardAdded(a, d, card))
    ensures AgreeOutside(a, WithCardAdded(a, d, card), d)
  {
  }

  lemma CardAddedToDeck(a: Library, d: DeckId, card: Card)
    requires References(a) && d in a.decks && card.deck == d
    ensures var b := WithCardAdded(a, d, card);
      && DeckCards(b, d) == DeckCards(a, d) + {a.nextCard} && a.nextCard !in DeckCards(a, d)
      && forall c :: c in DeckCards(a, d) ==> b.cards[c] == a.cards[c]
  {
    assert DeckCards(WithCardAdded(a, d, card), d) == DeckCards(a, d) + {a.nextCard};
  }

  lemma CardAddedEffect(a: Library, d: DeckId, card: Card)
    requires References(a) && d in a.decks && card.deck == d
    ensures var b := WithCardAdded(a, d, card);
      && References(b)
      && DeckCards(b, d) == DeckCards(a, d) + {a.nextCard} && a.nextCard !in DeckCards(a, d)
      && Changes(a, b, d) == 1
      && forall e :: e in a.decks && e != d ==> SameDeck(a, b, e)
  {
    var b := WithCardAdded(a, d, card);
    CardAddedKeepsReferences(a, d, card);
    CardAddedToDeck(a, d, card);
    CountChanges(a, b, d, {}, {a.nextCard});
    OtherDecksSame(a, b, d);
  }

  lemma CardAddedKeepsLaws(t: Locale, a: Library, d: DeckId, card: Card)
    requires LibraryInv(t, a) && d in a.decks && card.deck == d
    requires Fits((card.question, card.answer))
    ensures var b := WithCardAdded(a, d, card); LibraryInv(t, b) && VersionLaw(a, b)
  {
    CardAddedEffect(a, d, card);
    OneDeckUpdated(t, a, WithCardAdded(a, d, card), d);
  }

  lemma CardEditedEffect(a: Library, c: CardId, card: Card)
    requires References(a) && c in a.cards && card.deck == a.cards[c].deck
    ensures var b := WithCardEdited(a, c, card);
      && References(b)
      && DeckCards(b, card.deck) == DeckCards(a, card.deck)
      && Changes(a, b, card.deck) == (if card != a.cards[c] then 1 else 0)
      && forall e :: e in a.decks && e != card.deck ==> SameDeck(a, b, e)
  {
    var b := WithCardEdited(a, c, card);
    var d := card.deck;
    forall e | e in a.decks
      ensures DeckCards(a, e) == DeckCards(b, e)
    {
    }
    assert Created(a, b, d) == {} && Created(b, a, d) == {};
    assert Edited(a, b, d) == if card != a.cards[c] then {c} else {};
  }

  lemma CardEditedKeepsLaws(t: Locale, a: Library, c: CardId, card: Card)
    requires LibraryInv(t, a) && c in a.cards && card.deck == a.cards[c].deck
    requires Fits((card.question, card.answer))
    ensures var b := WithCardEdited(a, c, card); LibraryInv(t, b) && VersionLaw(a, b)
  {
    CardEditedEffect(a, c, card);
    OneDeckUpdated(t, a, WithCardEdited(a, c, card), card.deck);
  }

  /** The card being deleted is counted, so the clamp at zero is never taken. */
  lemma ClampNeverTaken(t: Locale, a: Library, c: CardId)
    requires LibraryInv(t, a) && c in a.cards
    ensures a.cards[c].deck in a.decks
    ensures a.decks[a.cards[c].deck].cardCount >= 1
    ensures Max(0, a.decks[a.cards[c].deck].cardCount - 1) == |DeckCards(a, a.cards[c].deck) - {c}|
  {
    assert c in DeckCards(a, a.cards[c].deck);
  }

  lemma CardDeletedEffect(a: Library, c: CardId)
    requires References(a) && c in a.cards
    ensures var b, d := WithCardDeleted(a, c), a.cards[c].deck;
      && References(b)
      && DeckCards(b, d) == DeckCards(a, d) - {c}
      && Changes(a, b, d) == 1
      && forall e :: e in a.decks && e != d ==> SameDeck(a, b, e)
  {
    var b, d := WithCardDeleted(a, c), a.cards[c].deck;
    assert DeckCards(b, d) == DeckCards(a, d) - {c};
    CountChanges(a, b, d, {c}, {});
    OtherDecksSame(a, b, d);
  }

  lemma CardDeletedKeepsLaws(t: Locale, a: Library, c: CardId)
    requires LibraryInv(t, a) && c in a.cards
    ensures var b := WithCardDeleted(a, c); LibraryInv(t, b) && VersionLaw(a, b)
  {
    ClampNeverTaken(t, a, c);
    CardDeletedEffect(a, c);
    OneDeckUpdated(t, a, WithCardDeleted(a, c), a.cards[c].deck);
  }

  lemma DeckDeletedEffect(a: Library, d: DeckId)
    requires References(a) && d in a.decks
    ensures var b := WithDeckDeleted(a, d);
      References(b) && forall e :: e in b.decks ==> e in a.decks && e != d && SameDeck(a, b, e)
  {
    var b := WithDeckDeleted(a, d);
    forall e | e in b.decks
      ensures SameDeck(a, b, e)
    {
      assert DeckCards(a, e) == DeckCards(b, e);
    }
  }

  lemma DeckDeletedKeepsLaws(t: Locale, a: Library, d: DeckId)
    requires LibraryInv(t, a) && d in a.decks
    ensures var b := WithDeckDeleted(a, d); LibraryInv(t, b) && VersionLaw(a, b)
  {
    var b := WithDeckDeleted(a, d);
    DeckDeletedEffect(a, d);
    NamesKept(t, a, b);
    forall e | e in b.decks
      ensures b.decks[e].version == a.decks[e].version + Changes(a, b, e)
      ensures b.decks[e].cardCount == |DeckCards(b, e)|
    {
      SameDeckHasNoChanges(a, b, e);
    }
  }

  lemma DeckRequestKeepsLaws(t: Locale, db: Db, req: Request, after: Db)
    requires DbInv(t, db) && Serve(t, db, req) == Ok(after)
    requires req.CreateDeck? || req.UpdateDeck? || req.DeleteDeck?
    ensures LibraryInv(t, after.lib) && VersionLaw(db.lib, after.lib)
  {
    match req
    case CreateDeck(user, name, description, tags) =>
      DeckAddedKeepsLaws(t, db.lib, user, name, description, tags);
    case UpdateDeck(user, d, name, description, tags) =>
      DeckEditedKeepsLaws(t, db.lib, user, d, name, description, tags);
    case DeleteDeck(user, d) =>
      DeckDeletedKeepsLaws(t, db.lib, d);
  }

  lemma CardRequestKeepsLaws(t: Locale, db: Db, req: Request, after: Db)
    requires DbInv(t, db) && Serve(t, db, req) == Ok(after) && FitsColumns(after.lib)
    requires req.CreateCard? || req.UpdateCard? || req.DeleteCard? || req.AnswerCard?
    ensures LibraryInv(t, after.lib) && VersionLaw(db.lib, after.lib)
  {
    match req
    case CreateCard(user, d, question, answer, sourceRef, tags, difficulty) =>
      assert db.lib.nextCard in after.lib.cards;
      CardAddedKeepsLaws(t, db.lib, d, Card(d, question, answer, sourceRef, tags, difficulty));
    case UpdateCard(user, c, edit) =>
      assert c in after.lib.cards;
      CardEditedKeepsLaws(t, db.lib, c, EditedCard(db.lib.cards[c], edit));
    case DeleteCard(user, c) =>
      CardDeletedKeepsLaws(t, db.lib, c);
    case AnswerCard(user, c, score, now) =>
      MemoriesDoNotMatter(t, db.lib, after.lib);
  }

  lemma RequestKeepsJobs(t: Locale, db: Db, req: Request, after: Db)
    requires JobsInv(db) && Serve(t, db, req) == Ok(after)
    ensures JobsInv(after)
  {
  }

  /** Any request keeps the invariants, and each deck's version moves by the
      number of things that changed in that deck. */
  lemma {:induction false} RequestKeepsLaws(t: Locale, db: Db, req: Request)
    requires DbInv(t, db)
    ensures var after := Transact(t, db, req);
      DbInv(t, after) && VersionLaw(db.lib, after.lib)
  {
    var after := Transact(t, db, req);
    if Serve(t, db, req) == Ok(after) {
      RequestKeepsJobs(t, db, req, after);
      if FitsColumns(after.lib) {
        if req.CreateDeck? || req.UpdateDeck? || req.DeleteDeck? {
          DeckRequestKeepsLaws(t, db, req, after);
        } else {
          CardRequestKeepsLaws(t, db, req, after);
        }
      }
    } else {
      UnchangedKeepsLaws(db.lib);
    }
  }

  lemma AddThenDelete(a: Library, d: DeckId, card: Card)
    requires References(a) && d in a.decks && a.decks[d].cardCount >= 0 && card.deck == d
    ensures WithCardDeleted(WithCardAdded(a, d, card), a.nextCard) ==
      a.(decks := a.decks[d := a.decks[d].(version := a.decks[d].version + 2)], nextCard := a.nextCard + 1)
  {
    var made := WithCardAdded(a, d, card);
    var after := WithCardDeleted(made, a.nextCard);
    assert after.cards == a.cards;
    assert after.memories == a.memories;
    assert after.decks == a.decks[d := a.decks[d].(version := a.decks[d].version + 2)];
  }

  /** Deleting a card just created undoes the creation, except that the
      identifier is spent and the version has moved twice. */
  lemma CreateThenDeleteRestores(t: Locale, db: Db, req: Request)
    requires DbInv(t, db) && req.CreateCard? && Owns(db.lib, req.user, req.deck)
    ensures var made := Serve(t, db, req);
      && made.Ok?
      && var lib, deck := db.lib, db.lib.decks[req.deck];
         Serve(t, made.value, DeleteCard(req.user, lib.nextCard)) ==
           Ok(db.(lib := lib.(decks := lib.decks[req.deck := deck.(version := deck.version + 2)],
                              nextCard := lib.nextCard + 1)))
  {
    var card := Card(req.deck, req.question, req.answer, req.sourceRef, req.tags, req.difficulty);
    AddThenDelete(db.lib, req.deck, card);
    assert Serve(t, db, req) == Ok(db.(lib := WithCardAdded(db.lib, req.deck, card)));
  }

  /** Sending the same edit again succeeds and changes nothing, not even the
      version. */
  lemma EditAgainChangesNothing(t: Locale, db: Db, req: Request)
    requires (req.UpdateDeck? || req.UpdateCard?) && Serve(t, db, req).Ok?
    ensures Serve(t, Serve(t, db, req).value, req) == Serve(t, db, req)
  {
    var after := Serve(t, db, req).value;
    if req.UpdateDeck? {
      var deck := after.lib.decks[req.deck];
      assert EditedDeck(deck, req.newName, req.newDescription, req.newTags) == deck;
      assert after.lib.decks[req.deck := deck] == after.lib.decks;
    } else {
      var card := after.lib.cards[req.card];
      assert EditedCard(card, req.edit) == card;
      assert after.lib.cards[req.card := card] == after.lib.cards;
      var deck := after.lib.decks[card.deck];
      assert after.lib.decks[card.deck := deck] == after.lib.decks;
    }
  }

  lemma UnchangedKeepsLaws(a: Library)
    ensures VersionLaw(a, a)
  {
    forall e | e in a.decks
      ensures Changes(a, a, e) == 0
    {
      SameDeckHasNoChanges(a, a, e);
    }
  }

  lemma MemoriesDoNotMatter(t: Locale, a: Library, b: Library)
    requires LibraryInv(t, a)
    requires b == a.(memories := b.memories)
    requires forall k :: k in b.memories ==> k.0 in b.cards
    ensures LibraryInv(t, b) && VersionLaw(a, b)
  {
    forall e | e in a.decks
      ensures SameDeck(a, b, e)
    {
      assert DeckCards(a, e) == DeckCards(b, e);
    }
    forall e | e in a.decks
      ensures b.decks[e].version == a.decks[e].version + Changes(a, b, e)
      ensures b.decks[e].cardCount == |DeckCards(b, e)|
    {
      SameDeckHasNoChanges(a, b, e);
    }
  }

  // ---------------------------------------------------------------------
  // What requests leave of jobs and of other decks
  // ---------------------------------------------------------------------

  /** Jobs only disappear, and those left have the same record and an owner
      of the deck who is as before. */
  ghost predicate JobsSurvive(a: Db, b: Db) {
    && b.nextJob == a.nextJob
    && forall j :: j in b.jobs ==>
         && j in a.jobs && b.jobs[j] == a.jobs[j]
         && (Owns(b.lib, b.jobs[j].user, b.jobs[j].deck) <==> Owns(a.lib, a.jobs[j].user, a.jobs[j].deck))
  }

  /** The request deletes the deck, on behalf of its owner. */
  predicate Deletes(lib: Library, req: Request, d: DeckId) {
    req.DeleteDeck? && req.deck == d && Owns(lib, req.user, d)
  }

  lemma RequestKeepsOwners(t: Locale, db: Db, req: Request, d: DeckId)
    requires DbInv(t, db) && d in db.lib.decks
    ensures var lib := Transact(t, db, req).lib;
      && (d in lib.decks <==> !Deletes(db.lib, req, d))
      && (d in lib.decks ==> lib.decks[d].user == db.lib.decks[d].user)
  {
    if req.DeleteDeck? && Owns(db.lib, req.user, req.deck) {
      assert FitsColumns(WithDeckDeleted(db.lib, req.deck));
    }
  }

  lemma RequestOnJobs(t: Locale, db: Db, req: Request)
    requires DbInv(t, db)
    ensures JobsSurvive(db, Transact(t, db, req))
  {
    forall d | d in db.lib.decks
      ensures d in Transact(t, db, req).lib.decks <==> !Deletes(db.lib, req, d)
      ensures d in Transact(t, db, req).lib.decks ==>
        Transact(t, db, req).lib.decks[d].user == db.lib.decks[d].user
    {
      RequestKeepsOwners(t, db, req, d);
    }
    RequestJobRows(t, db, req);
  }

  lemma RequestJobRows(t: Locale, db: Db, req: Request)
    requires DbInv(t, db)
    ensures var after := Transact(t, db, req);
      && after.nextJob == db.nextJob
      && (forall j :: j in after.jobs <==> j in db.jobs && !Deletes(db.lib, req, db.jobs[j].deck))
      && (forall j :: j in after.jobs ==> after.jobs[j] == db.jobs[j])
  {
    if req.DeleteDeck? {
      if Owns(db.lib, req.user, req.deck) {
        assert FitsColumns(WithDeckDeleted(db.lib, req.deck));
      }
    } else {
      OtherRequestsKeepJobs(t, db, req);
    }
  }

  lemma OtherRequestsKeepJobs(t: Locale, db: Db, req: Request)
    requires !req.DeleteDeck?
    ensures Transact(t, db, req).jobs == db.jobs && Transact(t, db, req).nextJob == db.nextJob
  {
  }

  lemma SurvivalIsTransitive(a: Db, b: Db, c: Db)
    requires JobsSurvive(a, b) && JobsSurvive(b, c)
    ensures JobsSurvive(a, c)
  {
  }

  /** A deck that is still there has the owner it had. */
  lemma {:induction false} RequestsOnDeck(t: Locale, db: Db, reqs: seq<Request>, d: DeckId)
    requires DbInv(t, db) && d in db.lib.decks
    ensures var after := TransactAll(t, db, reqs);
      && DbInv(t, after)
      && after.lib.nextDeck >= db.lib.nextDeck
      && (d in after.lib.decks ==> after.lib.decks[d].user == db.lib.decks[d].user)
  {
    if reqs != [] {
      var before := TransactAll(t, db, reqs[..|reqs| - 1]);
      RequestsOnDeck(t, db, reqs[..|reqs| - 1], d);
      RequestKeepsLaws(t, before, reqs[|reqs| - 1]);
      if d in before.lib.decks {
        RequestKeepsOwners(t, before, reqs[|reqs| - 1], d);
      }
    }
  }

  lemma {:induction false} RequestsKeepJobs(t: Locale, db: Db, reqs: seq<Request>)
    requires DbInv(t, db)
    ensures DbInv(t, TransactAll(t, db, reqs)) && JobsSurvive(db, TransactAll(t, db, reqs))
  {
    if reqs != [] {
      var before := TransactAll(t, db, reqs[..|reqs| - 1]);
      RequestsKeepJobs(t, db, reqs[..|reqs| - 1]);
      RequestKeepsLaws(t, before, reqs[|reqs| - 1]);
      RequestOnJobs(t, before, reqs[|reqs| - 1]);
      SurvivalIsTransitive(db, before, TransactAll(t, db, reqs));
    }
  }

  ghost predicate DeletedBy(lib: Library, reqs: seq<Request>, d: DeckId) {
    exists i :: 0 <= i < |reqs| && Deletes(lib, reqs[i], d)
  }

  lemma DeletedByLast(lib: Library, reqs: seq<Request>, d: DeckId)
    requires reqs != []
    ensures DeletedBy(lib, reqs, d) <==>
      DeletedBy(lib, reqs[..|reqs| - 1], d) || Deletes(lib, reqs[|reqs| - 1], d)
  {
    var before := reqs[..|reqs| - 1];
    assert forall i :: 0 <= i < |before| ==> before[i] == reqs[i];
  }

  lemma JobThroughRequest(t: Locale, start: Db, db: Db, req: Request, j: JobId)
    requires DbInv(t, db) && j in start.jobs && start.jobs[j].deck in start.lib.decks
    requires j in db.jobs ==>
      db.jobs[j] == start.jobs[j]
      && (db.jobs[j].deck in db.lib.decks ==>
            db.lib.decks[db.jobs[j].deck].user == start.lib.decks[start.jobs[j].deck].user)
    ensures j in Transact(t, db, req).jobs <==> j in db.jobs && !Deletes(start.lib, req, start.jobs[j].deck)
  {
    RequestJobRows(t, db, req);
  }

  /** Over a run of requests a job disappears exactly when one of them deletes
      its deck on behalf of the owner. */
  lemma {:induction false} RequestsOnJob(t: Locale, db: Db, reqs: seq<Request>, j: JobId)
    requires DbInv(t, db) && j in db.jobs
    ensures j in TransactAll(t, db, reqs).jobs <==> !DeletedBy(db.lib, reqs, db.jobs[j].deck)
  {
    if reqs != [] {
      var last := |reqs| - 1;
      RequestsOnJob(t, db, reqs[..last], j);
      RequestsKeepJobs(t, db, reqs[..last]);
      RequestsOnDeck(t, db, reqs[..last], db.jobs[j].deck);
      JobThroughRequest(t, db, TransactAll(t, db, reqs[..last]), reqs[last], j);
      DeletedByLast(db.lib, reqs, db.jobs[j].deck);
    }
  }

  /** The request reads or writes rows of deck d. */
  predicate Touches(lib: Library, req: Request, d: DeckId) {
    match req
    case CreateDeck(_, _, _, _) => false
    case UpdateDeck(_, e, _, _, _) => e == d
    case DeleteDeck(_, e) => e == d
    case CreateCard(_, e, _, _, _, _, _) => e == d
    case UpdateCard(_, c, _) => c in lib.cards && lib.cards[c].deck == d
    case DeleteCard(_, c) => c in lib.cards && lib.cards[c].deck == d
    case AnswerCard(_, c, _, _) => c in lib.cards && lib.cards[c].deck == d
  }

  lemma UntouchedDeckSame(t: Locale, db: Db, req: Request, d: DeckId)
    requires DbInv(t, db) && d in db.lib.decks && !Touches(db.lib, req, d)
    ensures SameDeck(db.lib, Transact(t, db, req).lib, d)
  {
    var a, b := db.lib, Transact(t, db, req).lib;
    if b != a {
      match req
      case CreateDeck(user, name, description, tags) =>
        assert DeckCards(a, d) == DeckCards(b, d);
      case UpdateDeck(user, e, name, description, tags) =>
        assert DeckCards(a, d) == DeckCards(b, d);
      case DeleteDeck(user, e) =>
        DeckDeletedEffect(a, e);
      case CreateCard(user, e, question, answer, sourceRef, tags, difficulty) =>
        CardAddedEffect(a, e, Card(e, question, answer, sourceRef, tags, difficulty));
      case UpdateCard(user, c, edit) =>
        CardEditedEffect(a, c, EditedCard(a.cards[c], edit));
      case DeleteCard(user, c) =>
        CardDeletedEffect(a, c);
      case AnswerCard(user, c, score, now) =>
        assert DeckCards(a, d) == DeckCards(b, d);
    }
  }

  // ---------------------------------------------------------------------
  // What requests do, and what they leave alone
  // ---------------------------------------------------------------------

  ghost predicate NameFree(t: Locale, lib: Library, user: UserId, name: string) {
    forall d :: d in lib.decks && lib.decks[d].user == user ==> t.lower(lib.decks[d].name) != t.lower(name)
  }

  /** No other deck of the owner has the new name of deck d. */
  ghost predicate NameFreeBut(t: Locale, lib: Library, name: string, d: DeckId)
    requires d in lib.decks
  {
    forall e :: e in lib.decks && e != d && lib.decks[e].user == lib.decks[d].user
      ==> t.lower(lib.decks[e].name) != t.lower(name)
  }

  ghost predicate OwnDeck(lib: Library, user: UserId, d: DeckId) {
    d in lib.decks && lib.decks[d].user == user
  }

  /** Requests for one's own decks and cards succeed, except those that would
      give two decks of a user names that differ in letter case only. */
  lemma RequestSucceedsExactly(t: Locale, db: Db, req: Request)
    ensures var lib := db.lib;
      Serve(t, db, req).Ok? <==>
        match req
        case CreateDeck(user, name, _, _) => NameFree(t, lib, user, name)
        case UpdateDeck(user, d, name, _, _) =>
          OwnDeck(lib, user, d)
          && (name.Some? && name.value != lib.decks[d].name ==> NameFreeBut(t, lib, name.value, d))
        case DeleteDeck(user, d) => OwnDeck(lib, user, d)
        case CreateCard(user, d, _, _, _, _, _) => OwnDeck(lib, user, d)
        case UpdateCard(user, c, _) => c in lib.cards && OwnDeck(lib, user, lib.cards[c].deck)
        case DeleteCard(user, c) => c in lib.cards && OwnDeck(lib, user, lib.cards[c].deck)
        case AnswerCard(_, c, _, _) => c in lib.cards
    ensures Serve(t, db, req).Err? ==>
      (Serve(t, db, req).error == NameConflict <==>
         req.CreateDeck? || (req.UpdateDeck? && OwnDeck(db.lib, req.user, req.deck)))
  {
  }

  /** The texts the request would give a card fit their columns. */
  ghost predicate TextsFit(lib: Library, req: Request) {
    && (req.CreateCard? ==> |req.question| <= 1000 && |req.answer| <= 2000)
    && (req.UpdateCard? && req.edit.question.Some? ==> |req.edit.question.value| <= 1000)
    && (req.UpdateCard? && req.edit.answer.Some? ==> |req.edit.answer.value| <= 2000)
  }

  /** A request takes effect exactly when it succeeds and its texts fit; any
      other leaves the database alone. */
  lemma TakesEffectExactly(t: Locale, db: Db, req: Request)
    requires DbInv(t, db)
    ensures Transact(t, db, req) ==
      if Serve(t, db, req).Ok? && TextsFit(db.lib, req) then Serve(t, db, req).value else db
  {
    if Serve(t, db, req).Ok? {
      var after := Serve(t, db, req).value.lib;
      if req.CreateCard? {
        assert after.cards[db.lib.nextCard] == Card(req.deck, req.question, req.answer, req.sourceRef, req.tags,
                                                    req.difficulty);
      } else if req.UpdateCard? {
        assert after.cards[req.card] == EditedCard(db.lib.cards[req.card], req.edit);
      }
    }
  }

  /** What a reader finds in a deck just created or edited, field by field. */
  lemma DeckReads(t: Locale, db: Db, req: Request)
    requires Serve(t, db, req).Ok? && (req.CreateDeck? || req.UpdateDeck?)
    ensures var after := Serve(t, db, req).value.lib;
      if req.CreateDeck? then
        && db.lib.nextDeck in after.decks && after.nextDeck == db.lib.nextDeck + 1
        && var deck := after.decks[db.lib.nextDeck];
           && deck.user == req.user && deck.name == req.name && deck.description == req.description
           && deck.tags == req.tags && deck.cardCount == 0 && deck.version == 1 && deck.sourceFile.None?
      else
        && req.deck in db.lib.decks && req.deck in after.decks
        && var was, deck := db.lib.decks[req.deck], after.decks[req.deck];
           && deck.name == (if req.newName.Some? then req.newName.value else was.name)
           && deck.description == (if req.newDescription.Some? then req.newDescription else was.description)
           && deck.tags == (if req.newTags.Some? then req.newTags.value else was.tags)
           && deck.user == was.user && deck.cardCount == was.cardCount && deck.sourceFile == was.sourceFile
  {
  }

  /** And in a card. */
  lemma CardReads(t: Locale, db: Db, req: Request)
    requires Serve(t, db, req).Ok? && (req.CreateCard? || req.UpdateCard?)
    ensures var after := Serve(t, db, req).value.lib;
      if req.CreateCard? then
        && db.lib.nextCard in after.cards && after.nextCard == db.lib.nextCard + 1
        && var card := after.cards[db.lib.nextCard];
           && card.deck == req.deck && card.question == req.question && card.answer == req.answer
           && card.sourceRef == req.sourceRef && card.tags == req.tags && card.difficulty == req.difficulty
      else
        && req.card in db.lib.cards && req.card in after.cards
        && var was, card, edit := db.lib.cards[req.card], after.cards[req.card], req.edit;
           && card.question == (if edit.question.Some? then edit.question.value else was.question)
           && card.answer == (if edit.answer.Some? then edit.answer.value else was.answer)
           && card.sourceRef == (if edit.sourceRefSet then edit.sourceRef else was.sourceRef)
           && card.tags == (if edit.tags.Some? then edit.tags.value else was.tags)
           && card.difficulty == (if edit.difficulty.Some? then edit.difficulty.value else was.difficulty)
           && card.deck == was.deck
  {
  }

  ghost predicate SameMemory(a: Library, b: Library, c: CardId, user: UserId) {
    if (c, user) in a.memories then (c, user) in b.memories && b.memories[(c, user)] == a.memories[(c, user)]
    else (c, user) !in b.memories
  }

  /** Cards that stay keep their memory states, apart from that of the answered
      card and user; cards that go lose them, and new ones have none. */
  ghost predicate MemoryLaw(a: Library, b: Library, answered: set<(CardId, UserId)>) {
    && a.nextCard <= b.nextCard
    && (forall k :: k in b.memories ==> k.0 in b.cards)
    && (forall c, user: UserId :: c in a.cards && c in b.cards && (c, user) !in answered ==> SameMemory(a, b, c, user))
    && (forall c :: c in b.cards && c !in a.cards ==> a.nextCard <= c)
    && (forall c, user: UserId :: c in b.cards && c !in a.cards ==> (c, user) !in b.memories)
  }

  lemma RequestKeepsMemories(t: Locale, db: Db, req: Request)
    requires DbInv(t, db)
    ensures MemoryLaw(db.lib, Transact(t, db, req).lib, if req.AnswerCard? then {(req.card, req.user)} else {})
  {
    if req.DeleteDeck? || req.DeleteCard? {
      DeletionKeepsMemories(t, db, req);
    } else if req.AnswerCard? {
      AnswerKeepsMemories(t, db, req);
    } else {
      EditKeepsMemories(t, db, req);
    }
  }

  lemma DeletionKeepsMemories(t: Locale, db: Db, req: Request)
    requires DbInv(t, db) && (req.DeleteDeck? || req.DeleteCard?)
    ensures MemoryLaw(db.lib, Transact(t, db, req).lib, {})
  {
  }

  lemma AnswerKeepsMemories(t: Locale, db: Db, req: Request)
    requires DbInv(t, db) && req.AnswerCard?
    ensures MemoryLaw(db.lib, Transact(t, db, req).lib, {(req.card, req.user)})
  {
  }

  lemma EditKeepsMemories(t: Locale, db: Db, req: Request)
    requires DbInv(t, db) && (req.CreateDeck? || req.UpdateDeck? || req.CreateCard? || req.UpdateCard?)
    ensures MemoryLaw(db.lib, Transact(t, db, req).lib, {})
  {
    assert Transact(t, db, req).lib.memories == db.lib.memories;
  }

  /** An answer becomes one more review of that card by that user. */
  lemma AnswerIsReview(t: Locale, db: Db, req: Request)
    requires DbInv(t, db) && req.AnswerCard? && req.card in db.lib.cards
    ensures var after := Transact(t, db, req).lib;
      && (req.card, req.user) in after.memories
      && after.memories[(req.card, req.user)] ==
           SR.Answered(MemoryOf(db.lib, req.card, req.user), req.score, req.now)
  {
  }

  /** Cards change in no other way than by the request made for them. */
  lemma RequestOnCards(t: Locale, db: Db, req: Request, c: CardId)
    requires DbInv(t, db)
    ensures var a, b := db.lib, Transact(t, db, req).lib;
      && (c in a.cards && c in b.cards ==> b.cards[c] == a.cards[c] || (req.UpdateCard? && req.card == c))
      && (c in a.cards && c !in b.cards ==>
            (req.DeleteCard? && req.card == c) || (req.DeleteDeck? && req.deck == a.cards[c].deck))
      && (c !in a.cards && c in b.cards ==> req.CreateCard? && c == a.nextCard)
  {
  }
}
