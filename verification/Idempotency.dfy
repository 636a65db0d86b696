/** Idempotent deck creation: the record store (services/idempotency.py) and
    the create-deck route (api/v1/routes/decks.py). Instants are microseconds. */
module Idempotency {
  import opened Base
  import opened Text
  import opened Storage
  import opened DeckService

  const TTL := 24 * 3600 * 1000000

  /** What a response body shows of a deck. */
  datatype Body = Body(id: DeckId, deck: Deck)

  datatype Record = Record(createdAt: int, statusCode: int, body: Body)

  /** Records of one endpoint, by user and key. */
  type Records = map<(UserId, string), Record>

  datatype State = State(db: Db, records: Records)

  datatype Request = Request(user: UserId, key: string, name: string, description: Option<string>,
                             tags: seq<string>, now: int)

  datatype Reply =
    | Created(body: Body)
    | Replayed(statusCode: int, body: Body)
    | NameTakenReply
    | StillReserved

  datatype Lookup = Missing | Found(record: Record) | Reserved

  predicate Expired(r: Record, now: int) {
    r.createdAt < now - TTL
  }

  /** Looks a record up and forgets it when it has expired. */
  function LookUp(records: Records, slot: (UserId, string), now: int): (Records, Lookup) {
    if slot !in records then (records, Missing)
    else if Expired(records[slot], now) then (records - {slot}, Missing)
    else if records[slot].statusCode == 0 then (records, Reserved)
    else (records, Found(records[slot]))
  }

  /** The route, for one request. An empty key is no key. */
  function Handle(t: Locale, s: State, req: Request): (State, Reply) {
    var slot := (req.user, req.key);
    var (records, found) := if req.key == "" then (s.records, Missing) else LookUp(s.records, slot, req.now);
    match found
    case Found(record) => (State(s.db, records), Replayed(record.statusCode, record.body))
    case Reserved => (State(s.db, records), StillReserved)
    case Missing =>
      match Serve(t, s.db, CreateDeck(req.user, req.name, req.description, req.tags))
      case Err(_) => (State(s.db, records), NameTakenReply)
      case Ok(db) =>
        var id := s.db.lib.nextDeck;
        var body := Body(id, Deck(req.user, req.name, req.description, req.tags, 0, 1, None));
        (State(db, if req.key == "" then records else records[slot := Record(req.now, 201, body)]), Created(body))
  }

  class DeckRoute {
    const db: Database
    var records: Records

    constructor (db: Database)
      ensures this.db == db && records == map[]
    {
      this.db := db;
      records := map[];
    }

    function Value(): State
      reads this, db
    {
      State(db.working, records)
    }

    method GetIdempotencyRecord(slot: (UserId, string), now: int) returns (found: Lookup)
      modifies this`records
      ensures (records, found) == LookUp(old(records), slot, now)
    {
      if slot !in records {
        return Missing;
      }
      var record := records[slot];
      if record.createdAt < now - TTL {
        records := records - {slot};
        return Missing;
      }
      if record.statusCode == 0 {
        return Reserved;
      }
      found := Found(record);
    }

    /** When the insert violates the key's uniqueness, the record that is
        there is looked up instead; Missing stands for the raised error. */
    method StoreIdempotencyRecord(slot: (UserId, string), record: Record) returns (stored: Lookup)
      modifies this`records
      ensures slot !in old(records) ==> records == old(records)[slot := record] && stored == Found(record)
      ensures slot in old(records) ==> (records, stored) == LookUp(old(records), slot, record.createdAt)
    {
      if slot in records {
        stored := GetIdempotencyRecord(slot, record.createdAt);
        return;
      }
      records := records[slot := record];
      stored := Found(record);
    }

    method CreateDeck(t: Locale, req: Request) returns (reply: Reply)
      modifies this`records, db
      ensures db.committed == old(db.committed)
      ensures (Value(), reply) == Handle(t, old(Value()), req)
    {
      var slot := (req.user, req.key);
      if req.key != "" {
        var found := GetIdempotencyRecord(slot, req.now);
        if found.Reserved? {
          return StillReserved;
        }
        if found.Found? {
          return Replayed(found.record.statusCode, found.record.body);
        }
      }
      var created := CreateDeckRow(t, db, req.user, req.name, req.description, req.tags);
      if created.Err? {
        return NameTakenReply;
      }
      var body := Body(created.value, db.working.lib.decks[created.value]);
      if req.key != "" {
        var _ := StoreIdempotencyRecord(slot, Record(req.now, 201, body));
      }
      reply := Created(body);
    }
  }

  // ---------------------------------------------------------------------
  // Runs of requests
  // ---------------------------------------------------------------------

  function After(t: Locale, s: State, reqs: seq<Request>): State {
    if reqs == [] then s
    else Handle(t, After(t, s, reqs[..|reqs| - 1]), reqs[|reqs| - 1]).0
  }

  /** What request i of the run is answered. */
  function ReplyAt(t: Locale, s: State, reqs: seq<Request>, i: nat): Reply
    requires i < |reqs|
  {
    Handle(t, After(t, s, reqs[..i]), reqs[i]).1
  }

  ghost predicate Chronological(reqs: seq<Request>) {
    forall i, j :: 0 <= i < j < |reqs| ==> reqs[i].now <= reqs[j].now
  }

  ghost predicate SameKey(a: Request, b: Request) {
    a.user == b.user && a.key == b.key && a.key != ""
  }

  lemma CreationStores(t: Locale, s: State, req: Request)
    requires req.key != "" && Handle(t, s, req).1.Created?
    ensures var (after, reply) := Handle(t, s, req);
      && (req.user, req.key) in after.records
      && after.records[(req.user, req.key)] == Record(req.now, 201, reply.body)
  {
  }

  /** A fresh record survives any request, and one under its own key is
      answered from it. */
  lemma FreshRecordAnswers(t: Locale, s: State, req: Request, slot: (UserId, string))
    requires slot in s.records && s.records[slot].statusCode != 0 && !Expired(s.records[slot], req.now)
    ensures var (after, reply) := Handle(t, s, req);
      && slot in after.records && after.records[slot] == s.records[slot]
      && (slot == (req.user, req.key) && req.key != "" ==>
            reply == Replayed(s.records[slot].statusCode, s.records[slot].body) && after == s)
  {
  }

  /** A creation leaves its record in place until a request comes more than
      the time to live later. */
  lemma {:induction false} RecordStays(t: Locale, s: State, reqs: seq<Request>, i: nat)
    requires Chronological(reqs) && i < |reqs| && reqs[i].key != ""
    requires ReplyAt(t, s, reqs, i).Created?
    requires reqs[|reqs| - 1].now <= reqs[i].now + TTL
    ensures var slot := (reqs[i].user, reqs[i].key);
      var records := After(t, s, reqs).records;
      slot in records && records[slot] == Record(reqs[i].now, 201, ReplyAt(t, s, reqs, i).body)
  {
    var last := |reqs| - 1;
    if i == last {
      CreationStores(t, After(t, s, reqs[..last]), reqs[last]);
    } else {
      assert reqs[..last][..i] == reqs[..i];
      RecordStays(t, s, reqs[..last], i);
      FreshRecordAnswers(t, After(t, s, reqs[..last]), reqs[last], (reqs[i].user, reqs[i].key));
    }
  }

  /** For a day after a creation, inclusive, every request under the same user
      and key gets the first response and changes nothing. */
  lemma {:induction false} ReplayedForADay(t: Locale, s: State, reqs: seq<Request>, i: nat, j: nat)
    requires Chronological(reqs) && i < j < |reqs| && SameKey(reqs[i], reqs[j])
    requires ReplyAt(t, s, reqs, i).Created?
    requires reqs[j].now <= reqs[i].now + TTL
    ensures ReplyAt(t, s, reqs, j) == Replayed(201, ReplyAt(t, s, reqs, i).body)
    ensures After(t, s, reqs[..j + 1]) == After(t, s, reqs[..j])
  {
    assert reqs[..j][..i] == reqs[..i];
    assert reqs[..j + 1][..j] == reqs[..j];
    RecordStays(t, s, reqs[..j], i);
    FreshRecordAnswers(t, After(t, s, reqs[..j]), reqs[j], (reqs[i].user, reqs[i].key));
  }

  /** Two creations under the same user and key are more than a day apart. */
  lemma {:induction false} CreatedOnceADay(t: Locale, s: State, reqs: seq<Request>, i: nat, j: nat)
    requires Chronological(reqs) && i < j < |reqs| && SameKey(reqs[i], reqs[j])
    requires ReplyAt(t, s, reqs, i).Created? && ReplyAt(t, s, reqs, j).Created?
    ensures reqs[j].now > reqs[i].now + TTL
  {
    if reqs[j].now <= reqs[i].now + TTL {
      ReplayedForADay(t, s, reqs, i, j);
    }
  }

  // ---------------------------------------------------------------------
  // When a request creates a deck
  // ---------------------------------------------------------------------

  /** An earlier request of the run under the same key created a deck, a day
      (in microseconds) or less before. */
  ghost predicate CreatedWithinADay(t: Locale, s: State, reqs: seq<Request>, i: nat)
    requires i < |reqs|
  {
    exists k :: 0 <= k < i && SameKey(reqs[k], reqs[i]) && ReplyAt(t, s, reqs, k).Created?
      && reqs[i].now <= reqs[k].now + 86400000000
  }

  /** Request k of the run created the record. */
  ghost predicate CreatedRecord(t: Locale, s: State, reqs: seq<Request>, k: nat, slot: (UserId, string),
                                r: Record)
  {
    && k < |reqs| && (reqs[k].user, reqs[k].key) == slot && slot.1 != ""
    && ReplyAt(t, s, reqs, k).Created? && r == Record(reqs[k].now, 201, ReplyAt(t, s, reqs, k).body)
  }

  lemma OneRequestOnRecords(t: Locale, s: State, req: Request, slot: (UserId, string))
    ensures var (after, reply) := Handle(t, s, req);
      slot in after.records ==>
        || (slot in s.records && after.records[slot] == s.records[slot])
        || (slot == (req.user, req.key) && slot.1 != "" && reply.Created?
            && after.records[slot] == Record(req.now, 201, reply.body))
  {
  }

  lemma {:induction false} RecordsAreCreations(t: Locale, s: State, reqs: seq<Request>, slot: (UserId, string))
    returns (k: nat)
    requires s.records == map[] && slot in After(t, s, reqs).records
    ensures CreatedRecord(t, s, reqs, k, slot, After(t, s, reqs).records[slot])
  {
    var last := |reqs| - 1;
    var before := After(t, s, reqs[..last]);
    OneRequestOnRecords(t, before, reqs[last], slot);
    k := last;
    if slot in before.records && After(t, s, reqs).records[slot] == before.records[slot] {
      k := RecordsAreCreations(t, s, reqs[..last], slot);
      assert reqs[..last][..k] == reqs[..k];
    }
  }

  /** What one request does, from the record it finds. */
  lemma HandledExactly(t: Locale, s: State, req: Request)
    ensures var slot, reply := (req.user, req.key), Handle(t, s, req).1;
      var found := req.key != "" && slot in s.records && req.now <= s.records[slot].createdAt + 86400000000;
      && (reply.Created? <==> !found && NameFree(t, s.db.lib, req.user, req.name))
      && (reply.Replayed? <==> found && s.records[slot].statusCode != 0)
      && (reply.StillReserved? <==> found && s.records[slot].statusCode == 0)
      && (!reply.Created? ==> Handle(t, s, req).0.db == s.db)
  {
    RequestSucceedsExactly(t, s.db, DeckService.CreateDeck(req.user, req.name, req.description, req.tags));
  }

  /** The record a request of a run finds, and does not find expired, is that of
      a creation within a day. */
  lemma {:induction false} FoundMeansCreated(t: Locale, s: State, reqs: seq<Request>, i: nat)
    requires s.records == map[] && i < |reqs| && reqs[i].key != ""
    requires var records, slot := After(t, s, reqs[..i]).records, (reqs[i].user, reqs[i].key);
      slot in records && reqs[i].now <= records[slot].createdAt + 86400000000
    ensures CreatedWithinADay(t, s, reqs, i)
    ensures After(t, s, reqs[..i]).records[(reqs[i].user, reqs[i].key)].statusCode != 0
  {
    var k := RecordsAreCreations(t, s, reqs[..i], (reqs[i].user, reqs[i].key));
    assert reqs[..i][..k] == reqs[..k];
    assert SameKey(reqs[k], reqs[i]) && ReplyAt(t, s, reqs, k).Created?;
  }

  lemma {:induction false} CreatedMeansFound(t: Locale, s: State, reqs: seq<Request>, i: nat)
    requires Chronological(reqs) && i < |reqs| && CreatedWithinADay(t, s, reqs, i)
    ensures reqs[i].key != ""
    ensures var records, slot := After(t, s, reqs[..i]).records, (reqs[i].user, reqs[i].key);
      slot in records && reqs[i].now <= records[slot].createdAt + 86400000000
  {
    var k :| 0 <= k < i && SameKey(reqs[k], reqs[i]) && ReplyAt(t, s, reqs, k).Created?
             && reqs[i].now <= reqs[k].now + 86400000000;
    assert reqs[..i][..k] == reqs[..k];
    RecordStays(t, s, reqs[..i], k);
  }

  /** A request of a run creates a deck if and only if no request under its key
      has done so within a day, and the name is free. */
  lemma {:induction false} CreatesExactly(t: Locale, s: State, reqs: seq<Request>, i: nat)
    requires s.records == map[] && Chronological(reqs) && i < |reqs|
    ensures ReplyAt(t, s, reqs, i).Created? <==>
      !CreatedWithinADay(t, s, reqs, i)
      && NameFree(t, After(t, s, reqs[..i]).db.lib, reqs[i].user, reqs[i].name)
    ensures ReplyAt(t, s, reqs, i).Replayed? <==> CreatedWithinADay(t, s, reqs, i)
    ensures !ReplyAt(t, s, reqs, i).StillReserved?
  {
    var records, slot := After(t, s, reqs[..i]).records, (reqs[i].user, reqs[i].key);
    HandledExactly(t, After(t, s, reqs[..i]), reqs[i]);
    if reqs[i].key != "" && slot in records && reqs[i].now <= records[slot].createdAt + 86400000000 {
      FoundMeansCreated(t, s, reqs, i);
    } else if CreatedWithinADay(t, s, reqs, i) {
      CreatedMeansFound(t, s, reqs, i);
    }
  }

  /** The first response shows the deck that was made for the request. */
  lemma ResponseShowsDeck(t: Locale, s: State, req: Request)
    requires Handle(t, s, req).1.Created?
    ensures var (after, reply) := Handle(t, s, req);
      && reply.body.id == s.db.lib.nextDeck
      && reply.body.id in after.db.lib.decks && after.db.lib.decks[reply.body.id] == reply.body.deck
      && reply.body.deck.user == req.user && reply.body.deck.name == req.name
      && reply.body.deck.description == req.description && reply.body.deck.tags == req.tags
  {
  }
}
