/** Over whole runs: the memory state of every card is the SM-2 history of its
    answers, and the progress figures are figures of these histories. */
module LearningHistory {
  import opened Base
  import opened Text
  import opened Storage
  import opened DeckService
  import opened ImportJob
  import opened Ledger
  import opened ImportWorker
  import P = Progress
  import SR = SpacedRepetition

  /** The reviews of a card by a user in a run, oldest first. */
  function Reviews(t: Locale, db: Db, acts: seq<Act>, c: CardId, user: UserId): seq<SR.Review> {
    if acts == [] then []
    else
      Reviews(t, db, acts[..|acts| - 1], c, user)
      + (match acts[|acts| - 1]
         case Serving(AnswerCard(who, card, score, now)) =>
           if who == user && card == c && c in PerformAll(t, db, acts[..|acts| - 1]).lib.cards
           then [SR.Review(score, now)] else []
         case _ => [])
  }

  /** The one memory state an act may change without removing its card. */
  function AnsweredBy(act: Act): set<(CardId, UserId)> {
    if act.Serving? && act.req.AnswerCard? then {(act.req.card, act.req.user)} else {}
  }

  /** Every act, and so every request, upload and finished import, leaves the
      memory states of all cards alone that it neither answers nor removes. */
  lemma ActKeepsMemories(t: Locale, db: Db, act: Act)
    requires DbInv(t, db)
    ensures MemoryLaw(db.lib, Perform(t, db, act).lib, AnsweredBy(act))
  {
    match act
    case Serving(req) => RequestKeepsMemories(t, db, req);
    case Submitting(upload) => UploadMakesJob(db, upload);
    case Finishing(id, now, fault) =>
      if IsQueued(db, id) && Storable(t, db.lib, db.jobs[id], fault) {
        ImportKeepsMemories(t, db.lib, db.jobs[id], now, fault);
      }
  }

  /** The state of a card and user is the history, and is stored if there is
      one. A card that does not exist yet has no history. */
  ghost predicate IsHistory(lib: Library, c: CardId, user: UserId, reviews: seq<SR.Review>) {
    && (c in lib.cards ==>
          && ((c, user) in lib.memories <==> reviews != [])
          && MemoryOf(lib, c, user) == SR.Study(SR.FRESH, reviews))
    && (c >= lib.nextCard ==> reviews == [])
  }

  lemma AnswerExtendsHistory(t: Locale, db: Db, req: Request, reviews: seq<SR.Review>)
    requires DbInv(t, db) && req.AnswerCard? && req.card in db.lib.cards
    requires IsHistory(db.lib, req.card, req.user, reviews)
    ensures IsHistory(Transact(t, db, req).lib, req.card, req.user, reviews + [SR.Review(req.score, req.now)])
  {
    var more := reviews + [SR.Review(req.score, req.now)];
    assert more[..|reviews|] == reviews;
    AnswerIsReview(t, db, req);
    RequestKeepsMemories(t, db, req);
  }

  lemma OtherActsKeepHistory(t: Locale, db: Db, act: Act, c: CardId, user: UserId, reviews: seq<SR.Review>)
    requires DbInv(t, db) && IsHistory(db.lib, c, user, reviews)
    requires (c, user) in AnsweredBy(act) ==> c !in db.lib.cards
    ensures IsHistory(Perform(t, db, act).lib, c, user, reviews)
  {
    var a, b := db.lib, Perform(t, db, act).lib;
    ActKeepsMemories(t, db, act);
    if (c, user) in AnsweredBy(act) {
      assert b == a;
    } else if c in a.cards && c in b.cards {
      assert SameMemory(a, b, c, user);
    }
  }

  /** After any run from an empty database the memory state of every card that
      exists is what the answers given to it, in order, make of a fresh one. */
  lemma {:induction false} MemoryIsHistory(t: Locale, acts: seq<Act>, c: CardId, user: UserId)
    ensures IsHistory(PerformAll(t, EMPTY_DB, acts).lib, c, user, Reviews(t, EMPTY_DB, acts, c, user))
  {
    if acts != [] {
      var before, act := acts[..|acts| - 1], acts[|acts| - 1];
      var db := PerformAll(t, EMPTY_DB, before);
      MemoryIsHistory(t, before, c, user);
      EmptyDbIsValid(t);
      RunKeepsInvariant(t, EMPTY_DB, before);
      var reviews := Reviews(t, EMPTY_DB, before, c, user);
      if (c, user) in AnsweredBy(act) && c in db.lib.cards {
        AnswerExtendsHistory(t, db, act.req, reviews);
      } else {
        OtherActsKeepHistory(t, db, act, c, user, reviews);
        assert reviews + [] == reviews;
      }
    }
  }

  /** So it is for every run of the import protocol, imports, crashes and
      restarts included. */
  lemma {:induction false} ProtocolKeepsHistories(t: Locale, events: seq<Event>, c: CardId, user: UserId)
    ensures var start := Sys(EMPTY_DB, [], Down);
      IsHistory(Run(t, start, events).db.lib, c, user, Reviews(t, EMPTY_DB, Trace(t, start, events), c, user))
  {
    EmptyDbIsValid(t);
    ProtocolRefinesLedger(t, Sys(EMPTY_DB, [], Down), events);
    MemoryIsHistory(t, Trace(t, Sys(EMPTY_DB, [], Down), events), c, user);
  }

  // ---------------------------------------------------------------------
  // The progress figures
  // ---------------------------------------------------------------------

  /** The user's own card, in a deck of theirs. */
  ghost predicate OwnCard(lib: Library, user: UserId, c: CardId) {
    c in lib.cards && lib.cards[c].deck in lib.decks && lib.decks[lib.cards[c].deck].user == user
  }

  lemma InFigure(lib: Library, user: UserId, f: P.Figure, c: CardId)
    ensures c in P.Joined(lib, user, f) <==>
      OwnCard(lib, user, c) && (c, user) in lib.memories && f.Counts(lib.memories[(c, user)])
  {
    if c in P.Joined(lib, user, f) {
      var k :| k in lib.memories && k.1 == user && f.Counts(lib.memories[k]) && OwnsCard(lib, user, k.0) && k.0 == c;
      assert k == (c, user);
    }
  }

  /** The cards counted as mastered are the user's own cards whose history has
      reached an interval of 21 days. */
  lemma MasteredExactly(t: Locale, acts: seq<Act>, user: UserId, c: CardId)
    ensures var lib := PerformAll(t, EMPTY_DB, acts).lib;
      var m := SR.Study(SR.FRESH, Reviews(t, EMPTY_DB, acts, c, user));
      c in P.Joined(lib, user, P.Mastered) <==>
        OwnCard(lib, user, c) && m.intervalDays.Some? && m.intervalDays.value >= 21
  {
    MemoryIsHistory(t, acts, c, user);
    InFigure(PerformAll(t, EMPTY_DB, acts).lib, user, P.Mastered, c);
  }

  /** The cards counted as due are the user's own cards that have been reviewed
      and whose last review lies its interval or more before the cutoff. */
  lemma DueExactly(t: Locale, acts: seq<Act>, user: UserId, c: CardId, cutoff: int)
    requires SR.Graded(Reviews(t, EMPTY_DB, acts, c, user))
    ensures var lib, reviews := PerformAll(t, EMPTY_DB, acts).lib, Reviews(t, EMPTY_DB, acts, c, user);
      var m := SR.Study(SR.FRESH, reviews);
      c in P.Joined(lib, user, P.DueBy(cutoff)) <==>
        && OwnCard(lib, user, c) && reviews != []
        && m.intervalDays.Some? && reviews[|reviews| - 1].at + m.intervalDays.value * 86400 <= cutoff
  {
    MemoryIsHistory(t, acts, c, user);
    SR.IntervalAtLeastMinimal(Reviews(t, EMPTY_DB, acts, c, user));
    InFigure(PerformAll(t, EMPTY_DB, acts).lib, user, P.DueBy(cutoff), c);
  }

  /** A user's own card that passed its last seven reviews counts as mastered,
      whatever happened before and to other cards. */
  lemma SevenPassesCount(t: Locale, acts: seq<Act>, user: UserId, c: CardId, history: seq<SR.Review>,
                         passes: seq<SR.Review>)
    requires Reviews(t, EMPTY_DB, acts, c, user) == history + passes
    requires SR.Graded(history) && SR.Graded(passes) && |passes| >= 7
    requires forall i :: 0 <= i < |passes| ==> passes[i].score >= 3
    requires OwnCard(PerformAll(t, EMPTY_DB, acts).lib, user, c)
    ensures c in P.Joined(PerformAll(t, EMPTY_DB, acts).lib, user, P.Mastered)
  {
    SR.SevenPassesMaster(history, passes);
    MasteredExactly(t, acts, user, c);
  }
}
