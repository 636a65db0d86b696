/** Study progress figures (services/progress.py). */
module Progress {
  import opened Base
  import opened Text
  import opened Storage
  import opened DeckService
  import SR = SpacedRepetition

  /** Which memory states a figure counts. */
  datatype Figure = Mastered | DueBy(cutoff: int) {
    predicate Counts(m: SR.Memory) {
      match this
      case Mastered => m.intervalDays.Some? && m.intervalDays.value >= SR.MASTERY_INTERVAL_THRESHOLD
      case DueBy(cutoff) => m.dueAt.Some? && m.dueAt.value <= cutoff
    }
  }

  /** The user's memory states that count, joined with cards and own decks. */
  function Joined(lib: Library, user: UserId, f: Figure): set<CardId> {
    set k | k in lib.memories && k.1 == user && f.Counts(lib.memories[k]) && OwnsCard(lib, user, k.0) :: k.0
  }

  function InDeck(lib: Library, cards: set<CardId>, d: DeckId): set<CardId> {
    set c | c in cards && c in lib.cards && lib.cards[c].deck == d
  }

  /** _count_mastered_cards and _count_due_today. */
  function Count(lib: Library, user: UserId, f: Figure, deck: Option<DeckId>): nat {
    match deck
    case None => |Joined(lib, user, f)|
    case Some(d) => |InDeck(lib, Joined(lib, user, f), d)|
  }

  function OwnCards(lib: Library, user: UserId): set<CardId> {
    set c | c in lib.cards && OwnsCard(lib, user, c)
  }

  /** _count_total_cards. */
  function CountTotalCards(lib: Library, user: UserId, deck: Option<DeckId>): nat {
    match deck
    case None => |OwnCards(lib, user)|
    case Some(d) => |InDeck(lib, OwnCards(lib, user), d)|
  }

  /** The rows of a query grouped by deck: decks without a row are absent. */
  function GroupByDeck(lib: Library, rows: set<CardId>): map<DeckId, nat> {
    map d | d in (set c | c in rows && c in lib.cards :: lib.cards[c].deck) :: |InDeck(lib, rows, d)|
  }

  datatype Summary = Summary(deck: DeckId, name: string, mastered: nat, masteryPct: real, dueCount: nat)

  function Ratio(part: nat, total: int): real {
    if total > 0 then part as real / total as real else 0.0
  }

  function SummaryOf(lib: Library, user: UserId, cutoff: int, d: DeckId): Summary
    requires d in lib.decks
  {
    var mastered := Count(lib, user, Mastered, Some(d));
    Summary(d, lib.decks[d].name, mastered, Ratio(mastered, lib.decks[d].cardCount),
            Count(lib, user, DueBy(cutoff), Some(d)))
  }

  /** The user's decks, each once, in the order a query returns them. */
  ghost predicate ListsDecks(lib: Library, user: UserId, decks: seq<DeckId>) {
    && (forall d :: d in decks <==> Owns(lib, user, d))
    && (forall i, j :: 0 <= i < j < |decks| ==> decks[i] != decks[j])
  }

  lemma GroupAgrees(lib: Library, rows: set<CardId>, d: DeckId)
    ensures (if d in GroupByDeck(lib, rows) then GroupByDeck(lib, rows)[d] else 0) == |InDeck(lib, rows, d)|
  {
    if d !in GroupByDeck(lib, rows) {
      assert InDeck(lib, rows, d) == {};
    }
  }

  /** Two grouped queries and a loop give each deck the figures its own
      queries would. */
  method GetDeckSummaries(lib: Library, user: UserId, cutoff: int, decks: seq<DeckId>)
    returns (summaries: seq<Summary>)
    requires ListsDecks(lib, user, decks)
    ensures |summaries| == |decks|
    ensures forall i :: 0 <= i < |decks| ==>
      Owns(lib, user, decks[i]) && summaries[i] == SummaryOf(lib, user, cutoff, decks[i])
  {
    var masteredByDeck := GroupByDeck(lib, Joined(lib, user, Mastered));
    var dueByDeck := GroupByDeck(lib, Joined(lib, user, DueBy(cutoff)));
    summaries := [];
    for i := 0 to |decks|
      invariant |summaries| == i
      invariant forall k :: 0 <= k < i ==>
        Owns(lib, user, decks[k]) && summaries[k] == SummaryOf(lib, user, cutoff, decks[k])
    {
      var d := decks[i];
      assert Owns(lib, user, d);
      var total := lib.decks[d].cardCount;
      var mastered := if d in masteredByDeck then masteredByDeck[d] else 0;
      var dueCount := if d in dueByDeck then dueByDeck[d] else 0;
      GroupAgrees(lib, Joined(lib, user, Mastered), d);
      GroupAgrees(lib, Joined(lib, user, DueBy(cutoff)), d);
      summaries := summaries + [Summary(d, lib.decks[d].name, mastered, Ratio(mastered, total), dueCount)];
    }
  }

  // ---------------------------------------------------------------------
  // Agreement of the figures
  // ---------------------------------------------------------------------

  ghost function SumPerDeck(lib: Library, cards: set<CardId>, decks: seq<DeckId>): nat {
    if decks == [] then 0
    else SumPerDeck(lib, cards, decks[..|decks| - 1]) + |InDeck(lib, cards, decks[|decks| - 1])|
  }

  /** Cards that all lie in the listed decks are counted once by the decks. */
  lemma {:induction false} PartitionByDeck(lib: Library, cards: set<CardId>, decks: seq<DeckId>)
    requires forall c :: c in cards ==> c in lib.cards && lib.cards[c].deck in decks
    requires forall i, j :: 0 <= i < j < |decks| ==> decks[i] != decks[j]
    ensures SumPerDeck(lib, cards, decks) == |cards|
  {
    if decks == [] {
      assert cards == {};
    } else {
      var last := |decks| - 1;
      var here := InDeck(lib, cards, decks[last]);
      var others := cards - here;
      PartitionByDeck(lib, others, decks[..last]);
      SumOutside(lib, cards, others, decks[..last], decks[last]);
      assert cards == others + here;
    }
  }

  lemma {:induction false} SumOutside(lib: Library, cards: set<CardId>, others: set<CardId>, decks: seq<DeckId>,
                                      d: DeckId)
    requires others == cards - InDeck(lib, cards, d) && d !in decks
    ensures SumPerDeck(lib, cards, decks) == SumPerDeck(lib, others, decks)
  {
    if decks != [] {
      var last := |decks| - 1;
      SumOutside(lib, cards, others, decks[..last], d);
      assert InDeck(lib, cards, decks[last]) == InDeck(lib, others, decks[last]);
    }
  }

  ghost function SumMastered(s: seq<Summary>): nat {
    if s == [] then 0 else SumMastered(s[..|s| - 1]) + s[|s| - 1].mastered
  }

  ghost function SumDue(s: seq<Summary>): nat {
    if s == [] then 0 else SumDue(s[..|s| - 1]) + s[|s| - 1].dueCount
  }

  ghost function SumCardCounts(lib: Library, decks: seq<DeckId>): int
    requires forall d :: d in decks ==> d in lib.decks
  {
    if decks == [] then 0
    else SumCardCounts(lib, decks[..|decks| - 1]) + lib.decks[decks[|decks| - 1]].cardCount
  }

  lemma {:induction false} SummariesSum(lib: Library, user: UserId, cutoff: int, decks: seq<DeckId>, s: seq<Summary>)
    requires |s| == |decks|
    requires forall i :: 0 <= i < |decks| ==>
      Owns(lib, user, decks[i]) && s[i] == SummaryOf(lib, user, cutoff, decks[i])
    ensures SumMastered(s) == SumPerDeck(lib, Joined(lib, user, Mastered), decks)
    ensures SumDue(s) == SumPerDeck(lib, Joined(lib, user, DueBy(cutoff)), decks)
  {
    if decks != [] {
      SummariesSum(lib, user, cutoff, decks[..|decks| - 1], s[..|s| - 1]);
    }
  }

  lemma {:induction false} CardCountsSum(lib: Library, user: UserId, decks: seq<DeckId>)
    requires CountsExact(lib) && forall d :: d in decks ==> d in lib.decks && Owns(lib, user, d)
    ensures SumCardCounts(lib, decks) == SumPerDeck(lib, OwnCards(lib, user), decks)
  {
    if decks != [] {
      var d := decks[|decks| - 1];
      assert Owns(lib, user, d);
      CardCountsSum(lib, user, decks[..|decks| - 1]);
      assert InDeck(lib, OwnCards(lib, user), d) == DeckCards(lib, d);
    }
  }

  /** The per-deck summaries add up to the user's own totals, and the stored
      card counters to the number of the user's cards. */
  lemma {:induction false} SummariesAddUp(t: Locale, lib: Library, user: UserId, cutoff: int, decks: seq<DeckId>,
                                          s: seq<Summary>)
    requires LibraryInv(t, lib) && ListsDecks(lib, user, decks) && |s| == |decks|
    requires forall i :: 0 <= i < |decks| ==>
      Owns(lib, user, decks[i]) && s[i] == SummaryOf(lib, user, cutoff, decks[i])
    ensures SumMastered(s) == Count(lib, user, Mastered, None)
    ensures SumDue(s) == Count(lib, user, DueBy(cutoff), None)
    ensures SumCardCounts(lib, decks) == CountTotalCards(lib, user, None)
  {
    SummariesSum(lib, user, cutoff, decks, s);
    CardCountsSum(lib, user, decks);
    PartitionByDeck(lib, Joined(lib, user, Mastered), decks);
    PartitionByDeck(lib, Joined(lib, user, DueBy(cutoff)), decks);
    PartitionByDeck(lib, OwnCards(lib, user), decks);
  }

  lemma RatioInUnit(part: nat, total: int)
    requires total > 0 ==> part <= total
    ensures 0.0 <= Ratio(part, total) <= 1.0
  {
  }

  lemma RatioTimes(part: nat, total: int)
    requires 0 <= part <= total
    ensures Ratio(part, total) * total as real == part as real
  {
  }

  lemma SubsetCount(small: set<CardId>, large: set<CardId>)
    requires small <= large
    ensures |small| <= |large|
  {
    assert large == small + (large - small);
  }

  /** No deck has more mastered or due cards than its counter says it has
      cards, so the mastery share lies between zero and one. */
  lemma MasteryShareInUnit(t: Locale, lib: Library, user: UserId, cutoff: int, d: DeckId)
    requires LibraryInv(t, lib) && d in lib.decks
    ensures var s := SummaryOf(lib, user, cutoff, d);
      && s.mastered <= lib.decks[d].cardCount && s.dueCount <= lib.decks[d].cardCount
      && 0.0 <= s.masteryPct <= 1.0
  {
    SubsetCount(InDeck(lib, Joined(lib, user, Mastered), d), DeckCards(lib, d));
    SubsetCount(InDeck(lib, Joined(lib, user, DueBy(cutoff)), d), DeckCards(lib, d));
    RatioInUnit(Count(lib, user, Mastered, Some(d)), lib.decks[d].cardCount);
  }

  /** The share of a deck's cards that are mastered, times its cards, is the
      number of those that are. */
  lemma MasteryShareMeaning(t: Locale, lib: Library, user: UserId, cutoff: int, d: DeckId)
    requires LibraryInv(t, lib) && d in lib.decks
    ensures var s := SummaryOf(lib, user, cutoff, d);
      && s.deck == d && s.name == lib.decks[d].name
      && s.masteryPct * |DeckCards(lib, d)| as real == s.mastered as real
  {
    var mastered := Count(lib, user, Mastered, Some(d));
    SubsetCount(InDeck(lib, Joined(lib, user, Mastered), d), DeckCards(lib, d));
    RatioTimes(mastered, lib.decks[d].cardCount);
  }

  /** Someone else's deck contributes nothing to the user's figures. */
  lemma ForeignDeckCountsNothing(lib: Library, user: UserId, f: Figure, d: DeckId)
    requires !Owns(lib, user, d)
    ensures Count(lib, user, f, Some(d)) == 0 && CountTotalCards(lib, user, Some(d)) == 0
  {
    assert InDeck(lib, Joined(lib, user, f), d) == {};
    assert InDeck(lib, OwnCards(lib, user), d) == {};
  }
}
