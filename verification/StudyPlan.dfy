/** Study plans (services/plan.py): a day-by-day schedule within a time budget. */
module StudyPlan {
  import opened Base

  const MINUTES_PER_CARD := 2

  datatype Focus =
    | Introduction(deckName: string)
    | FirstReviews
    | NewAndReviews
    | RemainingNew
    | Consolidation

  datatype Day = Day(day: nat, date: int, cardsToStudy: int, focus: Focus)

  // ---------------------------------------------------------------------
  // The schedule in closed form
  // ---------------------------------------------------------------------

  /** Cards introduced in the first d days. */
  function Introduced(total: nat, target: nat, d: nat): int {
    Min(total, d * target)
  }

  function NewCards(total: nat, target: nat, d: nat): int
    requires d >= 1
  {
    Introduced(total, target, d) - Introduced(total, target, d - 1)
  }

  /** A quarter of what was introduced before day d comes back for review. */
  function Reviews(total: nat, target: nat, d: nat): int
    requires d >= 1
  {
    Introduced(total, target, d - 1) / 4
  }

  function FocusOf(d: nat, newCards: int, reviews: int, deckName: string): Focus {
    if d == 1 then Introduction(deckName)
    else if newCards > 0 && reviews > 0 then (if d == 2 then FirstReviews else NewAndReviews)
    else if newCards > 0 then RemainingNew
    else Consolidation
  }

  function DayOf(total: nat, target: nat, cap: int, start: int, deckName: string, d: nat): Day
    requires d >= 1
  {
    var newCards, reviews := NewCards(total, target, d), Reviews(total, target, d);
    Day(d, start + d - 1, Min(newCards + reviews, cap), FocusOf(d, newCards, reviews, deckName))
  }

  lemma IntroducedStep(total: nat, target: nat, d: nat)
    ensures Min(target, total - Introduced(total, target, d)) == NewCards(total, target, d + 1)
    ensures 0 <= Introduced(total, target, d) <= total
    ensures 0 <= NewCards(total, target, d + 1) <= target
  {
    assert (d + 1) * target == d * target + target;
  }

  /** The loop over running totals produces the closed form on every day. */
  method GenerateSchedule(total: nat, days: int, target: nat, cap: int, start: int, deckName: string)
    returns (schedule: seq<Day>)
    ensures |schedule| == Max(0, days)
    ensures forall i :: 0 <= i < |schedule| ==> schedule[i] == DayOf(total, target, cap, start, deckName, i + 1)
  {
    schedule := [];
    var remainingNew: int := total;
    var studied := 0;
    var d := 1;
    while d <= days
      invariant 1 <= d <= Max(0, days) + 1
      invariant |schedule| == d - 1
      invariant studied == Introduced(total, target, d - 1) && remainingNew == total - studied
      invariant forall i :: 0 <= i < |schedule| ==> schedule[i] == DayOf(total, target, cap, start, deckName, i + 1)
    {
      IntroducedStep(total, target, d - 1);
      var newCards := Min(target, remainingNew);
      remainingNew := remainingNew - newCards;
      var reviewEstimate := if d > 1 then studied / 4 else 0;
      var cardsToStudy := Min(newCards + reviewEstimate, cap);
      studied := studied + newCards;

      var focus;
      if d == 1 {
        focus := Introduction(deckName);
      } else if newCards > 0 && reviewEstimate > 0 {
        focus := if d == 2 then FirstReviews else NewAndReviews;
      } else if newCards > 0 {
        focus := RemainingNew;
      } else {
        focus := Consolidation;
      }
      schedule := schedule + [Day(d, start + d - 1, cardsToStudy, focus)];
      d := d + 1;
    }
  }

  // ---------------------------------------------------------------------
  // The budget
  // ---------------------------------------------------------------------

  datatype PlanError = NoSuchDeck | BadDays | BadMinutes

  datatype Plan = Plan(days: int, dailyTarget: nat, dailyMinutes: int, schedule: seq<Day>)

  /** Cards per day the time budget allows. */
  function MaxByTime(total: nat, dailyMinutes: nat): nat {
    var byTime := dailyMinutes / MINUTES_PER_CARD;
    if total > 0 then Max(1, byTime) else byTime
  }

  function DailyTarget(total: nat, days: nat, dailyMinutes: nat): nat
    requires days > 0
  {
    var byCoverage := if total > 0 then CeilDiv(total, days) else 1;
    Max(Min(byCoverage, MaxByTime(total, dailyMinutes)), 1)
  }

  /** deckCards is the card counter of the user's deck, if there is one. */
  method CreatePlan(deckCards: Option<nat>, deckName: string, days: int, dailyMinutes: int, start: int)
    returns (r: Result<Plan, PlanError>)
    ensures r.Err? ==> r.error == (if deckCards.None? then NoSuchDeck else if days <= 0 then BadDays else BadMinutes)
    ensures r.Ok? <==> deckCards.Some? && days > 0 && dailyMinutes > 0
    ensures r.Ok? ==>
      var total := deckCards.value;
      && r.value.days == days && r.value.dailyMinutes == dailyMinutes
      && r.value.dailyTarget == DailyTarget(total, days, dailyMinutes)
      && |r.value.schedule| == days
      && forall i :: 0 <= i < days ==>
           r.value.schedule[i] ==
             DayOf(total, r.value.dailyTarget, MaxByTime(total, dailyMinutes), start, deckName, i + 1)
  {
    if deckCards.None? {
      return Err(NoSuchDeck);
    }
    var total := deckCards.value;
    if days <= 0 {
      return Err(BadDays);
    }
    if dailyMinutes <= 0 {
      return Err(BadMinutes);
    }
    var maxByTime := dailyMinutes / MINUTES_PER_CARD;
    if total > 0 {
      maxByTime := Max(1, maxByTime);
    }
    var targetByCoverage := if total > 0 then CeilDiv(total, days) else 1;
    var dailyTarget := Min(targetByCoverage, maxByTime);
    dailyTarget := Max(dailyTarget, 1);
    var schedule := GenerateSchedule(total, days, dailyTarget, maxByTime, start, deckName);
    r := Ok(Plan(days, dailyTarget, dailyMinutes, schedule));
  }

  lemma ProductMonotone(days: nat, a: int, b: int)
    requires a <= b
    ensures days * a <= days * b
  {
    assert days * (b - a) >= 0;
  }

  /** A daily target covers the deck exactly when it is no less than the deck
      divided by the days, rounded up. */
  lemma EnoughPerDay(total: nat, days: nat, target: nat)
    requires days > 0
    ensures days * target >= total <==> target >= CeilDiv(total, days)
  {
    var need := CeilDiv(total, days);
    if target >= need {
      ProductMonotone(days, need, target);
    } else {
      ProductMonotone(days, target, need - 1);
    }
  }

  /** The plan introduces the whole deck exactly when the budget allows the
      cards per day that covering it takes. */
  lemma {:induction false} CoverageExactly(total: nat, days: nat, dailyMinutes: nat)
    requires days > 0 && dailyMinutes > 0
    ensures Introduced(total, DailyTarget(total, days, dailyMinutes), days) == total
       <==> total == 0 || CeilDiv(total, days) <= MaxByTime(total, dailyMinutes)
  {
    var target := DailyTarget(total, days, dailyMinutes);
    EnoughPerDay(total, days, target);
    if total > 0 {
      EnoughPerDay(total, days, 0);
    }
    assert days * 0 == 0 && days * target >= 0;
  }

  /** The cap never cuts new cards, only reviews, and the time asked for stays
      within the daily minutes (or one card's worth). */
  lemma {:induction false} CapCutsOnlyReviews(total: nat, days: nat, dailyMinutes: nat, start: int, deckName: string,
                                              d: nat)
    requires days > 0 && dailyMinutes > 0 && d >= 1
    ensures var target, cap := DailyTarget(total, days, dailyMinutes), MaxByTime(total, dailyMinutes);
      var day := DayOf(total, target, cap, start, deckName, d);
      var newCards := NewCards(total, target, d);
      && 0 <= newCards <= day.cardsToStudy <= newCards + Reviews(total, target, d)
      && MINUTES_PER_CARD * day.cardsToStudy <= Max(MINUTES_PER_CARD, dailyMinutes)
  {
    var target, cap := DailyTarget(total, days, dailyMinutes), MaxByTime(total, dailyMinutes);
    IntroducedStep(total, target, d - 1);
    var newCards, reviews := NewCards(total, target, d), Reviews(total, target, d);
    assert newCards <= cap by {
      if total == 0 {
        assert Introduced(total, target, d) == 0;
      }
    }
    IntroducedStep(total, target, d);
    assert Introduced(total, target, d - 1) >= 0;
  }

  // ---------------------------------------------------------------------
  // What a plan promises
  // ---------------------------------------------------------------------

  /** The daily target covers the deck, or uses up the budget of a card for
      every two minutes (one card at least); and a lower target would not cover
      the deck. */
  lemma TargetExactly(total: nat, days: nat, dailyMinutes: nat)
    requires days > 0 && dailyMinutes > 0
    ensures var target, budget := DailyTarget(total, days, dailyMinutes), Max(1, dailyMinutes / 2);
      && 1 <= target <= budget
      && (days * target >= total || target == budget)
      && (target > 1 ==> days * (target - 1) < total)
      && MaxByTime(total, dailyMinutes) == (if total > 0 then budget else dailyMinutes / 2)
  {
    var target := DailyTarget(total, days, dailyMinutes);
    EnoughPerDay(total, days, target);
    if target > 1 {
      EnoughPerDay(total, days, target - 1);
    }
    if total > 0 {
      EnoughPerDay(total, days, 0);
      assert days * 0 == 0;
    }
  }

  /** New cards of the first d days together. */
  function NewBefore(total: nat, target: nat, d: nat): int {
    if d == 0 then 0 else NewBefore(total, target, d - 1) + NewCards(total, target, d)
  }

  lemma {:induction false} NewBeforeIsIntroduced(total: nat, target: nat, d: nat)
    ensures NewBefore(total, target, d) == Introduced(total, target, d)
  {
    if d > 0 {
      NewBeforeIsIntroduced(total, target, d - 1);
    } else {
      assert 0 * target == 0;
    }
  }

  /** Each day brings the target of new cards while there are any, reviews of a
      quarter of those brought before, and no more of both than the cap. */
  lemma DayMeaning(total: nat, target: nat, cap: int, start: int, deckName: string, d: nat)
    requires d >= 1
    ensures var day, before := DayOf(total, target, cap, start, deckName, d), NewBefore(total, target, d - 1);
      var newCards, reviews := NewCards(total, target, d), Reviews(total, target, d);
      && 0 <= before <= total
      && newCards == Min(target, total - before)
      && 4 * reviews <= before < 4 * reviews + 4
      && day.day == d && day.date == start + d - 1
      && day.cardsToStudy == Min(newCards + reviews, cap)
      && (day.focus == Introduction(deckName) <==> d == 1)
      && (day.focus == FirstReviews <==> d == 2 && newCards > 0 && reviews > 0)
      && (day.focus == NewAndReviews <==> d > 2 && newCards > 0 && reviews > 0)
      && (day.focus == RemainingNew <==> d > 1 && newCards > 0 && reviews == 0)
      && (day.focus == Consolidation <==> d > 1 && newCards == 0)
  {
    NewBeforeIsIntroduced(total, target, d - 1);
    IntroducedStep(total, target, d - 1);
  }
}
