/** The study streak (services/progress.py). A study instant falls on a local
    day given by toDay. */
module Streak {
  import opened Base

  /** The local days with a study instant. */
  function DaysOf(instants: seq<Option<int>>, toDay: int -> int): set<int> {
    if instants == [] then {}
    else
      var last := instants[|instants| - 1];
      DaysOf(instants[..|instants| - 1], toDay) + if last.Some? then {toDay(last.value)} else {}
  }

  function Latest(instants: seq<Option<int>>): Option<int> {
    if instants == [] then None
    else
      var before, last := Latest(instants[..|instants| - 1]), instants[|instants| - 1];
      if last.None? then before
      else if before.None? || last.value > before.value then last
      else before
  }

  ghost predicate IsLatestDay(days: set<int>, m: int) {
    m in days && forall d :: d in days ==> d <= m
  }

  /** n days in a row ending at last have study, and the day before has not. */
  ghost predicate IsRun(days: set<int>, last: int, n: int) {
    n >= 0 && (forall d :: last - n < d <= last ==> d in days) && last - n !in days
  }

  /** n is the streak of somebody who studied on these days. */
  ghost predicate IsStreak(days: set<int>, today: int, n: int) {
    if days == {} then n == 0
    else exists m :: IsLatestDay(days, m) && if today - m > 1 then n == 0 else IsRun(days, m, n)
  }

  lemma EmptyOrNot(days: set<int>)
    ensures days == {} || exists d :: d in days
  {
    if forall d :: d !in days {
      assert days == {};
    }
  }

  method LatestDay(days: set<int>) returns (m: int)
    requires days != {}
    ensures IsLatestDay(days, m)
  {
    EmptyOrNot(days);
    m :| m in days;
    var rest := days - {m};
    while rest != {}
      invariant m in days && rest <= days
      invariant forall d :: d in days && d !in rest ==> d <= m
      decreases rest
    {
      EmptyOrNot(rest);
      var d :| d in rest;
      if d > m {
        m := d;
      }
      rest := rest - {d};
    }
  }

  method ComputeStreak(instants: seq<Option<int>>, toDay: int -> int, today: int)
    returns (streak: nat, lastStudied: Option<int>)
    ensures IsStreak(DaysOf(instants, toDay), today, streak)
    ensures lastStudied == Latest(instants)
  {
    var localDates := {};
    lastStudied := None;
    for i := 0 to |instants|
      invariant localDates == DaysOf(instants[..i], toDay)
      invariant lastStudied == Latest(instants[..i])
      invariant localDates == {} <==> lastStudied.None?
    {
      assert instants[..i + 1][..i] == instants[..i];
      var dt := instants[i];
      if dt.Some? {
        localDates := localDates + {toDay(dt.value)};
        if lastStudied.None? || dt.value > lastStudied.value {
          lastStudied := dt;
        }
      }
    }
    assert instants[..|instants|] == instants;
    if localDates == {} {
      return 0, None;
    }

    var mostRecent := LatestDay(localDates);
    streak := 0;
    if today - mostRecent <= 1 {
      var cursor := mostRecent;
      while cursor in localDates
        invariant cursor == mostRecent - streak
        invariant forall d :: cursor < d <= mostRecent ==> d in localDates
        decreases set d | d in localDates && d <= cursor
      {
        ghost var ahead := set d | d in localDates && d <= cursor;
        assert cursor in ahead;
        streak := streak + 1;
        cursor := cursor - 1;
        assert cursor + 1 !in (set d | d in localDates && d <= cursor);
      }
    }
  }

  /** The set of days determines the streak. */
  lemma {:induction false} StreakUnique(days: set<int>, today: int, n: int, k: int)
    requires IsStreak(days, today, n) && IsStreak(days, today, k)
    ensures n == k
  {
    if days != {} {
      var m :| IsLatestDay(days, m) && if today - m > 1 then n == 0 else IsRun(days, m, n);
      var m' :| IsLatestDay(days, m') && if today - m' > 1 then k == 0 else IsRun(days, m', k);
      assert m == m';
      if today - m <= 1 {
        RunUnique(days, m, n, k);
      }
    }
  }

  lemma RunUnique(days: set<int>, last: int, n: int, k: int)
    requires IsRun(days, last, n) && IsRun(days, last, k)
    ensures n == k
  {
    assert n < k ==> last - n in days;
    assert k < n ==> last - k in days;
  }

  // ---------------------------------------------------------------------
  // Agreement with an incremental counter
  // ---------------------------------------------------------------------

  /** The last day seen and the length of the run it ends. */
  datatype Counter = Counter(last: int, run: nat)

  function Advance(c: Counter, day: int): Counter {
    if day == c.last then c
    else if day == c.last + 1 then Counter(day, c.run + 1)
    else Counter(day, 1)
  }

  /** One pass over the days of study, in order. */
  function OnePass(days: seq<int>): Counter
    requires days != []
  {
    if |days| == 1 then Counter(days[0], 1)
    else Advance(OnePass(days[..|days| - 1]), days[|days| - 1])
  }

  ghost predicate Nondecreasing(days: seq<int>) {
    forall i, j :: 0 <= i < j < |days| ==> days[i] <= days[j]
  }

  ghost function SetOf(days: seq<int>): set<int> {
    if days == [] then {} else SetOf(days[..|days| - 1]) + {days[|days| - 1]}
  }

  lemma {:induction false} OnePassIsRun(days: seq<int>)
    requires days != [] && Nondecreasing(days)
    ensures var c := OnePass(days);
      && c.last == days[|days| - 1]
      && IsLatestDay(SetOf(days), c.last)
      && IsRun(SetOf(days), c.last, c.run)
  {
    var last := |days| - 1;
    if last == 0 {
      assert SetOf(days[..0]) == {};
    } else {
      OnePassIsRun(days[..last]);
    }
  }

  /** When the days of study come in order, the walk back from the latest day
      finds the run a counter updated on each study would hold. */
  lemma {:induction false} IncrementalCounterAgrees(instants: seq<Option<int>>, toDay: int -> int, days: seq<int>,
                                                    today: int, streak: int)
    requires days != [] && Nondecreasing(days) && SetOf(days) == DaysOf(instants, toDay)
    requires IsStreak(DaysOf(instants, toDay), today, streak)
    ensures var c := OnePass(days); streak == if today - c.last > 1 then 0 else c.run
  {
    OnePassIsRun(days);
    var c := OnePass(days);
    assert c.last in SetOf(days);
    StreakUnique(SetOf(days), today, streak, if today - c.last > 1 then 0 else c.run);
  }

  // ---------------------------------------------------------------------
  // What the streak means
  // ---------------------------------------------------------------------

  /** The days are those of the instants that are there, and the latest of
      these is the latest instant. */
  lemma {:induction false} DaysExactly(instants: seq<Option<int>>, toDay: int -> int, day: int)
    ensures day in DaysOf(instants, toDay) <==>
      exists i :: 0 <= i < |instants| && instants[i].Some? && toDay(instants[i].value) == day
    ensures match Latest(instants)
      case None => forall i :: 0 <= i < |instants| ==> instants[i].None?
      case Some(latest) =>
        Some(latest) in instants
        && forall i :: 0 <= i < |instants| && instants[i].Some? ==> instants[i].value <= latest
  {
    if instants != [] {
      var last := |instants| - 1;
      DaysExactly(instants[..last], toDay, day);
      assert forall i :: 0 <= i < last ==> instants[..last][i] == instants[i];
      assert instants[last] in instants;
      assert forall x :: x in instants[..last] ==> x in instants;
    }
  }

  /** There is a streak exactly when somebody studied yesterday or later, and
      then it counts days in a row up to the latest one, and all of them. */
  lemma StreakMeaning(days: set<int>, today: int, n: int)
    requires IsStreak(days, today, n)
    ensures n >= 0 && (n > 0 <==> exists d :: d in days && d >= today - 1)
    ensures n > 0 ==>
      exists m :: m in days && (forall d :: d in days ==> d <= m)
        && (forall d :: m - n < d <= m ==> d in days) && m - n !in days
  {
    if days != {} {
      var m :| IsLatestDay(days, m) && if today - m > 1 then n == 0 else IsRun(days, m, n);
      if today - m <= 1 {
        assert m in days && m >= today - 1;
      }
    }
  }
}
