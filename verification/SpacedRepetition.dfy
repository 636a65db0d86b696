/** The SM-2 memory state of one card and user (services/spaced_repetition.py).
    The ease factor is kept in hundredths and instants in seconds. */
module SpacedRepetition {
  import opened Base

  const DEFAULT_EASE_FACTOR := 250
  const MIN_EASE_FACTOR := 130
  const PASSING_SCORE := 3
  const MAX_SCORE := 5
  const SECONDS_PER_DAY := 86400
  const MASTERY_INTERVAL_THRESHOLD := 21

  datatype Memory = Memory(
    easeFactor: int,
    repetitions: int,
    streak: int,
    intervalDays: Option<int>,
    dueAt: Option<int>,
    lastScore: Option<int>)

  /** One answered review. */
  datatype Review = Review(score: int, at: int)

  const FRESH := Memory(DEFAULT_EASE_FACTOR, 0, 0, Some(0), None, None)

  function EaseDelta(score: int): int {
    10 - (MAX_SCORE - score) * (8 + (MAX_SCORE - score) * 2)
  }

  /** The memory state after one answer. */
  function Answered(m: Memory, score: int, now: int): Memory {
    var ease := Max(MIN_EASE_FACTOR, m.easeFactor + EaseDelta(score));
    if score < PASSING_SCORE then
      Memory(ease, 0, 0, Some(1), Some(now + SECONDS_PER_DAY), Some(score))
    else
      var interval :=
        if m.repetitions == 0 then 1
        else if m.repetitions == 1 then 6
        else CeilDiv(m.intervalDays.GetOr(6) * ease, 100);
      Memory(ease, m.repetitions + 1, m.streak + 1,
             Some(interval), Some(now + interval * SECONDS_PER_DAY), Some(score))
  }

  /** The row of card_memory_states, updated in place by each answer. */
  class CardMemoryState {
    var easeFactor: int
    var repetitions: int
    var streak: int
    var intervalDays: Option<int>
    var dueAt: Option<int>
    var lastScore: Option<int>

    function Value(): Memory
      reads this
    {
      Memory(easeFactor, repetitions, streak, intervalDays, dueAt, lastScore)
    }

    constructor ()
      ensures Value() == FRESH
    {
      easeFactor := DEFAULT_EASE_FACTOR;
      repetitions := 0;
      streak := 0;
      intervalDays := Some(0);
      dueAt := None;
      lastScore := None;
    }

    method UpdateAfterAnswer(score: int, now: int)
      modifies this
      ensures Value() == Answered(old(Value()), score, now)
    {
      var newEaseFactor :=
        easeFactor + (10 - (5 - score) * (8 + (5 - score) * 2));
      easeFactor := Max(MIN_EASE_FACTOR, newEaseFactor);

      if score < PASSING_SCORE {
        repetitions := 0;
        streak := 0;
        intervalDays := Some(1);
      } else {
        if repetitions == 0 {
          intervalDays := Some(1);
        } else if repetitions == 1 {
          intervalDays := Some(6);
        } else {
          var currentInterval := if intervalDays.None? then 6 else intervalDays.value;
          intervalDays := Some(CeilDiv(currentInterval * easeFactor, 100));
        }
        repetitions := repetitions + 1;
        streak := streak + 1;
      }

      if intervalDays.Some? {
        dueAt := Some(now + intervalDays.value * SECONDS_PER_DAY);
      }
      lastScore := Some(score);
    }
  }

  /** The state after a whole history of reviews, oldest first. */
  function Study(m: Memory, reviews: seq<Review>): Memory {
    if reviews == [] then m
    else
      var last := |reviews| - 1;
      Answered(Study(m, reviews[..last]), reviews[last].score, reviews[last].at)
  }

  ghost predicate Graded(reviews: seq<Review>) {
    forall i :: 0 <= i < |reviews| ==> 0 <= reviews[i].score <= MAX_SCORE
  }

  lemma {:induction false} StudyAppend(m: Memory, first: seq<Review>, second: seq<Review>)
    ensures Study(m, first + second) == Study(Study(m, first), second)
    decreases |second|
  {
    if second == [] {
      assert first + second == first;
    } else {
      var last := |second| - 1;
      assert (first + second)[..|first + second| - 1] == first + second[..last];
      StudyAppend(m, first, second[..last]);
    }
  }

  // ---------------------------------------------------------------------
  // Ease factor: closed form and bounds
  // ---------------------------------------------------------------------

  /** Sum of the ease changes of the first k reviews, before any clamping. */
  function DeltaSum(reviews: seq<Review>, k: nat): int
    requires k <= |reviews|
  {
    if k == 0 then 0 else DeltaSum(reviews, k - 1) + EaseDelta(reviews[k - 1].score)
  }

  lemma {:induction false} DeltaSumPrefix(reviews: seq<Review>, n: nat, k: nat)
    requires k <= n <= |reviews|
    ensures DeltaSum(reviews[..n], k) == DeltaSum(reviews, k)
  {
    if k > 0 {
      DeltaSumPrefix(reviews, n, k - 1);
    }
  }

  /** e is one of the candidates of the closed form after all the reviews. */
  ghost predicate IsEaseCandidate(start: int, reviews: seq<Review>, e: int) {
    var n := |reviews|;
    || e == start + DeltaSum(reviews, n)
    || exists k | 1 <= k <= n :: e == MIN_EASE_FACTOR + DeltaSum(reviews, n) - DeltaSum(reviews, k)
  }

  /** The clamped running ease factor is the greatest of the unclamped sum and
      the sums restarted from the floor after each review. */
  lemma {:induction false} EaseClosedForm(m: Memory, reviews: seq<Review>)
    ensures IsEaseCandidate(m.easeFactor, reviews, Study(m, reviews).easeFactor)
    ensures forall e :: IsEaseCandidate(m.easeFactor, reviews, e) ==> e <= Study(m, reviews).easeFactor
  {
    if reviews != [] {
      var n := |reviews|;
      var before := reviews[..n - 1];
      EaseClosedForm(m, before);
      forall k | 0 <= k < n
        ensures DeltaSum(before, k) == DeltaSum(reviews, k)
      {
        DeltaSumPrefix(reviews, n - 1, k);
      }
      var delta := EaseDelta(reviews[n - 1].score);
      var easeBefore := Study(m, before).easeFactor;
      var easeAfter := Study(m, reviews).easeFactor;
      assert easeAfter == Max(MIN_EASE_FACTOR, easeBefore + delta);
      if easeAfter == MIN_EASE_FACTOR {
        assert easeAfter == MIN_EASE_FACTOR + DeltaSum(reviews, n) - DeltaSum(reviews, n);
      } else {
        assert easeAfter == easeBefore + delta;
        if k :| 1 <= k <= n - 1 && easeBefore == MIN_EASE_FACTOR + DeltaSum(before, n - 1) - DeltaSum(before, k) {
          assert easeAfter == MIN_EASE_FACTOR + DeltaSum(reviews, n) - DeltaSum(reviews, k);
        }
      }
      forall e | IsEaseCandidate(m.easeFactor, reviews, e)
        ensures e <= easeAfter
      {
        if k :| 1 <= k <= n && e == MIN_EASE_FACTOR + DeltaSum(reviews, n) - DeltaSum(reviews, k) && k < n {
          assert IsEaseCandidate(m.easeFactor, before, e - delta) by {
            assert e - delta == MIN_EASE_FACTOR + DeltaSum(before, n - 1) - DeltaSum(before, k);
          }
        } else if e == m.easeFactor + DeltaSum(reviews, n) {
          assert IsEaseCandidate(m.easeFactor, before, e - delta);
        }
      }
    }
  }

  /** Scores from 0 to 5 keep the ease factor between the floor and ten
      hundredths per review above the default. */
  lemma {:induction false} EaseBounds(reviews: seq<Review>)
    requires Graded(reviews)
    ensures MIN_EASE_FACTOR <= Study(FRESH, reviews).easeFactor <= DEFAULT_EASE_FACTOR + 10 * |reviews|
  {
    if reviews != [] {
      EaseBounds(reviews[..|reviews| - 1]);
      EaseDeltaOrdered(reviews[|reviews| - 1].score, MAX_SCORE);
    }
  }

  lemma EaseDeltaOrdered(low: int, high: int)
    requires low <= high <= MAX_SCORE
    ensures EaseDelta(low) <= EaseDelta(high)
  {
    var d, e := MAX_SCORE - low, MAX_SCORE - high;
    assert 0 <= e <= d;
    assert e * (8 + e * 2) <= d * (8 + d * 2) by {
      assert e * e <= d * d;
    }
  }

  /** What each score does to the ease factor, in hundredths. */
  function EaseChange(score: int): int
    requires 0 <= score <= 5
  {
    [-80, -54, -32, -14, 0, 10][score]
  }

  // ---------------------------------------------------------------------
  // One more review
  // ---------------------------------------------------------------------

  /** From every reachable state a review changes the ease factor by its score
      and not below 1.30. A failed review starts over with one day. A passed
      one waits 1 day, then 6, and from then on the interval times the new ease
      factor, rounded up to whole days. */
  lemma {:induction false} NextReview(history: seq<Review>, r: Review)
    requires Graded(history + [r])
    ensures var before, after := Study(FRESH, history), Study(FRESH, history + [r]);
      && after.easeFactor == Max(130, before.easeFactor + EaseChange(r.score))
      && after.lastScore == Some(r.score)
      && before.intervalDays.Some? && after.intervalDays.Some?
      && after.dueAt == Some(r.at + after.intervalDays.value * 86400)
      && (r.score < 3 ==> after.repetitions == 0 && after.intervalDays.value == 1)
      && (r.score >= 3 ==> after.repetitions == before.repetitions + 1)
      && (r.score >= 3 && before.repetitions == 0 ==> after.intervalDays.value == 1)
      && (r.score >= 3 && before.repetitions == 1 ==> after.intervalDays.value == 6)
      && (r.score >= 3 && before.repetitions >= 2 ==>
            100 * (after.intervalDays.value - 1)
              < before.intervalDays.value * after.easeFactor
              <= 100 * after.intervalDays.value)
  {
    var all := history + [r];
    assert all[|history|] == r && all[..|history|] == history;
    assert Graded(history) by {
      assert forall i :: 0 <= i < |history| ==> all[i] == history[i];
    }
    IntervalAtLeastMinimal(history);
    assert EaseDelta(r.score) == EaseChange(r.score);
  }

  /** A fresh state, and so every history, starts from an ease of 2.50. */
  lemma FreshState()
    ensures Study(FRESH, []) == Memory(250, 0, 0, Some(0), None, None)
  {
  }

  // ---------------------------------------------------------------------
  // Repetitions, streak and interval
  // ---------------------------------------------------------------------

  /** r reviews at the end of the history passed, and no longer run did. */
  ghost predicate IsTrailingRun(reviews: seq<Review>, r: int) {
    && 0 <= r <= |reviews|
    && (forall i :: |reviews| - r <= i < |reviews| ==> reviews[i].score >= PASSING_SCORE)
    && (r < |reviews| ==> reviews[|reviews| - r - 1].score < PASSING_SCORE)
  }

  /** Repetitions and streak both count the passing reviews at the end. */
  lemma {:induction false} RepetitionsAreTrailingRun(reviews: seq<Review>)
    ensures Study(FRESH, reviews).streak == Study(FRESH, reviews).repetitions
    ensures forall r :: IsTrailingRun(reviews, r) <==> r == Study(FRESH, reviews).repetitions
  {
    if reviews != [] {
      var last := |reviews| - 1;
      var before := reviews[..last];
      RepetitionsAreTrailingRun(before);
      assert IsTrailingRun(before, Study(FRESH, before).repetitions);
      forall r | IsTrailingRun(reviews, r)
        ensures r == Study(FRESH, reviews).repetitions
      {
        if reviews[last].score >= PASSING_SCORE {
          assert r > 0 && IsTrailingRun(before, r - 1);
        }
      }
    }
  }

  /** The shortest interval that r passing reviews in a row can leave. */
  function MinimalInterval(r: nat): (days: int)
    ensures days >= 0
  {
    if r == 0 then 0 else if r == 1 then 1 else if r == 2 then 6
    else CeilDiv(MinimalInterval(r - 1) * MIN_EASE_FACTOR, 100)
  }

  lemma {:induction false} MinimalIntervalMonotone(r: nat)
    ensures MinimalInterval(r) < MinimalInterval(r + 1)
    ensures r >= 2 ==> MinimalInterval(r) >= 6
  {
    if r > 2 {
      MinimalIntervalMonotone(r - 1);
    }
  }

  lemma CeilScaleMonotone(i: int, j: int, e: int, f: int)
    requires 0 <= i <= j && 0 <= e <= f
    ensures CeilDiv(i * e, 100) <= CeilDiv(j * f, 100)
  {
    assert i * e <= j * e <= j * f by {
      assert (j - i) * e >= 0 && j * (f - e) >= 0;
    }
  }

  /** No reachable state has a shorter interval than its repetitions allow. */
  lemma {:induction false} IntervalAtLeastMinimal(reviews: seq<Review>)
    requires Graded(reviews)
    ensures var m := Study(FRESH, reviews);
      && m.repetitions >= 0 && m.intervalDays.Some?
      && m.intervalDays.value >= MinimalInterval(m.repetitions)
      && (reviews != [] ==> m.intervalDays.value >= 1)
      && (m.dueAt.Some? <==> reviews != [])
      && (reviews != [] ==>
            m.dueAt.value == reviews[|reviews| - 1].at + m.intervalDays.value * SECONDS_PER_DAY)
  {
    if reviews != [] {
      var before := reviews[..|reviews| - 1];
      IntervalAtLeastMinimal(before);
      EaseBounds(reviews);
      var m, m' := Study(FRESH, before), Study(FRESH, reviews);
      if m.repetitions >= 2 && m'.repetitions > 0 {
        MinimalIntervalMonotone(m.repetitions);
        CeilScaleMonotone(MinimalInterval(m.repetitions), m.intervalDays.value, MIN_EASE_FACTOR, m'.easeFactor);
      }
    }
  }

  function Pow(b: nat, k: nat): nat {
    if k == 0 then 1 else b * Pow(b, k - 1)
  }

  lemma ScaleMonotone(i: int, j: int, p: nat)
    requires i <= j
    ensures i * p <= j * p
  {
    assert (j - i) * p >= 0;
  }

  /** One more factor of 13/10 on top of a bound already reached. */
  lemma GrowthStep(i: int, j: int, p: nat, q: nat)
    requires 10 * j >= 13 * i && i * p >= 6 * q
    ensures j * (10 * p) >= 6 * (13 * q)
  {
    ScaleMonotone(13 * i, 10 * j, p);
    assert (13 * i) * p == 13 * (i * p);
    assert (10 * j) * p == j * (10 * p);
  }

  lemma {:induction false} MinimalIntervalGrowth(r: nat)
    requires r >= 2
    ensures MinimalInterval(r) * Pow(10, r - 2) >= 6 * Pow(13, r - 2)
  {
    if r > 2 {
      MinimalIntervalGrowth(r - 1);
      GrowthStep(MinimalInterval(r - 1), MinimalInterval(r), Pow(10, r - 3), Pow(13, r - 3));
    }
  }

  /** With r >= 2 repetitions the interval is at least 6 * 1.3^(r - 2) days. */
  lemma {:induction false} IntervalGrowth(reviews: seq<Review>)
    requires Graded(reviews)
    requires Study(FRESH, reviews).repetitions >= 2
    ensures var m := Study(FRESH, reviews);
      m.intervalDays.Some?
      && m.intervalDays.value * Pow(10, m.repetitions - 2) >= 6 * Pow(13, m.repetitions - 2)
  {
    IntervalAtLeastMinimal(reviews);
    var m := Study(FRESH, reviews);
    MinimalIntervalGrowth(m.repetitions);
    ScaleMonotone(MinimalInterval(m.repetitions), m.intervalDays.value, Pow(10, m.repetitions - 2));
  }

  /** The history that forgets a card twice and then passes it r times with
      the lowest passing score. */
  function SlowestHistory(r: nat): seq<Review> {
    seq(r + 2, i => Review(if i < 2 then 0 else PASSING_SCORE, i))
  }

  lemma LowestPass(m: Memory, r: nat, now: int)
    requires r >= 1 && m.repetitions == r && m.easeFactor == MIN_EASE_FACTOR
    requires m.intervalDays == Some(MinimalInterval(r))
    ensures var m' := Answered(m, PASSING_SCORE, now);
      m'.repetitions == r + 1 && m'.easeFactor == MIN_EASE_FACTOR && m'.intervalDays == Some(MinimalInterval(r + 1))
  {
    assert MIN_EASE_FACTOR + EaseDelta(PASSING_SCORE) < MIN_EASE_FACTOR;
  }

  /** The lower bound is attained for every number of repetitions. */
  lemma {:induction false} MinimalIntervalAttained(r: nat)
    requires r >= 1
    ensures Graded(SlowestHistory(r))
    ensures var m := Study(FRESH, SlowestHistory(r));
      m.repetitions == r && m.easeFactor == MIN_EASE_FACTOR && m.intervalDays == Some(MinimalInterval(r))
  {
    var h := SlowestHistory(r);
    if r == 1 {
      assert h[..2] == [Review(0, 0), Review(0, 1)];
      assert h[..2][..1] == [Review(0, 0)];
      assert Study(FRESH, h[..2][..1]).easeFactor == 170;
      assert Study(FRESH, h[..2]).easeFactor == MIN_EASE_FACTOR;
    } else {
      assert h[..r + 1] == SlowestHistory(r - 1);
      MinimalIntervalAttained(r - 1);
      LowestPass(Study(FRESH, h[..r + 1]), r - 1, h[r + 1].at);
    }
  }

  lemma {:induction false} PassesRaiseRepetitions(m: Memory, passes: seq<Review>)
    requires forall i :: 0 <= i < |passes| ==> passes[i].score >= PASSING_SCORE
    ensures Study(m, passes).repetitions == m.repetitions + |passes|
  {
    if passes != [] {
      PassesRaiseRepetitions(m, passes[..|passes| - 1]);
    }
  }

  ghost predicate Mastered(m: Memory) {
    m.intervalDays.Some? && m.intervalDays.value >= MASTERY_INTERVAL_THRESHOLD
  }

  lemma {:induction false} MinimalIntervalReachesMastery(r: nat)
    requires r >= 7
    ensures MinimalInterval(r) >= 26
    ensures MinimalInterval(6) == 20
  {
    if r == 7 {
      assert MinimalInterval(3) == 8;
      assert MinimalInterval(4) == 11;
      assert MinimalInterval(5) == 15;
      assert MinimalInterval(6) == 20;
    } else {
      MinimalIntervalReachesMastery(r - 1);
      MinimalIntervalMonotone(r - 1);
    }
  }

  /** Seven passes in a row master a card from every reachable state. */
  lemma {:induction false} SevenPassesMaster(history: seq<Review>, passes: seq<Review>)
    requires Graded(history) && Graded(passes)
    requires |passes| >= 7
    requires forall i :: 0 <= i < |passes| ==> passes[i].score >= PASSING_SCORE
    ensures Mastered(Study(FRESH, history + passes))
  {
    StudyAppend(FRESH, history, passes);
    PassesRaiseRepetitions(Study(FRESH, history), passes);
    IntervalAtLeastMinimal(history);
    IntervalAtLeastMinimal(history + passes);
    MinimalIntervalReachesMastery(Study(FRESH, history + passes).repetitions);
  }

  /** Six do not: the card below is passed six times and still not mastered. */
  lemma {:induction false} SixPassesMayNotMaster()
    ensures Graded(SlowestHistory(6))
    ensures forall i :: 2 <= i < 8 ==> SlowestHistory(6)[i].score >= PASSING_SCORE
    ensures !Mastered(Study(FRESH, SlowestHistory(6)))
  {
    MinimalIntervalAttained(6);
    MinimalIntervalReachesMastery(7);
  }

  // ---------------------------------------------------------------------
  // Two histories
  // ---------------------------------------------------------------------

  ghost predicate AtLeast(a: Option<int>, b: Option<int>) {
    (a.Some? <==> b.Some?) && (a.Some? && b.Some? ==> a.value >= b.value)
  }

  ghost predicate Dominates(a: Memory, b: Memory) {
    && a.easeFactor >= b.easeFactor
    && a.repetitions >= b.repetitions
    && a.streak >= b.streak
    && AtLeast(a.intervalDays, b.intervalDays)
    && AtLeast(a.dueAt, b.dueAt)
  }

  /** What every reachable state satisfies and one answer needs. */
  ghost predicate Grown(m: Memory) {
    && m.easeFactor >= MIN_EASE_FACTOR
    && m.repetitions >= 0 && m.streak == m.repetitions
    && m.intervalDays.Some? && m.intervalDays.value >= 0
    && (m.repetitions >= 2 ==> m.intervalDays.value >= 6)
  }

  lemma ReachableIsGrown(reviews: seq<Review>)
    requires Graded(reviews)
    ensures Grown(Study(FRESH, reviews))
  {
    EaseBounds(reviews);
    RepetitionsAreTrailingRun(reviews);
    IntervalAtLeastMinimal(reviews);
    MinimalIntervalMonotone(Study(FRESH, reviews).repetitions);
  }

  lemma AnswerKeepsDomination(a: Memory, b: Memory, better: int, worse: int, now: int)
    requires Grown(a) && Grown(b) && Dominates(a, b)
    requires worse <= better <= MAX_SCORE
    ensures Dominates(Answered(a, better, now), Answered(b, worse, now))
  {
    EaseDeltaOrdered(worse, better);
    var e, f := Answered(b, worse, now).easeFactor, Answered(a, better, now).easeFactor;
    if a.repetitions >= 2 && better >= PASSING_SCORE {
      CeilScaleMonotone(6, a.intervalDays.value, MIN_EASE_FACTOR, f);
      assert CeilDiv(6 * MIN_EASE_FACTOR, 100) == 8;
      if b.repetitions >= 2 {
        CeilScaleMonotone(b.intervalDays.value, a.intervalDays.value, e, f);
      }
    }
  }

  /** Better scores at the same times never leave a card worse off. */
  lemma {:induction false} BetterScoresDominate(better: seq<Review>, worse: seq<Review>)
    requires |better| == |worse|
    requires Graded(better) && Graded(worse)
    requires forall i :: 0 <= i < |better| ==>
      better[i].at == worse[i].at && better[i].score >= worse[i].score
    ensures Dominates(Study(FRESH, better), Study(FRESH, worse))
  {
    if better != [] {
      var last := |better| - 1;
      BetterScoresDominate(better[..last], worse[..last]);
      ReachableIsGrown(better[..last]);
      ReachableIsGrown(worse[..last]);
      AnswerKeepsDomination(Study(FRESH, better[..last]), Study(FRESH, worse[..last]),
                            better[last].score, worse[last].score, better[last].at);
    }
  }
}
