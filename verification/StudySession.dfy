/** A study session (services/session.py): cards ordered by a mutable position,
    answered one at a time, skipped to the end, within a time limit. */
module StudySession {
  import opened Base
  import SR = SpacedRepetition

  const MAX_ANSWER_LENGTH := 2000
  const DEFAULT_LIFETIME := 7200

  /** Lower-casing and splitting into a set of words are left open. */
  datatype Lexer = Lexer(lower: string -> string, words: string -> set<string>)

  datatype Question = Question(card: nat, canonical: string)

  datatype SessionCard = SessionCard(
    question: Question,
    answered: bool,
    position: int,
    correct: Option<bool>,
    score: Option<int>,
    answeredAt: Option<int>)

  type Memories = map<nat, SR.Memory>

  datatype Session = Session(
    ended: bool,
    endedAt: Option<int>,
    createdAt: int,
    expiresAt: int,
    cardLimit: nat,
    rows: seq<SessionCard>,
    memories: Memories)

  /** A request carries the clock. When it raises because the session has
      expired, the ENDED it has just written may or may not be committed. */
  datatype Request =
    | Answer(text: string, now: int, kept: bool)
    | Skip(now: int, kept: bool)
    | End(now: int)
    | Get(now: int, kept: bool)

  datatype Response =
    | Scored(score: int, isCorrect: bool, canonical: string, nextCard: Option<Question>,
             cardsDone: nat, cardsTotal: nat, correctSoFar: nat)
    | Skipped(nextCard: Option<Question>)
    | Ended
    | Shown(ended: bool, cardsTotal: nat, cardsDone: nat, current: Option<Question>)
    | AlreadyEnded
    | AnswerTooLong
    | NoCardsAvailable

  // ---------------------------------------------------------------------
  // Scoring
  // ---------------------------------------------------------------------

  function EvaluateAnswer(lex: Lexer, submitted: string, canonical: string): int {
    var s, c := lex.lower(submitted), lex.lower(canonical);
    if s == c then 5
    else
      var common, all := |lex.words(c) * lex.words(s)|, |lex.words(c)|;
      if 10 * common > 9 * all then 5
      else if 4 * common > 3 * all then 4
      else if 2 * common > all then 3
      else if 4 * common > all then 2
      else if common > 0 then 1
      else 0
  }

  lemma CommonWords(a: set<string>, b: set<string>)
    ensures |a * b| <= |a|
  {
    assert a == a * b + (a - b);
    assert |a| == |a * b| + |a - b|;
  }

  /** A score is a valid SM-2 grade. It passes exactly when the texts agree up
      to case or more than half of the expected words were given, and it is 0
      exactly when they differ and no expected word was given. */
  lemma ScoreMeaning(lex: Lexer, submitted: string, canonical: string)
    ensures var score := EvaluateAnswer(lex, submitted, canonical);
      var s, c := lex.lower(submitted), lex.lower(canonical);
      var common, all := lex.words(c) * lex.words(s), lex.words(c);
      && 0 <= score <= SR.MAX_SCORE
      && (score >= SR.PASSING_SCORE <==> s == c || 2 * |common| > |all|)
      && (score == 0 <==> s != c && common == {})
      && (all <= lex.words(s) && all != {} ==> score == 5)
  {
    var s, c := lex.lower(submitted), lex.lower(canonical);
    CommonWords(lex.words(c), lex.words(s));
    if lex.words(c) <= lex.words(s) {
      assert lex.words(c) * lex.words(s) == lex.words(c);
    }
  }

  /** The share of the expected words that were given. */
  function Share(lex: Lexer, submitted: string, canonical: string): real {
    var expected, given := lex.words(lex.lower(canonical)), lex.words(lex.lower(submitted));
    if expected == {} then 0.0 else |expected * given| as real / |expected| as real
  }

  lemma QuotientAbove(a: real, b: real, x: real)
    requires b > 0.0
    ensures a / b > x <==> a > x * b
  {
    var q := a / b;
    assert q * b == a;
    assert q > x ==> (q - x) * b > 0.0;
    assert q <= x ==> (x - q) * b >= 0.0;
  }

  /** Every grade in terms of the share of the expected words: more than nine
      tenths, three quarters, a half, a quarter, or any. */
  lemma ScoreExactly(lex: Lexer, submitted: string, canonical: string)
    ensures var score, share := EvaluateAnswer(lex, submitted, canonical), Share(lex, submitted, canonical);
      var agree := lex.lower(submitted) == lex.lower(canonical);
      && 0 <= score <= 5
      && (score >= 5 <==> agree || share > 0.9)
      && (score >= 4 <==> agree || share > 0.75)
      && (score >= 3 <==> agree || share > 0.5)
      && (score >= 2 <==> agree || share > 0.25)
      && (score >= 1 <==> agree || share > 0.0)
  {
    var expected, given := lex.words(lex.lower(canonical)), lex.words(lex.lower(submitted));
    if expected == {} {
      assert expected * given == {};
    } else {
      var a, b := |expected * given| as real, |expected| as real;
      QuotientAbove(a, b, 0.9);
      QuotientAbove(a, b, 0.75);
      QuotientAbove(a, b, 0.5);
      QuotientAbove(a, b, 0.25);
      QuotientAbove(a, b, 0.0);
    }
  }

  /** Giving more of the expected words never lowers the score. */
  lemma MoreWordsScoreHigher(lex: Lexer, fewer: string, more: string, canonical: string)
    requires var c := lex.lower(canonical);
      lex.words(c) * lex.words(lex.lower(fewer)) <= lex.words(c) * lex.words(lex.lower(more))
    requires lex.lower(fewer) != lex.lower(canonical)
    ensures EvaluateAnswer(lex, fewer, canonical) <= EvaluateAnswer(lex, more, canonical)
  {
    var c := lex.lower(canonical);
    var few, many := lex.words(c) * lex.words(lex.lower(fewer)), lex.words(c) * lex.words(lex.lower(more));
    assert many == few + (many - few);
    assert |many| == |few| + |many - few|;
  }

  // ---------------------------------------------------------------------
  // Queries over the rows
  // ---------------------------------------------------------------------

  /** The unanswered row with the least position. */
  function Head(rows: seq<SessionCard>): (h: Option<nat>)
    ensures h.None? ==> forall i :: 0 <= i < |rows| ==> rows[i].answered
    ensures h.Some? ==> h.value < |rows| && !rows[h.value].answered
    ensures h.Some? ==> forall i :: 0 <= i < |rows| && !rows[i].answered ==> rows[h.value].position <= rows[i].position
  {
    if rows == [] then None
    else
      var last := |rows| - 1;
      var h := Head(rows[..last]);
      if rows[last].answered || (h.Some? && rows[h.value].position <= rows[last].position) then h else Some(last)
  }

  function MaxPosition(rows: seq<SessionCard>): (m: Option<int>)
    ensures m.None? <==> rows == []
    ensures m.Some? ==> forall i :: 0 <= i < |rows| ==> rows[i].position <= m.value
  {
    if rows == [] then None
    else
      var last := |rows| - 1;
      var m := MaxPosition(rows[..last]);
      if m.Some? && m.value >= rows[last].position then m else Some(rows[last].position)
  }

  function CountAnswered(rows: seq<SessionCard>): nat {
    if rows == [] then 0
    else CountAnswered(rows[..|rows| - 1]) + if rows[|rows| - 1].answered then 1 else 0
  }

  function CountCorrect(rows: seq<SessionCard>): nat {
    if rows == [] then 0
    else CountCorrect(rows[..|rows| - 1]) + if rows[|rows| - 1].correct == Some(true) then 1 else 0
  }

  function HeadQuestion(rows: seq<SessionCard>): Option<Question> {
    var h := Head(rows);
    if h.Some? then Some(rows[h.value].question) else None
  }

  function MemoryOf(memories: Memories, card: nat): SR.Memory {
    if card in memories then memories[card] else SR.FRESH
  }

  predicate Closed(ended: bool, expiresAt: int, now: int) {
    ended || expiresAt < now
  }

  // ---------------------------------------------------------------------
  // The service
  // ---------------------------------------------------------------------

  function Row(row: SessionCard, score: int, now: int): SessionCard {
    row.(answered := true, correct := Some(score >= 3), score := Some(score), answeredAt := Some(now))
  }

  /** Row h bumped to one past the highest position of the session. */
  function MovedToEnd(rows: seq<SessionCard>, h: nat): (moved: seq<SessionCard>)
    requires h < |rows|
  {
    rows[h := rows[h].(position := MaxPosition(rows).GetOr(-1) + 1)]
  }

  /** The session after one request, and the response. */
  function Step(lex: Lexer, s: Session, req: Request): (Session, Response) {
    match req
    case Answer(text, now, kept) =>
      if s.ended then (s, AlreadyEnded)
      else if s.expiresAt < now then (s.(ended := kept), AlreadyEnded)
      else if |text| > MAX_ANSWER_LENGTH then (s, AnswerTooLong)
      else if Head(s.rows).None? then (s, NoCardsAvailable)
      else
        var h := Head(s.rows).value;
        var q := s.rows[h].question;
        var score := EvaluateAnswer(lex, text, q.canonical);
        var rows := s.rows[h := Row(s.rows[h], score, now)];
        var memories := s.memories[q.card := SR.Answered(MemoryOf(s.memories, q.card), score, now)];
        var last := HeadQuestion(rows).None?;
        (s.(rows := rows, memories := memories, ended := last, endedAt := if last then Some(now) else s.endedAt),
         Scored(score, score >= 3, q.canonical, HeadQuestion(rows), CountAnswered(rows), s.cardLimit,
                CountCorrect(rows)))
    case Skip(now, kept) =>
      if s.ended then (s, AlreadyEnded)
      else if s.expiresAt < now then (s.(ended := kept), AlreadyEnded)
      else if Head(s.rows).None? then (s, NoCardsAvailable)
      else
        var h := Head(s.rows).value;
        var rows := MovedToEnd(s.rows, h);
        (s.(rows := rows), Skipped(HeadQuestion(rows)))
    case End(now) =>
      (if s.ended then s else s.(ended := true, endedAt := Some(now)), Ended)
    case Get(now, kept) =>
      if s.expiresAt < now && !s.ended then (s.(ended := kept), AlreadyEnded)
      else (s, Shown(s.ended, s.cardLimit, CountAnswered(s.rows), HeadQuestion(s.rows)))
  }

  class SessionService {
    var ended: bool
    var endedAt: Option<int>
    const createdAt: int
    const expiresAt: int
    const cardLimit: nat
    var rows: seq<SessionCard>
    var memories: Memories

    function Value(): Session
      reads this
    {
      Session(ended, endedAt, createdAt, expiresAt, cardLimit, rows, memories)
    }

    /** start_session, given the cards its query selected. */
    constructor (cards: seq<Question>, memories: Memories, timeLimit: Option<int>, now: int)
      ensures Value() == Started(cards, memories, timeLimit, now)
    {
      if timeLimit.Some? && timeLimit.value > 0 {
        expiresAt := now + timeLimit.value;
      } else {
        expiresAt := now + DEFAULT_LIFETIME;
      }
      ended, endedAt, createdAt, cardLimit := false, None, now, |cards|;
      this.memories := memories;
      rows := [];
      new;
      for index := 0 to |cards|
        invariant Value() == Started(cards, memories, timeLimit, now).(rows := NewRows(cards[..index]))
      {
        assert NewRows(cards[..index + 1]) == NewRows(cards[..index]) + [NewRow(cards[index], index)];
        rows := rows + [SessionCard(cards[index], false, index, None, None, None)];
      }
      assert cards[..|cards|] == cards;
    }

    method AnswerCard(lex: Lexer, text: string, now: int, kept: bool) returns (r: Response)
      modifies this
      ensures (Value(), r) == Step(lex, old(Value()), Answer(text, now, kept))
    {
      if ended {
        return AlreadyEnded;
      }
      if expiresAt < now {
        ended := kept;
        return AlreadyEnded;
      }
      if |text| > MAX_ANSWER_LENGTH {
        return AnswerTooLong;
      }
      var current := Head(rows);
      if current.None? {
        return NoCardsAvailable;
      }
      var row := rows[current.value];
      var score := EvaluateAnswer(lex, text, row.question.canonical);
      var isCorrect := score >= 3;
      row := row.(answered := true);
      row := row.(correct := Some(isCorrect));
      row := row.(score := Some(score));
      row := row.(answeredAt := Some(now));
      rows := rows[current.value := row];
      memories := memories[row.question.card := SR.Answered(MemoryOf(memories, row.question.card), score, now)];

      var next := HeadQuestion(rows);
      var cardsDone, correctSoFar := CountAnswered(rows), CountCorrect(rows);
      if next.None? {
        ended := true;
        endedAt := Some(now);
      }
      r := Scored(score, isCorrect, row.question.canonical, next, cardsDone, cardLimit, correctSoFar);
    }

    method SkipCard(lex: Lexer, now: int, kept: bool) returns (r: Response)
      modifies this
      ensures (Value(), r) == Step(lex, old(Value()), Skip(now, kept))
    {
      if ended {
        return AlreadyEnded;
      }
      if expiresAt < now {
        ended := kept;
        return AlreadyEnded;
      }
      var current := Head(rows);
      if current.None? {
        return NoCardsAvailable;
      }
      var maxPos := MaxPosition(rows).GetOr(-1);
      rows := rows[current.value := rows[current.value].(position := maxPos + 1)];
      r := Skipped(HeadQuestion(rows));
    }

    method EndSession(lex: Lexer, now: int) returns (r: Response)
      modifies this
      ensures (Value(), r) == Step(lex, old(Value()), End(now))
    {
      if !ended {
        ended := true;
        endedAt := Some(now);
      }
      r := Ended;
    }

    method GetSession(lex: Lexer, now: int, kept: bool) returns (r: Response)
      modifies this
      ensures (Value(), r) == Step(lex, old(Value()), Get(now, kept))
    {
      if expiresAt < now && !ended {
        ended := kept;
        return AlreadyEnded;
      }
      r := Shown(ended, cardLimit, CountAnswered(rows), HeadQuestion(rows));
    }
  }

  function NewRow(q: Question, index: int): SessionCard {
    SessionCard(q, false, index, None, None, None)
  }

  function NewRows(cards: seq<Question>): seq<SessionCard> {
    seq(|cards|, i requires 0 <= i < |cards| => NewRow(cards[i], i))
  }

  function Started(cards: seq<Question>, memories: Memories, timeLimit: Option<int>, now: int): Session {
    var lifetime := if timeLimit.Some? && timeLimit.value > 0 then timeLimit.value else DEFAULT_LIFETIME;
    Session(false, None, now, now + lifetime, |cards|, NewRows(cards), memories)
  }

  /** The session after a run of requests, and all the responses. */
  function Serve(lex: Lexer, s: Session, reqs: seq<Request>): (Session, seq<Response>) {
    if reqs == [] then (s, [])
    else
      var last := |reqs| - 1;
      var (before, responses) := Serve(lex, s, reqs[..last]);
      var (after, r) := Step(lex, before, reqs[last]);
      (after, responses + [r])
  }

  // ---------------------------------------------------------------------
  // The specification: a plain rotating queue
  // ---------------------------------------------------------------------

  /** The pending cards by index, and running totals. No positions, no rows. */
  datatype Rotation = Rotation(
    ended: bool,
    endedAt: Option<int>,
    pending: seq<nat>,
    done: nat,
    correct: nat,
    memories: Memories)

  function FirstOf(cards: seq<Question>, pending: seq<nat>): Option<Question> {
    if pending != [] && pending[0] < |cards| then Some(cards[pending[0]]) else None
  }

  function Rotate(lex: Lexer, cards: seq<Question>, expiresAt: int, q: Rotation, req: Request): (Rotation, Response) {
    match req
    case Answer(text, now, kept) =>
      if Closed(q.ended, expiresAt, now) then (q.(ended := q.ended || kept), AlreadyEnded)
      else if |text| > MAX_ANSWER_LENGTH then (q, AnswerTooLong)
      else if FirstOf(cards, q.pending).None? then (q, NoCardsAvailable)
      else
        var question := FirstOf(cards, q.pending).value;
        var score := EvaluateAnswer(lex, text, question.canonical);
        var rest := q.pending[1..];
        var correct := q.correct + if score >= 3 then 1 else 0;
        var memory := SR.Answered(MemoryOf(q.memories, question.card), score, now);
        (Rotation(rest == [], if rest == [] then Some(now) else q.endedAt, rest, q.done + 1, correct,
                  q.memories[question.card := memory]),
         Scored(score, score >= 3, question.canonical, FirstOf(cards, rest), q.done + 1, |cards|, correct))
    case Skip(now, kept) =>
      if Closed(q.ended, expiresAt, now) then (q.(ended := q.ended || kept), AlreadyEnded)
      else if FirstOf(cards, q.pending).None? then (q, NoCardsAvailable)
      else
        var turned := q.pending[1..] + [q.pending[0]];
        (q.(pending := turned), Skipped(FirstOf(cards, turned)))
    case End(now) =>
      (if q.ended then q else q.(ended := true, endedAt := Some(now)), Ended)
    case Get(now, kept) =>
      if !q.ended && expiresAt < now then (q.(ended := kept), AlreadyEnded)
      else (q, Shown(q.ended, |cards|, q.done, FirstOf(cards, q.pending)))
  }

  function RotateAll(lex: Lexer, cards: seq<Question>, expiresAt: int, q: Rotation, reqs: seq<Request>)
    : (Rotation, seq<Response>)
  {
    if reqs == [] then (q, [])
    else
      var last := |reqs| - 1;
      var (before, responses) := RotateAll(lex, cards, expiresAt, q, reqs[..last]);
      var (after, r) := Rotate(lex, cards, expiresAt, before, reqs[last]);
      (after, responses + [r])
  }

  function AllPending(cards: seq<Question>, memories: Memories): Rotation {
    Rotation(false, None, seq(|cards|, i => i), 0, 0, memories)
  }

  // ---------------------------------------------------------------------
  // Refinement
  // ---------------------------------------------------------------------

  /** p lists the unanswered rows. */
  ghost predicate ListsPending(rows: seq<SessionCard>, p: seq<nat>) {
    forall i :: i in p <==> 0 <= i < |rows| && !rows[i].answered
  }

  ghost predicate Ascending(rows: seq<SessionCard>, p: seq<nat>) {
    && (forall a :: 0 <= a < |p| ==> p[a] < |rows|)
    && (forall a, b :: 0 <= a < b < |p| ==> rows[p[a]].position < rows[p[b]].position)
  }

  /** p lists the unanswered rows, each once, by increasing position. */
  ghost predicate IsQueue(rows: seq<SessionCard>, p: seq<nat>) {
    ListsPending(rows, p) && Ascending(rows, p)
  }

  ghost predicate DistinctPositions(rows: seq<SessionCard>) {
    forall i, j :: 0 <= i < j < |rows| ==> rows[i].position != rows[j].position
  }

  /** One row per card, at pairwise distinct positions. */
  ghost predicate RowsOf(rows: seq<SessionCard>, cards: seq<Question>) {
    && |rows| == |cards|
    && (forall i :: 0 <= i < |cards| ==>
          rows[i].question == cards[i] && (rows[i].correct.Some? <==> rows[i].answered))
    && DistinctPositions(rows)
  }

  /** The rows and the queue stand for the same session. */
  ghost predicate Simulates(s: Session, q: Rotation, cards: seq<Question>) {
    && s.ended == q.ended && s.endedAt == q.endedAt && s.memories == q.memories
    && s.cardLimit == |cards| && RowsOf(s.rows, cards)
    && IsQueue(s.rows, q.pending)
    && q.done == CountAnswered(s.rows) && q.correct == CountCorrect(s.rows)
  }

  lemma {:induction false} CountsAfterUpdate(rows: seq<SessionCard>, i: nat, row: SessionCard)
    requires i < |rows|
    ensures CountAnswered(rows[i := row]) ==
      CountAnswered(rows) + (if row.answered then 1 else 0) - (if rows[i].answered then 1 else 0)
    ensures CountCorrect(rows[i := row]) ==
      CountCorrect(rows)
      + (if row.correct == Some(true) then 1 else 0) - (if rows[i].correct == Some(true) then 1 else 0)
  {
    var last := |rows| - 1;
    if i == last {
      assert rows[i := row][..last] == rows[..last];
    } else {
      assert rows[i := row][..last] == rows[..last][i := row];
      CountsAfterUpdate(rows[..last], i, row);
    }
  }

  /** The row a query finds first is the front of the queue. */
  lemma HeadIsFront(rows: seq<SessionCard>, p: seq<nat>)
    requires IsQueue(rows, p)
    ensures Head(rows) == if p == [] then None else Some(p[0])
  {
    var h := Head(rows);
    if p != [] {
      assert p[0] in p;
      assert h.Some?;
      var k :| 0 <= k < |p| && p[k] == h.value;
    }
  }

  lemma FrontIsNotInRest(rows: seq<SessionCard>, p: seq<nat>)
    requires Ascending(rows, p) && p != []
    ensures p[0] !in p[1..]
  {
    assert forall a :: 0 <= a < |p| - 1 ==> p[1..][a] == p[a + 1] && rows[p[0]].position < rows[p[a + 1]].position;
  }

  lemma DroppedAscends(rows: seq<SessionCard>, p: seq<nat>, row: SessionCard)
    requires Ascending(rows, p) && p != []
    ensures Ascending(rows[p[0] := row], p[1..])
  {
    var after, rest := rows[p[0] := row], p[1..];
    FrontIsNotInRest(rows, p);
    forall a, b | 0 <= a < b < |rest|
      ensures after[rest[a]].position < after[rest[b]].position
    {
      assert rest[a] in rest && rest[b] in rest;
      assert rest[a] == p[a + 1] && rest[b] == p[b + 1];
    }
  }

  lemma AnswerDropsFront(rows: seq<SessionCard>, p: seq<nat>, row: SessionCard)
    requires IsQueue(rows, p) && p != [] && row.answered
    ensures IsQueue(rows[p[0] := row], p[1..])
  {
    DroppedAscends(rows, p, row);
    FrontIsNotInRest(rows, p);
    assert p == [p[0]] + p[1..];
  }

  /** The front row moves behind all others when its new position is the
      highest. */
  lemma TurnedAscends(rows: seq<SessionCard>, p: seq<nat>, row: SessionCard)
    requires Ascending(rows, p) && p != []
    requires forall i :: 0 <= i < |rows| ==> rows[i].position < row.position
    ensures Ascending(rows[p[0] := row], p[1..] + [p[0]])
  {
    var after, turned := rows[p[0] := row], p[1..] + [p[0]];
    forall a, b | 0 <= a < b < |turned|
      ensures after[turned[a]].position < after[turned[b]].position
    {
      assert turned[a] == p[a + 1] && p[a + 1] != p[0];
      if b < |p| - 1 {
        assert turned[b] == p[b + 1] && p[b + 1] != p[0];
      }
    }
  }

  lemma SkipTurnsFront(rows: seq<SessionCard>, p: seq<nat>, row: SessionCard)
    requires IsQueue(rows, p) && p != [] && !row.answered
    requires forall i :: 0 <= i < |rows| ==> rows[i].position < row.position
    ensures IsQueue(rows[p[0] := row], p[1..] + [p[0]])
  {
    TurnedAscends(rows, p, row);
    assert p == [p[0]] + p[1..];
    assert p[0] in p;
  }

  lemma HeadQuestionIsFront(rows: seq<SessionCard>, cards: seq<Question>, p: seq<nat>)
    requires RowsOf(rows, cards) && IsQueue(rows, p)
    ensures HeadQuestion(rows) == FirstOf(cards, p)
    ensures Head(rows) == if p == [] then None else Some(p[0])
    ensures p != [] ==> p[0] < |rows| && !rows[p[0]].answered && rows[p[0]].question == cards[p[0]]
  {
    HeadIsFront(rows, p);
    if p != [] {
      assert p[0] in p;
    }
  }

  /** Answering the head row, seen on the rows alone. */
  lemma {:induction false} AnsweredRows(rows: seq<SessionCard>, cards: seq<Question>, p: seq<nat>, score: int,
                                        now: int)
    requires RowsOf(rows, cards) && IsQueue(rows, p) && p != [] && p[0] < |rows| && !rows[p[0]].answered
    ensures var after := rows[p[0] := Row(rows[p[0]], score, now)];
      && RowsOf(after, cards) && IsQueue(after, p[1..])
      && HeadQuestion(after) == FirstOf(cards, p[1..])
      && CountAnswered(after) == CountAnswered(rows) + 1
      && CountCorrect(after) == CountCorrect(rows) + if score >= 3 then 1 else 0
  {
    var row := Row(rows[p[0]], score, now);
    CountsAfterUpdate(rows, p[0], row);
    AnswerDropsFront(rows, p, row);
    HeadQuestionIsFront(rows[p[0] := row], cards, p[1..]);
  }

  /** Skipping the head row, seen on the rows alone. */
  lemma {:induction false} SkippedRows(rows: seq<SessionCard>, cards: seq<Question>, p: seq<nat>)
    requires RowsOf(rows, cards) && IsQueue(rows, p) && p != [] && p[0] < |rows| && !rows[p[0]].answered
    ensures var after := MovedToEnd(rows, p[0]);
      && RowsOf(after, cards) && IsQueue(after, p[1..] + [p[0]])
      && HeadQuestion(after) == FirstOf(cards, p[1..] + [p[0]])
      && CountAnswered(after) == CountAnswered(rows) && CountCorrect(after) == CountCorrect(rows)
  {
    var row := rows[p[0]].(position := MaxPosition(rows).GetOr(-1) + 1);
    CountsAfterUpdate(rows, p[0], row);
    SkipTurnsFront(rows, p, row);
    HeadQuestionIsFront(rows[p[0] := row], cards, p[1..] + [p[0]]);
  }

  /** An answer that is taken, in terms of the rows it leaves. */
  lemma AnswerTaken(lex: Lexer, s: Session, q: Rotation, cards: seq<Question>, req: Request)
    requires Simulates(s, q, cards) && req.Answer? && q.pending != []
    requires !Closed(s.ended, s.expiresAt, req.now) && |req.text| <= MAX_ANSWER_LENGTH
    ensures q.pending[0] < |s.rows|
    ensures var (s', r) := Step(lex, s, req);
      var (q', r') := Rotate(lex, cards, s.expiresAt, q, req);
      r == r' && Simulates(s', q', cards) && s'.expiresAt == s.expiresAt
  {
    HeadQuestionIsFront(s.rows, cards, q.pending);
    var h, rest := q.pending[0], q.pending[1..];
    var score := EvaluateAnswer(lex, req.text, cards[h].canonical);
    var after := s.rows[h := Row(s.rows[h], score, req.now)];
    AnsweredRows(s.rows, cards, q.pending, score, req.now);
    HeadQuestionIsFront(after, cards, rest);
    assert Step(lex, s, req).0.rows == after;
    assert Step(lex, s, req).0.ended <==> rest == [];
  }

  lemma AnswerSimulates(lex: Lexer, s: Session, q: Rotation, cards: seq<Question>, req: Request)
    requires Simulates(s, q, cards) && req.Answer?
    ensures var (s', r) := Step(lex, s, req);
      var (q', r') := Rotate(lex, cards, s.expiresAt, q, req);
      r == r' && Simulates(s', q', cards) && s'.expiresAt == s.expiresAt
  {
    if !Closed(s.ended, s.expiresAt, req.now) && |req.text| <= MAX_ANSWER_LENGTH && q.pending != [] {
      AnswerTaken(lex, s, q, cards, req);
    } else {
      HeadQuestionIsFront(s.rows, cards, q.pending);
    }
  }

  lemma SkipSimulates(lex: Lexer, s: Session, q: Rotation, cards: seq<Question>, req: Request)
    requires Simulates(s, q, cards) && req.Skip?
    ensures var (s', r) := Step(lex, s, req);
      var (q', r') := Rotate(lex, cards, s.expiresAt, q, req);
      r == r' && Simulates(s', q', cards) && s'.expiresAt == s.expiresAt
  {
    HeadQuestionIsFront(s.rows, cards, q.pending);
    if !Closed(s.ended, s.expiresAt, req.now) && q.pending != [] {
      var after := MovedToEnd(s.rows, q.pending[0]);
      var turned := q.pending[1..] + [q.pending[0]];
      SkippedRows(s.rows, cards, q.pending);
      assert Step(lex, s, req) == (s.(rows := after), Skipped(FirstOf(cards, turned)));
      assert Rotate(lex, cards, s.expiresAt, q, req) == (q.(pending := turned), Skipped(FirstOf(cards, turned)));
      assert Simulates(s.(rows := after), q.(pending := turned), cards);
    }
  }

  /** One request: the same response, and the states still correspond. */
  lemma StepSimulates(lex: Lexer, s: Session, q: Rotation, cards: seq<Question>, req: Request)
    requires Simulates(s, q, cards)
    ensures var (s', r) := Step(lex, s, req);
      var (q', r') := Rotate(lex, cards, s.expiresAt, q, req);
      r == r' && Simulates(s', q', cards) && s'.expiresAt == s.expiresAt
  {
    match req
    case Answer(_, _, _) => AnswerSimulates(lex, s, q, cards, req);
    case Skip(_, _) => SkipSimulates(lex, s, q, cards, req);
    case End(_) =>
    case Get(_, _) => HeadQuestionIsFront(s.rows, cards, q.pending);
  }

  lemma StartSimulates(cards: seq<Question>, memories: Memories, timeLimit: Option<int>, now: int)
    ensures Simulates(Started(cards, memories, timeLimit, now), AllPending(cards, memories), cards)
  {
    NothingAnswered(NewRows(cards));
    var p := AllPending(cards, memories).pending;
    forall i | 0 <= i < |cards|
      ensures i in p
    {
      assert p[i] == i;
    }
  }

  lemma {:induction false} NothingAnswered(rows: seq<SessionCard>)
    requires forall i :: 0 <= i < |rows| ==> !rows[i].answered && rows[i].correct.None?
    ensures CountAnswered(rows) == 0 && CountCorrect(rows) == 0
  {
    if rows != [] {
      NothingAnswered(rows[..|rows| - 1]);
    }
  }

  lemma {:induction false} RunSimulates(lex: Lexer, s: Session, q: Rotation, cards: seq<Question>, reqs: seq<Request>)
    requires Simulates(s, q, cards)
    ensures var (s', responses) := Serve(lex, s, reqs);
      var (q', responses') := RotateAll(lex, cards, s.expiresAt, q, reqs);
      responses == responses' && Simulates(s', q', cards) && s'.expiresAt == s.expiresAt
  {
    if reqs != [] {
      var last := |reqs| - 1;
      RunSimulates(lex, s, q, cards, reqs[..last]);
      StepSimulates(lex, Serve(lex, s, reqs[..last]).0,
                    RotateAll(lex, cards, s.expiresAt, q, reqs[..last]).0, cards, reqs[last]);
    }
  }

  /** No client can tell a session from a rotating queue: for every sequence of
      requests the responses are the same. */
  lemma {:induction false} SessionRefinesQueue(lex: Lexer, cards: seq<Question>, memories: Memories,
                                               timeLimit: Option<int>, now: int, reqs: seq<Request>)
    ensures var s := Started(cards, memories, timeLimit, now);
      var (s', responses) := Serve(lex, s, reqs);
      var (q', responses') := RotateAll(lex, cards, s.expiresAt, AllPending(cards, memories), reqs);
      responses == responses' && Simulates(s', q', cards)
  {
    StartSimulates(cards, memories, timeLimit, now);
    RunSimulates(lex, Started(cards, memories, timeLimit, now), AllPending(cards, memories), cards, reqs);
  }

  // ---------------------------------------------------------------------
  // Conservation and rotation
  // ---------------------------------------------------------------------

  ghost predicate Conserved(cards: seq<Question>, q: Rotation) {
    && q.done + |q.pending| == |cards|
    && q.correct <= q.done
    && (forall a :: 0 <= a < |q.pending| ==> q.pending[a] < |cards|)
    && (forall a, b :: 0 <= a < b < |q.pending| ==> q.pending[a] != q.pending[b])
    && (q.pending == [] ==> q.ended || cards == [])
  }

  lemma StepConserves(lex: Lexer, cards: seq<Question>, expiresAt: int, q: Rotation, req: Request)
    requires Conserved(cards, q)
    ensures Conserved(cards, Rotate(lex, cards, expiresAt, q, req).0)
  {
    var q' := Rotate(lex, cards, expiresAt, q, req).0;
    assert q.pending != [] ==> q.pending == [q.pending[0]] + q.pending[1..];
  }

  lemma {:induction false} RunConserves(lex: Lexer, cards: seq<Question>, expiresAt: int, q: Rotation,
                                        reqs: seq<Request>)
    requires Conserved(cards, q)
    ensures Conserved(cards, RotateAll(lex, cards, expiresAt, q, reqs).0)
  {
    if reqs != [] {
      var last := |reqs| - 1;
      RunConserves(lex, cards, expiresAt, q, reqs[..last]);
      StepConserves(lex, cards, expiresAt, RotateAll(lex, cards, expiresAt, q, reqs[..last]).0, reqs[last]);
    }
  }

  /** In every run the answered cards and those still pending make up the card
      limit, no more are correct than answered, positions never collide, and a
      session that had cards is over once none is pending. */
  lemma {:induction false} SessionConserves(lex: Lexer, cards: seq<Question>, memories: Memories,
                                            timeLimit: Option<int>, now: int, reqs: seq<Request>)
    ensures var s := Serve(lex, Started(cards, memories, timeLimit, now), reqs).0;
      && s.cardLimit == |s.rows| == |cards|
      && CountCorrect(s.rows) <= CountAnswered(s.rows) <= s.cardLimit
      && DistinctPositions(s.rows)
      && (CountAnswered(s.rows) == s.cardLimit > 0 ==> s.ended)
      && (CountAnswered(s.rows) == s.cardLimit <==> Head(s.rows).None?)
  {
    var start := Started(cards, memories, timeLimit, now);
    SessionRefinesQueue(lex, cards, memories, timeLimit, now, reqs);
    var q := RotateAll(lex, cards, start.expiresAt, AllPending(cards, memories), reqs).0;
    RunConserves(lex, cards, start.expiresAt, AllPending(cards, memories), reqs);
    HeadIsFront(Serve(lex, start, reqs).0.rows, q.pending);
  }

  /** The figures of get_session_summary. */
  datatype Summary = Summary(
    ended: bool,
    endedAt: Option<int>,
    totalCards: nat,
    cardsAnswered: nat,
    correctAnswers: nat,
    accuracy: real,
    timeTaken: int)

  function SummaryOf(s: Session): Summary {
    var answered, correct := CountAnswered(s.rows), CountCorrect(s.rows);
    Summary(s.ended, s.endedAt, s.cardLimit, answered, correct,
            if answered > 0 then correct as real / answered as real else 0.0,
            if s.endedAt.Some? then s.endedAt.value - s.createdAt else 0)
  }

  /** The last instant at which a session with this limit is open. */
  function Deadline(timeLimit: Option<int>, start: int): int {
    match timeLimit
    case Some(limit) => if limit > 0 then start + limit else start + 7200
    case None => start + 7200
  }

  lemma {:induction false} DeadlineStays(lex: Lexer, cards: seq<Question>, memories: Memories,
                                         timeLimit: Option<int>, start: int, reqs: seq<Request>)
    ensures var s := Serve(lex, Started(cards, memories, timeLimit, start), reqs).0;
      s.expiresAt == Deadline(timeLimit, start) && s.createdAt == start && s.cardLimit == |cards|
  {
    if reqs != [] {
      DeadlineStays(lex, cards, memories, timeLimit, start, reqs[..|reqs| - 1]);
    }
  }

  /** When and how requests are refused, at any point of any run. Until the
      session has ended, an answer, a skip or a look at it is refused for that
      reason exactly when its clock is past the deadline, and then it changes
      neither a card nor a memory state. */
  lemma RefusedExactly(lex: Lexer, cards: seq<Question>, memories: Memories, timeLimit: Option<int>, start: int,
                       reqs: seq<Request>, req: Request)
    ensures var s := Serve(lex, Started(cards, memories, timeLimit, start), reqs).0;
      var (after, r) := Step(lex, s, req);
      var late := req.now > Deadline(timeLimit, start);
      && (req.Answer? || req.Skip? ==> (r.AlreadyEnded? <==> s.ended || late))
      && (req.Get? ==> (r.AlreadyEnded? <==> !s.ended && late))
      && (req.Answer? ==> (r.AnswerTooLong? <==> !s.ended && !late && |req.text| > 2000))
      && (r.NoCardsAvailable? <==>
            !s.ended && !late && Head(s.rows).None? && (req.Skip? || (req.Answer? && |req.text| <= 2000)))
      && (!req.End? && late ==> after.rows == s.rows && after.memories == s.memories)
  {
    DeadlineStays(lex, cards, memories, timeLimit, start, reqs);
  }

  /** What ended a session that is over: its last answer, a request to end it,
      or an expiry that was kept. */
  ghost predicate WasClosed(cards: seq<Question>, expiresAt: int, pending: seq<nat>, reqs: seq<Request>) {
    || (cards != [] && pending == [])
    || exists i :: 0 <= i < |reqs| && (reqs[i].End? || ExpiryKept(expiresAt, reqs[i]))
  }

  predicate ExpiryKept(expiresAt: int, req: Request) {
    !req.End? && expiresAt < req.now && req.kept
  }

  lemma StepEndsExactly(lex: Lexer, cards: seq<Question>, expiresAt: int, q: Rotation, req: Request)
    requires Conserved(cards, q) && (cards != [] && q.pending == [] ==> q.ended)
    ensures var after := Rotate(lex, cards, expiresAt, q, req).0;
      after.ended <==> q.ended || (cards != [] && after.pending == []) || req.End? || ExpiryKept(expiresAt, req)
    ensures q.pending == [] ==> Rotate(lex, cards, expiresAt, q, req).0.pending == []
  {
    assert q.pending != [] ==> q.pending[0] < |cards|;
  }

  lemma {:induction false} RunEndsExactly(lex: Lexer, cards: seq<Question>, expiresAt: int, q: Rotation,
                                          reqs: seq<Request>)
    requires Conserved(cards, q) && (q.ended <==> cards != [] && q.pending == [])
    ensures var after := RotateAll(lex, cards, expiresAt, q, reqs).0;
      after.ended <==> WasClosed(cards, expiresAt, after.pending, reqs)
  {
    if reqs != [] {
      var last := |reqs| - 1;
      var before := RotateAll(lex, cards, expiresAt, q, reqs[..last]).0;
      RunConserves(lex, cards, expiresAt, q, reqs[..last]);
      RunEndsExactly(lex, cards, expiresAt, q, reqs[..last]);
      StepEndsExactly(lex, cards, expiresAt, before, reqs[last]);
      forall i | 0 <= i < last
        ensures reqs[..last][i] == reqs[i]
      {
      }
    }
  }

  /** A session is over exactly when it had cards and none is pending, or it
      was asked to end, or an expiry was noticed and kept. */
  lemma {:induction false} SessionEndsExactly(lex: Lexer, cards: seq<Question>, memories: Memories,
                                              timeLimit: Option<int>, now: int, reqs: seq<Request>)
    ensures var start := Started(cards, memories, timeLimit, now);
      var s := Serve(lex, start, reqs).0;
      s.ended <==>
        || (cards != [] && Head(s.rows).None?)
        || exists i :: 0 <= i < |reqs| && (reqs[i].End? || ExpiryKept(start.expiresAt, reqs[i]))
  {
    var start, all := Started(cards, memories, timeLimit, now), AllPending(cards, memories);
    SessionRefinesQueue(lex, cards, memories, timeLimit, now, reqs);
    HeadIsFront(Serve(lex, start, reqs).0.rows, RotateAll(lex, cards, start.expiresAt, all, reqs).0.pending);
    RunEndsExactly(lex, cards, start.expiresAt, all, reqs);
  }

  /** Nothing changes a session without cards while nobody ends it and it has
      not expired: it stays active. */
  lemma {:induction false} EmptySessionStaysActive(lex: Lexer, memories: Memories, timeLimit: Option<int>, now: int,
                                                   reqs: seq<Request>)
    requires var start := Started([], memories, timeLimit, now);
      forall i :: 0 <= i < |reqs| ==> !reqs[i].End? && reqs[i].now <= start.expiresAt
    ensures var start := Started([], memories, timeLimit, now);
      Serve(lex, start, reqs).0 == start && !start.ended
  {
    if reqs != [] {
      EmptySessionStaysActive(lex, memories, timeLimit, now, reqs[..|reqs| - 1]);
    }
  }

  /** Once a session has ended nothing in it changes. Once it has expired, no
      card, memory state or count does; its summary stays as it was exactly
      when no request ends it and no noticed expiry is kept. */
  lemma {:induction false} ClosedSessionFrozen(lex: Lexer, s: Session, reqs: seq<Request>)
    requires s.ended || forall i :: 0 <= i < |reqs| ==> s.expiresAt < reqs[i].now
    ensures var s' := Serve(lex, s, reqs).0;
      && s'.rows == s.rows && s'.memories == s.memories
      && s'.expiresAt == s.expiresAt && s'.createdAt == s.createdAt && s'.cardLimit == s.cardLimit
      && (s.ended ==> s' == s)
      && (SummaryOf(s') == SummaryOf(s) <==>
            s.ended || forall i :: 0 <= i < |reqs| ==> !reqs[i].End? && !reqs[i].kept)
      && (s'.ended == s.ended ==> s' == s)
  {
    if reqs != [] {
      ClosedSessionFrozen(lex, s, reqs[..|reqs| - 1]);
      assert forall i :: 0 <= i < |reqs| - 1 ==> reqs[..|reqs| - 1][i] == reqs[i];
    }
  }

  function CountScored(responses: seq<Response>): nat {
    if responses == [] then 0
    else CountScored(responses[..|responses| - 1]) + if responses[|responses| - 1].Scored? then 1 else 0
  }

  function CountPassed(responses: seq<Response>): nat {
    if responses == [] then 0
    else
      var r := responses[|responses| - 1];
      CountPassed(responses[..|responses| - 1]) + if r.Scored? && r.score >= 3 then 1 else 0
  }

  lemma {:induction false} TotalsCountResponses(lex: Lexer, cards: seq<Question>, expiresAt: int, q: Rotation,
                                                reqs: seq<Request>)
    ensures var (after, responses) := RotateAll(lex, cards, expiresAt, q, reqs);
      after.done == q.done + CountScored(responses) && after.correct == q.correct + CountPassed(responses)
  {
    if reqs != [] {
      var last := |reqs| - 1;
      TotalsCountResponses(lex, cards, expiresAt, q, reqs[..last]);
      var (before, responses) := RotateAll(lex, cards, expiresAt, q, reqs[..last]);
      var r := Rotate(lex, cards, expiresAt, before, reqs[last]).1;
      assert (responses + [r])[..|responses|] == responses;
    }
  }

  lemma {:induction false} EndTimeIsAClock(lex: Lexer, s: Session, reqs: seq<Request>)
    requires s.endedAt.None?
    ensures var after := Serve(lex, s, reqs).0;
      after.endedAt.Some? ==> exists i :: 0 <= i < |reqs| && reqs[i].now == after.endedAt.value
  {
    if reqs != [] {
      var last := |reqs| - 1;
      EndTimeIsAClock(lex, s, reqs[..last]);
      if i :| 0 <= i < last && Some(reqs[..last][i].now) == Serve(lex, s, reqs[..last]).0.endedAt {
        assert reqs[i] == reqs[..last][i];
      }
    }
  }

  lemma CountsAreResponses(lex: Lexer, cards: seq<Question>, memories: Memories, timeLimit: Option<int>, start: int,
                           reqs: seq<Request>)
    ensures var (s, responses) := Serve(lex, Started(cards, memories, timeLimit, start), reqs);
      CountAnswered(s.rows) == CountScored(responses) && CountCorrect(s.rows) == CountPassed(responses)
  {
    SessionRefinesQueue(lex, cards, memories, timeLimit, start, reqs);
    TotalsCountResponses(lex, cards, Started(cards, memories, timeLimit, start).expiresAt, AllPending(cards, memories),
                         reqs);
  }

  /** The accuracy of a summary is the share of its answers that are correct. */
  lemma AccuracyMeaning(s: Session)
    ensures var summary := SummaryOf(s);
      && (summary.cardsAnswered > 0 ==>
            summary.accuracy * summary.cardsAnswered as real == summary.correctAnswers as real)
      && (summary.cardsAnswered == 0 ==> summary.accuracy == 0.0)
  {
    QuotientTimes(CountCorrect(s.rows) as real, CountAnswered(s.rows) as real);
  }

  lemma QuotientTimes(a: real, b: real)
    ensures b > 0.0 ==> (a / b) * b == a
  {
  }

  /** The summary of a session tells what its responses told: how many answers
      were scored, and how many of them passed. */
  lemma SummaryMeaning(lex: Lexer, cards: seq<Question>, memories: Memories, timeLimit: Option<int>, start: int,
                       reqs: seq<Request>)
    ensures var (s, responses) := Serve(lex, Started(cards, memories, timeLimit, start), reqs);
      var summary := SummaryOf(s);
      && summary.totalCards == |cards| && summary.ended == s.ended
      && summary.cardsAnswered == CountScored(responses)
      && summary.correctAnswers == CountPassed(responses)
  {
    CountsAreResponses(lex, cards, memories, timeLimit, start, reqs);
    DeadlineStays(lex, cards, memories, timeLimit, start, reqs);
  }

  /** The response to an answer that is taken: the grade against the expected
      answer of the pending card, whether it passes, and the progress so far.
      The grade is recorded with the card and becomes its review. */
  lemma ScoredMeaning(lex: Lexer, cards: seq<Question>, memories: Memories, timeLimit: Option<int>, start: int,
                      reqs: seq<Request>, req: Request)
    requires var s := Serve(lex, Started(cards, memories, timeLimit, start), reqs).0;
      Step(lex, s, req).1.Scored?
    ensures var (s, responses) := Serve(lex, Started(cards, memories, timeLimit, start), reqs);
      var (after, r) := Step(lex, s, req);
      && req.Answer? && Head(s.rows).Some?
      && r.canonical == s.rows[Head(s.rows).value].question.canonical
      && r.score == EvaluateAnswer(lex, req.text, r.canonical)
      && (r.isCorrect <==> r.score >= 3)
      && r.cardsTotal == |cards|
      && r.cardsDone == CountScored(responses) + 1
      && r.correctSoFar == CountPassed(responses) + (if r.score >= 3 then 1 else 0)
      && r.nextCard == HeadQuestion(after.rows)
      && var h, card := Head(s.rows).value, s.rows[Head(s.rows).value].question.card;
         && |after.rows| == |s.rows| && after.rows[h].answered
         && after.rows[h].score == Some(r.score) && after.rows[h].answeredAt == Some(req.now)
         && card in after.memories
         && after.memories[card] == SR.Answered(MemoryOf(s.memories, card), r.score, req.now)
  {
    var s := Serve(lex, Started(cards, memories, timeLimit, start), reqs).0;
    var h := Head(s.rows).value;
    var score := EvaluateAnswer(lex, req.text, s.rows[h].question.canonical);
    CountsAreResponses(lex, cards, memories, timeLimit, start, reqs);
    DeadlineStays(lex, cards, memories, timeLimit, start, reqs);
    AnsweredImpliesCorrectSet(lex, cards, memories, timeLimit, start, reqs);
    CountsAfterUpdate(s.rows, h, Row(s.rows[h], score, req.now));
  }

  lemma AnsweredImpliesCorrectSet(lex: Lexer, cards: seq<Question>, memories: Memories, timeLimit: Option<int>,
                                  start: int, reqs: seq<Request>)
    ensures var s := Serve(lex, Started(cards, memories, timeLimit, start), reqs).0;
      forall i :: 0 <= i < |s.rows| ==> (s.rows[i].correct.Some? <==> s.rows[i].answered)
  {
    SessionRefinesQueue(lex, cards, memories, timeLimit, start, reqs);
  }

  /** The end time is set by the request that ends the session, to its clock,
      unless it only notices the expiry, and never changed by any other. */
  lemma EndTimeExactly(lex: Lexer, s: Session, req: Request)
    ensures var after := Step(lex, s, req).0;
      && (!s.ended && after.ended && (req.End? || req.now <= s.expiresAt) ==> after.endedAt == Some(req.now))
      && (s.ended || !after.ended || (!req.End? && req.now > s.expiresAt) ==> after.endedAt == s.endedAt)
  {
  }

  /** And how long it took, from the start to the request that ended it. */
  lemma TimeTakenMeaning(lex: Lexer, cards: seq<Question>, memories: Memories, timeLimit: Option<int>, start: int,
                         reqs: seq<Request>)
    ensures var summary := SummaryOf(Serve(lex, Started(cards, memories, timeLimit, start), reqs).0);
      if summary.endedAt.None? then summary.timeTaken == 0
      else
        && summary.timeTaken == summary.endedAt.value - start
        && exists i :: 0 <= i < |reqs| && reqs[i].now == summary.endedAt.value
  {
    DeadlineStays(lex, cards, memories, timeLimit, start, reqs);
    EndTimeIsAClock(lex, Started(cards, memories, timeLimit, start), reqs);
  }

  /** k skips of a live session move the first k pending cards, in order, to
      the back. */
  lemma {:induction false} SkipsRotate(lex: Lexer, cards: seq<Question>, expiresAt: int, q: Rotation,
                                       reqs: seq<Request>)
    requires Conserved(cards, q) && !q.ended && |reqs| <= |q.pending|
    requires forall i :: 0 <= i < |reqs| ==> reqs[i].Skip? && reqs[i].now <= expiresAt
    ensures RotateAll(lex, cards, expiresAt, q, reqs).0 ==
      q.(pending := q.pending[|reqs|..] + q.pending[..|reqs|])
  {
    if reqs == [] {
      assert q.pending[0..] + q.pending[..0] == q.pending;
    } else {
      var last := |reqs| - 1;
      SkipsRotate(lex, cards, expiresAt, q, reqs[..last]);
      var before := q.pending[last..] + q.pending[..last];
      assert q.pending[last] in q.pending;
      assert before[0] == q.pending[last];
      assert before[1..] + [before[0]] == q.pending[|reqs|..] + q.pending[..|reqs|];
    }
  }

  /** Skipping as often as cards are pending restores their order, although
      every position has changed. */
  lemma {:induction false} FullTurnRestoresOrder(lex: Lexer, cards: seq<Question>, s: Session, q: Rotation,
                                                 reqs: seq<Request>)
    requires Simulates(s, q, cards) && Conserved(cards, q) && !s.ended
    requires |reqs| == |q.pending|
    requires forall i :: 0 <= i < |reqs| ==> reqs[i].Skip? && reqs[i].now <= s.expiresAt
    ensures IsQueue(Serve(lex, s, reqs).0.rows, q.pending)
  {
    SkipsRotate(lex, cards, s.expiresAt, q, reqs);
    RunSimulates(lex, s, q, cards, reqs);
    assert q.pending[|reqs|..] + q.pending[..|reqs|] == q.pending;
  }

  // ---------------------------------------------------------------------
  // One review per card
  // ---------------------------------------------------------------------

  /** The memory state of the row's card: reviewed once if the row says so. */
  ghost predicate ReviewedAsRecorded(r: SessionCard, memories: Memories, initial: Memories) {
    var m := MemoryOf(initial, r.question.card);
    if r.answered then
      r.score.Some? && r.answeredAt.Some? && r.correct == Some(r.score.value >= SR.PASSING_SCORE)
      && MemoryOf(memories, r.question.card) == SR.Answered(m, r.score.value, r.answeredAt.value)
    else MemoryOf(memories, r.question.card) == m
  }

  ghost predicate DistinctCards(rows: seq<SessionCard>) {
    forall i, j :: 0 <= i < j < |rows| ==> rows[i].question.card != rows[j].question.card
  }

  ghost predicate HasCard(rows: seq<SessionCard>, c: nat) {
    exists i :: 0 <= i < |rows| && rows[i].question.card == c
  }

  /** Each answered card has had exactly the one review its row records, and
      every other memory state is as it was at the start. */
  ghost predicate OneReviewEach(s: Session, initial: Memories) {
    && DistinctCards(s.rows)
    && (forall i :: 0 <= i < |s.rows| ==> ReviewedAsRecorded(s.rows[i], s.memories, initial))
    && (forall c :: !HasCard(s.rows, c) ==> MemoryOf(s.memories, c) == MemoryOf(initial, c))
  }

  lemma ReviewKeepsOthers(rows: seq<SessionCard>, h: nat, score: int, now: int, memories: Memories, initial: Memories)
    requires h < |rows| && DistinctCards(rows) && !rows[h].answered
    requires forall i :: 0 <= i < |rows| ==> ReviewedAsRecorded(rows[i], memories, initial)
    ensures var card := rows[h].question.card;
      var after := rows[h := Row(rows[h], score, now)];
      var reviewed := memories[card := SR.Answered(MemoryOf(memories, card), score, now)];
      && DistinctCards(after)
      && (forall i :: 0 <= i < |rows| ==> ReviewedAsRecorded(after[i], reviewed, initial))
      && (forall c :: HasCard(rows, c) <==> HasCard(after, c))
  {
    var card := rows[h].question.card;
    var after := rows[h := Row(rows[h], score, now)];
    var reviewed := memories[card := SR.Answered(MemoryOf(memories, card), score, now)];
    forall i | 0 <= i < |rows|
      ensures ReviewedAsRecorded(after[i], reviewed, initial)
    {
      assert i != h ==> after[i] == rows[i] && rows[i].question.card != card;
    }
    forall c
      ensures HasCard(rows, c) <==> HasCard(after, c)
    {
      if i :| 0 <= i < |rows| && rows[i].question.card == c {
        assert after[i].question.card == c;
      }
      if i :| 0 <= i < |after| && after[i].question.card == c {
        assert rows[i].question.card == c;
      }
    }
  }

  lemma MovedRowKeepsCards(rows: seq<SessionCard>, h: nat, position: int)
    requires h < |rows|
    ensures forall c :: HasCard(rows, c) <==> HasCard(rows[h := rows[h].(position := position)], c)
  {
    var after := rows[h := rows[h].(position := position)];
    forall c
      ensures HasCard(rows, c) <==> HasCard(after, c)
    {
      if i :| 0 <= i < |rows| && rows[i].question.card == c {
        assert after[i].question.card == c;
      }
      if i :| 0 <= i < |after| && after[i].question.card == c {
        assert rows[i].question.card == c;
      }
    }
  }

  lemma AnswerReviewsOnce(lex: Lexer, s: Session, req: Request, initial: Memories)
    requires OneReviewEach(s, initial) && req.Answer?
    ensures OneReviewEach(Step(lex, s, req).0, initial)
  {
    var h := Head(s.rows);
    if h.Some? && !Closed(s.ended, s.expiresAt, req.now) {
      var score := EvaluateAnswer(lex, req.text, s.rows[h.value].question.canonical);
      ReviewKeepsOthers(s.rows, h.value, score, req.now, s.memories, initial);
    }
  }

  lemma SkipReviewsNothing(lex: Lexer, s: Session, req: Request, initial: Memories)
    requires OneReviewEach(s, initial) && req.Skip?
    ensures OneReviewEach(Step(lex, s, req).0, initial)
  {
    var h := Head(s.rows);
    if h.Some? && !Closed(s.ended, s.expiresAt, req.now) {
      MovedRowKeepsCards(s.rows, h.value, MaxPosition(s.rows).GetOr(-1) + 1);
    }
  }

  lemma StepReviewsOnce(lex: Lexer, s: Session, req: Request, initial: Memories)
    requires OneReviewEach(s, initial)
    ensures OneReviewEach(Step(lex, s, req).0, initial)
  {
    match req
    case Answer(_, _, _) => AnswerReviewsOnce(lex, s, req, initial);
    case Skip(_, _) => SkipReviewsNothing(lex, s, req, initial);
    case End(_) =>
    case Get(_, _) =>
  }

  lemma {:induction false} EachCardReviewedOnce(lex: Lexer, cards: seq<Question>, memories: Memories,
                                                timeLimit: Option<int>, now: int, reqs: seq<Request>)
    requires forall i, j :: 0 <= i < j < |cards| ==> cards[i].card != cards[j].card
    ensures OneReviewEach(Serve(lex, Started(cards, memories, timeLimit, now), reqs).0, memories)
  {
    if reqs != [] {
      var last := |reqs| - 1;
      EachCardReviewedOnce(lex, cards, memories, timeLimit, now, reqs[..last]);
      StepReviewsOnce(lex, Serve(lex, Started(cards, memories, timeLimit, now), reqs[..last]).0, reqs[last], memories);
    }
  }
}
