/** The fixed-window rate limiter (middleware/rate_limit.py): Redis counters
    that expire, against counters that never forget. A refused request is
    answered with status 429 (section 4 of RFC 6585) and a Retry-After header
    (section 10.2.3 of RFC 9110). The middleware reads its clock in whole
    seconds; Redis runs its script later, at an instant in milliseconds. */
module RateLimit {
  import opened Base

  // ---------------------------------------------------------------------
  // Categories
  // ---------------------------------------------------------------------

  datatype Settings = Settings(
    readPerMinute: int,
    writePerMinute: int,
    answerPerMinute: int,
    importPerHour: int,
    authPerMinute: int)

  datatype Category = Import | Auth | Session | Read | Write

  datatype Policy = Policy(category: Category, limit: int, window: nat)

  function UpperChar(c: char): char {
    if 'a' <= c <= 'z' then ((c as int) - 32) as char else c
  }

  function Upper(s: string): string {
    seq(|s|, i requires 0 <= i < |s| => UpperChar(s[i]))
  }

  predicate Under(path: string, root: string) {
    path == root || root + "/" <= path
  }

  function ResolveCategoryAndLimit(s: Settings, path: string, method_: string): Policy {
    if Under(path, "/v1/import") then Policy(Import, s.importPerHour, 3600)
    else if Under(path, "/v1/auth") then Policy(Auth, s.authPerMinute, 60)
    else if Under(path, "/v1/user/provision") || Under(path, "/v1/admin/provision") then
      Policy(Auth, s.authPerMinute, 60)
    else if Under(path, "/v1/sessions") && Upper(method_) != "GET" then Policy(Session, s.answerPerMinute, 60)
    else if Upper(method_) == "GET" then Policy(Read, s.readPerMinute, 60)
    else Policy(Write, s.writePerMinute, 60)
  }

  function LimitOf(s: Settings, c: Category): int {
    match c
    case Import => s.importPerHour
    case Auth => s.authPerMinute
    case Session => s.answerPerMinute
    case Read => s.readPerMinute
    case Write => s.writePerMinute
  }

  function WindowOf(c: Category): (w: nat)
    ensures w > 0
  {
    if c.Import? then 3600 else 60
  }

  /** Requests that share a counter are held to one limit and one window, on
      whichever path they came. */
  lemma CategoryFixesPolicy(s: Settings, path: string, method_: string)
    ensures var p := ResolveCategoryAndLimit(s, path, method_);
      p.limit == LimitOf(s, p.category) && p.window == WindowOf(p.category)
  {
  }

  // ---------------------------------------------------------------------
  // Keys
  // ---------------------------------------------------------------------

  datatype Caller = ApiKey(hash: string) | Ip(host: string)

  /** What one counter counts. */
  datatype Slot = Slot(category: Category, caller: Caller, bucket: nat)

  function CategoryName(c: Category): string {
    match c
    case Import => "import"
    case Auth => "auth"
    case Session => "session"
    case Read => "read"
    case Write => "write"
  }

  function CallerName(c: Caller): string {
    match c
    case ApiKey(hash) => "api:" + hash
    case Ip(host) => "ip:" + host
  }

  function Decimal(n: nat): string {
    if n < 10 then [('0' as int + n) as char]
    else Decimal(n / 10) + [('0' as int + n % 10) as char]
  }

  function KeyOf(s: Slot): string {
    "mnemo:rl:" + (CategoryName(s.category) + ":" + ((CallerName(s.caller) + ":") + Decimal(s.bucket)))
  }

  lemma {:induction false} DecimalInjective(m: nat, n: nat)
    ensures ':' !in Decimal(n)
    ensures Decimal(m) == Decimal(n) ==> m == n
    decreases n
  {
    if n >= 10 {
      DecimalInjective(m / 10, n / 10);
      if m >= 10 && Decimal(m) == Decimal(n) {
        var a, b := Decimal(m), Decimal(n);
        assert a[..|a| - 1] == Decimal(m / 10) && b[..|b| - 1] == Decimal(n / 10);
        assert a[|a| - 1] == b[|b| - 1];
      } else if m < 10 {
        DecimalNonempty(n / 10);
      }
    } else if m >= 10 {
      DecimalNonempty(m / 10);
    }
  }

  lemma {:induction false} DecimalNonempty(n: nat)
    ensures Decimal(n) != ""
  {
  }

  /** A part without a colon ends at the first colon. */
  lemma FirstColon(a: string, b: string, r: string, s: string)
    requires a + ":" + r == b + ":" + s && ':' !in a && ':' !in b
    ensures a == b && r == s
  {
    var whole := a + ":" + r;
    assert whole[|a|] == ':' && whole[|b|] == ':';
    assert |a| == |b|;
    assert whole[..|a|] == a && whole[..|b|] == b;
    assert whole[|a| + 1..] == r && whole[|b| + 1..] == s;
  }

  /** A part without a colon starts after the last colon. */
  lemma LastColon(a: string, b: string, r: string, s: string)
    requires (r + ":") + a == (s + ":") + b && ':' !in a && ':' !in b
    ensures a == b && r == s
  {
    var whole := (r + ":") + a;
    assert whole[|r|] == ':' && whole[|s|] == ':';
    assert |r| == |s|;
    assert whole[..|r|] == r && whole[..|s|] == s;
    assert whole[|r| + 1..] == a && whole[|s| + 1..] == b;
  }

  lemma CategoryNameInjective(a: Category, b: Category)
    ensures ':' !in CategoryName(a)
    ensures CategoryName(a) == CategoryName(b) ==> a == b
  {
    assert CategoryName(a)[0] == CategoryName(b)[0] && |CategoryName(a)| == |CategoryName(b)| ==> a == b;
  }

  lemma CallerNameInjective(a: Caller, b: Caller)
    requires CallerName(a) == CallerName(b)
    ensures a == b
  {
    assert CallerName(a)[0] == CallerName(b)[0];
    var n := if a.ApiKey? then 4 else 3;
    assert CallerName(a)[n..] == CallerName(b)[n..];
    assert a.ApiKey? ==> CallerName(a)[n..] == a.hash && CallerName(b)[n..] == b.hash;
    assert a.Ip? ==> CallerName(a)[n..] == a.host && CallerName(b)[n..] == b.host;
  }

  /** Two counters never share a Redis key, even for hosts with colons. */
  lemma KeysDoNotCollide(a: Slot, b: Slot)
    requires KeyOf(a) == KeyOf(b)
    ensures a == b
  {
    var restA := (CallerName(a.caller) + ":") + Decimal(a.bucket);
    var restB := (CallerName(b.caller) + ":") + Decimal(b.bucket);
    var p := "mnemo:rl:";
    assert KeyOf(a)[|p|..] == CategoryName(a.category) + ":" + restA;
    assert KeyOf(b)[|p|..] == CategoryName(b.category) + ":" + restB;
    CategoryNameInjective(a.category, b.category);
    CategoryNameInjective(b.category, a.category);
    FirstColon(CategoryName(a.category), CategoryName(b.category), restA, restB);
    DecimalInjective(a.bucket, b.bucket);
    DecimalInjective(b.bucket, a.bucket);
    LastColon(Decimal(a.bucket), Decimal(b.bucket), CallerName(a.caller), CallerName(b.caller));
    CallerNameInjective(a.caller, b.caller);
  }

  // ---------------------------------------------------------------------
  // The middleware
  // ---------------------------------------------------------------------

  /** clock is the second the middleware read, evalAt the instant at which
      Redis ran the script. */
  datatype Request = Request(clock: nat, evalAt: nat, caller: Caller, path: string, method_: string)

  datatype Response = Response(allowed: bool, limit: int, remaining: int, reset: int, retryAfter: Option<int>)

  /** A Redis counter and the instant it disappears. */
  datatype Counter = Counter(value: nat, expiresAt: int)

  type Store = map<string, Counter>

  function PolicyOf(s: Settings, req: Request): Policy {
    ResolveCategoryAndLimit(s, req.path, req.method_)
  }

  function SlotOf(s: Settings, req: Request): Slot {
    var c := PolicyOf(s, req).category;
    Slot(c, req.caller, req.clock / WindowOf(c))
  }

  /** Seconds until the next bucket begins. */
  function Ttl(now: nat, window: nat): (ttl: int)
    requires window > 0
  {
    (now / window + 1) * window - now
  }

  /** The counters Redis still holds. */
  function Unexpired(store: Store, ms: nat): Store {
    map k | k in store && ms < store[k].expiresAt :: store[k]
  }

  /** INCR, then EXPIRE when the counter is new. */
  function Incremented(store: Store, key: string, ms: nat, ttl: int): Store {
    var live := Unexpired(store, ms);
    var v := (if key in live then live[key].value else 0) + 1;
    live[key := Counter(v, if v == 1 then ms + ttl * 1000 else live[key].expiresAt)]
  }

  function Answer(limit: int, current: nat, now: nat, ttl: int): Response {
    if current > limit then Response(false, limit, 0, now + ttl, Some(ttl))
    else Response(true, limit, Max(limit - current, 0), now + ttl, None)
  }

  class RateLimiter {
    const settings: Settings
    var store: Store

    constructor (settings: Settings)
      ensures this.settings == settings && store == map[]
    {
      this.settings := settings;
      store := map[];
    }

    method Dispatch(req: Request) returns (r: Response)
      modifies this
      ensures (store, r) == Step(settings, old(store), req)
    {
      var now := req.clock;
      var policy := ResolveCategoryAndLimit(settings, req.path, req.method_);
      CategoryFixesPolicy(settings, req.path, req.method_);
      var bucket, ttl;
      if policy.window == 3600 {
        bucket := now / 3600;
        ttl := (bucket + 1) * 3600 - now;
      } else {
        bucket := now / 60;
        ttl := (bucket + 1) * 60 - now;
      }
      var key := KeyOf(Slot(policy.category, req.caller, bucket));

      store := Unexpired(store, req.evalAt);
      var current := (if key in store then store[key].value else 0) + 1;
      var expiresAt := if key in store then store[key].expiresAt else 0;
      if current == 1 {
        expiresAt := req.evalAt + ttl * 1000;
      }
      store := store[key := Counter(current, expiresAt)];

      var remaining := Max(policy.limit - current, 0);
      var reset := now + ttl;
      if current > policy.limit {
        return Response(false, policy.limit, 0, reset, Some(ttl));
      }
      r := Response(true, policy.limit, remaining, reset, None);
    }
  }

  function Step(s: Settings, store: Store, req: Request): (Store, Response) {
    var slot := SlotOf(s, req);
    var ttl := Ttl(req.clock, WindowOf(slot.category));
    var after := Incremented(store, KeyOf(slot), req.evalAt, ttl);
    (after, Answer(LimitOf(s, slot.category), after[KeyOf(slot)].value, req.clock, ttl))
  }

  function Run(s: Settings, history: seq<Request>): (Store, seq<Response>) {
    if history == [] then (map[], [])
    else
      var last := |history| - 1;
      var (store, responses) := Run(s, history[..last]);
      var (after, r) := Step(s, store, history[last]);
      (after, responses + [r])
  }

  // ---------------------------------------------------------------------
  // Refinement of counters that never forget
  // ---------------------------------------------------------------------

  /** Redis runs one script at a time. */
  ghost predicate Chronological(history: seq<Request>) {
    forall i, j :: 0 <= i < j < |history| ==> history[i].evalAt <= history[j].evalAt
  }

  /** How often the slot has been asked for. */
  function Attempts(s: Settings, history: seq<Request>, slot: Slot): nat {
    if history == [] then 0
    else
      Attempts(s, history[..|history| - 1], slot)
      + if SlotOf(s, history[|history| - 1]) == slot then 1 else 0
  }

  function BucketEnd(slot: Slot): int {
    (slot.bucket + 1) * WindowOf(slot.category)
  }

  /** When the counter that the first request of the slot creates disappears. */
  function FirstExpiry(s: Settings, history: seq<Request>, slot: Slot): int {
    if history == [] then 0
    else
      var before, req := history[..|history| - 1], history[|history| - 1];
      if Attempts(s, before, slot) == 0 && SlotOf(s, req) == slot then
        req.evalAt + Ttl(req.clock, WindowOf(slot.category)) * 1000
      else FirstExpiry(s, before, slot)
  }

  /** The request finds the counter of its slot, if there ever was one. */
  predicate Timely(s: Settings, before: seq<Request>, req: Request) {
    Attempts(s, before, SlotOf(s, req)) == 0 || req.evalAt < FirstExpiry(s, before, SlotOf(s, req))
  }

  /** Every request is timely. */
  predicate InTime(s: Settings, history: seq<Request>) {
    history == []
    || (InTime(s, history[..|history| - 1]) && Timely(s, history[..|history| - 1], history[|history| - 1]))
  }

  /** Every request for the slot is timely. */
  predicate SlotInTime(s: Settings, history: seq<Request>, slot: Slot) {
    history == []
    || var before, req := history[..|history| - 1], history[|history| - 1];
       SlotInTime(s, before, slot) && (SlotOf(s, req) == slot ==> Timely(s, before, req))
  }

  lemma {:induction false} InTimeInEverySlot(s: Settings, history: seq<Request>, slot: Slot)
    requires InTime(s, history)
    ensures SlotInTime(s, history, slot)
  {
    if history != [] {
      InTimeInEverySlot(s, history[..|history| - 1], slot);
    }
  }

  /** The answer of a limiter that keeps every count for ever. */
  function IdealResponse(s: Settings, before: seq<Request>, req: Request): Response {
    var slot := SlotOf(s, req);
    Answer(LimitOf(s, slot.category), Attempts(s, before, slot) + 1, req.clock, Ttl(req.clock, WindowOf(slot.category)))
  }

  function LastEval(history: seq<Request>): nat {
    if history == [] then 0 else history[|history| - 1].evalAt
  }

  /** The slot's counter as last written, which starts again at one whenever a
      request finds it gone. */
  function Current(s: Settings, history: seq<Request>, slot: Slot): Counter {
    if history == [] then Counter(0, 0)
    else
      var c, req := Current(s, history[..|history| - 1], slot), history[|history| - 1];
      if SlotOf(s, req) != slot then c
      else if c.value > 0 && req.evalAt < c.expiresAt then Counter(c.value + 1, c.expiresAt)
      else Counter(1, req.evalAt + Ttl(req.clock, WindowOf(slot.category)) * 1000)
  }

  /** Redis holds the current counter of every slot until it expires. */
  ghost predicate Tracks(s: Settings, store: Store, history: seq<Request>) {
    forall slot: Slot ::
      && (Current(s, history, slot).value == 0 ==> KeyOf(slot) !in store)
      && (KeyOf(slot) in store ==> store[KeyOf(slot)] == Current(s, history, slot))
      && (Current(s, history, slot).value > 0 && LastEval(history) < Current(s, history, slot).expiresAt ==>
            KeyOf(slot) in store)
  }

  lemma StepTracks(s: Settings, store: Store, history: seq<Request>, req: Request)
    requires Tracks(s, store, history) && LastEval(history) <= req.evalAt
    ensures var after := Step(s, store, req).0;
      && Tracks(s, after, history + [req])
      && after[KeyOf(SlotOf(s, req))] == Current(s, history + [req], SlotOf(s, req))
  {
    var slot, all := SlotOf(s, req), history + [req];
    var after := Step(s, store, req).0;
    assert all[..|all| - 1] == history;
    assert after[KeyOf(slot)] == Current(s, all, slot);
    forall other: Slot
      ensures Current(s, all, other).value == 0 ==> KeyOf(other) !in after
      ensures KeyOf(other) in after ==> after[KeyOf(other)] == Current(s, all, other)
      ensures Current(s, all, other).value > 0 && req.evalAt < Current(s, all, other).expiresAt ==>
        KeyOf(other) in after
    {
      if other != slot && KeyOf(other) == KeyOf(slot) {
        KeysDoNotCollide(other, slot);
      }
    }
  }

  lemma TtlReachesBucketEnd(now: nat, window: nat)
    requires window > 0
    ensures 1 <= Ttl(now, window) <= window
    ensures now + Ttl(now, window) == (now / window + 1) * window
    ensures now < (now / window + 1) * window
  {
  }

  lemma PrefixChronological(history: seq<Request>, n: nat)
    requires Chronological(history) && n <= |history|
    ensures Chronological(history[..n])
  {
  }

  lemma {:induction false} RunTracks(s: Settings, history: seq<Request>)
    requires Chronological(history)
    ensures Tracks(s, Run(s, history).0, history)
  {
    if history != [] {
      var last := |history| - 1;
      assert LastEval(history[..last]) <= history[last].evalAt;
      PrefixChronological(history, last);
      RunTracks(s, history[..last]);
      StepTracks(s, Run(s, history[..last]).0, history[..last], history[last]);
      assert history[..last] + [history[last]] == history;
    }
  }

  /** A request is answered from the current counter of its slot. */
  lemma {:induction false} AnsweredFromCurrent(s: Settings, before: seq<Request>, req: Request)
    requires Chronological(before + [req])
    ensures var slot := SlotOf(s, req);
      var value := Current(s, before + [req], slot).value;
      var (after, r) := Step(s, Run(s, before).0, req);
      && after[KeyOf(slot)].value == value
      && r == Answer(LimitOf(s, slot.category), value, req.clock, Ttl(req.clock, WindowOf(slot.category)))
  {
    var all := before + [req];
    PrefixChronological(all, |before|);
    assert all[..|before|] == before;
    RunTracks(s, before);
    assert before != [] ==> all[|before| - 1].evalAt <= all[|before|].evalAt;
    StepTracks(s, Run(s, before).0, before, req);
  }

  /** A slot's counter is the number of attempts exactly while every request
      for it is timely, and less from the first late one on. */
  lemma {:induction false} CurrentExactly(s: Settings, history: seq<Request>, slot: Slot)
    ensures Current(s, history, slot).value > 0 <==> Attempts(s, history, slot) > 0
    ensures Current(s, history, slot).value <= Attempts(s, history, slot)
    ensures Current(s, history, slot).value == Attempts(s, history, slot) <==> SlotInTime(s, history, slot)
    ensures SlotInTime(s, history, slot) && Attempts(s, history, slot) > 0 ==>
      Current(s, history, slot).expiresAt == FirstExpiry(s, history, slot)
  {
    if history != [] {
      CurrentExactly(s, history[..|history| - 1], slot);
    }
  }

  /** The first late request of a slot starts the count again. */
  lemma LateStartsAgain(s: Settings, before: seq<Request>, req: Request)
    requires SlotInTime(s, before, SlotOf(s, req)) && !Timely(s, before, req)
    ensures Current(s, before + [req], SlotOf(s, req)).value == 1
  {
    assert (before + [req])[..|before|] == before;
    CurrentExactly(s, before, SlotOf(s, req));
  }

  /** Every request was counted as the number of attempts on its slot. */
  predicate AllCounted(s: Settings, history: seq<Request>) {
    history == []
    || var before, req := history[..|history| - 1], history[|history| - 1];
       && AllCounted(s, before)
       && Step(s, Run(s, before).0, req).0[KeyOf(SlotOf(s, req))].value == Attempts(s, history, SlotOf(s, req))
  }

  /** The expiring counters count every request as counters that never forget
      would if and only if every script runs before its counter expires. */
  lemma {:induction false} CountedExactlyInTime(s: Settings, history: seq<Request>)
    requires Chronological(history)
    ensures AllCounted(s, history) <==> InTime(s, history)
  {
    if history != [] {
      var last := |history| - 1;
      var slot := SlotOf(s, history[last]);
      PrefixChronological(history, last);
      CountedExactlyInTime(s, history[..last]);
      assert history[..last] + [history[last]] == history;
      AnsweredFromCurrent(s, history[..last], history[last]);
      CurrentExactly(s, history, slot);
      if InTime(s, history[..last]) {
        InTimeInEverySlot(s, history[..last], slot);
      }
    }
  }

  /** The clock was read before the script ran, and the script ran before the
      bucket of that clock was over. */
  predicate Prompt(s: Settings, req: Request) {
    req.clock * 1000 <= req.evalAt < BucketEnd(SlotOf(s, req)) * 1000
  }

  lemma {:induction false} PromptExpiry(s: Settings, history: seq<Request>, slot: Slot)
    requires forall i :: 0 <= i < |history| && SlotOf(s, history[i]) == slot ==> Prompt(s, history[i])
    requires Attempts(s, history, slot) > 0
    ensures FirstExpiry(s, history, slot) >= BucketEnd(slot) * 1000
  {
    var before, req := history[..|history| - 1], history[|history| - 1];
    if Attempts(s, before, slot) == 0 {
      TtlReachesBucketEnd(req.clock, WindowOf(slot.category));
    } else {
      PromptExpiry(s, before, slot);
    }
  }

  lemma {:induction false} PromptSlotInTime(s: Settings, history: seq<Request>, slot: Slot)
    requires forall i :: 0 <= i < |history| && SlotOf(s, history[i]) == slot ==> Prompt(s, history[i])
    ensures SlotInTime(s, history, slot)
  {
    if history != [] {
      var before, req := history[..|history| - 1], history[|history| - 1];
      PromptSlotInTime(s, before, slot);
      if SlotOf(s, req) == slot && Attempts(s, before, slot) > 0 {
        PromptExpiry(s, before, slot);
      }
    }
  }

  /** It suffices that every script runs within the bucket of its clock. */
  lemma {:induction false} PromptIsInTime(s: Settings, history: seq<Request>)
    requires forall i :: 0 <= i < |history| ==> Prompt(s, history[i])
    ensures InTime(s, history)
  {
    if history != [] {
      var before, req := history[..|history| - 1], history[|history| - 1];
      PromptIsInTime(s, before);
      if Attempts(s, before, SlotOf(s, req)) > 0 {
        PromptExpiry(s, before, SlotOf(s, req));
      }
    }
  }

  /** The answers of a limiter that keeps every count for ever. */
  function IdealResponses(s: Settings, history: seq<Request>): seq<Response> {
    if history == [] then []
    else
      var before := history[..|history| - 1];
      IdealResponses(s, before) + [IdealResponse(s, before, history[|history| - 1])]
  }

  /** Every request is timely, unless its limit lets nothing through anyhow. */
  predicate TimelyWhereOpen(s: Settings, history: seq<Request>) {
    history == []
    || var before, req := history[..|history| - 1], history[|history| - 1];
       TimelyWhereOpen(s, before) && (LimitOf(s, PolicyOf(s, req).category) < 1 || Timely(s, before, req))
  }

  lemma {:induction false} OpenSlotInTime(s: Settings, history: seq<Request>, slot: Slot)
    requires TimelyWhereOpen(s, history) && LimitOf(s, slot.category) >= 1
    ensures SlotInTime(s, history, slot)
  {
    if history != [] {
      OpenSlotInTime(s, history[..|history| - 1], slot);
    }
  }

  lemma SameAnswerExactly(limit: int, m: nat, n: nat, now: nat, ttl: int)
    requires m >= 1 && n >= 1
    ensures m == n || limit < 1 ==> Answer(limit, m, now, ttl) == Answer(limit, n, now, ttl)
    ensures limit >= 1 && n > 1 ==> Answer(limit, 1, now, ttl) != Answer(limit, n, now, ttl)
  {
  }

  lemma {:induction false} LastAnswerExactly(s: Settings, before: seq<Request>, req: Request)
    requires Chronological(before + [req]) && TimelyWhereOpen(s, before)
    ensures Step(s, Run(s, before).0, req).1 == IdealResponse(s, before, req) <==>
      LimitOf(s, PolicyOf(s, req).category) < 1 || Timely(s, before, req)
  {
    var slot, all := SlotOf(s, req), before + [req];
    var limit, ttl := LimitOf(s, slot.category), Ttl(req.clock, WindowOf(slot.category));
    assert all[..|before|] == before;
    AnsweredFromCurrent(s, before, req);
    CurrentExactly(s, all, slot);
    SameAnswerExactly(limit, Current(s, all, slot).value, Attempts(s, before, slot) + 1, req.clock, ttl);
    if limit >= 1 {
      OpenSlotInTime(s, before, slot);
      if !Timely(s, before, req) {
        LateStartsAgain(s, before, req);
      }
    }
  }

  lemma AppendedEqual(a: seq<Response>, b: seq<Response>, x: Response, y: Response)
    requires |a| == |b|
    ensures a + [x] == b + [y] <==> a == b && x == y
  {
    assert (a + [x])[..|a|] == a && (b + [y])[..|b|] == b;
    assert (a + [x])[|a|] == x && (b + [y])[|b|] == y;
  }

  lemma {:induction false} OneResponseEach(s: Settings, history: seq<Request>)
    ensures |Run(s, history).1| == |IdealResponses(s, history)| == |history|
  {
    if history != [] {
      OneResponseEach(s, history[..|history| - 1]);
    }
  }

  lemma OneMoreResponse(s: Settings, before: seq<Request>, req: Request)
    ensures Run(s, before + [req]).1 == IdealResponses(s, before + [req]) <==>
      && Run(s, before).1 == IdealResponses(s, before)
      && Step(s, Run(s, before).0, req).1 == IdealResponse(s, before, req)
  {
    assert (before + [req])[..|before|] == before;
    OneResponseEach(s, before);
    AppendedEqual(Run(s, before).1, IdealResponses(s, before),
                  Step(s, Run(s, before).0, req).1, IdealResponse(s, before, req));
  }

  /** The expiring counters answer every request exactly as counters that never
      forget, if and only if every request is timely for which it matters. */
  lemma {:induction false} ExpiryLosesNothing(s: Settings, history: seq<Request>)
    requires Chronological(history)
    ensures Run(s, history).1 == IdealResponses(s, history) <==> TimelyWhereOpen(s, history)
  {
    if history != [] {
      var last := |history| - 1;
      PrefixChronological(history, last);
      ExpiryLosesNothing(s, history[..last]);
      assert history[..last] + [history[last]] == history;
      OneMoreResponse(s, history[..last], history[last]);
      if TimelyWhereOpen(s, history[..last]) {
        LastAnswerExactly(s, history[..last], history[last]);
      }
    }
  }

  /** A request whose script finds no counter is let through: the first of its
      slot, and the first that runs too late, however many came before it. */
  lemma {:induction false} AdmittedAfresh(s: Settings, before: seq<Request>, req: Request)
    requires Chronological(before + [req])
    requires Attempts(s, before, SlotOf(s, req)) == 0
      || (SlotInTime(s, before, SlotOf(s, req)) && !Timely(s, before, req))
    requires LimitOf(s, PolicyOf(s, req).category) >= 1
    ensures Step(s, Run(s, before).0, req).1.allowed
  {
    AnsweredFromCurrent(s, before, req);
    assert (before + [req])[..|before|] == before;
    CurrentExactly(s, before + [req], SlotOf(s, req));
    if Attempts(s, before, SlotOf(s, req)) > 0 {
      LateStartsAgain(s, before, req);
    }
  }

  // ---------------------------------------------------------------------
  // How many requests are admitted
  // ---------------------------------------------------------------------

  /** Requests of the slot the limiter let through. */
  function Admitted(s: Settings, history: seq<Request>, slot: Slot): nat {
    if history == [] then 0
    else
      var last := |history| - 1;
      Admitted(s, history[..last], slot)
      + (if SlotOf(s, history[last]) == slot && Step(s, Run(s, history[..last]).0, history[last]).1.allowed
         then 1 else 0)
  }

  /** The slot is limited as it should be: no request for it is late, or there
      is nothing to refuse, or nothing is let through anyhow. */
  predicate Fair(s: Settings, history: seq<Request>, slot: Slot) {
    || SlotInTime(s, history, slot)
    || Attempts(s, history, slot) <= LimitOf(s, slot.category)
    || LimitOf(s, slot.category) < 1
  }

  /** Exactly as many are admitted as ask, up to the limit, if and only if the
      slot is fair; otherwise more are. */
  lemma {:induction false} AdmittedExactly(s: Settings, history: seq<Request>, slot: Slot)
    requires Chronological(history)
    ensures var due := Min(Attempts(s, history, slot), Max(0, LimitOf(s, slot.category)));
      && Admitted(s, history, slot) >= due
      && (Admitted(s, history, slot) == due <==> Fair(s, history, slot))
  {
    if history != [] {
      var last := |history| - 1;
      var before, req := history[..last], history[last];
      PrefixChronological(history, last);
      AdmittedExactly(s, before, slot);
      assert before + [req] == history;
      AnsweredFromCurrent(s, before, req);
      CurrentExactly(s, history, slot);
      if SlotOf(s, req) == slot && SlotInTime(s, before, slot) && !Timely(s, before, req) {
        LateStartsAgain(s, before, req);
      }
    }
  }

  /** Requests of one caller and category let through in seconds lo to hi - 1. */
  function AdmittedBetween(s: Settings, history: seq<Request>, c: Category, caller: Caller, lo: int, hi: int): nat {
    if history == [] then 0
    else
      var last := |history| - 1;
      var req := history[last];
      AdmittedBetween(s, history[..last], c, caller, lo, hi)
      + if PolicyOf(s, req).category == c && req.caller == caller && lo <= req.clock < hi
           && Step(s, Run(s, history[..last]).0, req).1.allowed then 1 else 0
  }

  lemma DivUnique(x: nat, w: nat, q: nat)
    requires w > 0 && q * w <= x < q * w + w
    ensures x / w == q
  {
    var p := x / w;
    assert p * w <= x < p * w + w;
    assert p < q ==> (p + 1) * w <= q * w;
    assert p > q ==> (q + 1) * w <= p * w;
  }

  lemma TwoBuckets(second: nat, lo: nat, window: nat)
    requires window > 0 && lo <= second < lo + window
    ensures second / window == lo / window || second / window == lo / window + 1
  {
    var q := lo / window;
    if second < q * window + window {
      DivUnique(second, window, q);
    } else {
      DivUnique(second, window, q + 1);
    }
  }

  lemma {:induction false} WindowInTwoBuckets(s: Settings, history: seq<Request>, c: Category, caller: Caller,
                                              lo: nat)
    ensures var b := lo / WindowOf(c);
      AdmittedBetween(s, history, c, caller, lo, lo + WindowOf(c)) <=
        Admitted(s, history, Slot(c, caller, b)) + Admitted(s, history, Slot(c, caller, b + 1))
  {
    if history != [] {
      var last := |history| - 1;
      WindowInTwoBuckets(s, history[..last], c, caller, lo);
      var second := history[last].clock;
      if lo <= second < lo + WindowOf(c) {
        TwoBuckets(second, lo, WindowOf(c));
      }
    }
  }

  /** In any stretch as long as the window at most twice the limit gets
      through, wherever the stretch begins, if its two slots are fair. */
  lemma {:induction false} SlidingWindowBound(s: Settings, history: seq<Request>, c: Category, caller: Caller, lo: nat)
    requires Chronological(history)
    requires Fair(s, history, Slot(c, caller, lo / WindowOf(c)))
    requires Fair(s, history, Slot(c, caller, lo / WindowOf(c) + 1))
    ensures AdmittedBetween(s, history, c, caller, lo, lo + WindowOf(c)) <= 2 * Max(0, LimitOf(s, c))
  {
    var b := lo / WindowOf(c);
    WindowInTwoBuckets(s, history, c, caller, lo);
    AdmittedExactly(s, history, Slot(c, caller, b));
    AdmittedExactly(s, history, Slot(c, caller, b + 1));
  }

  lemma InBucket(second: nat, window: nat, bucket: nat)
    requires window > 0
    ensures bucket * window <= second < bucket * window + window <==> second / window == bucket
  {
    if bucket * window <= second < bucket * window + window {
      DivUnique(second, window, bucket);
    }
  }

  lemma {:induction false} WindowOfBucket(s: Settings, history: seq<Request>, slot: Slot)
    ensures var w := WindowOf(slot.category);
      AdmittedBetween(s, history, slot.category, slot.caller, slot.bucket * w, slot.bucket * w + w) ==
        Admitted(s, history, slot)
  {
    if history != [] {
      WindowOfBucket(s, history[..|history| - 1], slot);
      InBucket(history[|history| - 1].clock, WindowOf(slot.category), slot.bucket);
    }
  }

  /** In the seconds of one bucket no more than the limit gets through, if and
      only if its slot is fair. */
  lemma {:induction false} BucketBoundExactly(s: Settings, history: seq<Request>, slot: Slot)
    requires Chronological(history)
    ensures var w := WindowOf(slot.category);
      AdmittedBetween(s, history, slot.category, slot.caller, slot.bucket * w, slot.bucket * w + w)
        <= Max(0, LimitOf(s, slot.category))
      <==> Fair(s, history, slot)
  {
    WindowOfBucket(s, history, slot);
    AdmittedExactly(s, history, slot);
  }

  // ---------------------------------------------------------------------
  // Which requests get which limit
  // ---------------------------------------------------------------------

  /** The path is root, or lies below it. */
  predicate Below(path: string, root: string) {
    path == root || (|path| > |root| && path[..|root|] == root && path[|root|] == '/')
  }

  predicate IsGet(method_: string) {
    |method_| == 3 && method_[0] in "gG" && method_[1] in "eE" && method_[2] in "tT"
  }

  predicate IsImport(r: Request) {
    Below(r.path, "/v1/import")
  }

  predicate IsAuth(r: Request) {
    Below(r.path, "/v1/auth") || Below(r.path, "/v1/user/provision") || Below(r.path, "/v1/admin/provision")
  }

  predicate IsSessionWrite(r: Request) {
    Below(r.path, "/v1/sessions") && !IsGet(r.method_)
  }

  predicate IsOtherRead(r: Request) {
    IsGet(r.method_) && !IsImport(r) && !IsAuth(r)
  }

  predicate IsOtherWrite(r: Request) {
    !IsGet(r.method_) && !IsImport(r) && !IsAuth(r) && !Below(r.path, "/v1/sessions")
  }

  /** Requests held to a number of them per window of seconds. */
  datatype Rule = Rule(covers: Request -> bool, limit: int, window: nat)

  /** What the settings promise. */
  function Rules(s: Settings): seq<Rule> {
    [Rule(r => IsImport(r), s.importPerHour, 3600),
     Rule(r => IsAuth(r), s.authPerMinute, 60),
     Rule(r => IsSessionWrite(r), s.answerPerMinute, 60),
     Rule(r => IsOtherRead(r), s.readPerMinute, 60),
     Rule(r => IsOtherWrite(r), s.writePerMinute, 60)]
  }

  /** The request falls under the rule, for this caller and this window. */
  predicate Counts(rule: Rule, caller: Caller, bucket: nat, r: Request) {
    rule.covers(r) && r.caller == caller && bucket * rule.window <= r.clock < bucket * rule.window + rule.window
  }

  function CountCovered(rule: Rule, caller: Caller, bucket: nat, history: seq<Request>): nat {
    if history == [] then 0
    else
      CountCovered(rule, caller, bucket, history[..|history| - 1])
      + if Counts(rule, caller, bucket, history[|history| - 1]) then 1 else 0
  }

  function CountAllowed(s: Settings, rule: Rule, caller: Caller, bucket: nat, history: seq<Request>): nat {
    if history == [] then 0
    else
      var before, req := history[..|history| - 1], history[|history| - 1];
      CountAllowed(s, rule, caller, bucket, before)
      + if Counts(rule, caller, bucket, req) && Step(s, Run(s, before).0, req).1.allowed then 1 else 0
  }

  /** Scripts of requests under the rule run within the window of their clock. */
  ghost predicate RunPromptly(rule: Rule, caller: Caller, bucket: nat, history: seq<Request>) {
    forall i :: 0 <= i < |history| && Counts(rule, caller, bucket, history[i]) ==>
      history[i].clock * 1000 <= history[i].evalAt < (bucket * rule.window + rule.window) * 1000
  }

  function RuleCategory(i: nat): Category
    requires i < 5
  {
    [Import, Auth, Session, Read, Write][i]
  }

  lemma BelowMeans(path: string, root: string)
    ensures Under(path, root) <==> Below(path, root)
    ensures Below(path, root) ==> |path| >= |root| && path[..|root|] == root
  {
    if root + "/" <= path {
      assert path[..|root|] == root && path[|root|] == (root + "/")[|root|];
    }
    if Below(path, root) && path != root {
      assert path[..|root| + 1] == root + "/";
    }
  }

  lemma UpperGet(m: string)
    ensures Upper(m) == "GET" <==> IsGet(m)
  {
    if Upper(m) == "GET" {
      assert UpperChar(m[0]) == "GET"[0] && UpperChar(m[1]) == "GET"[1] && UpperChar(m[2]) == "GET"[2];
    }
    if IsGet(m) {
      assert Upper(m)[0] == 'G' && Upper(m)[1] == 'E' && Upper(m)[2] == 'T';
    }
  }

  /** Import, authentication and session paths are apart. */
  lemma RootsApart(path: string)
    ensures !(Below(path, "/v1/import") && Below(path, "/v1/auth"))
    ensures !(Below(path, "/v1/import") && Below(path, "/v1/user/provision"))
    ensures !(Below(path, "/v1/import") && Below(path, "/v1/admin/provision"))
    ensures !(Below(path, "/v1/import") && Below(path, "/v1/sessions"))
    ensures !(Below(path, "/v1/auth") && Below(path, "/v1/sessions"))
    ensures !(Below(path, "/v1/user/provision") && Below(path, "/v1/sessions"))
    ensures !(Below(path, "/v1/admin/provision") && Below(path, "/v1/sessions"))
  {
    StartsLike(path, "/v1/import");
    StartsLike(path, "/v1/auth");
    StartsLike(path, "/v1/user/provision");
    StartsLike(path, "/v1/admin/provision");
    StartsLike(path, "/v1/sessions");
  }

  lemma StartsLike(path: string, root: string)
    requires |root| > 4
    ensures Below(path, root) ==> |path| > 4 && path[4] == root[4]
  {
    BelowMeans(path, root);
    if Below(path, root) {
      assert path[..|root|][4] == root[4];
    }
  }

  lemma RuleNumbers(s: Settings, i: nat)
    requires i < 5
    ensures LimitOf(s, RuleCategory(i)) == Rules(s)[i].limit && WindowOf(RuleCategory(i)) == Rules(s)[i].window
  {
  }

  lemma RuleOfRequest(s: Settings, r: Request, i: nat)
    requires i < 5
    ensures Rules(s)[i].covers(r) <==> PolicyOf(s, r).category == RuleCategory(i)
  {
    BelowMeans(r.path, "/v1/import");
    BelowMeans(r.path, "/v1/auth");
    BelowMeans(r.path, "/v1/user/provision");
    BelowMeans(r.path, "/v1/admin/provision");
    BelowMeans(r.path, "/v1/sessions");
    UpperGet(r.method_);
    RootsApart(r.path);
  }

  /** Every request falls under just one rule. */
  lemma OneRuleEach(s: Settings, r: Request)
    ensures exists i :: 0 <= i < 5 && Rules(s)[i].covers(r)
    ensures forall i, j :: 0 <= i < 5 && 0 <= j < 5 && Rules(s)[i].covers(r) && Rules(s)[j].covers(r) ==> i == j
  {
    forall i: nat | i < 5
      ensures Rules(s)[i].covers(r) <==> PolicyOf(s, r).category == RuleCategory(i)
    {
      RuleOfRequest(s, r, i);
    }
    var c := PolicyOf(s, r).category;
    var k := if c.Import? then 0 else if c.Auth? then 1 else if c.Session? then 2 else if c.Read? then 3 else 4;
    assert RuleCategory(k) == c && Rules(s)[k].covers(r);
    assert forall i, j :: 0 <= i < 5 && 0 <= j < 5 && RuleCategory(i) == RuleCategory(j) ==> i == j;
  }

  lemma RuleSlot(s: Settings, i: nat, caller: Caller, bucket: nat, r: Request)
    requires i < 5
    ensures Counts(Rules(s)[i], caller, bucket, r) <==> SlotOf(s, r) == Slot(RuleCategory(i), caller, bucket)
  {
    RuleOfRequest(s, r, i);
    RuleNumbers(s, i);
    InBucket(r.clock, Rules(s)[i].window, bucket);
  }

  lemma {:induction false} CoveredIsSlot(s: Settings, i: nat, caller: Caller, bucket: nat, history: seq<Request>)
    requires i < 5
    ensures var slot := Slot(RuleCategory(i), caller, bucket);
      && CountCovered(Rules(s)[i], caller, bucket, history) == Attempts(s, history, slot)
      && CountAllowed(s, Rules(s)[i], caller, bucket, history) == Admitted(s, history, slot)
  {
    if history != [] {
      CoveredIsSlot(s, i, caller, bucket, history[..|history| - 1]);
      RuleSlot(s, i, caller, bucket, history[|history| - 1]);
    }
  }

  lemma PromptRuleInTime(s: Settings, i: nat, caller: Caller, bucket: nat, history: seq<Request>)
    requires i < 5 && RunPromptly(Rules(s)[i], caller, bucket, history)
    ensures SlotInTime(s, history, Slot(RuleCategory(i), caller, bucket))
  {
    var slot := Slot(RuleCategory(i), caller, bucket);
    RuleNumbers(s, i);
    forall k | 0 <= k < |history| && SlotOf(s, history[k]) == slot
      ensures Prompt(s, history[k])
    {
      RuleSlot(s, i, caller, bucket, history[k]);
    }
    PromptSlotInTime(s, history, slot);
  }

  /** Of the requests of a caller that fall under a rule in one window, exactly
      the rule's number are let through, or all if there are fewer. */
  lemma {:induction false} RuleEnforced(s: Settings, i: nat, caller: Caller, bucket: nat, history: seq<Request>)
    requires i < 5 && Chronological(history) && RunPromptly(Rules(s)[i], caller, bucket, history)
    ensures CountAllowed(s, Rules(s)[i], caller, bucket, history) ==
      Min(CountCovered(Rules(s)[i], caller, bucket, history), Max(0, Rules(s)[i].limit))
  {
    var slot := Slot(RuleCategory(i), caller, bucket);
    PromptRuleInTime(s, i, caller, bucket, history);
    CoveredIsSlot(s, i, caller, bucket, history);
    AdmittedExactly(s, history, slot);
    RuleNumbers(s, i);
  }

  /** The response to the k-th request of a window that ends at the given
      second: it carries the limit, how many are left after it, and the end; it
      is let through exactly when k is within the limit, and told to wait for
      the end otherwise. */
  predicate AnswersKth(r: Response, limit: int, k: nat, now: int, end: int) {
    && (r.allowed <==> k <= limit)
    && r.limit == limit && r.reset == end
    && r.remaining == (if k <= limit then limit - k else 0)
    && r.retryAfter == (if k <= limit then None else Some(end - now))
  }

  lemma AnswerMeaning(limit: int, k: nat, now: nat, ttl: int)
    ensures AnswersKth(Answer(limit, k, now, ttl), limit, k, now, now + ttl)
  {
  }

  lemma WindowEnd(second: nat, window: nat, bucket: nat)
    requires window > 0 && bucket * window <= second < bucket * window + window
    ensures second + Ttl(second, window) == bucket * window + window
  {
    TtlReachesBucketEnd(second, window);
    InBucket(second, window, bucket);
  }

  lemma {:induction false} CountedResponse(s: Settings, before: seq<Request>, req: Request)
    requires Chronological(before + [req]) && SlotInTime(s, before + [req], SlotOf(s, req))
    ensures var slot := SlotOf(s, req);
      AnswersKth(Step(s, Run(s, before).0, req).1, LimitOf(s, slot.category), Attempts(s, before, slot) + 1,
                 req.clock, req.clock + Ttl(req.clock, WindowOf(slot.category)))
  {
    var slot := SlotOf(s, req);
    assert (before + [req])[..|before|] == before;
    AnsweredFromCurrent(s, before, req);
    CurrentExactly(s, before + [req], slot);
    AnswerMeaning(LimitOf(s, slot.category), Attempts(s, before, slot) + 1, req.clock,
                  Ttl(req.clock, WindowOf(slot.category)));
  }

  /** Each of them is answered by its place among them, the rule's number, and
      the end of the window. */
  lemma {:induction false} RuleResponse(s: Settings, i: nat, bucket: nat, before: seq<Request>, req: Request)
    requires i < 5 && Chronological(before + [req]) && Counts(Rules(s)[i], req.caller, bucket, req)
    requires RunPromptly(Rules(s)[i], req.caller, bucket, before + [req])
    ensures var rule := Rules(s)[i];
      AnswersKth(Step(s, Run(s, before).0, req).1, rule.limit, CountCovered(rule, req.caller, bucket, before) + 1,
                 req.clock, bucket * rule.window + rule.window)
  {
    RuleSlot(s, i, req.caller, bucket, req);
    RuleNumbers(s, i);
    PromptRuleInTime(s, i, req.caller, bucket, before + [req]);
    CoveredIsSlot(s, i, req.caller, bucket, before);
    CountedResponse(s, before, req);
    WindowEnd(req.clock, Rules(s)[i].window, bucket);
  }

  /** limit requests in the last second of a bucket, limit in the next one. */
  function Burst(r: Request, window: nat, limit: nat, n: nat): seq<Request>
    requires window > 0
  {
    seq(n, i =>
      var second := if i < limit then window - 1 else window;
      r.(clock := second, evalAt := second * 1000))
  }

  lemma BurstSlot(s: Settings, r: Request, limit: nat, n: nat, i: nat)
    requires i < n
    ensures var c := PolicyOf(s, r).category;
      var w := WindowOf(c);
      var req := Burst(r, w, limit, n)[i];
      && PolicyOf(s, req) == PolicyOf(s, r) && req.caller == r.caller
      && w - 1 <= req.clock <= w && req.evalAt == req.clock * 1000
      && Prompt(s, req)
      && SlotOf(s, req) == Slot(c, r.caller, if i < limit then 0 else 1)
  {
    var w := WindowOf(PolicyOf(s, r).category);
    DivUnique(w - 1, w, 0);
    DivUnique(w, w, 1);
  }

  lemma {:induction false} BurstAttempts(s: Settings, r: Request, limit: nat, n: nat)
    requires n <= 2 * limit
    ensures var c := PolicyOf(s, r).category;
      var burst := Burst(r, WindowOf(c), limit, n);
      && Attempts(s, burst, Slot(c, r.caller, 0)) == (if n <= limit then n else limit)
      && Attempts(s, burst, Slot(c, r.caller, 1)) == (if n <= limit then 0 else n - limit)
  {
    if n > 0 {
      var burst := Burst(r, WindowOf(PolicyOf(s, r).category), limit, n);
      assert burst[..n - 1] == Burst(r, WindowOf(PolicyOf(s, r).category), limit, n - 1);
      BurstAttempts(s, r, limit, n - 1);
      BurstSlot(s, r, limit, n, n - 1);
    }
  }

  /** What a request of the burst adds to the stretch it adds to one slot. */
  lemma StretchGrowsWithSlots(s: Settings, before: seq<Request>, req: Request, c: Category, caller: Caller)
    requires PolicyOf(s, req).category == c && req.caller == caller
    requires WindowOf(c) - 1 <= req.clock < 2 * WindowOf(c) - 1 && SlotOf(s, req).bucket <= 1
    ensures var w, all := WindowOf(c), before + [req];
      AdmittedBetween(s, all, c, caller, w - 1, w - 1 + w) - AdmittedBetween(s, before, c, caller, w - 1, w - 1 + w) ==
        Admitted(s, all, Slot(c, caller, 0)) - Admitted(s, before, Slot(c, caller, 0))
        + Admitted(s, all, Slot(c, caller, 1)) - Admitted(s, before, Slot(c, caller, 1))
  {
    assert (before + [req])[..|before|] == before;
  }

  lemma {:induction false} BurstAdmitted(s: Settings, r: Request, limit: nat, n: nat)
    ensures var c := PolicyOf(s, r).category;
      var w := WindowOf(c);
      var burst := Burst(r, w, limit, n);
      AdmittedBetween(s, burst, c, r.caller, w - 1, w - 1 + w) ==
        Admitted(s, burst, Slot(c, r.caller, 0)) + Admitted(s, burst, Slot(c, r.caller, 1))
  {
    if n > 0 {
      var w := WindowOf(PolicyOf(s, r).category);
      var before, burst := Burst(r, w, limit, n - 1), Burst(r, w, limit, n);
      assert burst == before + [burst[n - 1]];
      BurstAdmitted(s, r, limit, n - 1);
      BurstSlot(s, r, limit, n, n - 1);
      StretchGrowsWithSlots(s, before, burst[n - 1], PolicyOf(s, r).category, r.caller);
    }
  }

  lemma BurstInTime(s: Settings, r: Request, limit: nat, n: nat)
    ensures var burst := Burst(r, WindowOf(PolicyOf(s, r).category), limit, n);
      Chronological(burst) && InTime(s, burst)
  {
    var burst := Burst(r, WindowOf(PolicyOf(s, r).category), limit, n);
    forall i | 0 <= i < n
      ensures Prompt(s, burst[i])
    {
      BurstSlot(s, r, limit, n, i);
    }
    PromptIsInTime(s, burst);
  }

  /** The bound is attained: twice the limit within two consecutive seconds. */
  lemma {:induction false} TwiceLimitAttained(s: Settings, r: Request)
    requires LimitOf(s, PolicyOf(s, r).category) >= 0
    ensures var c := PolicyOf(s, r).category;
      var w, limit := WindowOf(c), LimitOf(s, c);
      var burst := Burst(r, w, limit, 2 * limit);
      && Chronological(burst) && InTime(s, burst)
      && AdmittedBetween(s, burst, c, r.caller, w - 1, w - 1 + w) == 2 * limit
  {
    var c := PolicyOf(s, r).category;
    var limit := LimitOf(s, c);
    var burst := Burst(r, WindowOf(c), limit, 2 * limit);
    BurstInTime(s, r, limit, 2 * limit);
    BurstAttempts(s, r, limit, 2 * limit);
    BurstAdmitted(s, r, limit, 2 * limit);
    InTimeInEverySlot(s, burst, Slot(c, r.caller, 0));
    InTimeInEverySlot(s, burst, Slot(c, r.caller, 1));
    AdmittedExactly(s, burst, Slot(c, r.caller, 0));
    AdmittedExactly(s, burst, Slot(c, r.caller, 1));
  }

  lemma {:induction false} BurstExpiry(s: Settings, r: Request, limit: nat, n: nat)
    requires 1 <= n <= limit
    ensures var c := PolicyOf(s, r).category;
      FirstExpiry(s, Burst(r, WindowOf(c), limit, n), Slot(c, r.caller, 0)) == WindowOf(c) * 1000
  {
    var w := WindowOf(PolicyOf(s, r).category);
    var burst := Burst(r, w, limit, n);
    assert burst[..n - 1] == Burst(r, w, limit, n - 1);
    BurstSlot(s, r, limit, n, n - 1);
    BurstAttempts(s, r, limit, n - 1);
    TtlReachesBucketEnd(w - 1, w);
    DivUnique(w - 1, w, 0);
    if n > 1 {
      BurstExpiry(s, r, limit, n - 1);
    }
  }

  lemma AdmittedOneMore(s: Settings, before: seq<Request>, req: Request)
    requires Step(s, Run(s, before).0, req).1.allowed
    ensures Admitted(s, before + [req], SlotOf(s, req)) == Admitted(s, before, SlotOf(s, req)) + 1
  {
    assert (before + [req])[..|before|] == before;
  }

  lemma LateAfterBurst(s: Settings, r: Request, limit: nat)
    requires limit >= 1
    ensures var c := PolicyOf(s, r).category;
      var w := WindowOf(c);
      var burst, late := Burst(r, w, limit, limit), r.(clock := w - 1, evalAt := w * 1000);
      && SlotOf(s, late) == Slot(c, r.caller, 0)
      && Chronological(burst + [late]) && InTime(s, burst) && !Timely(s, burst, late)
  {
    var w := WindowOf(PolicyOf(s, r).category);
    BurstInTime(s, r, limit, limit);
    BurstAttempts(s, r, limit, limit);
    BurstExpiry(s, r, limit, limit);
    DivUnique(w - 1, w, 0);
  }

  /** A script that runs late finds its counter gone: after limit requests in
      the last second of a bucket, one more whose clock shows that second but
      whose script runs a second later is let through as well. */
  lemma {:induction false} LateScriptForgets(s: Settings, r: Request)
    requires LimitOf(s, PolicyOf(s, r).category) >= 1
    ensures var c := PolicyOf(s, r).category;
      var w, limit := WindowOf(c), LimitOf(s, c);
      var history := Burst(r, w, limit, limit) + [r.(clock := w - 1, evalAt := w * 1000)];
      && Chronological(history) && !AllCounted(s, history)
      && Admitted(s, history, Slot(c, r.caller, 0)) == limit + 1
  {
    var c := PolicyOf(s, r).category;
    var w, limit := WindowOf(c), LimitOf(s, c);
    var burst, late := Burst(r, w, limit, limit), r.(clock := w - 1, evalAt := w * 1000);
    LateAfterBurst(s, r, limit);
    BurstInTime(s, r, limit, limit);
    InTimeInEverySlot(s, burst, Slot(c, r.caller, 0));
    AdmittedAfresh(s, burst, late);
    AdmittedOneMore(s, burst, late);
    BurstAttempts(s, r, limit, limit);
    AdmittedExactly(s, burst, Slot(c, r.caller, 0));
    assert (burst + [late])[..limit] == burst;
    CountedExactlyInTime(s, burst + [late]);
  }

  /** Requests whose clocks all show the last second of a bucket, and whose
      scripts run a second apart. */
  function Delayed(r: Request, window: nat, n: nat): seq<Request>
    requires window > 0
  {
    seq(n, i requires 0 <= i < n => r.(clock := window - 1, evalAt := (window - 1 + i) * 1000))
  }

  lemma DelayedSlot(s: Settings, r: Request, n: nat)
    requires n > 0
    ensures var w := WindowOf(PolicyOf(s, r).category);
      var all := Delayed(r, w, n);
      && all == Delayed(r, w, n - 1) + [all[n - 1]]
      && PolicyOf(s, all[n - 1]) == PolicyOf(s, r)
      && SlotOf(s, all[n - 1]) == Slot(PolicyOf(s, r).category, r.caller, 0)
      && Ttl(w - 1, w) == 1
  {
    var w := WindowOf(PolicyOf(s, r).category);
    DivUnique(w - 1, w, 0);
    TtlReachesBucketEnd(w - 1, w);
  }

  /** Each of them finds the counter just gone. */
  lemma {:induction false} DelayedCurrent(s: Settings, r: Request, n: nat)
    requires n > 0
    ensures var c := PolicyOf(s, r).category;
      Current(s, Delayed(r, WindowOf(c), n), Slot(c, r.caller, 0)) == Counter(1, (WindowOf(c) - 1 + n) * 1000)
  {
    var all := Delayed(r, WindowOf(PolicyOf(s, r).category), n);
    DelayedSlot(s, r, n);
    assert all[..n - 1] == Delayed(r, WindowOf(PolicyOf(s, r).category), n - 1);
    if n > 1 {
      DelayedCurrent(s, r, n - 1);
    }
  }

  lemma {:induction false} AllDelayedAdmitted(s: Settings, r: Request, n: nat)
    requires LimitOf(s, PolicyOf(s, r).category) >= 1
    ensures var c := PolicyOf(s, r).category;
      var w, all := WindowOf(c), Delayed(r, WindowOf(c), n);
      && Admitted(s, all, Slot(c, r.caller, 0)) == n
      && AdmittedBetween(s, all, c, r.caller, w - 1, w - 1 + w) == n
  {
    if n > 0 {
      var w := WindowOf(PolicyOf(s, r).category);
      var before, all := Delayed(r, w, n - 1), Delayed(r, w, n);
      AllDelayedAdmitted(s, r, n - 1);
      DelayedSlot(s, r, n);
      DelayedCurrent(s, r, n);
      assert Chronological(before + [all[n - 1]]);
      AnsweredFromCurrent(s, before, all[n - 1]);
      assert all[..n - 1] == before;
    }
  }

  /** When every script comes a second late, no number of requests is too many
      for one slot or one window. */
  lemma LateScriptsUnbounded(s: Settings, r: Request, n: nat)
    requires LimitOf(s, PolicyOf(s, r).category) >= 1
    ensures var c := PolicyOf(s, r).category;
      var w, all := WindowOf(c), Delayed(r, WindowOf(c), n);
      && Chronological(all)
      && Admitted(s, all, Slot(c, r.caller, 0)) == n
      && AdmittedBetween(s, all, c, r.caller, w - 1, w - 1 + w) == n
  {
    AllDelayedAdmitted(s, r, n);
  }

  lemma NextBucket(now: nat, window: nat)
    requires window > 0
    ensures var later := now + Ttl(now, window);
      later >= 1 && later / window == now / window + 1 && (later - 1) / window == now / window
  {
    TtlReachesBucketEnd(now, window);
    var b, later := now / window, now + Ttl(now, window);
    assert later == (b + 1) * window == b * window + window;
    DivUnique(later, window, b + 1);
    DivUnique(later - 1, window, b);
  }

  lemma UnusedSlotAdmits(s: Settings, history: seq<Request>, req: Request, again: Request)
    requires Chronological(history + [req] + [again]) && LimitOf(s, PolicyOf(s, again).category) >= 1
    requires SlotOf(s, again) != SlotOf(s, req) && Attempts(s, history, SlotOf(s, again)) == 0
    ensures Step(s, Run(s, history + [req]).0, again).1.allowed
  {
    assert (history + [req])[..|history|] == history;
    AdmittedAfresh(s, history + [req], again);
  }

  lemma RetryAfterIsTtl(s: Settings, store: Store, req: Request)
    ensures var refusal := Step(s, store, req).1;
      refusal.retryAfter.Some? ==>
        !refusal.allowed && refusal.retryAfter.value == Ttl(req.clock, WindowOf(PolicyOf(s, req).category))
  {
  }

  /** A refused caller is told when to come back: Retry-After seconds later the
      next bucket has begun, a second earlier it has not, and if nobody has
      used that bucket yet the request is let through. */
  lemma {:induction false} RetryAfterIsExact(s: Settings, history: seq<Request>, req: Request, again: Request)
    requires Chronological(history + [req] + [again])
    requires LimitOf(s, PolicyOf(s, req).category) >= 1
    requires again.caller == req.caller && PolicyOf(s, again) == PolicyOf(s, req)
    ensures var refusal := Step(s, Run(s, history).0, req).1;
      refusal.retryAfter == Some(again.clock - req.clock) ==>
        && !refusal.allowed
        && SlotOf(s, again).bucket == SlotOf(s, req).bucket + 1
        && (again.clock - 1) / WindowOf(PolicyOf(s, req).category) == SlotOf(s, req).bucket
        && (Attempts(s, history, SlotOf(s, again)) == 0 ==> Step(s, Run(s, history + [req]).0, again).1.allowed)
  {
    NextBucket(req.clock, WindowOf(PolicyOf(s, req).category));
    RetryAfterIsTtl(s, Run(s, history).0, req);
    if SlotOf(s, again) != SlotOf(s, req) && Attempts(s, history, SlotOf(s, again)) == 0 {
      UnusedSlotAdmits(s, history, req, again);
    }
  }
}
