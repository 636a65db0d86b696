/** API keys (services/api_key.py): parsing, creation, revocation, and a
    validation that searches an index instead of all keys. */
module ApiKeys {
  import opened Base

  type UserId = nat
  type KeyId = nat

  const LOOKUP_LENGTH := 16
  const PAYLOAD_LENGTH := 64

  // ---------------------------------------------------------------------
  // Parsing
  // ---------------------------------------------------------------------

  datatype KeyError = EmptyKey | WrongSegments | UnknownPrefix | UnknownType | BadPayload

  /** The parts of s between underscores. */
  function Split(s: string): (parts: seq<string>)
    ensures parts != []
  {
    if s == "" then [""]
    else
      var rest := Split(s[1..]);
      if s[0] == '_' then [""] + rest else [[s[0]] + rest[0]] + rest[1..]
  }

  predicate IsHex(c: char) {
    '0' <= c <= '9' || 'a' <= c <= 'f'
  }

  predicate IsPayload(s: string) {
    |s| == PAYLOAD_LENGTH && forall i :: 0 <= i < |s| ==> IsHex(s[i])
  }

  predicate IsBlank(isSpace: char -> bool, s: string) {
    forall i :: 0 <= i < |s| ==> isSpace(s[i])
  }

  function ExtractPrefix(isSpace: char -> bool, key: string): Result<string, KeyError> {
    if IsBlank(isSpace, key) then Err(EmptyKey)
    else
      var parts := Split(key);
      if |parts| != 3 then Err(WrongSegments)
      else if parts[0] != "mnm" then Err(UnknownPrefix)
      else if parts[1] != "live" && parts[1] != "test" then Err(UnknownType)
      else if !IsPayload(parts[2]) then Err(BadPayload)
      else Ok(parts[0] + "_" + parts[1] + "_")
  }

  function PrefixOf(isLive: bool): string {
    if isLive then "mnm_live_" else "mnm_test_"
  }

  /** generate_api_key, given its random payload. */
  function PlainKey(isLive: bool, payload: string): string {
    PrefixOf(isLive) + payload
  }

  function Join(parts: seq<string>): string
    requires parts != []
  {
    if |parts| == 1 then parts[0] else parts[0] + "_" + Join(parts[1..])
  }

  /** Joining the parts gives back the string. */
  lemma {:induction false} JoinSplit(s: string)
    ensures Join(Split(s)) == s
  {
    if s != "" {
      JoinSplit(s[1..]);
      var rest := Split(s[1..]);
      if s[0] == '_' {
        assert ([""] + rest)[1..] == rest;
      } else {
        var parts := [[s[0]] + rest[0]] + rest[1..];
        assert parts[1..] == rest[1..];
        assert Join(parts) == [s[0]] + Join(rest);
      }
    }
  }

  lemma {:induction false} SplitPlain(s: string)
    requires '_' !in s
    ensures Split(s) == [s]
  {
    if s != "" {
      SplitPlain(s[1..]);
      assert [s[0]] + s[1..] == s;
    }
  }

  lemma {:induction false} SplitFirst(a: string, rest: string)
    requires '_' !in a
    ensures Split(a + "_" + rest) == [a] + Split(rest)
  {
    var s := a + "_" + rest;
    if a == "" {
      assert s[1..] == rest;
    } else {
      assert s[1..] == a[1..] + "_" + rest;
      SplitFirst(a[1..], rest);
      assert [a[0]] + a[1..] == a;
      assert ([a[1..]] + Split(rest))[1..] == Split(rest);
    }
  }

  lemma SplitKey(isLive: bool, payload: string)
    requires '_' !in payload
    ensures Split(PlainKey(isLive, payload)) == ["mnm", if isLive then "live" else "test", payload]
  {
    var kind := if isLive then "live" else "test";
    assert PlainKey(isLive, payload) == "mnm" + "_" + (kind + "_" + payload);
    SplitFirst("mnm", kind + "_" + payload);
    SplitFirst(kind, payload);
    SplitPlain(payload);
  }

  lemma JoinThree(a: string, b: string, c: string)
    ensures Join([a, b, c]) == a + "_" + b + "_" + c
  {
    assert [a, b, c][1..] == [b, c] && [b, c][1..] == [c];
    assert Join([c]) == c;
    assert Join([b, c]) == b + "_" + c;
    assert a + "_" + (b + "_" + c) == a + "_" + b + "_" + c;
  }

  /** A generated key parses to its own prefix. */
  lemma GeneratedKeyParses(isSpace: char -> bool, isLive: bool, payload: string)
    requires !isSpace('m') && IsPayload(payload)
    ensures ExtractPrefix(isSpace, PlainKey(isLive, payload)) == Ok(PrefixOf(isLive))
    ensures PlainKey(isLive, payload) == (if isLive then "mnm_live_" else "mnm_test_") + payload
  {
    SplitKey(isLive, payload);
    assert PlainKey(isLive, payload)[0] == 'm';
    assert "mnm" + "_" + "live" + "_" == "mnm_live_" && "mnm" + "_" + "test" + "_" == "mnm_test_";
  }

  /** A key parses to a prefix exactly when it is that prefix and a payload of
      64 lower-case hexadecimal digits. */
  lemma ParsesExactly(isSpace: char -> bool, key: string, prefix: string)
    requires !isSpace('m')
    ensures ExtractPrefix(isSpace, key) == Ok(prefix) <==>
      exists isLive, payload :: IsPayload(payload) && prefix == PrefixOf(isLive) && key == PlainKey(isLive, payload)
  {
    if ExtractPrefix(isSpace, key) == Ok(prefix) {
      var parts := Split(key);
      JoinSplit(key);
      JoinThree(parts[0], parts[1], parts[2]);
      assert parts == [parts[0], parts[1], parts[2]];
      assert "mnm" + "_" + "live" + "_" == "mnm_live_" && "mnm" + "_" + "test" + "_" == "mnm_test_";
      assert key == PlainKey(parts[1] == "live", parts[2]);
    }
    if isLive, payload :| IsPayload(payload) && prefix == PrefixOf(isLive) && key == PlainKey(isLive, payload) {
      GeneratedKeyParses(isSpace, isLive, payload);
    }
  }

  // ---------------------------------------------------------------------
  // The key table
  // ---------------------------------------------------------------------

  datatype Key = Key(
    user: UserId,
    hash: string,
    lookup: Option<string>,
    prefix: string,
    isActive: bool,
    revokedAt: Option<int>,
    lastUsedAt: Option<int>)

  datatype Table = Table(keys: map<KeyId, Key>, nextKey: nat)

  /** The keyed hash and the white-space test. */
  datatype Config = Config(hash: string -> string, isSpace: char -> bool)

  /** Hashes are long enough to cut a lookup fragment from, and 'm' is not
      white space. */
  ghost predicate ValidConfig(c: Config) {
    (forall s :: |c.hash(s)| >= LOOKUP_LENGTH) && !c.isSpace('m')
  }

  function Fragment(hash: string): string {
    if |hash| >= LOOKUP_LENGTH then hash[..LOOKUP_LENGTH] else hash
  }

  /** The hash column is unique; old rows have no lookup fragment. */
  ghost predicate TableInv(t: Table) {
    && (forall k :: k in t.keys ==> k < t.nextKey)
    && (forall k :: k in t.keys ==> t.keys[k].lookup.None? || t.keys[k].lookup == Some(Fragment(t.keys[k].hash)))
    && (forall j, k :: j in t.keys && k in t.keys && j != k ==> t.keys[j].hash != t.keys[k].hash)
  }

  datatype Op =
    | Create(user: UserId, userExists: bool, isLive: bool, payload: string)
    | Validate(plain: string, now: int)
    | Revoke(id: KeyId, now: int)

  datatype Reply =
    | CreatedKey(id: KeyId)
    | UserNotFound
    | DuplicateHash
    | ValidKey(id: KeyId)
    | Invalid
    | Revoked(found: bool)

  predicate Matches(c: Config, key: Key, plain: string) {
    c.hash(plain) == key.hash
  }

  /** Rows the indexed query returns. */
  function Candidates(c: Config, t: Table, plain: string): set<KeyId> {
    var prefix := ExtractPrefix(c.isSpace, plain);
    if prefix.Err? then {}
    else
      set k | k in t.keys
        && t.keys[k].prefix == prefix.value && t.keys[k].isActive
        && (t.keys[k].lookup == Some(Fragment(c.hash(plain))) || t.keys[k].lookup.None?)
  }

  /** Rows a scan of the whole table would accept. */
  function FullScan(c: Config, t: Table, plain: string): set<KeyId> {
    var prefix := ExtractPrefix(c.isSpace, plain);
    if prefix.Err? then {}
    else set k | k in t.keys && t.keys[k].prefix == prefix.value && t.keys[k].isActive && Matches(c, t.keys[k], plain)
  }

  /** Filtering by the fragment loses no key and admits no other, and at most
      one key can match. */
  lemma {:induction false} IndexAgreesWithScan(c: Config, t: Table, plain: string)
    requires TableInv(t)
    ensures FullScan(c, t, plain) == (set k | k in Candidates(c, t, plain) && Matches(c, t.keys[k], plain))
    ensures forall j, k :: j in FullScan(c, t, plain) && k in FullScan(c, t, plain) ==> j == k
  {
  }

  function Touched(t: Table, id: KeyId, now: int): Table
    requires id in t.keys
  {
    t.(keys := t.keys[id := t.keys[id].(lastUsedAt := Some(now))])
  }

  class KeyStore {
    var table: Table

    constructor (table: Table)
      ensures this.table == table
    {
      this.table := table;
    }

    method CreateApiKey(c: Config, user: UserId, userExists: bool, isLive: bool, payload: string) returns (r: Reply)
      requires ValidConfig(c) && IsPayload(payload)
      modifies this
      ensures Accepts(c, old(table), Create(user, userExists, isLive, payload), table, r)
    {
      var plainKey := PlainKey(isLive, payload);
      GeneratedKeyParses(c.isSpace, isLive, payload);
      var prefix := ExtractPrefix(c.isSpace, plainKey).value;
      var keyHash := c.hash(plainKey);
      var record := Key(user, keyHash, Some(keyHash[..LOOKUP_LENGTH]), prefix, true, None, None);
      if !userExists {
        return UserNotFound;
      }
      if exists k :: k in table.keys && table.keys[k].hash == keyHash {
        return DuplicateHash;
      }
      r := CreatedKey(table.nextKey);
      table := Table(table.keys[table.nextKey := record], table.nextKey + 1);
    }

    /** Checks the hash of each candidate, in whatever order they come. */
    method ValidateApiKey(c: Config, plain: string, now: int) returns (r: Reply)
      requires TableInv(table)
      modifies this
      ensures Accepts(c, old(table), Validate(plain, now), table, r)
    {
      IndexAgreesWithScan(c, table, plain);
      var candidates := Candidates(c, table, plain);
      while candidates != {}
        invariant table == old(table)
        invariant candidates <= Candidates(c, table, plain)
        invariant forall k :: k in Candidates(c, table, plain) && k !in candidates ==> !Matches(c, table.keys[k], plain)
        decreases candidates
      {
        var k :| k in candidates;
        if Matches(c, table.keys[k], plain) {
          assert k in FullScan(c, table, plain);
          table := Touched(table, k, now);
          return ValidKey(k);
        }
        candidates := candidates - {k};
      }
      r := Invalid;
    }

    method RevokeApiKey(c: Config, id: KeyId, now: int) returns (r: Reply)
      modifies this
      ensures Accepts(c, old(table), Revoke(id, now), table, r)
    {
      if id !in table.keys {
        return Revoked(false);
      }
      table := table.(keys := table.keys[id := table.keys[id].(isActive := false, revokedAt := Some(now))]);
      r := Revoked(true);
    }
  }

  /** after and reply are what the operation may leave. Validation is stated
      against the full scan, not against the index. */
  ghost predicate Accepts(c: Config, t: Table, op: Op, after: Table, reply: Reply) {
    match op
    case Create(user, userExists, isLive, payload) =>
      var hash := c.hash(PlainKey(isLive, payload));
      if !userExists then after == t && reply == UserNotFound
      else if exists k :: k in t.keys && t.keys[k].hash == hash then after == t && reply == DuplicateHash
      else
        && reply == CreatedKey(t.nextKey)
        && after == Table(
             t.keys[t.nextKey := Key(user, hash, Some(Fragment(hash)), PrefixOf(isLive), true, None, None)],
             t.nextKey + 1)
    case Validate(plain, now) =>
      if reply.ValidKey? then
        reply.id in FullScan(c, t, plain) && reply.id in t.keys && after == Touched(t, reply.id, now)
      else reply == Invalid && FullScan(c, t, plain) == {} && after == t
    case Revoke(id, now) =>
      if id !in t.keys then after == t && reply == Revoked(false)
      else
        && after == t.(keys := t.keys[id := t.keys[id].(isActive := false, revokedAt := Some(now))])
        && reply == Revoked(true)
  }

  // ---------------------------------------------------------------------
  // Runs
  // ---------------------------------------------------------------------

  /** tables lists the table before each operation and after the last. */
  ghost predicate IsRun(c: Config, tables: seq<Table>, ops: seq<Op>, replies: seq<Reply>) {
    && |tables| == |ops| + 1 && |replies| == |ops|
    && forall i :: 0 <= i < |ops| ==> Accepts(c, tables[i], ops[i], tables[i + 1], replies[i])
  }

  lemma OpKeepsTable(c: Config, t: Table, op: Op, after: Table, reply: Reply)
    requires TableInv(t) && Accepts(c, t, op, after, reply)
    ensures TableInv(after)
  {
  }

  /** The fields by which a key is found, and whether it is still in force. */
  lemma OpOnKey(c: Config, t: Table, op: Op, after: Table, reply: Reply, id: KeyId)
    requires TableInv(t) && Accepts(c, t, op, after, reply) && id in t.keys
    ensures id in after.keys && after.keys[id].hash == t.keys[id].hash && after.keys[id].prefix == t.keys[id].prefix
    ensures after.keys[id].isActive == (t.keys[id].isActive && !(op.Revoke? && op.id == id))
  {
  }

  ghost predicate RevokedBy(ops: seq<Op>, n: nat, id: KeyId)
    requires n <= |ops|
  {
    exists i :: 0 <= i < n && ops[i].Revoke? && ops[i].id == id
  }

  lemma {:induction false} KeyThroughRun(c: Config, tables: seq<Table>, ops: seq<Op>, replies: seq<Reply>, id: KeyId,
                                         n: nat)
    requires IsRun(c, tables, ops, replies) && n <= |ops|
    requires TableInv(tables[0]) && id in tables[0].keys
    ensures TableInv(tables[n]) && id in tables[n].keys
    ensures tables[n].keys[id].hash == tables[0].keys[id].hash && tables[n].keys[id].prefix == tables[0].keys[id].prefix
    ensures tables[n].keys[id].isActive == (tables[0].keys[id].isActive && !RevokedBy(ops, n, id))
  {
    if n > 0 {
      KeyThroughRun(c, tables, ops, replies, id, n - 1);
      OpKeepsTable(c, tables[n - 1], ops[n - 1], tables[n], replies[n - 1]);
      OpOnKey(c, tables[n - 1], ops[n - 1], tables[n], replies[n - 1], id);
    }
  }

  /** A key just created validates to its own record through any later run,
      exactly until it has been revoked, and never after. */
  lemma {:induction false} ValidUntilRevoked(c: Config, before: Table, create: Op, created: Reply, tables: seq<Table>,
                                             ops: seq<Op>, replies: seq<Reply>, n: nat)
    requires ValidConfig(c) && TableInv(before) && IsRun(c, tables, ops, replies) && n < |ops|
    requires create.Create? && IsPayload(create.payload)
    requires Accepts(c, before, create, tables[0], created) && created.CreatedKey?
    requires ops[n].Validate? && ops[n].plain == PlainKey(create.isLive, create.payload)
    ensures replies[n] == if RevokedBy(ops, n, created.id) then Invalid else ValidKey(created.id)
  {
    var plain, id := ops[n].plain, created.id;
    OpKeepsTable(c, before, create, tables[0], created);
    KeyThroughRun(c, tables, ops, replies, id, n);
    GeneratedKeyParses(c.isSpace, create.isLive, create.payload);
    var t := tables[n];
    assert Accepts(c, t, ops[n], tables[n + 1], replies[n]);
    assert Matches(c, t.keys[id], plain);
    assert forall k :: k in t.keys && Matches(c, t.keys[k], plain) ==> k == id;
    assert t.keys[id].prefix == PrefixOf(create.isLive);
    assert t.keys[id].isActive <==> !RevokedBy(ops, n, id);
    if t.keys[id].isActive {
      assert id in FullScan(c, t, plain);
    } else {
      assert FullScan(c, t, plain) == {};
    }
  }

  // ---------------------------------------------------------------------
  // What each operation does
  // ---------------------------------------------------------------------

  /** A key is created exactly for a user that exists, when no key has its hash
      yet. The new record is the user's, in force, with the prefix of its kind
      and the fragment it is searched by. */
  lemma CreationExactly(c: Config, t: Table, op: Op, after: Table, reply: Reply)
    requires ValidConfig(c) && TableInv(t) && op.Create? && Accepts(c, t, op, after, reply)
    ensures var hash := c.hash(PlainKey(op.isLive, op.payload));
      && (reply.CreatedKey? <==> op.userExists && forall k :: k in t.keys ==> t.keys[k].hash != hash)
      && (reply == UserNotFound <==> !op.userExists)
      && (!reply.CreatedKey? ==> after == t)
      && (reply.CreatedKey? ==>
            && reply.id !in t.keys && after.keys.Keys == t.keys.Keys + {reply.id}
            && after.keys[reply.id].user == op.user && after.keys[reply.id].hash == hash
            && after.keys[reply.id].prefix == (if op.isLive then "mnm_live_" else "mnm_test_")
            && after.keys[reply.id].lookup == Some(hash[..16])
            && after.keys[reply.id].isActive && after.keys[reply.id].revokedAt.None?)
  {
  }

  /** Validation and revocation change at most the record they name: the one is
      stamped with the clock, the other put out of force at the clock. */
  lemma OperationsTouchOneKey(c: Config, t: Table, op: Op, after: Table, reply: Reply, id: KeyId)
    requires TableInv(t) && !op.Create? && Accepts(c, t, op, after, reply) && id in t.keys
    ensures id in after.keys
    ensures op.Validate? ==>
      after.keys[id] == if reply == ValidKey(id) then t.keys[id].(lastUsedAt := Some(op.now)) else t.keys[id]
    ensures op.Revoke? ==>
      after.keys[id] ==
        if op.id == id then t.keys[id].(isActive := false, revokedAt := Some(op.now)) else t.keys[id]
    ensures op.Revoke? ==> reply == Revoked(op.id in t.keys)
  {
  }
}
