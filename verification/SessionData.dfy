/**
 The data of one session and its limits, the abstract store that every
 session operation refines, and the shards with their expiry index
 (src/app/session.rs). Times are in nanoseconds; lengths are bytes.
 */
module SessionData {
  import opened Basics

  type Data = map<string, string>

  const USIZE_MAX: nat := 0xFFFF_FFFF_FFFF_FFFF

  datatype SessionError =
    | EmptyKey | KeyTooLarge | ValueTooLarge | TooManyEntries | SessionTooLarge | SessionUnavailable

  datatype Limits = Limits(entries: nat, keyBytes: nat, valueBytes: nat, totalBytes: nat)

  /** What the configuration insists on. */
  predicate LimitsOk(limits: Limits) {
    && limits.entries > 0 && limits.keyBytes > 0 && limits.valueBytes > 0
    && 0 < limits.totalBytes <= USIZE_MAX
  }

  // ------------------------------------------------------------ counting bytes

  ghost function DataBytes(data: Data): nat {
    if data == map[] then 0
    else
      var k :| k in data;
      |k| + |data[k]| + DataBytes(data - {k})
  }

  /** The total does not depend on the order of counting. */
  lemma {:induction false} DataBytesRemove(data: Data, key: string)
    requires key in data
    ensures DataBytes(data) == |key| + |data[key]| + DataBytes(data - {key})
    decreases |data|
  {
    var k :| k in data && DataBytes(data) == |k| + |data[k]| + DataBytes(data - {k});
    if k != key {
      var rest := data - {k};
      assert |rest| < |data| by {
        assert rest.Keys == data.Keys - {k};
      }
      DataBytesRemove(rest, key);
      var both := data - {key};
      assert |both| < |data| by {
        assert both.Keys == data.Keys - {key};
      }
      DataBytesRemove(both, k);
      assert rest - {key} == both - {k};
    }
  }

  lemma DataBytesSet(data: Data, key: string, value: string)
    ensures DataBytes(data[key := value])
         == DataBytes(data) - (if key in data then |key| + |data[key]| else 0) + |key| + |value|
  {
    var after := data[key := value];
    DataBytesRemove(after, key);
    if key in data {
      DataBytesRemove(data, key);
      assert after - {key} == data - {key};
    } else {
      assert after - {key} == data;
    }
  }

  /** The checked fold over the stored pairs, in any order. */
  method SumBytes(data: Data) returns (total: Option<nat>)
    ensures total == if DataBytes(data) <= USIZE_MAX then Some(DataBytes(data)) else None
  {
    var left := data;
    var sum := 0;
    while left != map[]
      invariant sum + DataBytes(left) == DataBytes(data) && sum <= USIZE_MAX
      decreases |left|
    {
      var k :| k in left;
      DataBytesRemove(left, k);
      if sum + |k| > USIZE_MAX || sum + |k| + |left[k]| > USIZE_MAX {
        return None;
      }
      sum := sum + |k| + |left[k]|;
      assert (left - {k}).Keys == left.Keys - {k};
      left := left - {k};
    }
    return Some(sum);
  }

  // ------------------------------------------------------------------- limits

  ghost predicate WithinLimits(data: Data, limits: Limits) {
    && |data| <= limits.entries
    && (forall k :: k in data ==> 0 < |k| <= limits.keyBytes && |data[k]| <= limits.valueBytes)
    && DataBytes(data) <= limits.totalBytes
  }

  /** `validate_session_value`. */
  function ValueError(key: string, value: string, limits: Limits): Option<SessionError> {
    if key == "" then Some(EmptyKey)
    else if |key| > limits.keyBytes then Some(KeyTooLarge)
    else if |value| > limits.valueBytes then Some(ValueTooLarge)
    else if |key| + |value| > USIZE_MAX || |key| + |value| > limits.totalBytes then Some(SessionTooLarge)
    else None
  }

  /** What a write does to the data of a live session. */
  ghost function Written(data: Data, key: string, value: string, limits: Limits): Result<Data, SessionError> {
    if key !in data && |data| >= limits.entries then Err(TooManyEntries)
    else if DataBytes(data[key := value]) > limits.totalBytes then Err(SessionTooLarge)
    else Ok(data[key := value])
  }

  lemma WrittenWithinLimits(data: Data, key: string, value: string, limits: Limits)
    requires WithinLimits(data, limits) && ValueError(key, value, limits).None?
    ensures Written(data, key, value, limits).Ok? ==> WithinLimits(Written(data, key, value, limits).value, limits)
  {
    WrittenCount(data, key, value);
  }

  lemma WrittenCount(data: Data, key: string, value: string)
    ensures |data[key := value]| == |data| + (if key in data then 0 else 1)
  {
    var after := data[key := value];
    assert after.Keys == data.Keys + {key};
    if key in data {
      assert after.Keys == data.Keys;
    }
  }

  lemma RemovedWithinLimits(data: Data, key: string, limits: Limits)
    requires WithinLimits(data, limits)
    ensures WithinLimits(data - {key}, limits)
  {
    if key in data {
      DataBytesRemove(data, key);
      assert (data - {key}).Keys == data.Keys - {key};
    } else {
      assert data - {key} == data;
    }
  }

  /** The arithmetic of `set`: none of it overflows on data within its limits. */
  method WriteValue(data: Data, key: string, value: string, limits: Limits) returns (r: Result<Data, SessionError>)
    requires LimitsOk(limits) && WithinLimits(data, limits) && ValueError(key, value, limits).None?
    ensures r == Written(data, key, value, limits)
    ensures r.Ok? <==> && (key in data || |data| < limits.entries)
                       && DataBytes(data[key := value]) <= limits.totalBytes
    ensures r.Ok? ==> r.value == data[key := value]
  {
    DataBytesSet(data, key, value);
    if key !in data && |data| >= limits.entries {
      return Err(TooManyEntries);
    }
    var current := SumBytes(data);
    if current.None? {
      return Err(SessionTooLarge);
    }
    if key in data {
      DataBytesRemove(data, key);
      assert |key| + |data[key]| <= USIZE_MAX;
    }
    var replaced := if key in data then |key| + |data[key]| else 0;
    assert replaced <= current.value;
    var kept := current.value - replaced;
    if kept + |key| > USIZE_MAX || kept + |key| + |value| > USIZE_MAX || kept + |key| + |value| > limits.totalBytes {
      return Err(SessionTooLarge);
    }
    return Ok(data[key := value]);
  }

  // ------------------------------------------------------- the abstract store

  datatype Entry = Entry(data: Data, expiresAt: nat)

  /** One map from id to entry; an entry exists only while its deadline is after now. */
  type Sessions = map<string, Entry>

  ghost function Live(m: Sessions, now: nat): Sessions {
    map id | id in m && m[id].expiresAt > now :: m[id]
  }

  lemma LiveLater(m: Sessions, now: nat, later: nat)
    requires now <= later
    ensures Live(Live(m, now), later) == Live(m, later)
  {
  }

  /** The largest representable instant bounds the deadline. */
  function Deadline(horizon: nat, now: nat, idle: nat): nat {
    if now + idle <= horizon then now + idle else now
  }

  /** The operations, each on the sessions that are live when it runs. */
  datatype Op =
    | Resume(id: string) | Get(id: string, key: string) | RemoveKey(id: string, key: string) | Clear(id: string)
    | Create(id: string) | Rotate(old_: string, new_: string) | Count

  datatype Answer =
    | Nothing | Flag(ok: bool) | Value(value: Option<string>) | Number(n: nat) | Outcome(error: Option<SessionError>)

  datatype Settings = Settings(idle: nat, maxSessions: nat, limits: Limits, horizon: nat)

  /** The abstract step on live sessions `m` at `now`. */
  ghost function Abstract(m: Sessions, op: Op, now: nat, s: Settings): (Sessions, Answer) {
    var deadline := Deadline(s.horizon, now, s.idle);
    match op
    case Resume(id) =>
      if id in m then (Live(m[id := m[id].(expiresAt := deadline)], now), Flag(true)) else (m, Flag(false))
    case Get(id, key) =>
      if id in m then
        (Live(m[id := m[id].(expiresAt := deadline)], now),
         Value(if key in m[id].data then Some(m[id].data[key]) else None))
      else (m, Value(None))
    case RemoveKey(id, key) =>
      if id in m then (Live(m[id := Entry(m[id].data - {key}, deadline)], now), Nothing) else (m, Nothing)
    case Clear(id) => (m - {id}, Nothing)
    case Create(id) =>
      if id in m then (Live(m[id := m[id].(expiresAt := deadline)], now), Flag(true))
      else if |m| < s.maxSessions then (Live(m[id := Entry(map[], deadline)], now), Flag(true))
      else (m, Flag(false))
    case Rotate(old_, new_) =>
      if old_ !in m then (m, Flag(false))
      else (Live((m - {old_})[new_ := Entry(m[old_].data, deadline)], now), Flag(true))
    case Count => (m, Number(|m|))
  }

  // ------------------------------------------------------------------- shards

  datatype ExpiryKey = ExpiryKey(expiresAt: nat, id: string)

  datatype Shard = Shard(entries: Sessions, expiry: set<ExpiryKey>)

  /** The ordered set is the image of the entries. */
  ghost predicate Exact(shard: Shard) {
    forall k :: k in shard.expiry <==> k.id in shard.entries && shard.entries[k.id].expiresAt == k.expiresAt
  }

  function KeyOf(id: string, entry: Entry): ExpiryKey {
    ExpiryKey(entry.expiresAt, id)
  }

  /** `renew`. */
  function Renew(shard: Shard, id: string, deadline: nat): (r: (Shard, bool))
    requires Exact(shard)
    ensures Exact(r.0) && r.1 == (id in shard.entries)
    ensures r.0.entries == if r.1 then shard.entries[id := shard.entries[id].(expiresAt := deadline)] else shard.entries
  {
    if id !in shard.entries then (shard, false)
    else
      var entry := shard.entries[id].(expiresAt := deadline);
      (Shard(shard.entries[id := entry], shard.expiry - {KeyOf(id, shard.entries[id])} + {KeyOf(id, entry)}), true)
  }

  /** `insert_entry`: whether the id was new. */
  function InsertEntry(shard: Shard, id: string, entry: Entry): (r: (Shard, bool))
    requires Exact(shard)
    ensures Exact(r.0) && r.0.entries == shard.entries[id := entry] && r.1 == (id !in shard.entries)
  {
    var expiry := if id in shard.entries then shard.expiry - {KeyOf(id, shard.entries[id])} else shard.expiry;
    (Shard(shard.entries[id := entry], expiry + {KeyOf(id, entry)}), id !in shard.entries)
  }

  /** `remove_entry`. */
  function RemoveEntry(shard: Shard, id: string): (r: (Shard, Option<Entry>))
    requires Exact(shard)
    ensures Exact(r.0) && r.0.entries == shard.entries - {id}
    ensures r.1 == if id in shard.entries then Some(shard.entries[id]) else None
  {
    if id !in shard.entries then
      assert shard.entries - {id} == shard.entries;
      (shard, None)
    else
      var entry := shard.entries[id];
      (Shard(shard.entries - {id}, shard.expiry - {KeyOf(id, entry)}), Some(entry))
  }

  lemma {:induction false} EarliestExists(keys: set<ExpiryKey>) returns (first: ExpiryKey)
    requires keys != {}
    ensures first in keys && forall k :: k in keys ==> first.expiresAt <= k.expiresAt
    decreases |keys|
  {
    var any :| any in keys;
    if keys == {any} {
      first := any;
    } else {
      var rest := keys - {any};
      assert rest != {};
      var other := EarliestExists(rest);
      first := if any.expiresAt <= other.expiresAt then any else other;
      assert forall k :: k in keys ==> k == any || k in rest;
    }
  }

  /** `remove_expired_entries`: at most `maximum` entries go, all of them
      expired; stopping short of that leaves no expired entry. The branch for an
      inexact index cannot be reached. */
  method RemoveExpired(shard: Shard, now: nat, maximum: nat)
    returns (after: Shard, removed: nat, ghost gone: set<string>)
    requires Exact(shard)
    ensures Exact(after) && removed == |gone| <= maximum
    ensures forall id :: id in gone ==> id in shard.entries && shard.entries[id].expiresAt <= now
    ensures after.entries == shard.entries - gone
    ensures removed < maximum ==> forall id :: id in after.entries ==> after.entries[id].expiresAt > now
  {
    after, removed, gone := shard, 0, {};
    assert shard.entries - {} == shard.entries;
    while removed < maximum
      invariant Exact(after) && removed == |gone| <= maximum
      invariant forall id :: id in gone ==> id in shard.entries && shard.entries[id].expiresAt <= now
      invariant after.entries == shard.entries - gone
      decreases maximum - removed
    {
      if after.expiry == {} {
        NoneIndexed(after, now);
        break;
      }
      ghost var earliest := EarliestExists(after.expiry);
      var candidate :| candidate in after.expiry
        && forall k :: k in after.expiry ==> candidate.expiresAt <= k.expiresAt;
      if candidate.expiresAt > now {
        AllLater(after, candidate, now);
        break;
      }
      var id := candidate.id;
      if id in after.entries && after.entries[id].expiresAt == candidate.expiresAt {
        after := Shard(after.entries - {id}, after.expiry - {candidate});
        gone := gone + {id};
        removed := removed + 1;
      } else {
        assert false;  // the expiry index is exact
      }
    }
  }

  lemma NoneIndexed(shard: Shard, now: nat)
    requires Exact(shard) && shard.expiry == {}
    ensures forall id :: id in shard.entries ==> shard.entries[id].expiresAt > now
  {
    assert forall id :: id in shard.entries ==> KeyOf(id, shard.entries[id]) in shard.expiry;
  }

  lemma AllLater(shard: Shard, first: ExpiryKey, now: nat)
    requires Exact(shard) && first.expiresAt > now
    requires forall k :: k in shard.expiry ==> first.expiresAt <= k.expiresAt
    ensures forall id :: id in shard.entries ==> shard.entries[id].expiresAt > now
  {
    forall id | id in shard.entries ensures shard.entries[id].expiresAt > now {
      assert KeyOf(id, shard.entries[id]) in shard.expiry;
    }
  }
}
