/**
 The session store run one operation at a time: sixteen shards, an entry
 counter, batched cleanup and rotation records, refining one map with sliding
 deadlines (src/app/session.rs).
 */
module SessionStore {
  import opened Basics
  import opened SessionData

  const SHARDS: nat := 16
  const CLEANUP_BATCH: nat := 256
  const CLEANUP_INTERVAL: nat := 60_000_000_000
  const ROTATION_RECORD_TTL: nat := 60_000_000_000

  datatype Rotation = Rotation(newId: string, at: nat)

  /** The ids of `stored` whose home is shard `i` are exactly its entries. */
  ghost predicate Holds(shard: Shard, i: nat, stored: Sessions, hash: string -> nat) {
    && Exact(shard)
    && (forall id :: id in shard.entries <==> id in stored && hash(id) % SHARDS == i)
    && (forall id :: id in shard.entries ==> shard.entries[id] == stored[id])
  }

  ghost predicate AllHold(shards: seq<Shard>, stored: Sessions, hash: string -> nat) {
    |shards| == SHARDS && forall i :: 0 <= i < SHARDS ==> Holds(shards[i], i, stored, hash)
  }

  ghost predicate DataWithin(stored: Sessions, limits: Limits) {
    forall id :: id in stored ==> WithinLimits(stored[id].data, limits)
  }

  lemma DataWithinRest(stored: Sessions, gone: set<string>, limits: Limits)
    requires DataWithin(stored, limits)
    ensures DataWithin(stored - gone, limits)
  {
  }

  /** Replacing one shard after a change confined to its ids. */
  lemma ReplaceShard(
    shards: seq<Shard>, stored: Sessions, hash: string -> nat, i: nat, shard: Shard, after: Sessions)
    requires AllHold(shards, stored, hash) && i < SHARDS && Holds(shard, i, after, hash)
    requires forall id :: hash(id) % SHARDS != i ==>
               ((id in after <==> id in stored) && (id in after ==> after[id] == stored[id]))
    ensures AllHold(shards[i := shard], after, hash)
  {
    var updated := shards[i := shard];
    forall j | 0 <= j < SHARDS ensures Holds(updated[j], j, after, hash) {
      if j != i {
        assert Holds(shards[j], j, stored, hash);
      }
    }
  }

  /** Taking expired entries out does not change what is live. */
  lemma ExpiredGone(stored: Sessions, gone: set<string>, now: nat)
    requires forall id :: id in gone ==> id in stored && stored[id].expiresAt <= now
    ensures Live(stored - gone, now) == Live(stored, now)
    ensures |stored - gone| == |stored| - |gone|
  {
    assert (stored - gone).Keys == stored.Keys - gone;
    SubsetSize(gone, stored.Keys);
  }

  lemma LiveSize(stored: Sessions, now: nat)
    ensures |Live(stored, now)| <= |stored|
    ensures (forall id :: id in stored ==> stored[id].expiresAt > now) ==> Live(stored, now) == stored
  {
    var live := Live(stored, now);
    SubsetSize(live.Keys, stored.Keys);
  }

  lemma SameKeys(m: Sessions, id: string, entry: Entry)
    requires id in m
    ensures |m[id := entry]| == |m|
  {
    assert m[id := entry].Keys == m.Keys;
  }

  lemma OneFewer(m: Sessions, id: string)
    requires id in m
    ensures |m - {id}| == |m| - 1
  {
    assert (m - {id}).Keys == m.Keys - {id};
  }

  lemma OneMore(m: Sessions, id: string, entry: Entry)
    requires id !in m
    ensures |m[id := entry]| == |m| + 1
  {
    assert m[id := entry].Keys == m.Keys + {id};
  }

  /** The stored entries after an operation has looked `id` up: an expired entry
      is dropped, a live one slides its deadline. */
  ghost function Touched(m: Sessions, id: string, now: nat, s: Settings): Sessions {
    if id !in m then m
    else if m[id].expiresAt <= now then m - {id}
    else m[id := m[id].(expiresAt := Deadline(s.horizon, now, s.idle))]
  }

  lemma TouchedRefines(m: Sessions, id: string, now: nat, s: Settings)
    ensures Live(Touched(m, id, now, s), now) == Abstract(Live(m, now), Resume(id), now, s).0
    ensures Abstract(Live(m, now), Resume(id), now, s).1 == Flag(id in Live(m, now))
  {
    if id in m && m[id].expiresAt <= now {
      ExpiredGone(m, {id}, now);
    }
  }

  lemma GetRefines(m: Sessions, id: string, key: string, now: nat, s: Settings)
    ensures Live(Touched(m, id, now, s), now) == Abstract(Live(m, now), Get(id, key), now, s).0
    ensures Abstract(Live(m, now), Get(id, key), now, s).1
         == Value(if id in Live(m, now) && key in m[id].data then Some(m[id].data[key]) else None)
  {
    TouchedRefines(m, id, now, s);
  }

  lemma RemoveRefines(m: Sessions, id: string, key: string, now: nat, s: Settings)
    ensures var t := Touched(m, id, now, s);
            Live(if id in t then t[id := t[id].(data := t[id].data - {key})] else t, now)
            == Abstract(Live(m, now), RemoveKey(id, key), now, s).0
  {
    if id in m && m[id].expiresAt <= now {
      ExpiredGone(m, {id}, now);
    }
  }

  lemma ClearRefines(m: Sessions, id: string, now: nat, s: Settings)
    ensures Live(m - {id}, now) == Abstract(Live(m, now), Clear(id), now, s).0
  {
  }

  /** No entry of the shard has expired. */
  ghost predicate Fresh(shard: Shard, now: nat) {
    forall id :: id in shard.entries ==> shard.entries[id].expiresAt > now
  }

  ghost predicate AllLive(m: Sessions, now: nat) {
    forall id :: id in m ==> m[id].expiresAt > now
  }

  lemma FreshShardsAllLive(shards: seq<Shard>, stored: Sessions, hash: string -> nat, now: nat)
    requires AllHold(shards, stored, hash) && forall i :: 0 <= i < SHARDS ==> Fresh(shards[i], now)
    ensures AllLive(stored, now)
  {
    forall id | id in stored ensures stored[id].expiresAt > now {
      var i := hash(id) % SHARDS;
      assert Holds(shards[i], i, stored, hash) && Fresh(shards[i], now);
    }
  }

  /** The shard a sweep from `start` visits after `v` others. */
  function Visit(start: nat, v: nat): (i: nat)
    ensures i < SHARDS
  {
    (start + v) % SHARDS
  }

  /** Sixteen steps from any shard visit them all. */
  lemma AllVisited(shards: seq<Shard>, start: nat, now: nat)
    requires |shards| == SHARDS && start < SHARDS
    requires forall v :: 0 <= v < SHARDS ==> Fresh(shards[Visit(start, v)], now)
    ensures forall i :: 0 <= i < SHARDS ==> Fresh(shards[i], now)
  {
    forall i | 0 <= i < SHARDS ensures Fresh(shards[i], now) {
      var v := (i + SHARDS - start) % SHARDS;
      assert Visit(start, v) == i;
    }
  }

  /** Admission, after the lookup and the cleanup: `m` has the live sessions of
      the abstract state, and is all live if it is full. */
  lemma AdmissionRefines(live: Sessions, m: Sessions, id: string, now: nat, s: Settings)
    requires Live(m, now) == live && id !in m && (|m| >= s.maxSessions ==> AllLive(m, now))
    ensures var entry := Entry(map[], Deadline(s.horizon, now, s.idle));
            Abstract(live, Create(id), now, s)
            == if |m| >= s.maxSessions then (live, Flag(false)) else (Live(m[id := entry], now), Flag(true))
  {
    LiveSize(m, now);
    var entry := Entry(map[], Deadline(s.horizon, now, s.idle));
    assert Live(live[id := entry], now) == Live(m[id := entry], now);
  }

  lemma EmptyWithinLimits(limits: Limits)
    requires LimitsOk(limits)
    ensures WithinLimits(map[], limits)
  {
  }

  /** Creating a live session resumes it. */
  lemma CreateLive(m: Sessions, id: string, now: nat, s: Settings)
    requires id in m
    ensures Abstract(m, Create(id), now, s) == Abstract(m, Resume(id), now, s)
    ensures Abstract(m, Create(id), now, s).1 == Flag(true)
  {
  }

  lemma RotateAnswer(m: Sessions, oldId: string, newId: string, now: nat, s: Settings)
    ensures Abstract(m, Rotate(oldId, newId), now, s).1 == Flag(oldId in m)
    ensures oldId !in m ==> Abstract(m, Rotate(oldId, newId), now, s).0 == m
  {
  }

  lemma RotateRefines(m: Sessions, oldId: string, newId: string, now: nat, s: Settings)
    requires oldId in m && m[oldId].expiresAt > now
    ensures var moved := Entry(m[oldId].data, Deadline(s.horizon, now, s.idle));
            Abstract(Live(m, now), Rotate(oldId, newId), now, s)
            == (Live((m - {oldId})[newId := moved], now), Flag(true))
  {
    var moved := Entry(m[oldId].data, Deadline(s.horizon, now, s.idle));
    assert Live((Live(m, now) - {oldId})[newId := moved], now) == Live((m - {oldId})[newId := moved], now);
  }

  /** Rotation moves the data, kills the old id and leaves the others alone. */
  lemma RotationMoves(m: Sessions, oldId: string, newId: string, now: nat, s: Settings)
    requires AllLive(m, now) && oldId in m && oldId != newId && Deadline(s.horizon, now, s.idle) > now
    ensures var after := Abstract(m, Rotate(oldId, newId), now, s).0;
            && newId in after && after[newId].data == m[oldId].data && oldId !in after
            && forall x :: x != oldId && x != newId ==> (x in after <==> x in m) && (x in m ==> after[x] == m[x])
  {
    var moved := Entry(m[oldId].data, Deadline(s.horizon, now, s.idle));
    assert Abstract(m, Rotate(oldId, newId), now, s).0 == Live((m - {oldId})[newId := moved], now);
  }

  lemma RotateMissRefines(m: Sessions, oldId: string, newId: string, now: nat, s: Settings)
    requires oldId in m ==> m[oldId].expiresAt <= now
    ensures Abstract(Live(m, now), Rotate(oldId, newId), now, s) == (Live(m - {oldId}, now), Flag(false))
  {
    assert Live(m - {oldId}, now) == Live(m, now);
  }

  /** Changing the data of an entry does not concern the expiry index. */
  lemma DataChangeExact(shard: Shard, id: string, data: Data)
    requires Exact(shard) && id in shard.entries
    ensures Exact(Shard(shard.entries[id := shard.entries[id].(data := data)], shard.expiry))
  {
  }

  // ------------------------------------------------------------------- sweeps

  /** `gone` are expired ids of `stored`. */
  ghost predicate Expired(stored: Sessions, gone: set<string>, now: nat) {
    forall id :: id in gone ==> id in stored && stored[id].expiresAt <= now
  }

  lemma GoneUnion(stored: Sessions, gone: set<string>, more: set<string>, now: nat)
    requires Expired(stored, gone, now) && Expired(stored - gone, more, now)
    ensures stored - gone - more == stored - (gone + more)
    ensures |gone + more| == |gone| + |more| && Expired(stored, gone + more, now)
  {
    assert gone !! more;
  }

  lemma EverythingGone(stored: Sessions, gone: set<string>, last: set<string>)
    requires last <= gone <= stored.Keys && |stored| <= USIZE_MAX == |last|
    ensures stored - gone == map[]
  {
    SubsetSize(last, stored.Keys);
    assert |stored.Keys - last| == 0;
    assert forall id :: id in stored ==> id !in stored.Keys - last;
  }

  /** One shard of a sweep. */
  method SweepOne(
    shards: seq<Shard>, i: nat, now: nat, maximum: nat, ghost stored: Sessions, ghost hash: string -> nat)
    returns (after: seq<Shard>, removed: nat, ghost gone: set<string>)
    requires AllHold(shards, stored, hash) && i < SHARDS
    ensures AllHold(after, stored - gone, hash)
    ensures Expired(stored, gone, now) && removed == |gone| <= maximum
    ensures forall j :: 0 <= j < SHARDS && j != i ==> after[j] == shards[j]
    ensures removed < maximum ==> Fresh(after[i], now)
  {
    assert Holds(shards[i], i, stored, hash);
    var shard;
    shard, removed, gone := RemoveExpired(shards[i], now, maximum);
    assert Holds(shard, i, stored - gone, hash);
    ReplaceShard(shards, stored, hash, i, shard, stored - gone);
    after := shards[i := shard];
  }

  /** The loop of `cleanup_expired_batch`: at most 256 entries go, all expired;
      a sweep that stops short of that leaves no expired entry in any shard. */
  method SweepBatch(shards: seq<Shard>, start: nat, now: nat, ghost stored: Sessions, ghost hash: string -> nat)
    returns (after: seq<Shard>, removed: nat, last: nat, ghost gone: set<string>)
    requires AllHold(shards, stored, hash) && start < SHARDS
    ensures AllHold(after, stored - gone, hash) && last < SHARDS
    ensures Expired(stored, gone, now) && removed == |gone| <= CLEANUP_BATCH
    ensures removed < CLEANUP_BATCH ==> AllLive(stored - gone, now)
  {
    var remaining, visited := CLEANUP_BATCH, 0;
    after, removed, last, gone := shards, 0, start, {};
    assert stored - {} == stored;
    while remaining > 0 && visited < SHARDS
      invariant visited <= SHARDS && last < SHARDS
      invariant AllHold(after, stored - gone, hash) && Expired(stored, gone, now)
      invariant removed + remaining == CLEANUP_BATCH && removed == |gone|
      invariant remaining > 0 ==> forall v :: 0 <= v < visited ==> Fresh(after[Visit(start, v)], now)
      decreases SHARDS - visited, remaining
    {
      var index := Visit(start, visited);
      var before := after;
      var n;
      ghost var more;
      after, n, more := SweepOne(before, index, now, remaining, stored - gone, hash);
      GoneUnion(stored, gone, more, now);
      gone := gone + more;
      removed := removed + n;
      remaining := remaining - n;
      if remaining == 0 {
        last := index;
        break;
      }
      visited := visited + 1;
    }
    if remaining > 0 {
      AllVisited(after, start, now);
      FreshShardsAllLive(after, stored - gone, hash, now);
    }
  }

  /** The loop of `live_len`. */
  method SweepAll(shards: seq<Shard>, now: nat, ghost stored: Sessions, ghost hash: string -> nat)
    returns (after: seq<Shard>, removed: nat, ghost gone: set<string>)
    requires AllHold(shards, stored, hash) && |stored| <= USIZE_MAX
    ensures AllHold(after, stored - gone, hash)
    ensures Expired(stored, gone, now) && removed == |gone|
    ensures AllLive(stored - gone, now)
  {
    after, removed, gone := shards, 0, {};
    assert stored - {} == stored;
    for i := 0 to SHARDS
      invariant AllHold(after, stored - gone, hash) && Expired(stored, gone, now) && removed == |gone|
      invariant forall j :: 0 <= j < i ==> Fresh(after[j], now)
    {
      var before := after;
      var n;
      ghost var more;
      after, n, more := SweepOne(before, i, now, USIZE_MAX, stored - gone, hash);
      GoneUnion(stored, gone, more, now);
      gone := gone + more;
      removed := removed + n;
      if n == USIZE_MAX {
        EverythingGone(stored, gone, more);
        assert Holds(after[i], i, stored - gone, hash);
      }
    }
    FreshShardsAllLive(after, stored - gone, hash, now);
  }

  class Store {
    const hash: string -> nat
    const settings: Settings
    var shards: seq<Shard>
    var counter: int
    var nextCleanup: nat
    var cleanupShard: nat
    var rotations: map<string, Rotation>
    /** All entries, in one map. */
    ghost var stored: Sessions

    /** All but the counter. */
    ghost predicate Consistent()
      reads this
    {
      && AllHold(shards, stored, hash)
      && cleanupShard < SHARDS
      && LimitsOk(settings.limits) && 0 < settings.maxSessions <= USIZE_MAX
      && DataWithin(stored, settings.limits)
    }

    ghost predicate Valid()
      reads this
    {
      Consistent() && counter == |stored| && counter <= settings.maxSessions
    }

    /** The abstract sessions at `now`. */
    ghost function At(now: nat): Sessions
      reads this
    {
      Live(stored, now)
    }

    /** The abstract state at `now`. */
    ghost function WorldAt(now: nat): World
      reads this
    {
      World(At(now), rotations)
    }

    constructor (hash: string -> nat, settings: Settings, now: nat)
      requires LimitsOk(settings.limits) && 0 < settings.maxSessions <= USIZE_MAX
      ensures Valid() && stored == map[] && this.hash == hash && this.settings == settings && rotations == map[]
    {
      this.hash, this.settings := hash, settings;
      shards := seq(SHARDS, _ => Shard(map[], {}));
      counter, stored, rotations := 0, map[], map[];
      nextCleanup, cleanupShard := now + CLEANUP_INTERVAL, 0;
    }

    function Index(id: string): (i: nat)
      ensures i < SHARDS
    {
      hash(id) % SHARDS
    }

    /** Writes back the shard of `id` with a new or changed entry. */
    method PutEntry(id: string, shard: Shard, entry: Entry)
      requires Consistent() && Exact(shard) && WithinLimits(entry.data, settings.limits)
      requires shard.entries == shards[Index(id)].entries[id := entry]
      modifies this`shards, this`stored
      ensures Consistent() && stored == old(stored)[id := entry]
    {
      var i := Index(id);
      assert Holds(shards[i], i, stored, hash);
      ghost var after := stored[id := entry];
      assert Holds(shard, i, after, hash);
      ReplaceShard(shards, stored, hash, i, shard, after);
      shards := shards[i := shard];
      stored := after;
    }

    /** Writes back the shard of `id` without its entry. */
    method DropEntry(id: string, shard: Shard)
      requires Consistent() && Exact(shard) && shard.entries == shards[Index(id)].entries - {id}
      modifies this`shards, this`stored
      ensures Consistent() && stored == old(stored) - {id}
    {
      var i := Index(id);
      assert Holds(shards[i], i, stored, hash);
      ghost var after := stored - {id};
      assert Holds(shard, i, after, hash);
      ReplaceShard(shards, stored, hash, i, shard, after);
      shards := shards[i := shard];
      stored := after;
    }

    /** Drops the entry of `id` if it has expired; the clause every operation
        starts with. */
    method DropExpired(id: string, now: nat) returns (dropped: bool)
      requires Valid()
      modifies this`shards, this`stored, this`counter
      ensures Valid() && At(now) == old(At(now))
      ensures dropped == (id in old(stored) && old(stored)[id].expiresAt <= now)
      ensures stored == if dropped then old(stored) - {id} else old(stored)
    {
      var shard := shards[Index(id)];
      assert Holds(shard, Index(id), stored, hash);
      dropped := id in shard.entries && shard.entries[id].expiresAt <= now;
      if dropped {
        ExpiredGone(stored, {id}, now);
        DropEntry(id, RemoveEntry(shard, id).0);
        counter := counter - 1;
      }
    }

    /** Slides the deadline of `id` if it is stored. */
    method RenewId(id: string, now: nat) returns (found: bool)
      requires Valid()
      modifies this`shards, this`stored
      ensures Valid() && found == (id in old(stored))
      ensures stored == if found
                        then var deadline := Deadline(settings.horizon, now, settings.idle);
                             old(stored)[id := old(stored)[id].(expiresAt := deadline)]
                        else old(stored)
    {
      var shard := shards[Index(id)];
      assert Holds(shard, Index(id), stored, hash);
      var deadline := Deadline(settings.horizon, now, settings.idle);
      var (after, ok) := Renew(shard, id, deadline);
      found := ok;
      if found {
        SameKeys(stored, id, stored[id].(expiresAt := deadline));
        PutEntry(id, after, shard.entries[id].(expiresAt := deadline));
      }
    }

    /** Looks `id` up, dropping an expired entry and renewing a live one. */
    method Touch(id: string, now: nat) returns (live: bool)
      requires Valid()
      modifies this`shards, this`stored, this`counter
      ensures Valid() && stored == Touched(old(stored), id, now, settings) && live == (id in stored)
      ensures live == (id in Live(old(stored), now))
    {
      var expired := DropExpired(id, now);
      if expired {
        return false;
      }
      live := RenewId(id, now);
    }

    method ResumeSession(id: string, now: nat) returns (ok: bool)
      requires Valid()
      modifies this`shards, this`stored, this`counter
      ensures Valid()
      ensures (At(now), Flag(ok)) == Abstract(old(At(now)), Resume(id), now, settings)
    {
      TouchedRefines(stored, id, now, settings);
      ok := Touch(id, now);
    }

    /** The entry of a stored session. */
    function EntryOf(id: string): (entry: Entry)
      requires Valid() && id in stored
      reads this
      ensures entry == stored[id]
    {
      assert Holds(shards[Index(id)], Index(id), stored, hash);
      shards[Index(id)].entries[id]
    }

    method GetValue(id: string, key: string, now: nat) returns (value: Option<string>)
      requires Valid()
      modifies this`shards, this`stored, this`counter
      ensures Valid()
      ensures (At(now), Value(value)) == Abstract(old(At(now)), Get(id, key), now, settings)
    {
      GetRefines(stored, id, key, now, settings);
      var live := Touch(id, now);
      if !live {
        return None;
      }
      var data := EntryOf(id).data;
      value := if key in data then Some(data[key]) else None;
    }

    /** Replaces the data of a stored session. */
    method SetData(id: string, data: Data)
      requires Valid() && id in stored && WithinLimits(data, settings.limits)
      modifies this`shards, this`stored
      ensures Valid() && stored == old(stored)[id := old(stored)[id].(data := data)]
    {
      var shard := shards[Index(id)];
      assert Holds(shard, Index(id), stored, hash);
      DataChangeExact(shard, id, data);
      SameKeys(stored, id, stored[id].(data := data));
      var entry := shard.entries[id].(data := data);
      PutEntry(id, Shard(shard.entries[id := entry], shard.expiry), entry);
    }

    method RemoveValue(id: string, key: string, now: nat)
      requires Valid()
      modifies this`shards, this`stored, this`counter
      ensures Valid()
      ensures At(now) == Abstract(old(At(now)), RemoveKey(id, key), now, settings).0
    {
      RemoveRefines(stored, id, key, now, settings);
      var live := Touch(id, now);
      if live {
        var data := EntryOf(id).data;
        RemovedWithinLimits(data, key, settings.limits);
        SetData(id, data - {key});
      }
    }

    method ClearSession(id: string)
      requires Valid()
      modifies this`shards, this`stored, this`counter
      ensures Valid() && stored == old(stored) - {id}
    {
      var entry := TakeOut(id);
      if entry.Some? {
        counter := counter - 1;
      }
    }

    // ----------------------------------------------------- cleanup and admission

    /** Writes back swept shards and settles the counter. */
    method Adopt(after: seq<Shard>, removed: nat, ghost left: Sessions)
      requires Valid() && AllHold(after, left, hash) && DataWithin(left, settings.limits)
      requires |left| == |stored| - removed
      modifies this`shards, this`stored, this`counter
      ensures Valid() && stored == left
    {
      shards := after;
      stored := left;
      if removed > 0 {
        counter := counter - removed;
      }
    }

    /** `cleanup_expired_batch`. */
    method CleanupBatch(now: nat) returns (removed: nat)
      requires Valid()
      modifies this`shards, this`stored, this`counter, this`cleanupShard, this`nextCleanup
      ensures Valid() && At(now) == old(At(now))
      ensures removed <= CLEANUP_BATCH && |stored| == |old(stored)| - removed
      ensures stored.Keys <= old(stored).Keys
      ensures removed < CLEANUP_BATCH ==> AllLive(stored, now)
    {
      var after, last;
      ghost var gone;
      after, removed, last, gone := SweepBatch(shards, cleanupShard, now, stored, hash);
      ExpiredGone(stored, gone, now);
      DataWithinRest(stored, gone, settings.limits);
      Adopt(after, removed, stored - gone);
      if removed == CLEANUP_BATCH {
        cleanupShard := last;
        nextCleanup := now;
      } else {
        cleanupShard := (cleanupShard + 1) % SHARDS;
        nextCleanup := Deadline(settings.horizon, now, CLEANUP_INTERVAL);
      }
    }

    /** The cleanup before an admission: a store that stays full is all live. */
    method MakeRoom(now: nat)
      requires Valid()
      modifies this`shards, this`stored, this`counter, this`cleanupShard, this`nextCleanup
      ensures Valid() && At(now) == old(At(now)) && stored.Keys <= old(stored).Keys
      ensures |stored| >= settings.maxSessions ==> AllLive(stored, now)
    {
      var attempted := now >= nextCleanup;
      if attempted {
        var removed := CleanupBatch(now);
      }
      if counter >= settings.maxSessions && !attempted {
        var removed := CleanupBatch(now);
      }
    }

    /** `create`: refused exactly when the id is not live and the live sessions
        fill the store; a refusal finds every stored session live. */
    method CreateSession(id: string, now: nat) returns (ok: bool)
      requires Valid()
      modifies this`shards, this`stored, this`counter, this`cleanupShard, this`nextCleanup
      ensures Valid()
      ensures (At(now), Flag(ok)) == Abstract(old(At(now)), Create(id), now, settings)
      ensures !ok ==> AllLive(stored, now) && |stored| == settings.maxSessions
    {
      TouchedRefines(stored, id, now, settings);
      ghost var live := At(now);
      var found := Touch(id, now);
      if found {
        CreateLive(live, id, now, settings);
        return true;
      }
      MakeRoom(now);
      AdmissionRefines(live, stored, id, now, settings);
      if counter >= settings.maxSessions {
        return false;
      }
      Admit(id, now);
      return true;
    }

    /** Stores an empty session under an id that has none. */
    method Admit(id: string, now: nat)
      requires Valid() && id !in stored && counter < settings.maxSessions
      modifies this`shards, this`stored, this`counter
      ensures Valid() && stored == old(stored)[id := Entry(map[], Deadline(settings.horizon, now, settings.idle))]
    {
      var shard := shards[Index(id)];
      assert Holds(shard, Index(id), stored, hash);
      var entry := Entry(map[], Deadline(settings.horizon, now, settings.idle));
      EmptyWithinLimits(settings.limits);
      OneMore(stored, id, entry);
      var (after, isNew) := InsertEntry(shard, id, entry);
      PutEntry(id, after, entry);
      if isNew {
        counter := counter + 1;
      }
    }

    /** `live_len`. */
    method LiveCount(now: nat) returns (n: nat)
      requires Valid()
      modifies this`shards, this`stored, this`counter
      ensures Valid() && At(now) == old(At(now)) && n == |At(now)|
    {
      var after, removed;
      ghost var gone;
      after, removed, gone := SweepAll(shards, now, stored, hash);
      ExpiredGone(stored, gone, now);
      DataWithinRest(stored, gone, settings.limits);
      Adopt(after, removed, stored - gone);
      LiveSize(stored, now);
      n := counter;
    }

    // -------------------------------------------------------- rotation of ids

    /** Stores an entry whose id has already been counted. */
    method PlaceMoved(id: string, entry: Entry)
      requires Consistent() && counter == |stored| + 1 && counter <= settings.maxSessions
      requires WithinLimits(entry.data, settings.limits)
      modifies this`shards, this`stored, this`counter
      ensures Valid() && stored == old(stored)[id := entry]
    {
      var shard := shards[Index(id)];
      assert Holds(shard, Index(id), stored, hash);
      if id in stored {
        SameKeys(stored, id, entry);
      } else {
        OneMore(stored, id, entry);
      }
      var (after, isNew) := InsertEntry(shard, id, entry);
      PutEntry(id, after, entry);
      if !isNew {
        counter := counter - 1;
      }
    }

    /** Takes the entry of `id` out without counting it. */
    method TakeOut(id: string) returns (entry: Option<Entry>)
      requires Valid()
      modifies this`shards, this`stored
      ensures Consistent() && stored == old(stored) - {id}
      ensures entry == if id in old(stored) then Some(old(stored)[id]) else None
      ensures |old(stored)| == |stored| + (if entry.Some? then 1 else 0)
    {
      var shard := shards[Index(id)];
      assert Holds(shard, Index(id), stored, hash);
      var (without, e) := RemoveEntry(shard, id);
      entry := e;
      if entry.Some? {
        OneFewer(stored, id);
        DropEntry(id, without);
      } else {
        assert stored - {id} == stored;
      }
    }

    method RotateId(oldId: string, newId: string, now: nat) returns (ok: bool)
      requires Valid()
      modifies this`shards, this`stored, this`counter
      ensures Valid()
      ensures (At(now), Flag(ok)) == Abstract(old(At(now)), Rotate(oldId, newId), now, settings)
    {
      ghost var before := stored;
      var entry := TakeOut(oldId);
      if entry.None? {
        RotateMissRefines(before, oldId, newId, now, settings);
        return false;
      }
      if entry.value.expiresAt <= now {
        RotateMissRefines(before, oldId, newId, now, settings);
        counter := counter - 1;
        return false;
      }
      RotateRefines(before, oldId, newId, now, settings);
      PlaceMoved(newId, Entry(entry.value.data, Deadline(settings.horizon, now, settings.idle)));
      return true;
    }

    method RecordRotation(oldId: string, newId: string, now: nat)
      requires Valid()
      modifies this`rotations
      ensures Valid()
      ensures rotations == Recorded(old(rotations), oldId, newId, now, settings.maxSessions)
      ensures |old(rotations)| <= settings.maxSessions ==> |rotations| <= settings.maxSessions
    {
      RecordedBound(rotations, oldId, newId, now, settings.maxSessions);
      rotations := map k | k in rotations && Since(now, rotations[k].at) < ROTATION_RECORD_TTL :: rotations[k];
      if |rotations| < settings.maxSessions {
        rotations := rotations[oldId := Rotation(newId, now)];
      }
    }

    method TakeRotation(oldId: string) returns (newId: Option<string>)
      requires Valid()
      modifies this`rotations
      ensures Valid() && rotations == old(rotations) - {oldId}
      ensures newId == if oldId in old(rotations) then Some(old(rotations)[oldId].newId) else None
    {
      newId := if oldId in rotations then Some(rotations[oldId].newId) else None;
      rotations := rotations - {oldId};
    }

    // ------------------------------------------------------------ set, regenerate

    /** `set`: the clock is read for the lookup, for the admission, and again
        before the write. */
    method SetValue(id: string, key: string, value: string, t1: nat, t2: nat, t3: nat)
      returns (e: Option<SessionError>)
      requires Valid() && t1 <= t2 <= t3
      modifies this`shards, this`stored, this`counter, this`cleanupShard, this`nextCleanup
      ensures Valid()
      ensures (At(t3), e) == AbstractSet(old(At(t1)), id, key, value, t1, t2, t3, settings)
    {
      ghost var first := At(t1);
      if ValueError(key, value, settings.limits).Some? {
        LiveLater(stored, t1, t3);
        return ValueError(key, value, settings.limits);
      }
      var have := ResumeSession(id, t1);
      ghost var second := At(t1);
      LiveLater(stored, t1, t2);
      LiveLater(stored, t1, t3);
      if !have {
        have := CreateSession(id, t2);
        LiveLater(stored, t2, t3);
        if !have {
          return Some(SessionUnavailable);
        }
      }
      e := WriteLive(id, key, value, t3);
    }

    /** The last region of `set`. */
    method WriteLive(id: string, key: string, value: string, now: nat) returns (e: Option<SessionError>)
      requires Valid() && ValueError(key, value, settings.limits).None?
      modifies this`shards, this`stored, this`counter
      ensures Valid()
      ensures (At(now), e) == AbstractWrite(old(At(now)), id, key, value, settings.limits)
    {
      var expired := DropExpired(id, now);
      var shard := shards[Index(id)];
      assert Holds(shard, Index(id), stored, hash);
      if id !in shard.entries {
        return Some(SessionUnavailable);
      }
      var data := shard.entries[id].data;
      WrittenWithinLimits(data, key, value, settings.limits);
      var written := WriteValue(data, key, value, settings.limits);
      if written.Err? {
        return Some(written.error);
      }
      WriteRefines(stored, id, written.value, now);
      SetData(id, written.value);
      return None;
    }

    method RotateOrCreate(oldId: string, newId: string, t1: nat, t2: nat) returns (ok: bool)
      requires Valid() && t1 <= t2
      modifies this`shards, this`stored, this`counter, this`cleanupShard, this`nextCleanup
      ensures Valid()
      ensures oldId in old(At(t1)) ==> (At(t1), Flag(ok)) == Abstract(old(At(t1)), Rotate(oldId, newId), t1, settings)
      ensures oldId !in old(At(t1)) ==>
                (At(t2), Flag(ok)) == Abstract(Live(old(At(t1)), t2), Create(newId), t2, settings)
    {
      RotateAnswer(At(t1), oldId, newId, t1, settings);
      ok := RotateId(oldId, newId, t1);
      if !ok {
        LiveLater(stored, t1, t2);
        ok := CreateSession(newId, t2);
      }
    }

    /** `regenerate`: a live session moves to the new id with its data; otherwise
        a new, empty session is admitted under the new id. */
    method RegenerateId(oldId: string, newId: string, t1: nat, t2: nat, t3: nat) returns (e: Option<SessionError>)
      requires Valid() && t1 <= t2 <= t3
      modifies this`shards, this`stored, this`counter, this`cleanupShard, this`nextCleanup, this`rotations
      ensures Valid()
      ensures oldId in old(At(t1)) ==>
                (At(t1), Flag(e.None?)) == Abstract(old(At(t1)), Rotate(oldId, newId), t1, settings)
      ensures oldId !in old(At(t1)) ==>
                (At(t2), Flag(e.None?)) == Abstract(Live(old(At(t1)), t2), Create(newId), t2, settings)
      ensures (At(t3), e) == AbstractRegenerate(old(At(t1)), oldId, newId, t1, t2, t3, settings)
      ensures rotations == if e.None? then Recorded(old(rotations), oldId, newId, t3, settings.maxSessions)
                           else old(rotations)
    {
      var ok := RotateOrCreate(oldId, newId, t1, t2);
      LiveLater(stored, t1, t3);
      LiveLater(stored, t2, t3);
      RotateAnswer(old(At(t1)), oldId, newId, t1, settings);
      if !ok {
        return Some(SessionUnavailable);
      }
      RecordRotation(oldId, newId, t3);
      return None;
    }

    // ----------------------------------------------------------------- whole runs

    method Perform(op: Op, now: nat) returns (answer: Answer)
      requires Valid()
      modifies this`shards, this`stored, this`counter, this`cleanupShard, this`nextCleanup
      ensures Valid()
      ensures (At(now), answer) == Abstract(old(At(now)), op, now, settings)
    {
      match op {
        case Resume(id) =>
          var ok := ResumeSession(id, now);
          return Flag(ok);
        case Get(id, key) =>
          var value := GetValue(id, key, now);
          return Value(value);
        case RemoveKey(id, key) =>
          RemoveValue(id, key, now);
          return Nothing;
        case Clear(id) =>
          ClearRefines(stored, id, now, settings);
          ClearSession(id);
          return Nothing;
        case Create(id) =>
          var ok := CreateSession(id, now);
          return Flag(ok);
        case Rotate(from, to) =>
          var ok := RotateId(from, to, now);
          return Flag(ok);
        case Count =>
          var n := LiveCount(now);
          return Number(n);
      }
    }

    method PerformEvent(e: Event) returns (answer: Answer)
      requires Valid() && InOrder(e)
      modifies this
      ensures Valid()
      ensures (WorldAt(End(e)), answer) == AbstractEvent(old(WorldAt(Begin(e))), e, settings)
    {
      LiveLater(stored, Begin(e), Begin(e));
      match e {
        case Call(op, now) =>
          answer := Perform(op, now);
        case Write(id, key, value, t1, t2, t3) =>
          var error := SetValue(id, key, value, t1, t2, t3);
          answer := Outcome(error);
        case Regenerate(oldId, newId, t1, t2, t3) =>
          var error := RegenerateId(oldId, newId, t1, t2, t3);
          answer := Outcome(error);
        case Take(oldId, now) =>
          var newId := TakeRotation(oldId);
          answer := Value(newId);
      }
    }

    method PerformFirst(events: seq<Event>, ghost start: nat) returns (answer: Answer)
      requires Valid() && events != [] && Ordered(events, start)
      modifies this
      ensures Valid()
      ensures RunFrom(old(WorldAt(start)), events, settings, WorldAt(End(events[0])), answer)
    {
      var e := events[0];
      ghost var before := WorldAt(start);
      LiveLater(stored, start, Begin(e));
      answer := PerformEvent(e);
      RunUnfolds(before, events, settings, WorldAt(End(e)), answer);
    }

    /** Any sequence of calls under a clock that does not go back: shards,
        expiry index, counter and cleanup cannot be told from one map of
        sessions and one of rotation records. */
    method PerformAll(events: seq<Event>, ghost start: nat) returns (answers: seq<Answer>)
      requires Valid() && Ordered(events, start)
      modifies this
      ensures Valid()
      ensures (WorldAt(Last(events, start)), answers) == AbstractRun(old(WorldAt(start)), events, settings)
      decreases |events|
    {
      answers := [];
      if events != [] {
        var answer := PerformFirst(events, start);
        answers := PerformAll(events[1..], End(events[0]));
        answers := [answer] + answers;
      }
    }
  }

  // ---------------------------------------------------------------- whole runs

  /** What the store is to its callers: the live sessions and the records of
      rotations not asked for yet. */
  datatype World = World(sessions: Sessions, records: map<string, Rotation>)

  /** A call at one instant, or a `set` or `regenerate` with its three clock readings. */
  datatype Event =
    | Call(op: Op, now: nat)
    | Write(id: string, key: string, value: string, t1: nat, t2: nat, t3: nat)
    | Regenerate(oldId: string, newId: string, t1: nat, t2: nat, t3: nat)
    | Take(oldId: string, now: nat)

  ghost function Begin(e: Event): nat {
    if e.Call? || e.Take? then e.now else e.t1
  }

  ghost function End(e: Event): nat {
    if e.Call? || e.Take? then e.now else e.t3
  }

  /** The clock does not go back during the event. */
  ghost predicate InOrder(e: Event) {
    e.Call? || e.Take? || e.t1 <= e.t2 <= e.t3
  }

  ghost predicate Ordered(events: seq<Event>, start: nat)
    decreases |events|
  {
    events == []
    || (start <= Begin(events[0]) && InOrder(events[0]) && Ordered(events[1..], End(events[0])))
  }

  ghost function Last(events: seq<Event>, start: nat): nat
    decreases |events|
  {
    if events == [] then start else Last(events[1..], End(events[0]))
  }

  /** The abstract step: sessions that expired before it are gone. */
  ghost function AbstractEvent(w: World, e: Event, s: Settings): (World, Answer) {
    var live := Live(w.sessions, Begin(e));
    match e
    case Call(op, now) =>
      var (after, answer) := Abstract(live, op, now, s);
      (World(after, w.records), answer)
    case Write(id, key, value, t1, t2, t3) =>
      var (after, error) := AbstractSet(live, id, key, value, t1, t2, t3, s);
      (World(after, w.records), Outcome(error))
    case Regenerate(oldId, newId, t1, t2, t3) =>
      var (after, error) := AbstractRegenerate(live, oldId, newId, t1, t2, t3, s);
      var records := if error.None? then Recorded(w.records, oldId, newId, t3, s.maxSessions) else w.records;
      (World(after, records), Outcome(error))
    case Take(oldId, _) =>
      (World(live, w.records - {oldId}),
       Value(if oldId in w.records then Some(w.records[oldId].newId) else None))
  }

  ghost function AbstractRun(w: World, events: seq<Event>, s: Settings): (World, seq<Answer>)
    decreases |events|
  {
    if events == [] then (w, [])
    else
      var (next, answer) := AbstractEvent(w, events[0], s);
      var (final, answers) := AbstractRun(next, events[1..], s);
      (final, [answer] + answers)
  }

  /** One step of a run leads to `next`. */
  ghost predicate RunFrom(w: World, events: seq<Event>, s: Settings, next: World, answer: Answer)
    requires events != []
  {
    AbstractRun(w, events, s)
    == (AbstractRun(next, events[1..], s).0, [answer] + AbstractRun(next, events[1..], s).1)
  }

  lemma RunUnfolds(w: World, events: seq<Event>, s: Settings, next: World, answer: Answer)
    requires events != []
    requires var live := Live(w.sessions, Begin(events[0]));
             (next, answer) == AbstractEvent(World(live, w.records), events[0], s)
    ensures RunFrom(w, events, s, next, answer)
  {
    LiveLater(w.sessions, Begin(events[0]), Begin(events[0]));
  }

  ghost predicate Mentions(e: Event, x: string) {
    match e
    case Write(id, _, _, _, _, _) => x == id
    case Call(op, _) => if op.Rotate? then x == op.old_ || x == op.new_ else !op.Count? && x == op.id
    case Regenerate(oldId, newId, _, _, _) => x == oldId || x == newId
    case Take(_, _) => false
  }

  ghost predicate Bounded(w: World, s: Settings) {
    |w.sessions| <= s.maxSessions && |w.records| <= s.maxSessions
  }

  /** Whatever the load, a run that does not name a session neither loses nor
      changes it before its deadline; and both bounds hold throughout. */
  lemma {:induction false} RunKeepsOthers(
    w: World, events: seq<Event>, start: nat, s: Settings, x: string)
    requires Bounded(w, s) && Ordered(events, start)
    ensures Bounded(AbstractRun(w, events, s).0, s)
    ensures x in w.sessions
            && (forall e :: e in events ==> !Mentions(e, x) && End(e) < w.sessions[x].expiresAt)
            ==> var after := AbstractRun(w, events, s).0.sessions; x in after && after[x] == w.sessions[x]
    decreases |events|
  {
    if events != [] {
      var e := events[0];
      assert e in events && forall f :: f in events[1..] ==> f in events;
      EventKeepsOthers(w, e, s, x);
      RunKeepsOthers(AbstractEvent(w, e, s).0, events[1..], End(e), s, x);
    }
  }

  lemma EventKeepsOthers(w: World, e: Event, s: Settings, x: string)
    requires Bounded(w, s) && InOrder(e)
    ensures Bounded(AbstractEvent(w, e, s).0, s)
    ensures x in w.sessions && !Mentions(e, x) && End(e) < w.sessions[x].expiresAt ==>
              var after := AbstractEvent(w, e, s).0.sessions; x in after && after[x] == w.sessions[x]
  {
    LiveSize(w.sessions, Begin(e));
    var live := Live(w.sessions, Begin(e));
    match e {
      case Call(op, now) => StepKeepsOthers(live, op, now, s, x);
      case Write(id, key, value, t1, t2, t3) => WriteKeepsOthers(live, id, key, value, t1, t2, t3, s, x);
      case Regenerate(oldId, newId, t1, t2, t3) =>
        RegenerateKeepsOthers(live, oldId, newId, t1, t2, t3, s, x);
        RecordedBound(w.records, oldId, newId, t3, s.maxSessions);
      case Take(oldId, _) =>
        SubsetSize((w.records - {oldId}).Keys, w.records.Keys);
    }
  }

  lemma RegenerateKeepsOthers(
    m: Sessions, oldId: string, newId: string, t1: nat, t2: nat, t3: nat, s: Settings, x: string)
    requires |m| <= s.maxSessions && AllLive(m, t1) && t1 <= t2 <= t3
    ensures |AbstractRegenerate(m, oldId, newId, t1, t2, t3, s).0| <= s.maxSessions
    ensures x in m && x != oldId && x != newId && t3 < m[x].expiresAt ==>
              var after := AbstractRegenerate(m, oldId, newId, t1, t2, t3, s).0; x in after && after[x] == m[x]
  {
    if oldId in m {
      StepKeepsOthers(m, Rotate(oldId, newId), t1, s, x);
      LiveSize(Abstract(m, Rotate(oldId, newId), t1, s).0, t3);
    } else {
      LiveSize(m, t2);
      StepKeepsOthers(Live(m, t2), Create(newId), t2, s, x);
      LiveSize(Abstract(Live(m, t2), Create(newId), t2, s).0, t3);
    }
  }

  /** A record that was taken stays taken until its id is regenerated again: on
      every run it is given out once. */
  lemma {:induction false} RecordTakenOnce(w: World, events: seq<Event>, s: Settings, oldId: string)
    requires oldId !in w.records
    requires forall e :: e in events && e.Regenerate? ==> e.oldId != oldId
    ensures oldId !in AbstractRun(w, events, s).0.records
    ensures forall i :: 0 <= i < |events| && events[i].Take? && events[i].oldId == oldId ==>
              i < |AbstractRun(w, events, s).1| && AbstractRun(w, events, s).1[i] == Value(None)
    decreases |events|
  {
    if events != [] {
      assert events[0] in events && forall f :: f in events[1..] ==> f in events;
      var next := AbstractEvent(w, events[0], s).0;
      RecordTakenOnce(next, events[1..], s, oldId);
      assert forall i :: 0 < i < |events| ==> events[i] == events[1..][i - 1];
    }
  }

  lemma WriteKeepsOthers(
    m: Sessions, id: string, key: string, value: string, t1: nat, t2: nat, t3: nat, s: Settings, x: string)
    requires |m| <= s.maxSessions && AllLive(m, t1) && t1 <= t2 <= t3
    ensures |AbstractSet(m, id, key, value, t1, t2, t3, s).0| <= s.maxSessions
    ensures x in m && x != id && t3 < m[x].expiresAt ==>
              x in AbstractSet(m, id, key, value, t1, t2, t3, s).0
              && AbstractSet(m, id, key, value, t1, t2, t3, s).0[x] == m[x]
  {
    LiveSize(m, t3);
    if ValueError(key, value, s.limits).None? {
      StepKeepsOthers(m, Resume(id), t1, s, x);
      var resumed := Abstract(m, Resume(id), t1, s).0;
      if id in m {
        LiveSize(resumed, t3);
        WriteOneKeeps(Live(resumed, t3), id, key, value, s.limits, x);
      } else {
        LiveSize(m, t2);
        StepKeepsOthers(Live(m, t2), Create(id), t2, s, x);
        var created := Abstract(Live(m, t2), Create(id), t2, s).0;
        LiveSize(created, t3);
        WriteOneKeeps(Live(created, t3), id, key, value, s.limits, x);
      }
    }
  }

  lemma WriteOneKeeps(m: Sessions, id: string, key: string, value: string, limits: Limits, x: string)
    ensures |AbstractWrite(m, id, key, value, limits).0| == |m|
    ensures x in m && x != id ==>
              x in AbstractWrite(m, id, key, value, limits).0 && AbstractWrite(m, id, key, value, limits).0[x] == m[x]
  {
    if id in m && Written(m[id].data, key, value, limits).Ok? {
      SameKeys(m, id, m[id].(data := Written(m[id].data, key, value, limits).value));
    }
  }

  lemma StepKeepsOthers(m: Sessions, op: Op, now: nat, s: Settings, x: string)
    requires |m| <= s.maxSessions && AllLive(m, now)
    ensures |Abstract(m, op, now, s).0| <= s.maxSessions
    ensures x in m && !Mentions(Call(op, now), x) ==>
              x in Abstract(m, op, now, s).0 && Abstract(m, op, now, s).0[x] == m[x]
  {
    StepSize(m, op, now, s);
  }

  lemma StepSize(m: Sessions, op: Op, now: nat, s: Settings)
    requires |m| <= s.maxSessions
    ensures |Abstract(m, op, now, s).0| <= s.maxSessions
  {
    var deadline := Deadline(s.horizon, now, s.idle);
    match op {
      case Rotate(from, to) => RotateSize(m, from, to, now, s);
      case Clear(id) => ClearSize(m, id);
      case Count =>
      case RemoveKey(id, key) =>
        if id in m {
          PutLiveSize(m, id, Entry(m[id].data - {key}, deadline), now);
        }
      case Create(id) =>
        PutLiveSize(m, id, if id in m then m[id].(expiresAt := deadline) else Entry(map[], deadline), now);
      case _ =>
        if op.id in m {
          PutLiveSize(m, op.id, m[op.id].(expiresAt := deadline), now);
        }
    }
  }

  lemma RotateSize(m: Sessions, from: string, to: string, now: nat, s: Settings)
    ensures |Abstract(m, Rotate(from, to), now, s).0| <= |m|
  {
    if from in m {
      OneFewer(m, from);
      PutLiveSize(m - {from}, to, Entry(m[from].data, Deadline(s.horizon, now, s.idle)), now);
    }
  }

  lemma ClearSize(m: Sessions, id: string)
    ensures |m - {id}| <= |m|
  {
    if id in m {
      OneFewer(m, id);
    } else {
      assert m - {id} == m;
    }
  }

  lemma PutLiveSize(m: Sessions, id: string, entry: Entry, now: nat)
    ensures |Live(m[id := entry], now)| <= |m| + (if id in m then 0 else 1)
  {
    if id in m {
      SameKeys(m, id, entry);
    } else {
      OneMore(m, id, entry);
    }
    LiveSize(m[id := entry], now);
  }

  // ------------------------------------------------------------------ helpers

  /** The rotation records after one more: stale ones go, and a full set is left alone. */
  function Recorded(records: map<string, Rotation>, oldId: string, newId: string, now: nat, max: nat)
    : map<string, Rotation>
  {
    var kept := map k | k in records && Since(now, records[k].at) < ROTATION_RECORD_TTL :: records[k];
    if |kept| < max then kept[oldId := Rotation(newId, now)] else kept
  }

  lemma RecordedBound(records: map<string, Rotation>, oldId: string, newId: string, now: nat, max: nat)
    ensures |records| <= max ==> |Recorded(records, oldId, newId, now, max)| <= max
  {
    var kept := map k | k in records && Since(now, records[k].at) < ROTATION_RECORD_TTL :: records[k];
    SubsetSize(kept.Keys, records.Keys);
    var more := kept[oldId := Rotation(newId, now)];
    assert more.Keys == kept.Keys + {oldId};
    assert |kept.Keys + {oldId}| <= |kept.Keys| + 1;
  }

  lemma WriteRefines(stored: Sessions, id: string, data: Data, now: nat)
    requires id in Live(stored, now)
    ensures Live(stored[id := stored[id].(data := data)], now)
         == Live(stored, now)[id := Live(stored, now)[id].(data := data)]
  {
  }

  /** The write on live sessions. */
  ghost function AbstractWrite(m: Sessions, id: string, key: string, value: string, limits: Limits)
    : (Sessions, Option<SessionError>)
  {
    if id !in m then (m, Some(SessionUnavailable))
    else
      match Written(m[id].data, key, value, limits)
      case Err(e) => (m, Some(e))
      case Ok(data) => (m[id := m[id].(data := data)], None)
  }

  /** `set` on the abstract store, as seen at `t3`. */
  ghost function AbstractSet(
    m: Sessions, id: string, key: string, value: string, t1: nat, t2: nat, t3: nat, s: Settings)
    : (Sessions, Option<SessionError>)
  {
    if ValueError(key, value, s.limits).Some? then (Live(m, t3), ValueError(key, value, s.limits))
    else
      var resumed := Abstract(m, Resume(id), t1, s).0;
      if id in m then AbstractWrite(Live(resumed, t3), id, key, value, s.limits)
      else
        var (created, answer) := Abstract(Live(resumed, t2), Create(id), t2, s);
        if answer == Flag(false) then (Live(created, t3), Some(SessionUnavailable))
        else AbstractWrite(Live(created, t3), id, key, value, s.limits)
  }

  /** `regenerate` on the abstract store, as seen at `t3`. */
  ghost function AbstractRegenerate(
    m: Sessions, oldId: string, newId: string, t1: nat, t2: nat, t3: nat, s: Settings)
    : (Sessions, Option<SessionError>)
  {
    if oldId in m then (Live(Abstract(m, Rotate(oldId, newId), t1, s).0, t3), None)
    else
      var (created, answer) := Abstract(Live(m, t2), Create(newId), t2, s);
      (Live(created, t3), if answer == Flag(true) then None else Some(SessionUnavailable))
  }

  /** `after` has no session and no data that `m` lacks, and keeps what `t` does
      not expire; the session `id` slides to `deadline`. */
  ghost predicate NothingNew(m: Sessions, after: Sessions, id: string, deadline: nat, t: nat) {
    && (forall x :: x in after ==> x in m && after[x].data == m[x].data)
    && (forall x :: x in m && x != id && m[x].expiresAt > t ==> x in after && after[x] == m[x])
    && (id in m && m[id].expiresAt > t && deadline > t ==> id in after && after[id].data == m[id].data)
  }

  /** An admitted session takes any value that passed validation. */
  lemma FreshWriteSucceeds(key: string, value: string, limits: Limits)
    requires LimitsOk(limits) && ValueError(key, value, limits).None?
    ensures Written(map[], key, value, limits).Ok?
  {
    DataBytesSet(map[], key, value);
  }

  /** A failed `set` changes no data, loses no session that has not expired, its
      own included, and leaves no new session behind. */
  lemma FailedSetChangesNothing(
    m: Sessions, id: string, key: string, value: string, t1: nat, t2: nat, t3: nat, s: Settings)
    requires LimitsOk(s.limits) && t1 <= t2 <= t3
    ensures var (after, e) := AbstractSet(m, id, key, value, t1, t2, t3, s);
            e.Some? ==> NothingNew(m, after, id, Deadline(s.horizon, t1, s.idle), t3)
  {
    if ValueError(key, value, s.limits).None? {
      if id in m {
        ResumedKeeps(m, id, t1, t3, s);
      } else {
        FreshWriteSucceeds(key, value, s.limits);
        var (created, answer) := Abstract(Live(m, t2), Create(id), t2, s);
        assert forall x :: x in created && x != id ==> x in m && created[x] == m[x];
        assert id in created ==> created[id].data == map[];
        assert answer == Flag(false) ==> created == Live(m, t2);
        AdmittedOnly(m, created, id, Deadline(s.horizon, t1, s.idle), t2, t3);
      }
    }
  }

  lemma ResumedKeeps(m: Sessions, id: string, t1: nat, t3: nat, s: Settings)
    requires id in m && t1 <= t3
    ensures NothingNew(m, Live(Abstract(m, Resume(id), t1, s).0, t3), id, Deadline(s.horizon, t1, s.idle), t3)
  {
  }

  lemma AdmittedOnly(m: Sessions, created: Sessions, id: string, deadline: nat, t2: nat, t3: nat)
    requires t2 <= t3 && id !in m
    requires forall x :: x in created && x != id ==> x in m && created[x] == m[x]
    requires forall x :: x in m && m[x].expiresAt > t2 ==> x in created
    ensures id !in Live(created, t3) ==> NothingNew(m, Live(created, t3), id, deadline, t3)
  {
  }
}
