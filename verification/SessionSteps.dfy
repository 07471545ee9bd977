/**
 The session store under every interleaving of its callers: each lock region
 and each atomic operation is one step (src/app/session.rs). Entries are
 reduced to their deadlines, the clock reading of a call is arbitrary, and
 `set` is a resume, perhaps a create, and a last region, each begun from rest.
 */
module SessionSteps {
  import opened Basics
  import opened SessionData
  import opened SessionStore

  datatype Config = Config(max: nat, shardOf: string -> nat, horizon: nat)

  /** Where a caller is. A shard guard lives across steps only where the source
      does an atomic operation under it. */
  datatype Pc =
    | Idle
    | Subtract(n: nat, held: Option<nat>)
    | Probe(id: string, now: nat)
    | ProbeSubtract(id: string, now: nat)
    | ProbeRenew(id: string, now: nat)
    | CheckCleanup(id: string, now: nat)
    | Clean(id: string, now: nat, atCapacity: bool, removed: nat, remaining: nat, visited: nat)
    | CleanSubtract(id: string, now: nat, atCapacity: bool, removed: nat, remaining: nat, visited: nat)
    | LoadBefore(id: string, now: nat, attempted: bool)
    | LoadAfter(id: string, now: nat)
    | Insert(id: string, now: nat)
    | Increment(id: string)
    | Moving(id: string)
    | Sweep(now: nat, removed: nat, visited: nat)

  type Deadlines = map<string, nat>

  datatype State = State(
    stored: Deadlines, counter: nat, nextCleanup: nat, cleanupShard: nat, threads: seq<Pc>)

  // ------------------------------------------------------- locks and tallies

  /** Inside `create`, from taking the maintenance lock to returning. */
  predicate Maintains(pc: Pc) {
    !(pc.Idle? || pc.Subtract? || pc.Moving? || pc.Sweep?)
  }

  function Held(c: Config, pc: Pc): Option<nat> {
    match pc
    case Subtract(_, held) => held
    case ProbeSubtract(id, _) => Some(c.shardOf(id))
    case ProbeRenew(id, _) => Some(c.shardOf(id))
    case Increment(id) => Some(c.shardOf(id))
    case _ => None
  }

  ghost predicate MaintenanceFree(s: State) {
    forall i :: 0 <= i < |s.threads| ==> !Maintains(s.threads[i])
  }

  ghost predicate ShardFree(c: Config, s: State, shard: nat) {
    forall i :: 0 <= i < |s.threads| ==> Held(c, s.threads[i]) != Some(shard)
  }

  function Incrementing(pc: Pc): nat {
    if pc.Increment? then 1 else 0
  }

  function InFlight(pc: Pc): nat {
    if pc.Moving? then 1 else 0
  }

  function Owed(pc: Pc): nat {
    match pc
    case Subtract(n, _) => n
    case ProbeSubtract(_, _) => 1
    case Clean(_, _, _, removed, _, _) => removed
    case CleanSubtract(_, _, _, removed, _, _) => removed
    case Sweep(_, removed, _) => removed
    case _ => 0
  }

  ghost function Sum(threads: seq<Pc>, f: Pc -> nat): nat {
    if threads == [] then 0 else f(threads[0]) + Sum(threads[1..], f)
  }

  lemma {:induction false} SumUpdate(threads: seq<Pc>, f: Pc -> nat, i: nat, pc: Pc)
    requires i < |threads|
    ensures Sum(threads[i := pc], f) + f(threads[i]) == Sum(threads, f) + f(pc)
  {
    var updated := threads[i := pc];
    if i == 0 {
      assert updated[1..] == threads[1..];
    } else {
      assert updated[1..] == threads[1..][i - 1 := pc];
      SumUpdate(threads[1..], f, i - 1, pc);
    }
  }

  lemma {:induction false} SumAtLeast(threads: seq<Pc>, f: Pc -> nat, i: nat)
    requires i < |threads|
    ensures f(threads[i]) <= Sum(threads, f)
  {
    if i > 0 {
      SumAtLeast(threads[1..], f, i - 1);
    }
  }

  /** A positive tally has a contributor. */
  lemma {:induction false} SumPositive(threads: seq<Pc>, f: Pc -> nat) returns (i: nat)
    requires Sum(threads, f) > 0
    ensures i < |threads| && f(threads[i]) > 0
  {
    if f(threads[0]) > 0 {
      i := 0;
    } else {
      var j := SumPositive(threads[1..], f);
      i := j + 1;
    }
  }

  // -------------------------------------------------------------------- steps

  const WIDTH: nat := USIZE_MAX + 1

  /** `fetch_sub` and `fetch_add` wrap. */
  function Minus(counter: nat, n: nat): nat {
    (counter - n) % WIDTH
  }

  function Plus(counter: nat, n: nat): nat {
    (counter + n) % WIDTH
  }

  /** `remove_expired_entries` on one shard. */
  ghost predicate Swept(c: Config, stored: Deadlines, shard: nat, now: nat, maximum: nat, gone: set<string>) {
    && (forall id :: id in gone ==> id in stored && c.shardOf(id) == shard && stored[id] <= now)
    && |gone| <= maximum
    && (|gone| < maximum ==>
          forall id :: id in stored && c.shardOf(id) == shard && stored[id] <= now ==> id in gone)
  }

  /** The region of `resume`, `get`, `remove` and of the last part of `set`
      (which does not renew). */
  ghost predicate Look(c: Config, s: State, id: string, now: nat, pc: Pc, stored: Deadlines) {
    && ShardFree(c, s, c.shardOf(id))
    && if id in s.stored && s.stored[id] <= now
       then stored == s.stored - {id} && pc == Subtract(1, Some(c.shardOf(id)))
       else pc == Idle && Renewed(s.stored, id, stored)
  }

  ghost predicate Renewed(before: Deadlines, id: string, after: Deadlines) {
    after == before || (id in before && Placed(before, id, after))
  }

  /** Some deadline is stored under `id`. */
  ghost predicate Placed(before: Deadlines, id: string, after: Deadlines) {
    id in after && after == before[id := after[id]]
  }

  ghost predicate ClearRegion(c: Config, s: State, id: string, pc: Pc, stored: Deadlines) {
    && ShardFree(c, s, c.shardOf(id))
    && stored == s.stored - {id}
    && pc == if id in s.stored then Subtract(1, None) else Idle
  }

  ghost predicate RotateOut(c: Config, s: State, oldId: string, newId: string, now: nat, pc: Pc, stored: Deadlines) {
    && ShardFree(c, s, c.shardOf(oldId))
    && stored == s.stored - {oldId}
    && pc == if oldId !in s.stored then Idle else if s.stored[oldId] <= now then Subtract(1, None) else Moving(newId)
  }

  ghost predicate RotateIn(c: Config, s: State, id: string, pc: Pc, stored: Deadlines) {
    && ShardFree(c, s, c.shardOf(id))
    && Placed(s.stored, id, stored)
    && pc == if id in s.stored then Subtract(1, Some(c.shardOf(id))) else Idle
  }

  /** The first region of `create`, under the maintenance lock. */
  ghost predicate ProbeRegion(c: Config, s: State, id: string, now: nat, pc: Pc, stored: Deadlines) {
    && ShardFree(c, s, c.shardOf(id))
    && if id in s.stored && s.stored[id] <= now
       then stored == s.stored - {id} && pc == ProbeSubtract(id, now)
       else Renewed(s.stored, id, stored) && pc == if id in s.stored then Idle else CheckCleanup(id, now)
  }

  ghost predicate InsertRegion(c: Config, s: State, id: string, pc: Pc, stored: Deadlines) {
    && ShardFree(c, s, c.shardOf(id))
    && Placed(s.stored, id, stored)
    && pc == if id in s.stored then Idle else Increment(id)
  }

  ghost predicate CleanShard(c: Config, s: State, was: Pc, pc: Pc, stored: Deadlines)
    requires was.Clean?
  {
    var shard := Visit(s.cleanupShard, was.visited);
    && ShardFree(c, s, shard)
    && Removes(c, s, shard, was.now, was.remaining, stored)
    && pc == AfterClean(was, |Gone(s, stored)|)
  }

  ghost function Gone(s: State, stored: Deadlines): set<string> {
    s.stored.Keys - stored.Keys
  }

  /** A sweep of one shard leaves `stored`. */
  ghost predicate Removes(c: Config, s: State, shard: nat, now: nat, maximum: nat, stored: Deadlines) {
    Swept(c, s.stored, shard, now, maximum, Gone(s, stored)) && stored == s.stored - Gone(s, stored)
  }

  function AfterClean(was: Pc, n: nat): Pc
    requires was.Clean? && n <= was.remaining
  {
    if was.remaining == n || was.visited + 1 >= SHARDS
    then CleanSubtract(was.id, was.now, was.atCapacity, was.removed + n, was.remaining - n, was.visited)
    else Clean(was.id, was.now, was.atCapacity, was.removed + n, was.remaining - n, was.visited + 1)
  }

  ghost predicate SweepShard(c: Config, s: State, was: Pc, pc: Pc, stored: Deadlines)
    requires was.Sweep?
  {
    && ShardFree(c, s, was.visited)
    && Removes(c, s, was.visited, was.now, USIZE_MAX, stored)
    && pc == AfterSweep(was, |Gone(s, stored)|)
  }

  function AfterSweep(was: Pc, n: nat): Pc
    requires was.Sweep?
  {
    if was.visited + 1 >= SHARDS then Subtract(was.removed + n, None)
    else Sweep(was.now, was.removed + n, was.visited + 1)
  }

  /** A caller at rest begins an operation with its first region, or with a lock. */
  ghost predicate Begins(c: Config, s: State, pc: Pc, stored: Deadlines) {
    || (exists id, now :: Look(c, s, id, now, pc, stored))
    || (exists id :: ClearRegion(c, s, id, pc, stored))
    || (exists oldId, newId, now :: RotateOut(c, s, oldId, newId, now, pc, stored))
    || (exists id, now :: MaintenanceFree(s) && pc == Probe(id, now) && stored == s.stored)
    || (exists now :: pc == Sweep(now, 0, 0) && stored == s.stored)
  }

  /** A region or an atomic operation of a caller that is at `was`. */
  ghost predicate Moves(c: Config, s: State, was: Pc, pc: Pc, stored: Deadlines, counter: nat) {
    match was
    case Idle => counter == s.counter && Begins(c, s, pc, stored)
    case Subtract(n, _) => counter == Minus(s.counter, n) && pc == Idle && stored == s.stored
    case Probe(id, now) => counter == s.counter && ProbeRegion(c, s, id, now, pc, stored)
    case ProbeSubtract(id, now) =>
      counter == Minus(s.counter, 1) && pc == ProbeRenew(id, now) && stored == s.stored
    case ProbeRenew(id, now) =>
      && counter == s.counter && Renewed(s.stored, id, stored)
      && pc == if id in s.stored then Idle else CheckCleanup(id, now)
    case CheckCleanup(id, now) =>
      && counter == s.counter && stored == s.stored
      && pc == if now >= s.nextCleanup then Clean(id, now, false, 0, CLEANUP_BATCH, 0) else LoadBefore(id, now, false)
    case Clean(_, _, _, _, _, _) => counter == s.counter && CleanShard(c, s, was, pc, stored)
    case CleanSubtract(id, now, atCapacity, removed, _, _) =>
      && counter == Minus(s.counter, removed) && stored == s.stored
      && pc == if atCapacity then LoadAfter(id, now) else LoadBefore(id, now, true)
    case LoadBefore(id, now, attempted) =>
      && counter == s.counter && stored == s.stored
      && pc == if s.counter >= c.max && !attempted then Clean(id, now, true, 0, CLEANUP_BATCH, 0)
               else LoadAfter(id, now)
    case LoadAfter(id, now) =>
      && counter == s.counter && stored == s.stored
      && pc == if s.counter >= c.max then Idle else Insert(id, now)
    case Insert(id, _) => counter == s.counter && InsertRegion(c, s, id, pc, stored)
    case Increment(_) => counter == Plus(s.counter, 1) && pc == Idle && stored == s.stored
    case Moving(id) => counter == s.counter && RotateIn(c, s, id, pc, stored)
    case Sweep(_, _, _) => counter == s.counter && SweepShard(c, s, was, pc, stored)
  }

  /** One step of the whole store: one caller moves; only the subtraction that
      ends a cleanup writes the maintenance record. */
  ghost predicate Step(c: Config, s: State, t: State) {
    exists i :: 0 <= i < |s.threads| && StepOf(c, s, i, t)
  }

  ghost predicate StepOf(c: Config, s: State, i: nat, t: State)
    requires i < |s.threads|
  {
    && |t.threads| == |s.threads|
    && t.threads == s.threads[i := t.threads[i]]
    && Moves(c, s, s.threads[i], t.threads[i], t.stored, t.counter)
    && (t.nextCleanup, t.cleanupShard) == Maintenance(c, s, s.threads[i])
  }

  /** The maintenance record after a step of a caller at `was`. */
  function Maintenance(c: Config, s: State, was: Pc): (nat, nat) {
    if !was.CleanSubtract? then (s.nextCleanup, s.cleanupShard)
    else if was.remaining == 0 then (was.now, Visit(s.cleanupShard, was.visited))
    else (Deadline(c.horizon, was.now, CLEANUP_INTERVAL), Visit(s.cleanupShard, 1))
  }

  // --------------------------------------------------------------- invariant

  /** The balance: pending increments on one side; entries being moved and
      pending decrements on the other. */
  ghost predicate Balanced(s: State) {
    s.counter + Sum(s.threads, Incrementing)
    == |s.stored| + Sum(s.threads, InFlight) + Sum(s.threads, Owed)
  }

  ghost predicate Exclusive(c: Config, s: State) {
    && (forall i, j :: 0 <= i < j < |s.threads| ==> !(Maintains(s.threads[i]) && Maintains(s.threads[j])))
    && (forall i, j :: 0 <= i < j < |s.threads| ==>
          (Held(c, s.threads[i]).Some? ==> Held(c, s.threads[i]) != Held(c, s.threads[j])))
  }

  /** What a caller may rely on between its steps. */
  ghost predicate Relies(c: Config, s: State, pc: Pc) {
    && (pc.Increment? ==> pc.id in s.stored)
    && (pc.Increment? || pc.Insert? ==> s.counter < c.max)
  }

  ghost predicate Inv(c: Config, s: State) {
    && c.max <= USIZE_MAX
    && s.counter <= c.max
    && Balanced(s)
    && Exclusive(c, s)
    && forall i :: 0 <= i < |s.threads| ==> Relies(c, s, s.threads[i])
  }

  /** At most one increment is pending, and then its entry is stored. */
  lemma OnePending(c: Config, s: State)
    requires Exclusive(c, s)
    ensures Sum(s.threads, Incrementing) <= 1
  {
    OnePendingIn(s.threads);
  }

  lemma {:induction false} OnePendingIn(threads: seq<Pc>)
    requires forall i, j :: 0 <= i < j < |threads| ==> !(Maintains(threads[i]) && Maintains(threads[j]))
    ensures Sum(threads, Incrementing) <= 1
  {
    if threads != [] {
      OnePendingIn(threads[1..]);
      if Sum(threads[1..], Incrementing) > 0 {
        var i := SumPositive(threads[1..], Incrementing);
        assert Maintains(threads[i + 1]);
      }
    }
  }

  /** No subtraction can underflow: what any caller still owes is on the counter. */
  lemma NeverUnderflows(c: Config, s: State, i: nat)
    requires Inv(c, s) && i < |s.threads|
    ensures Owed(s.threads[i]) <= s.counter
  {
    SumAtLeast(s.threads, Owed, i);
    OnePending(c, s);
    if Sum(s.threads, Incrementing) > 0 {
      var j := SumPositive(s.threads, Incrementing);
      assert Relies(c, s, s.threads[j]);
      assert s.stored != map[];
      assert s.stored.Keys != {};
    }
  }

  /** What is stored, being moved or still to be taken off the counter is bounded. */
  lemma StoredBounded(c: Config, s: State)
    requires Inv(c, s)
    ensures |s.stored| + Sum(s.threads, InFlight) + Sum(s.threads, Owed) <= c.max
  {
    OnePending(c, s);
    if Sum(s.threads, Incrementing) > 0 {
      var j := SumPositive(s.threads, Incrementing);
      assert Relies(c, s, s.threads[j]);
    }
  }

  /** What a step must show for itself. */
  ghost predicate Local(c: Config, s: State, i: nat, t: State)
    requires i < |s.threads| == |t.threads|
  {
    var was, pc := s.threads[i], t.threads[i];
    && t.counter + Incrementing(pc) + |s.stored| + InFlight(was) + Owed(was)
       == s.counter + Incrementing(was) + |t.stored| + InFlight(pc) + Owed(pc)
    && t.counter <= c.max && (t.counter <= s.counter || was.Increment?)
    && (Maintains(pc) ==> Maintains(was) || MaintenanceFree(s))
    && (Held(c, pc).Some? ==> Held(c, pc) == Held(c, was) || ShardFree(c, s, Held(c, pc).value))
    && (forall id :: id in s.stored && id !in t.stored ==> ShardFree(c, s, c.shardOf(id)))
    && Relies(c, t, pc)
  }

  lemma LocalKeepsInv(c: Config, s: State, i: nat, t: State)
    requires Inv(c, s) && i < |s.threads| == |t.threads| && t.threads == s.threads[i := t.threads[i]]
    requires Local(c, s, i, t)
    ensures Inv(c, t)
  {
    SumUpdate(s.threads, Incrementing, i, t.threads[i]);
    SumUpdate(s.threads, InFlight, i, t.threads[i]);
    SumUpdate(s.threads, Owed, i, t.threads[i]);
    LocalKeepsExclusive(c, s, i, t);
    forall j | 0 <= j < |t.threads| ensures Relies(c, t, t.threads[j]) {
      if j != i {
        OthersStillRely(c, s, i, t, j);
      }
    }
  }

  lemma LocalKeepsExclusive(c: Config, s: State, i: nat, t: State)
    requires Exclusive(c, s) && i < |s.threads| == |t.threads| && t.threads == s.threads[i := t.threads[i]]
    requires Local(c, s, i, t)
    ensures Exclusive(c, t)
  {
    forall j, k | 0 <= j < k < |t.threads|
      ensures !(Maintains(t.threads[j]) && Maintains(t.threads[k]))
      ensures Held(c, t.threads[j]).Some? ==> Held(c, t.threads[j]) != Held(c, t.threads[k])
    {
      assert j != i ==> t.threads[j] == s.threads[j];
      assert k != i ==> t.threads[k] == s.threads[k];
    }
  }

  lemma OthersStillRely(c: Config, s: State, i: nat, t: State, j: nat)
    requires Inv(c, s) && i < |s.threads| == |t.threads| && t.threads == s.threads[i := t.threads[i]]
    requires Local(c, s, i, t) && j < |t.threads| && j != i
    ensures Relies(c, t, t.threads[j])
  {
    var pc := s.threads[j];
    assert t.threads[j] == pc && Relies(c, s, pc);
    if pc.Increment? {
      assert Held(c, pc) == Some(c.shardOf(pc.id));
      assert !ShardFree(c, s, c.shardOf(pc.id));
    }
    if pc.Increment? || pc.Insert? {
      var first, second := if i < j then i else j, if i < j then j else i;
      assert !(Maintains(s.threads[first]) && Maintains(s.threads[second]));
    }
  }

  // -------------------------------------------------------------- preservation

  lemma Without(stored: Deadlines, id: string)
    requires id in stored
    ensures |stored - {id}| == |stored| - 1
  {
    assert (stored - {id}).Keys == stored.Keys - {id};
  }

  lemma WithoutAll(stored: Deadlines, gone: set<string>)
    requires gone <= stored.Keys
    ensures |stored - gone| == |stored| - |gone|
  {
    assert (stored - gone).Keys == stored.Keys - gone;
    SubsetSize(gone, stored.Keys);
  }

  lemma PlacedSize(before: Deadlines, id: string, after: Deadlines)
    requires Placed(before, id, after)
    ensures |after| == |before| + (if id in before then 0 else 1)
    ensures after.Keys == before.Keys + {id}
  {
    if id in before {
      assert before.Keys + {id} == before.Keys;
    }
  }

  lemma RenewedSize(before: Deadlines, id: string, after: Deadlines)
    requires Renewed(before, id, after)
    ensures |after| == |before| && after.Keys == before.Keys
  {
    if after != before {
      PlacedSize(before, id, after);
      assert before.Keys + {id} == before.Keys;
    }
  }

  lemma LookIsLocal(c: Config, s: State, i: nat, t: State, id: string, now: nat)
    requires s.counter <= c.max && i < |s.threads| == |t.threads| && s.threads[i].Idle?
    requires t.counter == s.counter && Look(c, s, id, now, t.threads[i], t.stored)
    ensures Local(c, s, i, t)
  {
    if id in s.stored && s.stored[id] <= now {
      Without(s.stored, id);
    } else {
      RenewedSize(s.stored, id, t.stored);
    }
  }

  lemma TakeOutIsLocal(c: Config, s: State, i: nat, t: State, id: string)
    requires s.counter <= c.max && i < |s.threads| == |t.threads| && s.threads[i].Idle?
    requires t.counter == s.counter && ShardFree(c, s, c.shardOf(id)) && t.stored == s.stored - {id}
    requires var pc := t.threads[i];
             if id in s.stored then pc == Subtract(1, None) || pc.Moving? else pc == Idle
    ensures Local(c, s, i, t)
  {
    RemovalSize(s.stored, id);
  }

  lemma BeginsIsLocal(c: Config, s: State, i: nat, t: State)
    requires s.counter <= c.max && i < |s.threads| == |t.threads| && s.threads[i].Idle?
    requires t.counter == s.counter && Begins(c, s, t.threads[i], t.stored)
    ensures Local(c, s, i, t)
  {
    var pc := t.threads[i];
    if id, now :| Look(c, s, id, now, pc, t.stored) {
      LookIsLocal(c, s, i, t, id, now);
    } else if id :| ClearRegion(c, s, id, pc, t.stored) {
      TakeOutIsLocal(c, s, i, t, id);
    } else if oldId, newId, now :| RotateOut(c, s, oldId, newId, now, pc, t.stored) {
      TakeOutIsLocal(c, s, i, t, oldId);
    }
  }

  lemma RemovalSize(stored: Deadlines, id: string)
    ensures |stored - {id}| == |stored| - (if id in stored then 1 else 0)
  {
    if id in stored {
      Without(stored, id);
    } else {
      assert stored - {id} == stored;
    }
  }

  lemma ProbeIsLocal(c: Config, s: State, i: nat, t: State)
    requires s.counter <= c.max && i < |s.threads| == |t.threads| && s.threads[i].Probe?
    requires t.counter == s.counter
    requires ProbeRegion(c, s, s.threads[i].id, s.threads[i].now, t.threads[i], t.stored)
    ensures Local(c, s, i, t)
  {
    var was := s.threads[i];
    if was.id in s.stored && s.stored[was.id] <= was.now {
      Without(s.stored, was.id);
    } else {
      RenewedSize(s.stored, was.id, t.stored);
    }
  }

  lemma ProbeRenewIsLocal(c: Config, s: State, i: nat, t: State)
    requires s.counter <= c.max && i < |s.threads| == |t.threads| && s.threads[i].ProbeRenew?
    requires Moves(c, s, s.threads[i], t.threads[i], t.stored, t.counter)
    ensures Local(c, s, i, t)
  {
    RenewedSize(s.stored, s.threads[i].id, t.stored);
  }

  lemma InsertIsLocal(c: Config, s: State, i: nat, t: State)
    requires s.counter < c.max && i < |s.threads| == |t.threads| && s.threads[i].Insert?
    requires t.counter == s.counter && InsertRegion(c, s, s.threads[i].id, t.threads[i], t.stored)
    ensures Local(c, s, i, t)
  {
    PlacedSize(s.stored, s.threads[i].id, t.stored);
  }

  lemma RotateInIsLocal(c: Config, s: State, i: nat, t: State)
    requires s.counter <= c.max && i < |s.threads| == |t.threads| && s.threads[i].Moving?
    requires t.counter == s.counter && RotateIn(c, s, s.threads[i].id, t.threads[i], t.stored)
    ensures Local(c, s, i, t)
  {
    PlacedSize(s.stored, s.threads[i].id, t.stored);
  }

  /** A sweep of one free shard moves what it removes to what is owed. */
  lemma ShrinkIsLocal(c: Config, s: State, i: nat, t: State, shard: nat, gone: set<string>)
    requires s.counter <= c.max && i < |s.threads| == |t.threads|
    requires t.counter == s.counter && t.stored == s.stored - gone
    requires ShardFree(c, s, shard) && forall id :: id in gone ==> id in s.stored && c.shardOf(id) == shard
    requires s.threads[i].Clean? || s.threads[i].Sweep?
    requires var pc := t.threads[i];
             && Owed(pc) == Owed(s.threads[i]) + |gone|
             && (pc.Clean? || pc.CleanSubtract? || pc.Sweep? || (pc.Subtract? && pc.held == None))
             && (Maintains(pc) ==> Maintains(s.threads[i]))
    ensures Local(c, s, i, t)
  {
    WithoutAll(s.stored, gone);
  }

  lemma CleanIsLocal(c: Config, s: State, i: nat, t: State)
    requires s.counter <= c.max && i < |s.threads| == |t.threads| && s.threads[i].Clean?
    requires t.counter == s.counter && CleanShard(c, s, s.threads[i], t.threads[i], t.stored)
    ensures Local(c, s, i, t)
  {
    ShrinkIsLocal(c, s, i, t, Visit(s.cleanupShard, s.threads[i].visited), Gone(s, t.stored));
  }

  lemma SweepIsLocal(c: Config, s: State, i: nat, t: State)
    requires s.counter <= c.max && i < |s.threads| == |t.threads| && s.threads[i].Sweep?
    requires t.counter == s.counter && SweepShard(c, s, s.threads[i], t.threads[i], t.stored)
    ensures Local(c, s, i, t)
  {
    ShrinkIsLocal(c, s, i, t, s.threads[i].visited, Gone(s, t.stored));
  }

  /** A subtraction moves what is owed off the counter. */
  lemma SubtractIsLocal(c: Config, s: State, i: nat, t: State)
    requires c.max <= USIZE_MAX && s.counter <= c.max && i < |s.threads| == |t.threads|
    requires s.threads[i].Subtract? || s.threads[i].ProbeSubtract? || s.threads[i].CleanSubtract?
    requires Moves(c, s, s.threads[i], t.threads[i], t.stored, t.counter) && Owed(s.threads[i]) <= s.counter
    ensures Local(c, s, i, t)
  {
  }

  lemma LoadIsLocal(c: Config, s: State, i: nat, t: State)
    requires s.counter <= c.max && i < |s.threads| == |t.threads|
    requires s.threads[i].CheckCleanup? || s.threads[i].LoadBefore? || s.threads[i].LoadAfter?
    requires Moves(c, s, s.threads[i], t.threads[i], t.stored, t.counter)
    ensures Local(c, s, i, t)
  {
  }

  lemma IncrementIsLocal(c: Config, s: State, i: nat, t: State)
    requires c.max <= USIZE_MAX && s.counter < c.max && i < |s.threads| == |t.threads| && s.threads[i].Increment?
    requires Moves(c, s, s.threads[i], t.threads[i], t.stored, t.counter)
    ensures Local(c, s, i, t)
  {
  }

  lemma StepKeepsInv(c: Config, s: State, t: State)
    requires Inv(c, s) && Step(c, s, t)
    ensures Inv(c, t)
  {
    var i :| 0 <= i < |s.threads| && StepOf(c, s, i, t);
    assert Relies(c, s, s.threads[i]);
    match s.threads[i] {
      case Idle => BeginsIsLocal(c, s, i, t);
      case Probe(_, _) => ProbeIsLocal(c, s, i, t);
      case ProbeRenew(_, _) => ProbeRenewIsLocal(c, s, i, t);
      case Insert(_, _) => InsertIsLocal(c, s, i, t);
      case Clean(_, _, _, _, _, _) => CleanIsLocal(c, s, i, t);
      case Sweep(_, _, _) => SweepIsLocal(c, s, i, t);
      case Moving(_) => RotateInIsLocal(c, s, i, t);
      case Increment(_) => IncrementIsLocal(c, s, i, t);
      case CheckCleanup(_, _) => LoadIsLocal(c, s, i, t);
      case LoadBefore(_, _, _) => LoadIsLocal(c, s, i, t);
      case LoadAfter(_, _) => LoadIsLocal(c, s, i, t);
      case _ =>
        NeverUnderflows(c, s, i);
        SubtractIsLocal(c, s, i, t);
    }
    LocalKeepsInv(c, s, i, t);
  }

  // ---------------------------------------------------------------------- runs

  ghost predicate Initial(s: State) {
    && s.stored == map[] && s.counter == 0
    && forall i :: 0 <= i < |s.threads| ==> s.threads[i].Idle?
  }

  ghost predicate Run(c: Config, states: seq<State>) {
    && states != [] && Initial(states[0])
    && forall k :: 0 <= k < |states| - 1 ==> Step(c, states[k], states[k + 1])
  }

  lemma {:induction false} NothingPending(threads: seq<Pc>, f: Pc -> nat)
    requires forall i :: 0 <= i < |threads| ==> f(threads[i]) == 0
    ensures Sum(threads, f) == 0
  {
    if threads != [] {
      NothingPending(threads[1..], f);
    }
  }

  lemma InitialOk(c: Config, s: State)
    requires Initial(s) && c.max <= USIZE_MAX
    ensures Inv(c, s)
  {
    NothingPending(s.threads, Incrementing);
    NothingPending(s.threads, InFlight);
    NothingPending(s.threads, Owed);
  }

  /** Every reachable state satisfies the invariant, no caller there owes more
      than the counter holds, and the store is never over its limit. */
  lemma {:induction false} EveryInterleavingBalances(c: Config, states: seq<State>, k: nat)
    requires Run(c, states) && c.max <= USIZE_MAX && k < |states|
    ensures Inv(c, states[k])
    ensures forall i :: 0 <= i < |states[k].threads| ==> Owed(states[k].threads[i]) <= states[k].counter <= c.max
    ensures var s := states[k]; |s.stored| + Sum(s.threads, InFlight) + Sum(s.threads, Owed) <= c.max
  {
    if k == 0 {
      InitialOk(c, states[0]);
    } else {
      EveryInterleavingBalances(c, states, k - 1);
      assert Step(c, states[k - 1], states[k - 1 + 1]);
      StepKeepsInv(c, states[k - 1], states[k]);
    }
    StoredBounded(c, states[k]);
    forall i | 0 <= i < |states[k].threads| ensures Owed(states[k].threads[i]) <= states[k].counter {
      NeverUnderflows(c, states[k], i);
    }
  }

  /** With no call in progress the counter is the number of entries. */
  lemma QuiescentIsExact(c: Config, states: seq<State>, k: nat)
    requires Run(c, states) && c.max <= USIZE_MAX && k < |states|
    requires forall i :: 0 <= i < |states[k].threads| ==> states[k].threads[i].Idle?
    ensures states[k].counter == |states[k].stored| <= c.max
  {
    EveryInterleavingBalances(c, states, k);
    NothingPending(states[k].threads, Incrementing);
    NothingPending(states[k].threads, InFlight);
    NothingPending(states[k].threads, Owed);
  }

  // ------------------------------------------------ what a step takes and gives

  /** The clock reading a caller in the middle of an operation works with. */
  function Reading(pc: Pc): Option<nat> {
    match pc
    case Probe(_, now) => Some(now)
    case Clean(_, now, _, _, _, _) => Some(now)
    case Sweep(now, _, _) => Some(now)
    case _ => None
  }

  /** A caller at rest that begins by taking `id` out: it had expired, or it is
      cleared or moved. */
  ghost predicate TakesOut(c: Config, s: State, id: string, pc: Pc, stored: Deadlines)
    requires id in s.stored
  {
    || (exists now :: s.stored[id] <= now && Look(c, s, id, now, pc, stored))
    || ClearRegion(c, s, id, pc, stored)
    || (exists newId, now :: RotateOut(c, s, id, newId, now, pc, stored))
  }

  /** No step loses a live session: an entry goes only if it has expired by the
      clock of the caller that removes it, or if that caller names it. */
  lemma StepTakesOnly(c: Config, s: State, i: nat, t: State, id: string)
    requires i < |s.threads| && StepOf(c, s, i, t) && id in s.stored && id !in t.stored
    ensures var was := s.threads[i];
            || (Reading(was).Some? && s.stored[id] <= Reading(was).value)
            || (was.Idle? && TakesOut(c, s, id, t.threads[i], t.stored))
  {
    var was, pc := s.threads[i], t.threads[i];
    if was.Idle? {
      BeginsTakes(c, s, pc, t.stored, id);
    } else {
      MovesTake(c, s, was, pc, t.stored, t.counter, id);
    }
  }

  lemma MovesTake(c: Config, s: State, was: Pc, pc: Pc, stored: Deadlines, counter: nat, id: string)
    requires !was.Idle? && Moves(c, s, was, pc, stored, counter) && id in s.stored && id !in stored
    ensures Reading(was).Some? && s.stored[id] <= Reading(was).value
  {
    match was {
      case Probe(x, now) => ProbeTakes(c, s, x, now, pc, stored, id);
      case Clean(_, _, _, _, _, _) =>
        RemovedHasExpired(c, s, Visit(s.cleanupShard, was.visited), was.now, was.remaining, stored, id);
      case Sweep(_, _, _) => RemovedHasExpired(c, s, was.visited, was.now, USIZE_MAX, stored, id);
      case _ =>
    }
  }

  lemma ProbeTakes(c: Config, s: State, x: string, now: nat, pc: Pc, stored: Deadlines, id: string)
    requires ProbeRegion(c, s, x, now, pc, stored) && id in s.stored && id !in stored
    ensures s.stored[id] <= now
  {
  }

  lemma RemovedHasExpired(c: Config, s: State, shard: nat, now: nat, maximum: nat, stored: Deadlines, id: string)
    requires Removes(c, s, shard, now, maximum, stored) && id in s.stored && id !in stored
    ensures s.stored[id] <= now
  {
    assert id in Gone(s, stored);
  }

  lemma BeginsTakes(c: Config, s: State, pc: Pc, stored: Deadlines, id: string)
    requires Begins(c, s, pc, stored) && id in s.stored && id !in stored
    ensures TakesOut(c, s, id, pc, stored)
  {
    if x, now :| Look(c, s, x, now, pc, stored) {
      assert x == id;
    } else if x :| ClearRegion(c, s, x, pc, stored) {
      assert x == id;
    } else if oldId, newId, now :| RotateOut(c, s, oldId, newId, now, pc, stored) {
      assert oldId == id;
    }
  }

  /** No step makes a session of another: an entry comes only under the id that
      a caller inserts or moves to. */
  lemma StepGivesOnly(c: Config, s: State, i: nat, t: State, id: string)
    requires i < |s.threads| && StepOf(c, s, i, t) && id !in s.stored && id in t.stored
    ensures var was := s.threads[i]; (was.Insert? || was.Moving?) && was.id == id
  {
  }

  // ------------------------------------------------------ a caller on its own

  /** All callers but `i` are at rest, and `i` is at `pc`. */
  ghost predicate Alone(s: State, i: nat, pc: Pc) {
    i < |s.threads| && s.threads[i] == pc && forall j :: 0 <= j < |s.threads| && j != i ==> s.threads[j] == Idle
  }

  ghost function At(s: State, i: nat, pc: Pc): State
    requires i < |s.threads|
  {
    s.(threads := s.threads[i := pc])
  }

  /** Steps from `s` to `t`. */
  ghost predicate Leads(c: Config, states: seq<State>, s: State, t: State) {
    && states != [] && states[0] == s && states[|states| - 1] == t
    && forall k :: 0 <= k < |states| - 1 ==> Step(c, states[k], states[k + 1])
  }

  /** A caller on its own makes one more step. */
  lemma AloneMoves(
    c: Config, states: seq<State>, s: State, r: State, i: nat, was: Pc, pc: Pc, stored: Deadlines, counter: nat)
    returns (more: seq<State>)
    requires Leads(c, states, s, r) && Alone(r, i, was) && !was.CleanSubtract?
    requires Moves(c, r, was, pc, stored, counter)
    ensures var t := At(r, i, pc).(stored := stored, counter := counter); Leads(c, more, s, t) && Alone(t, i, pc)
  {
    var t := At(r, i, pc).(stored := stored, counter := counter);
    assert StepOf(c, r, i, t);
    more := states + [t];
    forall k | 0 <= k < |more| - 1 ensures Step(c, more[k], more[k + 1]) {
      if k == |states| - 1 {
        assert more[k] == r && more[k + 1] == t;
      } else {
        assert more[k] == states[k] && more[k + 1] == states[k + 1];
      }
    }
  }

  lemma AloneIsFree(c: Config, s: State, i: nat, pc: Pc, shard: nat)
    requires Alone(s, i, pc) && Held(c, pc).None?
    ensures ShardFree(c, s, shard)
  {
  }

  /** To the first load of the counter. */
  lemma ProbesAlone(c: Config, s: State, i: nat, id: string, now: nat) returns (states: seq<State>)
    requires Alone(s, i, Idle) && id !in s.stored && now < s.nextCleanup
    ensures var t := At(s, i, LoadBefore(id, now, false));
            Leads(c, states, s, t) && Alone(t, i, LoadBefore(id, now, false))
  {
    assert MaintenanceFree(s);
    states := AloneMoves(c, [s], s, s, i, Idle, Probe(id, now), s.stored, s.counter);
    var s1 := At(s, i, Probe(id, now));
    AloneIsFree(c, s1, i, Probe(id, now), c.shardOf(id));
    states := AloneMoves(c, states, s, s1, i, Probe(id, now), CheckCleanup(id, now), s.stored, s.counter);
    var s2 := At(s1, i, CheckCleanup(id, now));
    states := AloneMoves(c, states, s, s2, i, CheckCleanup(id, now), LoadBefore(id, now, false), s.stored, s.counter);
    assert s2.threads[i := LoadBefore(id, now, false)] == s.threads[i := LoadBefore(id, now, false)];
  }

  /** From there to the insertion. */
  lemma LoadsAlone(c: Config, front: seq<State>, s: State, r: State, i: nat, id: string, now: nat)
    returns (states: seq<State>)
    requires Leads(c, front, s, r) && Alone(r, i, LoadBefore(id, now, false)) && r.counter < c.max
    ensures var t := At(r, i, Insert(id, now)); Leads(c, states, s, t) && Alone(t, i, Insert(id, now))
  {
    states := AloneMoves(c, front, s, r, i, LoadBefore(id, now, false), LoadAfter(id, now), r.stored, r.counter);
    var r1 := At(r, i, LoadAfter(id, now));
    states := AloneMoves(c, states, s, r1, i, LoadAfter(id, now), Insert(id, now), r.stored, r.counter);
    assert r1.threads[i := Insert(id, now)] == r.threads[i := Insert(id, now)];
  }

  /** From there to rest. */
  lemma InsertsAlone(
    c: Config, front: seq<State>, s: State, r: State, i: nat, id: string, now: nat, deadline: nat)
    returns (states: seq<State>)
    requires Leads(c, front, s, r) && Alone(r, i, Insert(id, now)) && id !in r.stored && r.counter < USIZE_MAX
    ensures var t := At(r, i, Idle).(stored := r.stored[id := deadline], counter := r.counter + 1);
            Leads(c, states, s, t)
  {
    var after := r.stored[id := deadline];
    AloneIsFree(c, r, i, Insert(id, now), c.shardOf(id));
    states := AloneMoves(c, front, s, r, i, Insert(id, now), Increment(id), after, r.counter);
    var r1 := At(r, i, Increment(id)).(stored := after);
    states := AloneMoves(c, states, s, r1, i, Increment(id), Idle, after, r.counter + 1);
    assert r1.threads[i := Idle] == r.threads[i := Idle];
  }

  /** A caller on its own that creates a session, below the limit and before the
      next cleanup, gets it stored and counted. */
  lemma CreatesAlone(c: Config, s: State, i: nat, id: string, now: nat, deadline: nat) returns (states: seq<State>)
    requires Alone(s, i, Idle) && id !in s.stored && s.counter < c.max <= USIZE_MAX && now < s.nextCleanup
    ensures Leads(c, states, s, s.(stored := s.stored[id := deadline], counter := s.counter + 1))
  {
    states := ProbesAlone(c, s, i, id, now);
    var s1 := At(s, i, LoadBefore(id, now, false));
    states := LoadsAlone(c, states, s, s1, i, id, now);
    var s2 := At(s1, i, Insert(id, now));
    states := InsertsAlone(c, states, s, s2, i, id, now, deadline);
    assert s2.threads[i := Idle] == s.threads;
  }
}
