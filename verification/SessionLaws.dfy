/**
 What callers of the session store can rely on, stated on maps and on runs: a
 value that was set is the value read, sessions live to their deadline and no
 longer, and a rotation is reported once (src/app/session.rs).
 */
module SessionLaws {
  import opened Basics
  import opened SessionData
  import opened SessionStore

  // ------------------------------------------------------------------- writing

  /** The data a write starts from. */
  ghost function DataOf(m: Sessions, id: string): Data {
    if id in m then m[id].data else map[]
  }

  /** The deadline a write gives: from the lookup, or from the admission. */
  ghost function WriteDeadline(m: Sessions, id: string, t1: nat, t2: nat, s: Settings): nat {
    Deadline(s.horizon, if id in m then t1 else t2, s.idle)
  }

  /** What `set` needs: a key and a value within their limits, a session or room
      for one, an idle time that outlasts the call, and room in the session. */
  ghost predicate CanSet(
    m: Sessions, id: string, key: string, value: string, t1: nat, t2: nat, t3: nat, s: Settings)
  {
    && 0 < |key| <= s.limits.keyBytes && |value| <= s.limits.valueBytes
    && |key| + |value| <= s.limits.totalBytes
    && (id in m || |Live(m, t2)| < s.maxSessions)
    && t3 < WriteDeadline(m, id, t1, t2, s)
    && (key in DataOf(m, id) || |DataOf(m, id)| < s.limits.entries)
    && DataBytes(DataOf(m, id)[key := value]) <= s.limits.totalBytes
  }

  /** A successful `set` stores the value under its key, keeps the other values
      and slides the deadline; other sessions only expire. */
  ghost predicate Stores(
    m: Sessions, after: Sessions, id: string, key: string, value: string, deadline: nat, t: nat)
  {
    && id in after && after[id] == Entry(DataOf(m, id)[key := value], deadline)
    && (forall x :: x != id ==> (x in after <==> x in m && m[x].expiresAt > t))
    && (forall x :: x != id && x in after ==> after[x] == m[x])
  }

  lemma WriteStores(before: Sessions, id: string, key: string, value: string, t: nat, s: Settings)
    requires id in before
    ensures var (after, e) := AbstractWrite(Live(before, t), id, key, value, s.limits);
            && (e.None? <==> && t < before[id].expiresAt
                             && (key in before[id].data || |before[id].data| < s.limits.entries)
                             && DataBytes(before[id].data[key := value]) <= s.limits.totalBytes)
            && (e.None? ==> && id in after
                            && after[id] == Entry(before[id].data[key := value], before[id].expiresAt)
                            && (forall x :: x != id ==> (x in after <==> x in before && before[x].expiresAt > t))
                            && (forall x :: x != id && x in after ==> after[x] == before[x]))
  {
  }

  /** When `set` succeeds, and what it then leaves. */
  lemma SetStoresIff(
    m: Sessions, id: string, key: string, value: string, t1: nat, t2: nat, t3: nat, s: Settings)
    requires LimitsOk(s.limits) && AllLive(m, t1) && t1 <= t2 <= t3
    ensures var (after, e) := AbstractSet(m, id, key, value, t1, t2, t3, s);
            && (e.None? <==> CanSet(m, id, key, value, t1, t2, t3, s))
            && (e.None? ==> Stores(m, after, id, key, value, WriteDeadline(m, id, t1, t2, s), t3))
  {
    if ValueError(key, value, s.limits).None? {
      if id in m {
        SetLive(m, id, key, value, t1, t3, s);
      } else {
        SetNew(m, id, key, value, t2, t3, s);
      }
    }
  }

  lemma SetLive(m: Sessions, id: string, key: string, value: string, t1: nat, t3: nat, s: Settings)
    requires id in m && AllLive(m, t1) && t1 <= t3
    ensures var resumed := Abstract(m, Resume(id), t1, s).0;
            var deadline := Deadline(s.horizon, t1, s.idle);
            var (after, e) := AbstractWrite(Live(resumed, t3), id, key, value, s.limits);
            && (e.None? <==> && t3 < deadline
                             && (key in m[id].data || |m[id].data| < s.limits.entries)
                             && DataBytes(m[id].data[key := value]) <= s.limits.totalBytes)
            && (e.None? ==> Stores(m, after, id, key, value, deadline, t3))
  {
    var slid := m[id := m[id].(expiresAt := Deadline(s.horizon, t1, s.idle))];
    LiveLater(slid, t1, t3);
    WriteStores(slid, id, key, value, t3, s);
  }

  lemma SetNew(m: Sessions, id: string, key: string, value: string, t2: nat, t3: nat, s: Settings)
    requires id !in m && t2 <= t3
    ensures var (created, answer) := Abstract(Live(m, t2), Create(id), t2, s);
            var deadline := Deadline(s.horizon, t2, s.idle);
            (answer == Flag(false) <==> |Live(m, t2)| >= s.maxSessions)
            && (answer != Flag(false) ==>
                  var (after, e) := AbstractWrite(Live(created, t3), id, key, value, s.limits);
                  && (e.None? <==> && t3 < deadline && 0 < s.limits.entries
                                   && DataBytes(map[][key := value]) <= s.limits.totalBytes)
                  && (e.None? ==> Stores(m, after, id, key, value, deadline, t3)))
  {
    var deadline := Deadline(s.horizon, t2, s.idle);
    if |Live(m, t2)| < s.maxSessions {
      var admitted := Live(m, t2)[id := Entry(map[], deadline)];
      LiveLater(admitted, t2, t3);
      WriteStores(admitted, id, key, value, t3, s);
    }
  }

  /** The key and the value are within their limits. */
  ghost predicate ValueFits(key: string, value: string, limits: Limits) {
    && 0 < |key| <= limits.keyBytes && |value| <= limits.valueBytes && |key| + |value| <= limits.totalBytes
  }

  /** There is a session to write to, or room for one, and it outlasts the call. */
  ghost predicate Available(m: Sessions, id: string, t1: nat, t2: nat, t3: nat, s: Settings) {
    (id in m || |Live(m, t2)| < s.maxSessions) && t3 < WriteDeadline(m, id, t1, t2, s)
  }

  /** What each refusal of `set` means. */
  lemma SetRefusals(
    m: Sessions, id: string, key: string, value: string, t1: nat, t2: nat, t3: nat, s: Settings)
    requires LimitsOk(s.limits) && AllLive(m, t1) && t1 <= t2 <= t3
    ensures var e := AbstractSet(m, id, key, value, t1, t2, t3, s).1;
            var data := DataOf(m, id);
            && (e == Some(EmptyKey) <==> key == "")
            && (e == Some(KeyTooLarge) <==> |key| > s.limits.keyBytes)
            && (e == Some(ValueTooLarge) <==> 0 < |key| <= s.limits.keyBytes && |value| > s.limits.valueBytes)
            && (e == Some(SessionUnavailable) <==>
                  ValueFits(key, value, s.limits) && !Available(m, id, t1, t2, t3, s))
            && (e == Some(TooManyEntries) <==>
                  ValueFits(key, value, s.limits) && Available(m, id, t1, t2, t3, s)
                  && key !in data && |data| >= s.limits.entries)
  {
    if ValueError(key, value, s.limits).None? {
      if id in m {
        WriteRefused(Abstract(m, Resume(id), t1, s).0, id, key, value, t3, s);
      } else {
        WriteRefused(Abstract(Live(m, t2), Create(id), t2, s).0, id, key, value, t3, s);
      }
    }
  }

  lemma WriteRefused(before: Sessions, id: string, key: string, value: string, t: nat, s: Settings)
    ensures var e := AbstractWrite(Live(before, t), id, key, value, s.limits).1;
            && (e == Some(SessionUnavailable) <==> !(id in before && t < before[id].expiresAt))
            && (e == Some(TooManyEntries) <==>
                  id in before && t < before[id].expiresAt
                  && key !in before[id].data && |before[id].data| >= s.limits.entries)
            && (e.Some? ==> e.value in {SessionUnavailable, TooManyEntries, SessionTooLarge})
  {
  }

  // ---------------------------------------------------------------- other calls

  /** What `regenerate` leaves under the new id. */
  ghost function MovedEntry(m: Sessions, oldId: string, newId: string, t1: nat, t2: nat, s: Settings): Entry {
    if oldId in m then Entry(m[oldId].data, Deadline(s.horizon, t1, s.idle))
    else Entry(DataOf(Live(m, t2), newId), Deadline(s.horizon, t2, s.idle))
  }

  /** The sessions `id` and `other` aside, `after` has what `t` does not expire. */
  ghost predicate OthersOnlyExpire(m: Sessions, after: Sessions, id: string, other: string, t: nat) {
    && (forall x :: x != id && x != other ==> (x in after <==> x in m && m[x].expiresAt > t))
    && (forall x :: x != id && x != other && x in after ==> after[x] == m[x])
  }

  /** Where a session goes when its id is regenerated, and when that succeeds. */
  lemma RegenerateMoves(
    m: Sessions, oldId: string, newId: string, t1: nat, t2: nat, t3: nat, s: Settings)
    requires AllLive(m, t1) && t1 <= t2 <= t3 && oldId != newId
    ensures var (after, e) := AbstractRegenerate(m, oldId, newId, t1, t2, t3, s);
            var moved := MovedEntry(m, oldId, newId, t1, t2, s);
            && (e.None? <==> oldId in m || newId in Live(m, t2) || |Live(m, t2)| < s.maxSessions)
            && oldId !in after
            && (e.None? ==> (newId in after <==> t3 < moved.expiresAt) && (newId in after ==> after[newId] == moved))
            && OthersOnlyExpire(m, after, oldId, newId, t3)
  {
    if oldId in m {
      MovesLive(m, oldId, newId, t1, t3, s);
    } else {
      MovesNew(m, newId, t2, t3, s);
    }
  }

  lemma MovesLive(m: Sessions, oldId: string, newId: string, t1: nat, t3: nat, s: Settings)
    requires oldId in m && t1 <= t3 && oldId != newId
    ensures var after := Live(Abstract(m, Rotate(oldId, newId), t1, s).0, t3);
            var moved := Entry(m[oldId].data, Deadline(s.horizon, t1, s.idle));
            && oldId !in after && (newId in after <==> t3 < moved.expiresAt)
            && (newId in after ==> after[newId] == moved) && OthersOnlyExpire(m, after, oldId, newId, t3)
  {
    LiveLater((m - {oldId})[newId := Entry(m[oldId].data, Deadline(s.horizon, t1, s.idle))], t1, t3);
  }

  lemma MovesNew(m: Sessions, newId: string, t2: nat, t3: nat, s: Settings)
    requires t2 <= t3
    ensures var (created, answer) := Abstract(Live(m, t2), Create(newId), t2, s);
            var after := Live(created, t3);
            var moved := Entry(DataOf(Live(m, t2), newId), Deadline(s.horizon, t2, s.idle));
            && (answer == Flag(true) <==> newId in Live(m, t2) || |Live(m, t2)| < s.maxSessions)
            && (answer == Flag(true) ==> (newId in after <==> t3 < moved.expiresAt)
                                         && (newId in after ==> after[newId] == moved))
            && OthersOnlyExpire(m, after, newId, newId, t3)
  {
  }

  // ---------------------------------------------------------------------- runs

  /** A run of any step function. */
  ghost function Fold(step: (World, Event) -> (World, Answer), w: World, events: seq<Event>): (World, seq<Answer>)
    decreases |events|
  {
    if events == [] then (w, [])
    else
      var (next, answer) := step(w, events[0]);
      var (final, answers) := Fold(step, next, events[1..]);
      (final, [answer] + answers)
  }

  lemma {:induction false} FoldConcat(
    step: (World, Event) -> (World, Answer), w: World, a: seq<Event>, b: seq<Event>)
    ensures var (mid, front) := Fold(step, w, a);
            && Fold(step, w, a + b) == (Fold(step, mid, b).0, front + Fold(step, mid, b).1)
            && |front| == |a|
    decreases |a|
  {
    if a == [] {
      assert a + b == b;
      assert [] + Fold(step, w, b).1 == Fold(step, w, b).1;
    } else {
      var (next, answer) := step(w, a[0]);
      FoldConcat(step, next, a[1..], b);
      assert (a + b)[1..] == a[1..] + b && (a + b)[0] == a[0];
      var (mid, front) := Fold(step, next, a[1..]);
      assert [answer] + (front + Fold(step, mid, b).1) == [answer] + front + Fold(step, mid, b).1;
    }
  }

  ghost function Stepper(s: Settings): (World, Event) -> (World, Answer) {
    (w, e) => AbstractEvent(w, e, s)
  }

  lemma {:induction false} RunIsFold(w: World, events: seq<Event>, s: Settings)
    ensures AbstractRun(w, events, s) == Fold(Stepper(s), w, events)
    decreases |events|
  {
    if events != [] {
      RunIsFold(AbstractEvent(w, events[0], s).0, events[1..], s);
    }
  }

  lemma RunConcat(w: World, a: seq<Event>, b: seq<Event>, s: Settings)
    ensures AbstractRun(w, a + b, s).0 == AbstractRun(AbstractRun(w, a, s).0, b, s).0
    ensures AbstractRun(w, a + b, s).1 == AbstractRun(w, a, s).1 + AbstractRun(AbstractRun(w, a, s).0, b, s).1
    ensures |AbstractRun(w, a, s).1| == |a|
  {
    RunIsFold(w, a + b, s);
    RunIsFold(w, a, s);
    RunIsFold(AbstractRun(w, a, s).0, b, s);
    FoldConcat(Stepper(s), w, a, b);
  }

  lemma RunOne(w: World, e: Event, s: Settings)
    ensures AbstractRun(w, [e], s).0 == AbstractEvent(w, e, s).0
    ensures AbstractRun(w, [e], s).1 == [AbstractEvent(w, e, s).1]
  {
    RunIsFold(w, [e], s);
    assert [e][1..] == [];
  }

  /** The first event, those between, and the last: what the last answers. */
  lemma LastAnswer(w: World, first: Event, between: seq<Event>, last: Event, s: Settings)
    ensures var answers := AbstractRun(w, [first] + between + [last], s).1;
            var mid := AbstractRun(AbstractEvent(w, first, s).0, between, s).0;
            && |answers| == |between| + 2 && answers[0] == AbstractEvent(w, first, s).1
            && answers[|between| + 1] == AbstractEvent(mid, last, s).1
  {
    var next := AbstractEvent(w, first, s).0;
    RunConcat(w, [first] + between, [last], s);
    RunConcat(w, [first], between, s);
    RunOne(w, first, s);
    RunOne(AbstractRun(next, between, s).0, last, s);
  }

  lemma {:induction false} OrderedEnds(between: seq<Event>, last: Event, start: nat)
    requires Ordered(between + [last], start)
    ensures Ordered(between, start) && start <= Begin(last) && InOrder(last)
    ensures forall e :: e in between ==> End(e) <= Begin(last)
    decreases |between|
  {
    var all := between + [last];
    if between == [] {
      assert all[0] == last;
    } else {
      assert all[0] == between[0] && all[1..] == between[1..] + [last];
      OrderedEnds(between[1..], last, End(between[0]));
      assert between == [between[0]] + between[1..];
    }
  }

  /** No session `x` that `m` lacks, and no other one. */
  ghost predicate MakesNothing(m: Sessions, after: Sessions, x: string) {
    x in after ==> x in m && after[x] == m[x]
  }

  lemma StepMakesNothing(m: Sessions, op: Op, now: nat, s: Settings, x: string)
    requires !Mentions(Call(op, now), x)
    ensures MakesNothing(m, Abstract(m, op, now, s).0, x)
  {
  }

  lemma WriteMakesNothing(
    m: Sessions, id: string, key: string, value: string, t1: nat, t2: nat, t3: nat, s: Settings, x: string)
    requires x != id
    ensures MakesNothing(m, AbstractSet(m, id, key, value, t1, t2, t3, s).0, x)
  {
    var resumed := Abstract(m, Resume(id), t1, s).0;
    StepMakesNothing(m, Resume(id), t1, s, x);
    StepMakesNothing(Live(resumed, t2), Create(id), t2, s, x);
  }

  lemma RegenerateMakesNothing(
    m: Sessions, oldId: string, newId: string, t1: nat, t2: nat, t3: nat, s: Settings, x: string)
    requires x != oldId && x != newId
    ensures MakesNothing(m, AbstractRegenerate(m, oldId, newId, t1, t2, t3, s).0, x)
  {
    StepMakesNothing(m, Rotate(oldId, newId), t1, s, x);
    StepMakesNothing(Live(m, t2), Create(newId), t2, s, x);
  }

  /** An event that does not name a session does not make or change it. */
  lemma EventMakesNothing(w: World, e: Event, s: Settings, x: string)
    requires !Mentions(e, x)
    ensures MakesNothing(w.sessions, AbstractEvent(w, e, s).0.sessions, x)
  {
    var live := Live(w.sessions, Begin(e));
    match e {
      case Call(op, now) => StepMakesNothing(live, op, now, s, x);
      case Write(id, key, value, t1, t2, t3) => WriteMakesNothing(live, id, key, value, t1, t2, t3, s, x);
      case Regenerate(oldId, newId, t1, t2, t3) => RegenerateMakesNothing(live, oldId, newId, t1, t2, t3, s, x);
      case Take(_, _) =>
    }
  }

  lemma {:induction false} RunMakesNothing(w: World, events: seq<Event>, s: Settings, x: string)
    requires forall e :: e in events ==> !Mentions(e, x)
    ensures MakesNothing(w.sessions, AbstractRun(w, events, s).0.sessions, x)
    decreases |events|
  {
    if events != [] {
      assert events[0] in events && forall f :: f in events[1..] ==> f in events;
      EventMakesNothing(w, events[0], s, x);
      RunMakesNothing(AbstractEvent(w, events[0], s).0, events[1..], s, x);
    }
  }

  ghost predicate NoneMentions(events: seq<Event>, x: string) {
    forall e :: e in events ==> !Mentions(e, x)
  }

  /** Left alone, a session is as it was until its deadline, and then gone. */
  lemma LeftAlone(w: World, between: seq<Event>, last: Event, start: nat, s: Settings, x: string)
    requires Bounded(w, s) && Ordered(between + [last], start) && NoneMentions(between, x)
    ensures var after := Live(AbstractRun(w, between, s).0.sessions, Begin(last));
            && (x in after <==> x in w.sessions && Begin(last) < w.sessions[x].expiresAt)
            && (x in after ==> after[x] == w.sessions[x])
  {
    OrderedEnds(between, last, start);
    RunMakesNothing(w, between, s, x);
    RunKeepsOthers(w, between, start, s, x);
  }

  lemma FirstInOrder(first: Event, between: seq<Event>, last: Event, start: nat)
    requires Ordered([first] + between + [last], start)
    ensures InOrder(first) && start <= Begin(first) && Ordered(between + [last], End(first))
  {
    var all := [first] + between + [last];
    assert all[0] == first && all[1..] == between + [last];
  }

  /** A value that was set is the value read, until the deadline. */
  lemma SetIsRead(w: World, write: Event, between: seq<Event>, now: nat, start: nat, s: Settings)
    requires Bounded(w, s) && LimitsOk(s.limits) && write.Write? && NoneMentions(between, write.id)
    requires Ordered([write] + between + [Call(Get(write.id, write.key), now)], start)
    requires AbstractEvent(w, write, s).1 == Outcome(None)
    requires now < WriteDeadline(Live(w.sessions, write.t1), write.id, write.t1, write.t2, s)
    ensures var answers := AbstractRun(w, [write] + between + [Call(Get(write.id, write.key), now)], s).1;
            |answers| == |between| + 2 && answers[|between| + 1] == Value(Some(write.value))
  {
    var get := Call(Get(write.id, write.key), now);
    FirstInOrder(write, between, get, start);
    LastAnswer(w, write, between, get, s);
    EventKeepsOthers(w, write, s, "");
    SetStoresIff(Live(w.sessions, write.t1), write.id, write.key, write.value, write.t1, write.t2, write.t3, s);
    LeftAlone(AbstractEvent(w, write, s).0, between, get, write.t3, s, write.id);
  }

  /** What a lookup leaves of a live session. */
  lemma LookupEntry(m: Sessions, op: Op, now: nat, s: Settings)
    requires (op.Resume? || op.Get? || op.RemoveKey? || op.Create?) && op.id in m
    ensures var after, deadline := Abstract(m, op, now, s).0, Deadline(s.horizon, now, s.idle);
            && (op.id in after <==> now < deadline)
            && (op.id in after ==> after[op.id].expiresAt == deadline)
  {
  }

  lemma AskedLater(w: World, id: string, between: seq<Event>, now: nat, start: nat, deadline: nat, s: Settings)
    requires Bounded(w, s) && NoneMentions(between, id) && Ordered(between + [Call(Resume(id), now)], start)
    requires (id in w.sessions <==> start < deadline) && (id in w.sessions ==> w.sessions[id].expiresAt == deadline)
    ensures AbstractEvent(AbstractRun(w, between, s).0, Call(Resume(id), now), s).1 == Flag(now < deadline)
  {
    LeftAlone(w, between, Call(Resume(id), now), start, s, id);
    OrderedEnds(between, Call(Resume(id), now), start);
  }

  /** A live session that is looked up lives until its new deadline, and no longer. */
  lemma LookupSlides(w: World, op: Op, at: nat, between: seq<Event>, now: nat, start: nat, s: Settings)
    requires Bounded(w, s) && (op.Resume? || op.Get? || op.RemoveKey? || op.Create?)
    requires op.id in Live(w.sessions, at) && NoneMentions(between, op.id)
    requires Ordered([Call(op, at)] + between + [Call(Resume(op.id), now)], start)
    ensures var answers := AbstractRun(w, [Call(op, at)] + between + [Call(Resume(op.id), now)], s).1;
            |answers| == |between| + 2
            && answers[|between| + 1] == Flag(now < Deadline(s.horizon, at, s.idle))
  {
    var first, last := Call(op, at), Call(Resume(op.id), now);
    FirstInOrder(first, between, last, start);
    LastAnswer(w, first, between, last, s);
    EventKeepsOthers(w, first, s, "");
    LookupEntry(Live(w.sessions, at), op, at, s);
    CallIs(w, op, at, s);
    AskedLater(AbstractEvent(w, first, s).0, op.id, between, now, at, Deadline(s.horizon, at, s.idle), s);
  }

  lemma CallIs(w: World, op: Op, at: nat, s: Settings)
    ensures AbstractEvent(w, Call(op, at), s).0.sessions == Abstract(Live(w.sessions, at), op, at, s).0
  {
  }

  /** A value that was removed is not read. */
  lemma RemovedIsNotRead(
    w: World, id: string, key: string, at: nat, between: seq<Event>, now: nat, start: nat, s: Settings)
    requires Bounded(w, s) && NoneMentions(between, id)
    requires Ordered([Call(RemoveKey(id, key), at)] + between + [Call(Get(id, key), now)], start)
    ensures var answers := AbstractRun(w, [Call(RemoveKey(id, key), at)] + between + [Call(Get(id, key), now)], s).1;
            |answers| == |between| + 2 && answers[|between| + 1] == Value(None)
  {
    var first, last := Call(RemoveKey(id, key), at), Call(Get(id, key), now);
    FirstInOrder(first, between, last, start);
    LastAnswer(w, first, between, last, s);
    EventKeepsOthers(w, first, s, "");
    LeftAlone(AbstractEvent(w, first, s).0, between, last, at, s, id);
  }

  /** A session that was cleared is gone. */
  lemma ClearedIsGone(w: World, id: string, at: nat, between: seq<Event>, now: nat, start: nat, s: Settings)
    requires Bounded(w, s) && NoneMentions(between, id)
    requires Ordered([Call(Clear(id), at)] + between + [Call(Resume(id), now)], start)
    ensures var answers := AbstractRun(w, [Call(Clear(id), at)] + between + [Call(Resume(id), now)], s).1;
            |answers| == |between| + 2 && answers[|between| + 1] == Flag(false)
  {
    var first, last := Call(Clear(id), at), Call(Resume(id), now);
    FirstInOrder(first, between, last, start);
    LastAnswer(w, first, between, last, s);
    EventKeepsOthers(w, first, s, "");
    LeftAlone(AbstractEvent(w, first, s).0, between, last, at, s, id);
  }

  // ------------------------------------------------------------------ rotations

  /** The records that are not stale at `now`. */
  ghost function Fresh(records: map<string, Rotation>, now: nat): map<string, Rotation> {
    map k | k in records && now < records[k].at + ROTATION_RECORD_TTL :: records[k]
  }

  lemma RecordedIs(records: map<string, Rotation>, oldId: string, newId: string, now: nat, max: nat)
    ensures Recorded(records, oldId, newId, now, max)
         == if |Fresh(records, now)| < max then Fresh(records, now)[oldId := Rotation(newId, now)]
            else Fresh(records, now)
  {
    var kept := map k | k in records && Since(now, records[k].at) < ROTATION_RECORD_TTL :: records[k];
    assert kept == Fresh(records, now);
  }

  /** Events that neither take nor replace the record of `oldId`, and end before it is stale. */
  ghost predicate LeavesRecord(e: Event, oldId: string, until: nat) {
    && (e.Take? ==> e.oldId != oldId)
    && (e.Regenerate? ==> e.oldId != oldId && e.t3 < until)
  }

  lemma {:induction false} RecordStays(w: World, events: seq<Event>, s: Settings, oldId: string)
    requires oldId in w.records
    requires forall e :: e in events ==> LeavesRecord(e, oldId, w.records[oldId].at + ROTATION_RECORD_TTL)
    ensures var after := AbstractRun(w, events, s).0.records;
            oldId in after && after[oldId] == w.records[oldId]
    decreases |events|
  {
    if events != [] {
      var e := events[0];
      assert e in events && forall f :: f in events[1..] ==> f in events;
      if e.Regenerate? {
        RecordedIs(w.records, e.oldId, e.newId, e.t3, s.maxSessions);
      }
      RecordStays(AbstractEvent(w, e, s).0, events[1..], s, oldId);
    }
  }

  lemma RegenerateRecords(w: World, regenerate: Event, s: Settings)
    requires regenerate.Regenerate? && AbstractEvent(w, regenerate, s).1 == Outcome(None)
    requires |Fresh(w.records, regenerate.t3)| < s.maxSessions
    ensures var records := AbstractEvent(w, regenerate, s).0.records;
            && regenerate.oldId in records
            && records[regenerate.oldId] == Rotation(regenerate.newId, regenerate.t3)
  {
    RecordedIs(w.records, regenerate.oldId, regenerate.newId, regenerate.t3, s.maxSessions);
  }

  lemma TakenLater(w: World, between: seq<Event>, oldId: string, now: nat, s: Settings)
    requires oldId in w.records
    requires forall e :: e in between ==> LeavesRecord(e, oldId, w.records[oldId].at + ROTATION_RECORD_TTL)
    ensures AbstractEvent(AbstractRun(w, between, s).0, Take(oldId, now), s).1 == Value(Some(w.records[oldId].newId))
  {
    RecordStays(w, between, s, oldId);
  }

  /** A regenerated id is reported to whoever asks for it, if there was room to
      record it. */
  lemma RotationIsReported(w: World, regenerate: Event, between: seq<Event>, now: nat, s: Settings)
    requires regenerate.Regenerate? && AbstractEvent(w, regenerate, s).1 == Outcome(None)
    requires |Fresh(w.records, regenerate.t3)| < s.maxSessions
    requires forall e :: e in between ==> LeavesRecord(e, regenerate.oldId, regenerate.t3 + ROTATION_RECORD_TTL)
    ensures var answers := AbstractRun(w, [regenerate] + between + [Take(regenerate.oldId, now)], s).1;
            |answers| == |between| + 2 && answers[|between| + 1] == Value(Some(regenerate.newId))
  {
    LastAnswer(w, regenerate, between, Take(regenerate.oldId, now), s);
    RegenerateRecords(w, regenerate, s);
    TakenLater(AbstractEvent(w, regenerate, s).0, between, regenerate.oldId, now, s);
  }
}
