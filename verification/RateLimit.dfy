/**
 The bounded fixed-window rate limiter (src/app/middleware/mod.rs) against an
 ideal limiter that keeps one unbounded bucket per client for ever.
 Times and durations are in nanoseconds.
 */
module RateLimit {
  import opened Basics
  import Text

  /** A client address; requests without one share the key `None`. */
  type Key = Option<nat>

  const U32_MAX: nat := 0xFFFF_FFFF
  const NANOS: nat := 1_000_000_000

  datatype Bucket = Bucket(start: nat, count: nat)

  /** `horizon` is the last representable instant. */
  datatype Config = Config(interval: nat, window: nat, maxClients: nat, maxRequests: nat, horizon: nat)

  /** What the constructors of the middleware insist on. */
  predicate ConfigOk(cfg: Config) {
    cfg.window > 0 && cfg.maxClients > 0 && cfg.maxRequests <= U32_MAX
  }

  datatype Limiter = Limiter(buckets: map<Key, Bucket>, overflow: Option<Bucket>, nextCleanup: nat)

  function CheckedAdd(cfg: Config, now: nat, d: nat): nat {
    if now + d <= cfg.horizon then now + d else now
  }

  predicate Live(cfg: Config, bucket: Bucket, now: nat) {
    Since(now, bucket.start) < cfg.window
  }

  /** `check_rate_bucket`: the bucket after one request, and the time left if
      the request is over the limit. */
  function Hit(cfg: Config, bucket: Bucket, now: nat): (Bucket, Option<nat>) {
    var current := if Live(cfg, bucket, now) then bucket else Bucket(now, 0);
    var count := if current.count < U32_MAX then current.count + 1 else U32_MAX;
    (current.(count := count),
     if count > cfg.maxRequests then Some(Since(cfg.window, Since(now, current.start))) else None)
  }

  /** `remove_expired_rate_buckets`. */
  function Sweep(cfg: Config, l: Limiter, now: nat): Limiter {
    l.(buckets := map k | k in l.buckets && Live(cfg, l.buckets[k], now) :: l.buckets[k],
       overflow := if l.overflow.Some? && !Live(cfg, l.overflow.value, now) then None else l.overflow)
  }

  function Cleaned(cfg: Config, l: Limiter, now: nat): Limiter {
    if now >= l.nextCleanup then Sweep(cfg, l, now).(nextCleanup := CheckedAdd(cfg, now, cfg.interval)) else l
  }

  /** `check_rate_limit_state`: the state and the answer. */
  function Check(cfg: Config, l: Limiter, key: Key, now: nat): (Limiter, Option<nat>) {
    var c := Cleaned(cfg, l, now);
    if key in c.buckets || |c.buckets| < cfg.maxClients then
      var (bucket, over) := Hit(cfg, if key in c.buckets then c.buckets[key] else Bucket(now, 0), now);
      (c.(buckets := c.buckets[key := bucket]), over)
    else
      var (bucket, over) := Hit(cfg, if c.overflow.Some? then c.overflow.value else Bucket(now, 0), now);
      (c.(overflow := Some(bucket)), over)
  }

  /** The shared state, updated under its lock. */
  class RateState {
    var buckets: map<Key, Bucket>
    var overflow: Option<Bucket>
    var nextCleanup: nat

    ghost function View(): Limiter
      reads this
    {
      Limiter(buckets, overflow, nextCleanup)
    }

    constructor (cfg: Config, now: nat)
      ensures View() == Limiter(map[], None, CheckedAdd(cfg, now, cfg.interval))
    {
      buckets, overflow, nextCleanup := map[], None, CheckedAdd(cfg, now, cfg.interval);
    }

    method CheckRequest(cfg: Config, key: Key, now: nat) returns (over: Option<nat>)
      modifies this
      ensures (View(), over) == Check(cfg, old(View()), key, now)
      ensures |old(buckets)| <= cfg.maxClients ==> |buckets| <= cfg.maxClients
    {
      if |buckets| <= cfg.maxClients {
        BoundKept(cfg, View(), key, now);
      }
      if now >= nextCleanup {
        buckets := map k | k in buckets && Live(cfg, buckets[k], now) :: buckets[k];
        if overflow.Some? && !Live(cfg, overflow.value, now) {
          overflow := None;
        }
        nextCleanup := CheckedAdd(cfg, now, cfg.interval);
      }
      if key in buckets || |buckets| < cfg.maxClients {
        var bucket := if key in buckets then buckets[key] else Bucket(now, 0);
        var (after, answer) := Hit(cfg, bucket, now);
        buckets := buckets[key := after];
        over := answer;
      } else {
        var bucket := if overflow.Some? then overflow.value else Bucket(now, 0);
        var (after, answer) := Hit(cfg, bucket, now);
        overflow := Some(after);
        over := answer;
      }
    }
  }

  // ----------------------------------------------------------------- the bound

  lemma SubmapSize(small: map<Key, Bucket>, large: map<Key, Bucket>)
    requires small.Keys <= large.Keys
    ensures |small| <= |large|
  {
    SubsetSize(small.Keys, large.Keys);
  }

  /** At most `maxClients` buckets are ever tracked. */
  lemma BoundKept(cfg: Config, l: Limiter, key: Key, now: nat)
    requires |l.buckets| <= cfg.maxClients
    ensures |Check(cfg, l, key, now).0.buckets| <= cfg.maxClients
  {
    var c := Cleaned(cfg, l, now);
    SubmapSize(c.buckets, l.buckets);
    var after := Check(cfg, l, key, now).0.buckets;
    assert after == c.buckets || after.Keys == c.buckets.Keys + {key};
    if key in c.buckets {
      assert c.buckets.Keys + {key} == c.buckets.Keys;
    }
  }

  // ------------------------------------------------------- requests per window

  /** The answers of one bucket to requests at the given times. */
  function Admitted(cfg: Config, bucket: Bucket, times: seq<nat>): nat
    decreases |times|
  {
    if times == [] then 0
    else
      var (after, over) := Hit(cfg, bucket, times[0]);
      (if over.None? then 1 else 0) + Admitted(cfg, after, times[1..])
  }

  function Min(a: nat, b: nat): nat {
    if a <= b then a else b
  }

  /** Within one window a bucket admits exactly the first `maxRequests`
      requests; with the largest limit the count saturates and all pass. */
  lemma {:induction false} AdmittedInWindow(cfg: Config, bucket: Bucket, times: seq<nat>)
    requires ConfigOk(cfg) && bucket.count <= U32_MAX
    requires forall i :: 0 <= i < |times| ==> Live(cfg, bucket, times[i])
    ensures cfg.maxRequests < U32_MAX ==>
              Admitted(cfg, bucket, times) == Min(|times|, Since(cfg.maxRequests, bucket.count))
    ensures cfg.maxRequests == U32_MAX ==> Admitted(cfg, bucket, times) == |times|
    decreases |times|
  {
    if times != [] {
      var after := Hit(cfg, bucket, times[0]).0;
      AdmittedInWindow(cfg, after, times[1..]);
    }
  }

  // -------------------------------------------------------- the ideal limiter

  type Ideal = map<Key, Bucket>

  /** One more request in the current window, or the first of a new one. */
  function IdealHit(cfg: Config, bucket: Bucket, now: nat): (Bucket, Option<nat>) {
    var current := if Live(cfg, bucket, now) then bucket else Bucket(now, 0);
    (current.(count := current.count + 1),
     if current.count + 1 > cfg.maxRequests then Some(Since(cfg.window, Since(now, current.start))) else None)
  }

  /** An unbounded counter per client and window, never swept, never shared. */
  function IdealCheck(cfg: Config, ideal: Ideal, key: Key, now: nat): (Ideal, Option<nat>) {
    var (bucket, over) := IdealHit(cfg, if key in ideal then ideal[key] else Bucket(now, 0), now);
    (ideal[key := bucket], over)
  }

  function Saturated(bucket: Bucket): Bucket {
    bucket.(count := Min(bucket.count, U32_MAX))
  }

  /** A saturating bucket answers as the unbounded one below the largest limit. */
  lemma HitSaturated(cfg: Config, bucket: Bucket, now: nat)
    requires ConfigOk(cfg) && cfg.maxRequests < U32_MAX
    ensures Hit(cfg, Saturated(bucket), now).1 == IdealHit(cfg, bucket, now).1
    ensures Hit(cfg, Saturated(bucket), now).0 == Saturated(IdealHit(cfg, bucket, now).0)
  {
  }

  /** An expired bucket is as good as none. */
  lemma ExpiredIsNew(cfg: Config, bucket: Bucket, now: nat)
    requires ConfigOk(cfg) && !Live(cfg, bucket, now)
    ensures IdealHit(cfg, bucket, now) == IdealHit(cfg, Bucket(now, 0), now)
  {
  }

  /** A tracked bucket is the ideal one up to saturation; an ideal bucket that
      is not tracked has expired. */
  ghost predicate Simulates(cfg: Config, l: Limiter, ideal: Ideal, now: nat) {
    && (forall k :: k in l.buckets ==>
          k in ideal && l.buckets[k] == Saturated(ideal[k]))
    && (forall k :: k in ideal ==> ideal[k].start <= now)
    && (forall k :: k in ideal && k !in l.buckets ==> !Live(cfg, ideal[k], now))
  }

  lemma SimulatesLater(cfg: Config, l: Limiter, ideal: Ideal, now: nat, later: nat)
    requires Simulates(cfg, l, ideal, now) && now <= later
    ensures Simulates(cfg, Cleaned(cfg, l, later), ideal, later)
  {
  }

  /** While the clients fit, a tracked or a free bucket serves the key. */
  lemma ClientFits(cfg: Config, c: Limiter, ideal: Ideal, key: Key, now: nat)
    requires Simulates(cfg, c, ideal, now) && |ideal.Keys + {key}| <= cfg.maxClients
    ensures key in c.buckets || |c.buckets| < cfg.maxClients
  {
    if key !in c.buckets {
      SubsetSize(c.buckets.Keys + {key}, ideal.Keys + {key});
      assert |c.buckets.Keys + {key}| == |c.buckets| + 1;
    }
  }

  function Served(buckets: map<Key, Bucket>, key: Key, now: nat): Bucket {
    if key in buckets then buckets[key] else Bucket(now, 0)
  }

  lemma HitAgrees(cfg: Config, c: Limiter, ideal: Ideal, key: Key, now: nat)
    requires ConfigOk(cfg) && cfg.maxRequests < U32_MAX && Simulates(cfg, c, ideal, now)
    ensures var hit := Hit(cfg, Served(c.buckets, key, now), now);
            var want := IdealHit(cfg, Served(ideal, key, now), now);
            hit.1 == want.1 && hit.0 == Saturated(want.0) && want.0.start <= now
  {
    if key in c.buckets {
      HitSaturated(cfg, ideal[key], now);
    } else {
      if key in ideal {
        ExpiredIsNew(cfg, ideal[key], now);
      }
      assert Saturated(Bucket(now, 0)) == Bucket(now, 0);
      HitSaturated(cfg, Bucket(now, 0), now);
    }
  }

  lemma UpdateSimulates(cfg: Config, c: Limiter, ideal: Ideal, key: Key, bucket: Bucket, now: nat)
    requires Simulates(cfg, c, ideal, now) && bucket.start <= now
    ensures Simulates(cfg, c.(buckets := c.buckets[key := Saturated(bucket)]), ideal[key := bucket], now)
  {
  }

  /** While the clients fit, the limiter answers as the ideal one and stays in step. */
  lemma CheckSimulates(cfg: Config, l: Limiter, ideal: Ideal, key: Key, now: nat, last: nat)
    requires ConfigOk(cfg) && cfg.maxRequests < U32_MAX
    requires Simulates(cfg, l, ideal, last) && last <= now
    requires |ideal.Keys + {key}| <= cfg.maxClients
    ensures Check(cfg, l, key, now).1 == IdealCheck(cfg, ideal, key, now).1
    ensures Simulates(cfg, Check(cfg, l, key, now).0, IdealCheck(cfg, ideal, key, now).0, now)
  {
    var c := Cleaned(cfg, l, now);
    SimulatesLater(cfg, l, ideal, last, now);
    ClientFits(cfg, c, ideal, key, now);
    HitAgrees(cfg, c, ideal, key, now);
    UpdateSimulates(cfg, c, ideal, key, IdealHit(cfg, Served(ideal, key, now), now).0, now);
  }

  datatype Request = Request(key: Key, at: nat)

  function Answers(cfg: Config, l: Limiter, requests: seq<Request>): seq<Option<nat>>
    decreases |requests|
  {
    if requests == [] then []
    else
      var (after, over) := Check(cfg, l, requests[0].key, requests[0].at);
      [over] + Answers(cfg, after, requests[1..])
  }

  function IdealAnswers(cfg: Config, ideal: Ideal, requests: seq<Request>): seq<Option<nat>>
    decreases |requests|
  {
    if requests == [] then []
    else
      var (after, over) := IdealCheck(cfg, ideal, requests[0].key, requests[0].at);
      [over] + IdealAnswers(cfg, after, requests[1..])
  }

  function KeysOf(requests: seq<Request>): set<Key> {
    set r | r in requests :: r.key
  }

  lemma FirstKey(requests: seq<Request>)
    requires requests != []
    ensures KeysOf(requests) == {requests[0].key} + KeysOf(requests[1..])
  {
    assert requests == [requests[0]] + requests[1..];
    assert requests[0] in requests;
  }

  /** The clock does not go back. */
  ghost predicate Timely(requests: seq<Request>, from: nat) {
    && (forall i :: 0 <= i < |requests| ==> from <= requests[i].at)
    && (forall i, j :: 0 <= i < j < |requests| ==> requests[i].at <= requests[j].at)
  }

  lemma FirstClient(clients: set<Key>, requests: seq<Request>)
    requires requests != []
    ensures |clients + {requests[0].key}| <= |clients + KeysOf(requests)|
    ensures (clients + {requests[0].key}) + KeysOf(requests[1..]) == clients + KeysOf(requests)
  {
    FirstKey(requests);
    SubsetSize(clients + {requests[0].key}, clients + KeysOf(requests));
  }

  lemma IdealKeys(cfg: Config, ideal: Ideal, key: Key, now: nat)
    ensures IdealCheck(cfg, ideal, key, now).0.Keys == ideal.Keys + {key}
  {
  }

  /** One request of a run: both limiters answer alike and stay in step. */
  lemma StepInStep(cfg: Config, l: Limiter, ideal: Ideal, requests: seq<Request>, last: nat)
    returns (after: Limiter, idealAfter: Ideal, over: Option<nat>)
    requires ConfigOk(cfg) && cfg.maxRequests < U32_MAX && requests != []
    requires Simulates(cfg, l, ideal, last) && last <= requests[0].at
    requires |ideal.Keys + KeysOf(requests)| <= cfg.maxClients
    ensures Answers(cfg, l, requests) == [over] + Answers(cfg, after, requests[1..])
    ensures IdealAnswers(cfg, ideal, requests) == [over] + IdealAnswers(cfg, idealAfter, requests[1..])
    ensures Simulates(cfg, after, idealAfter, requests[0].at)
    ensures idealAfter.Keys + KeysOf(requests[1..]) == ideal.Keys + KeysOf(requests)
  {
    var first := requests[0];
    FirstClient(ideal.Keys, requests);
    CheckSimulates(cfg, l, ideal, first.key, first.at, last);
    IdealKeys(cfg, ideal, first.key, first.at);
    after, over := Check(cfg, l, first.key, first.at).0, Check(cfg, l, first.key, first.at).1;
    idealAfter := IdealCheck(cfg, ideal, first.key, first.at).0;
  }

  lemma TimelyRest(requests: seq<Request>, from: nat)
    requires Timely(requests, from) && requests != []
    ensures from <= requests[0].at && Timely(requests[1..], requests[0].at)
  {
  }

  /** On every run with at most `maxClients` distinct clients the bounded limiter
      gives the answers of the ideal one. */
  lemma {:induction false} SameAnswersAsIdeal(cfg: Config, l: Limiter, ideal: Ideal, requests: seq<Request>, last: nat)
    requires ConfigOk(cfg) && cfg.maxRequests < U32_MAX
    requires Simulates(cfg, l, ideal, last) && Timely(requests, last)
    requires |ideal.Keys + KeysOf(requests)| <= cfg.maxClients
    ensures Answers(cfg, l, requests) == IdealAnswers(cfg, ideal, requests)
    decreases |requests|
  {
    if requests != [] {
      TimelyRest(requests, last);
      var after, idealAfter, over := StepInStep(cfg, l, ideal, requests, last);
      SameAnswersAsIdeal(cfg, after, idealAfter, requests[1..], requests[0].at);
    }
  }

  // ----------------------------------------------------------------- Retry-After

  /** `retry_after_seconds`. */
  function RetryAfter(remaining: nat): nat {
    var seconds := remaining / NANOS;
    var rounded := if remaining % NANOS == 0 then seconds
                   else if seconds < Text.U64_MAX then seconds + 1 else Text.U64_MAX;
    if rounded == 0 then 1 else rounded
  }

  /** Rounding up waits long enough, unless the second counter saturates. */
  lemma RetryAfterWaits(remaining: nat)
    ensures RetryAfter(remaining) * NANOS >= remaining <==> remaining <= Text.U64_MAX * NANOS || remaining % NANOS == 0
  {
  }

  /** And no longer than that: one second less would not cover it, unless the
      answer is the least one. */
  lemma RetryAfterIsLeast(remaining: nat)
    ensures RetryAfter(remaining) >= 1
    ensures RetryAfter(remaining) == 1 || (RetryAfter(remaining) - 1) * NANOS < remaining
  {
  }

  /** The state after a run. */
  function After(cfg: Config, l: Limiter, requests: seq<Request>): Limiter
    decreases |requests|
  {
    if requests == [] then l
    else After(cfg, Check(cfg, l, requests[0].key, requests[0].at).0, requests[1..])
  }

  lemma {:induction false} AnswersConcat(cfg: Config, l: Limiter, requests: seq<Request>, last: Request)
    ensures Answers(cfg, l, requests + [last])
         == Answers(cfg, l, requests) + [Check(cfg, After(cfg, l, requests), last.key, last.at).1]
    ensures |Answers(cfg, l, requests)| == |requests|
    decreases |requests|
  {
    if requests == [] {
      assert requests + [last] == [last];
      assert [last][1..] == [];
    } else {
      AnswersConcat(cfg, Check(cfg, l, requests[0].key, requests[0].at).0, requests[1..], last);
      assert (requests + [last])[1..] == requests[1..] + [last];
    }
  }

  /** One request leaves the bucket of another key as it was, or sweeps it, and
      tracks no key but its own. */
  lemma CheckLeavesOthers(cfg: Config, l: Limiter, other: Key, now: nat, key: Key)
    requires key != other
    ensures var after := Check(cfg, l, other, now).0;
            key in after.buckets ==> key in l.buckets && after.buckets[key] == l.buckets[key]
  {
  }

  lemma {:induction false} OthersLeaveBucket(cfg: Config, l: Limiter, requests: seq<Request>, key: Key)
    requires key !in KeysOf(requests)
    ensures var after := After(cfg, l, requests);
            key in after.buckets ==> key in l.buckets && after.buckets[key] == l.buckets[key]
    decreases |requests|
  {
    if requests != [] {
      FirstKey(requests);
      CheckLeavesOthers(cfg, l, requests[0].key, requests[0].at, key);
      OthersLeaveBucket(cfg, Check(cfg, l, requests[0].key, requests[0].at).0, requests[1..], key);
    }
  }

  lemma {:induction false} OnlySeenTracked(cfg: Config, l: Limiter, requests: seq<Request>)
    ensures After(cfg, l, requests).buckets.Keys <= l.buckets.Keys + KeysOf(requests)
    decreases |requests|
  {
    if requests != [] {
      FirstKey(requests);
      OnlySeenTracked(cfg, Check(cfg, l, requests[0].key, requests[0].at).0, requests[1..]);
    }
  }

  /** A place to be counted in: the own bucket, a free one, or a shared one that
      is new, expired or not yet exhausted. */
  predicate Room(cfg: Config, c: Limiter, key: Key, now: nat) {
    || key in c.buckets || |c.buckets| < cfg.maxClients
    || c.overflow.None? || !Live(cfg, c.overflow.value, now) || c.overflow.value.count < cfg.maxRequests
  }

  /** A bucket that rejected is over once the advertised time has passed. */
  lemma RejectedExpires(cfg: Config, l: Limiter, key: Key, now: nat, again: nat)
    requires ConfigOk(cfg) && cfg.window <= Text.U64_MAX * NANOS
    requires key in l.buckets ==> l.buckets[key].start <= now
    requires Check(cfg, l, key, now).1.Some?
    requires again >= now + RetryAfter(Check(cfg, l, key, now).1.value) * NANOS
    ensures var after := Check(cfg, l, key, now).0; key in after.buckets ==> !Live(cfg, after.buckets[key], again)
  {
    RetryAfterWaits(Check(cfg, l, key, now).1.value);
  }

  lemma AdmittedIffRoom(cfg: Config, l: Limiter, key: Key, again: nat)
    requires ConfigOk(cfg) && 1 <= cfg.maxRequests < U32_MAX
    requires key in l.buckets ==> !Live(cfg, l.buckets[key], again)
    ensures Check(cfg, l, key, again).1.None? <==> Room(cfg, Cleaned(cfg, l, again), key, again)
  {
  }

  /** A rejected client that comes back after the advertised time, whatever other
      clients did meanwhile, is admitted if and only if there is room for it. */
  lemma RetryAdmittedIff(cfg: Config, l: Limiter, key: Key, now: nat, others: seq<Request>, again: nat)
    requires ConfigOk(cfg) && 1 <= cfg.maxRequests < U32_MAX && cfg.window <= Text.U64_MAX * NANOS
    requires key in l.buckets ==> l.buckets[key].start <= now
    requires Check(cfg, l, key, now).1.Some? && key !in KeysOf(others)
    requires again >= now + RetryAfter(Check(cfg, l, key, now).1.value) * NANOS
    ensures var after := Check(cfg, l, key, now).0;
            var answers := Answers(cfg, after, others + [Request(key, again)]);
            |answers| == |others| + 1
            && (answers[|others|] == None <==> Room(cfg, Cleaned(cfg, After(cfg, after, others), again), key, again))
  {
    var after := Check(cfg, l, key, now).0;
    RejectedExpires(cfg, l, key, now, again);
    OthersLeaveBucket(cfg, after, others, key);
    AnswersConcat(cfg, after, others, Request(key, again));
    AdmittedIffRoom(cfg, After(cfg, after, others), key, again);
  }

  /** In particular while the clients fit. */
  lemma RetryIsAdmitted(cfg: Config, l: Limiter, key: Key, now: nat, others: seq<Request>, again: nat)
    requires ConfigOk(cfg) && 1 <= cfg.maxRequests < U32_MAX && cfg.window <= Text.U64_MAX * NANOS
    requires key in l.buckets ==> l.buckets[key].start <= now
    requires Check(cfg, l, key, now).1.Some? && key !in KeysOf(others)
    requires again >= now + RetryAfter(Check(cfg, l, key, now).1.value) * NANOS
    requires |l.buckets.Keys + {key} + KeysOf(others)| <= cfg.maxClients
    ensures var answers := Answers(cfg, Check(cfg, l, key, now).0, others + [Request(key, again)]);
            |answers| == |others| + 1 && answers[|others|] == None
  {
    RetryAdmittedIff(cfg, l, key, now, others, again);
    RoomWhileFitting(cfg, l, key, now, others, again);
  }

  lemma RoomWhileFitting(cfg: Config, l: Limiter, key: Key, now: nat, others: seq<Request>, again: nat)
    requires |l.buckets.Keys + {key} + KeysOf(others)| <= cfg.maxClients
    ensures Room(cfg, Cleaned(cfg, After(cfg, Check(cfg, l, key, now).0, others), again), key, again)
  {
    var after := Check(cfg, l, key, now).0;
    OnlySeenTracked(cfg, after, others);
    var tracked := Cleaned(cfg, After(cfg, after, others), again).buckets.Keys;
    var seen := l.buckets.Keys + {key} + KeysOf(others);
    assert after.buckets.Keys <= l.buckets.Keys + {key};
    assert tracked <= seen;
    SubsetSize(tracked, seen);
    assert key !in tracked ==> tracked != seen;
  }

  /** Beyond `maxClients` clients the promise fails: a client that lost its
      bucket while waiting can find the shared overflow bucket exhausted. */
  lemma RetryCanFailWhenCrowded()
    ensures var cfg := Config(NANOS, NANOS, 1, 1, 100 * NANOS);
            var requests := [Request(Some(1), 0), Request(Some(1), 0), Request(Some(2), NANOS), Request(Some(3), NANOS),
                             Request(Some(1), NANOS)];
            var answers := Answers(cfg, Limiter(map[], None, NANOS), requests);
            |answers| == 5 && answers[1] == Some(NANOS) && RetryAfter(NANOS) == 1 && answers[4].Some?
  {
    var cfg := Config(NANOS, NANOS, 1, 1, 100 * NANOS);
    var k1: Key, k2: Key, k3: Key := Some(1), Some(2), Some(3);
    var l0 := Limiter(map[], None, NANOS);
    var l1 := Check(cfg, l0, k1, 0).0;
    assert l1 == Limiter(map[k1 := Bucket(0, 1)], None, NANOS);
    var l2 := Check(cfg, l1, k1, 0).0;
    assert l2 == Limiter(map[k1 := Bucket(0, 2)], None, NANOS);
    var l3 := Check(cfg, l2, k2, NANOS).0;
    assert Cleaned(cfg, l2, NANOS) == Limiter(map[], None, 2 * NANOS);
    assert l3 == Limiter(map[k2 := Bucket(NANOS, 1)], None, 2 * NANOS);
    var l4 := Check(cfg, l3, k3, NANOS).0;
    assert |l3.buckets| == 1 && k3 !in l3.buckets && k1 !in l3.buckets;
    assert l4 == Limiter(map[k2 := Bucket(NANOS, 1)], Some(Bucket(NANOS, 1)), 2 * NANOS);
    var r1, r2, r3 := Request(k1, 0), Request(k1, 0), Request(k2, NANOS);
    var r4, r5 := Request(k3, NANOS), Request(k1, NANOS);
    assert [r5][1..] == [] && [r4, r5][1..] == [r5] && [r3, r4, r5][1..] == [r4, r5];
    assert [r2, r3, r4, r5][1..] == [r3, r4, r5] && [r1, r2, r3, r4, r5][1..] == [r2, r3, r4, r5];
    var a5 := Answers(cfg, l4, [r5]);
    assert Answers(cfg, Check(cfg, l4, k1, NANOS).0, []) == [];
    assert a5 == [Check(cfg, l4, k1, NANOS).1] + [];
    var a4 := Answers(cfg, l3, [r4, r5]);
    assert a4 == [None] + a5;
    var a3 := Answers(cfg, l2, [r3, r4, r5]);
    assert a3 == [None] + a4;
    var a2 := Answers(cfg, l1, [r2, r3, r4, r5]);
    assert a2 == [Some(NANOS)] + a3;
    var a1 := Answers(cfg, l0, [r1, r2, r3, r4, r5]);
    assert a1 == [None] + a2;
  }
}
