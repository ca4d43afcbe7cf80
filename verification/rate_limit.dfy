/** The token bucket and the fixed window, each over the bounded map: how much they let through, and when to retry. */
module RateLimits {
  import opened Wrappers
  import opened RecentMaps

  const SECOND_MS := 1000

  function Ceil(x: real): (n: int)
    ensures x <= n as real < x + 1.0
  {
    -((-x).Floor)
  }

  /** The calls of one key a run lets through. */
  function CountAllowed(decisions: seq<Decision>, calls: seq<Call>, key: string): nat
    requires |decisions| == |calls|
  {
    if calls == [] then 0
    else (if calls[0].key == key && decisions[0].Allowed? then 1 else 0) + CountAllowed(decisions[1..], calls[1..], key)
  }

  ghost predicate AreRefused(decisions: seq<Decision>, calls: seq<Call>, key: string)
    requires |decisions| == |calls|
  {
    forall k | 0 <= k < |calls| && calls[k].key == key :: decisions[k].Refused?
  }

  ghost predicate HasFewKeys(calls: seq<Call>) {
    |set i | 0 <= i < |calls| :: calls[i].key| <= 10_000
  }

  // ---------- token bucket ----------

  datatype Bucket = Bucket(tokens: real, refilledAt: int, limit: nat)

  /** Tokens earned in a span of time. */
  function Gain(ms: int, limit: nat, windowMs: nat): real
    requires windowMs > 0
  {
    (ms * limit) as real / windowMs as real
  }

  function Refilled(bucket: Bucket, at: int, limit: nat, windowMs: nat): Bucket
    requires windowMs > 0
  {
    var elapsed := if at > bucket.refilledAt then at - bucket.refilledAt else 0;
    var tokens := bucket.tokens + Gain(elapsed, limit, windowMs);
    Bucket(if tokens < limit as real then tokens else limit as real, at, limit)
  }

  predicate IsFull(bucket: Bucket, at: int, windowMs: nat)
    requires windowMs > 0
  {
    Refilled(bucket, at, bucket.limit, windowMs).tokens >= bucket.limit as real
  }

  function WaitMs(tokens: real, limit: nat, windowMs: nat): real
    requires limit > 0
  {
    (1.0 - tokens) * windowMs as real / limit as real
  }

  function RetryAfter(tokens: real, limit: nat, windowMs: nat): (seconds: nat)
    requires limit > 0
    ensures seconds >= 1
  {
    var seconds := Ceil(WaitMs(tokens, limit, windowMs) / SECOND_MS as real);
    if seconds > 1 then seconds else 1
  }

  function TakeFrom(existing: Option<Bucket>, at: int, limit: nat, windowMs: nat): (Decision, Bucket)
    requires windowMs > 0 && limit > 0
  {
    var bucket := Refilled(if existing.Some? then existing.value else Bucket(limit as real, at, limit),
                           at, limit, windowMs);
    if bucket.tokens >= 1.0 then (Allowed, bucket.(tokens := bucket.tokens - 1.0))
    else (Refused(RetryAfter(bucket.tokens, limit, windowMs)), bucket)
  }

  type Positive = n: nat | n > 0 witness 1

  function BucketRule(limits: string -> Positive, windowMs: Positive): Rule<Bucket> {
    Rule((bucket: Bucket, at: int) => IsFull(bucket, at, windowMs),
         (existing: Option<Bucket>, call: Call) => TakeFrom(existing, call.at, limits(call.key), windowMs))
  }

  lemma {:induction false} InspectedAlike<T>(entries: seq<Entry<T>>, n: nat, f: T -> bool, g: T -> bool)
    requires forall i | 0 <= i < |entries| :: f(entries[i].value) == g(entries[i].value)
    ensures Inspected(entries, n, f) == Inspected(entries, n, g)
  {
    if n > 0 && entries != [] {
      InspectedAlike(entries[1..], n - 1, f, g);
    }
  }

  /** A call in steps: cold entries judged by `isStale`, the decision taken on what is left, the value put. */
  lemma {:induction false} ServedBySteps<T(!new)>(rule: Rule<T>, entries: seq<Entry<T>>, call: Call, isStale: T -> bool)
    requires forall i | 0 <= i < |entries| :: isStale(entries[i].value) == rule.isStale(entries[i].value, call.at)
    ensures var left := Inspected(entries, COLD_BATCH, isStale);
            var (decision, value) := rule.decide(Find(left, call.key), call);
            Serve(rule, entries, call) == (After(left, call.key, value), decision)
  {
    InspectedAlike(entries, COLD_BATCH, isStale, v => rule.isStale(v, call.at));
  }

  class RateLimiter {
    const windowMs: Positive
    const buckets: RecentMap<Bucket>

    constructor (windowMs: Positive)
      ensures this.windowMs == windowMs && fresh(buckets) && buckets.Valid() && buckets.entries == []
    {
      this.windowMs := windowMs;
      buckets := new RecentMap();
    }

    /** Under whatever budgets the other keys have. */
    method Take(key: string, limit: Positive, at: int, ghost limits: string -> Positive) returns (decision: Decision)
      requires buckets.Valid() && limits(key) == limit
      modifies buckets
      ensures buckets.Valid() && buckets.puts == old(buckets.puts) + [key]
      ensures (buckets.entries, decision) == Serve(BucketRule(limits, windowMs), old(buckets.entries), Call(key, at))
    {
      hide Inspected, After, Find, Serve, Refilled, WaitMs, Ceil;
      var isFull := (bucket: Bucket) => Refilled(bucket, at, bucket.limit, windowMs).tokens >= bucket.limit as real;
      ServedBySteps(BucketRule(limits, windowMs), buckets.entries, Call(key, at), isFull);
      buckets.ForgetCold(isFull);
      var existing := buckets.Get(key);
      var bucket := Refilled(if existing.Some? then existing.value else Bucket(limit as real, at, limit),
                             at, limit, windowMs);
      if bucket.tokens >= 1.0 {
        buckets.Put(key, bucket.(tokens := bucket.tokens - 1.0));
        return Allowed;
      }
      buckets.Put(key, bucket);
      var waitMs := WaitMs(bucket.tokens, limit, windowMs);
      var seconds := Ceil(waitMs / SECOND_MS as real);
      return Refused(if seconds > 1 then seconds else 1);
    }
  }

  // ---------- arithmetic of refilling ----------

  lemma GainAdds(a: int, b: int, limit: nat, windowMs: nat)
    requires windowMs > 0
    ensures Gain(a + b, limit, windowMs) == Gain(a, limit, windowMs) + Gain(b, limit, windowMs)
  {
    assert (a + b) * limit == a * limit + b * limit;
  }

  lemma GainGrows(a: int, limit: nat, windowMs: nat)
    requires windowMs > 0 && a >= 0
    ensures Gain(a, limit, windowMs) >= 0.0 && Gain(0, limit, windowMs) == 0.0
  {
    assert a * limit >= 0;
    NotBelowZero((a * limit) as real, windowMs as real);
  }

  lemma NotBelowZero(x: real, w: real)
    requires x >= 0.0 && w > 0.0
    ensures x / w >= 0.0
  {
  }

  /** Waiting in two parts is waiting once. */
  lemma RefillTwice(bucket: Bucket, t: int, u: int, limit: nat, windowMs: nat)
    requires windowMs > 0 && bucket.refilledAt <= t <= u
    ensures Refilled(Refilled(bucket, t, limit, windowMs), u, limit, windowMs) == Refilled(bucket, u, limit, windowMs)
  {
    hide Gain;
    GainAdds(t - bucket.refilledAt, u - t, limit, windowMs);
    GainGrows(u - t, limit, windowMs);
    GainGrows(0, limit, windowMs);
  }

  /** The wait asked for is exactly the time the missing part of a token takes. */
  lemma WaitIsExact(tokens: real, ms: int, limit: nat, windowMs: nat)
    requires windowMs > 0 && limit > 0
    ensures tokens + Gain(ms, limit, windowMs) >= 1.0 <==> ms as real >= WaitMs(tokens, limit, windowMs)
  {
    var missing := 1.0 - tokens;
    Ratio(missing, ms as real, limit as real, windowMs as real);
    assert (ms * limit) as real == ms as real * limit as real;
  }

  lemma Ratio(missing: real, ms: real, limit: real, window: real)
    requires limit > 0.0 && window > 0.0
    ensures ms * limit / window >= missing <==> ms >= missing * window / limit
  {
    Quotient(ms * limit, missing, window);
    Quotient(missing * window, ms, limit);
  }

  lemma Quotient(a: real, b: real, c: real)
    requires c > 0.0
    ensures (a / c >= b <==> a >= b * c) && (b >= a / c <==> b * c >= a)
  {
    var q := a / c;
    assert q * c == a;
    if q >= b { Product(q - b, c); }
    if q < b { Product(b - q, c); StrictProduct(b - q, c); }
    if b < q { StrictProduct(q - b, c); }
    assert (q - b) * c == a - b * c;
  }

  lemma Product(x: real, c: real)
    requires x >= 0.0 && c > 0.0
    ensures x * c >= 0.0
  {
  }

  lemma StrictProduct(x: real, c: real)
    requires x > 0.0 && c > 0.0
    ensures x * c > 0.0
  {
  }

  lemma RefillStays(bucket: Bucket, t: int, u: int, windowMs: nat)
    requires windowMs > 0 && t <= u && IsFull(bucket, t, windowMs)
    ensures IsFull(bucket, u, windowMs)
  {
    hide Gain;
    var since := if t > bucket.refilledAt then t - bucket.refilledAt else 0;
    var until := if u > bucket.refilledAt then u - bucket.refilledAt else 0;
    GainAdds(since, until - since, bucket.limit, windowMs);
    GainGrows(until - since, bucket.limit, windowMs);
  }

  /** A full bucket and a new one decide alike: forgetting full buckets is lawful. */
  lemma {:induction false} BucketsAreLawful(limits: string -> Positive, windowMs: Positive)
    ensures IsLawful(BucketRule(limits, windowMs), (bucket: Bucket, key: string) => bucket.limit == limits(key))
  {
    var rule, suits := BucketRule(limits, windowMs), (bucket: Bucket, key: string) => bucket.limit == limits(key);
    assert StaleStays(rule) by {
      hide Gain, Refilled;
      forall v, t, u | rule.isStale(v, t) && t <= u
        ensures rule.isStale(v, u)
      {
        RefillStays(v, t, u, windowMs);
      }
    }
    assert StaleIsAsGoodAsNone(rule, suits) by {
      forall v: Bucket, call: Call | rule.isStale(v, call.at) && suits(v, call.key)
        ensures rule.decide(Some(v), call) == rule.decide(None, call)
      {
        FullIsNew(v, call.at, limits(call.key), windowMs);
      }
    }
    assert KeepsSuiting(rule, suits) by {
      forall existing: Option<Bucket>, call: Call
        ensures rule.decide(existing, call).1.limit == limits(call.key)
      {
        TakenLimit(existing, call.at, limits(call.key), windowMs);
      }
    }
  }

  lemma TakenLimit(existing: Option<Bucket>, at: int, limit: Positive, windowMs: Positive)
    ensures TakeFrom(existing, at, limit, windowMs).1.limit == limit
  {
  }

  lemma FullIsNew(bucket: Bucket, at: int, limit: Positive, windowMs: Positive)
    requires IsFull(bucket, at, windowMs) && bucket.limit == limit
    ensures TakeFrom(Some(bucket), at, limit, windowMs) == TakeFrom(None, at, limit, windowMs)
  {
    GainGrows(0, limit, windowMs);
    assert Refilled(bucket, at, limit, windowMs) == Refilled(Bucket(limit as real, at, limit), at, limit, windowMs);
  }

  // ---------- how much a bucket lets through ----------

  /** What a key has to spend at an instant. */
  function Level(memory: map<string, Bucket>, key: string, at: int, limit: nat, windowMs: nat): real
    requires windowMs > 0
  {
    if key in memory then Refilled(memory[key], at, limit, windowMs).tokens else limit as real
  }

  ghost predicate IsSane(memory: map<string, Bucket>, now: int) {
    forall key | key in memory :: memory[key].tokens >= 0.0 && memory[key].refilledAt <= now
  }

  lemma LevelRises(memory: map<string, Bucket>, key: string, t: int, u: int, limit: nat, windowMs: nat)
    requires windowMs > 0 && IsSane(memory, t) && t <= u
    ensures 0.0 <= Level(memory, key, t, limit, windowMs) <= limit as real
    ensures Level(memory, key, u, limit, windowMs)
            <= Level(memory, key, t, limit, windowMs) + Gain(u - t, limit, windowMs)
  {
    hide Gain;
    GainGrows(u - t, limit, windowMs);
    if key in memory {
      var since := memory[key].refilledAt;
      GainGrows(t - since, limit, windowMs);
      GainAdds(t - since, u - t, limit, windowMs);
    }
  }

  /** One call, seen from a key: spent one token, or left its level as it was. */
  lemma LevelAfter(limits: string -> Positive, windowMs: Positive, memory: map<string, Bucket>, call: Call, key: string,
                   u: int)
    requires IsSane(memory, call.at) && call.at <= u
    ensures var (next, decision) := Remember(BucketRule(limits, windowMs), memory, call);
            var limit := limits(key);
            && IsSane(next, call.at)
            && (decision.Allowed? && call.key == key ==>
                  Level(next, key, call.at, limit, windowMs) == Level(memory, key, call.at, limit, windowMs) - 1.0)
            && (decision.Refused? || call.key != key ==>
                  Level(next, key, u, limit, windowMs) == Level(memory, key, u, limit, windowMs))
  {
    hide Gain;
    GainGrows(0, limits(call.key), windowMs);
    GainGrows(u - call.at, limits(call.key), windowMs);
    if call.key in memory {
      GainGrows(call.at - memory[call.key].refilledAt, limits(call.key), windowMs);
      if call.key == key {
        RefillTwice(memory[key], call.at, u, limits(key), windowMs);
      }
    }
  }

  lemma {:induction false} SpendsItsLevel(
    limits: string -> Positive, windowMs: Positive, memory: map<string, Bucket>, now: int, calls: seq<Call>,
    key: string, end: int)
    requires IsSane(memory, now) && IsOrdered(calls) && StartsAfter(calls, now) && now <= end
    requires forall i | 0 <= i < |calls| :: calls[i].at <= end
    ensures CountAllowed(Remembering(BucketRule(limits, windowMs), memory, calls), calls, key) as real
            <= Level(memory, key, now, limits(key), windowMs) + Gain(end - now, limits(key), windowMs)
    decreases |calls|
  {
    hide Gain, Level, Remember, IsSane;
    var rule, limit := BucketRule(limits, windowMs), limits(key);
    LevelRises(memory, key, now, if calls == [] then now else calls[0].at, limit, windowMs);
    GainGrows(end - now, limit, windowMs);
    if calls != [] {
      var t := calls[0].at;
      var (next, decision) := Remember(rule, memory, calls[0]);
      SaneLater(memory, now, t);
      LevelAfter(limits, windowMs, memory, calls[0], key, t);
      SpendsItsLevel(limits, windowMs, next, t, calls[1..], key, end);
      GainAdds(t - now, end - t, limit, windowMs);
      assert Remembering(rule, memory, calls)[1..] == Remembering(rule, next, calls[1..]);
    }
  }

  lemma SaneLater(memory: map<string, Bucket>, t: int, u: int)
    requires IsSane(memory, t) && t <= u
    ensures IsSane(memory, u)
  {
  }

  lemma {:induction false} StaysSane(limits: string -> Positive, windowMs: Positive, memory: map<string, Bucket>,
                                     now: int, calls: seq<Call>, later: int)
    requires IsSane(memory, now) && IsOrdered(calls) && StartsAfter(calls, now) && now <= later
    requires forall i | 0 <= i < |calls| :: calls[i].at <= later
    ensures IsSane(Recalled(BucketRule(limits, windowMs), memory, calls), later)
    decreases |calls|
  {
    hide IsSane, Remember;
    SaneLater(memory, now, later);
    if calls != [] {
      SaneLater(memory, now, calls[0].at);
      LevelAfter(limits, windowMs, memory, calls[0], "", calls[0].at);
      StaysSane(limits, windowMs, Remember(BucketRule(limits, windowMs), memory, calls[0]).0, calls[0].at, calls[1..],
                later);
    }
  }

  lemma NothingIsSane(now: int)
    ensures IsSane(map[], now)
  {
  }

  lemma StretchOf(calls: seq<Call>, i: nat, j: nat)
    requires IsOrdered(calls) && i <= j <= |calls|
    ensures IsOrdered(calls[i..j]) && (i < |calls| ==> StartsAfter(calls[i..j], calls[i].at))
    ensures forall k | 0 <= k < j - i :: calls[i..j][k].at <= calls[j - 1].at
    ensures j < |calls| ==> forall k | 0 <= k < j - i :: calls[i..j][k].at <= calls[j].at
  {
  }

  lemma {:induction false} StretchOfRemembering(limits: string -> Positive, windowMs: Positive, calls: seq<Call>,
                                                 key: string, i: nat, j: nat, span: nat)
    requires IsOrdered(calls) && i < j <= |calls| && calls[j - 1].at - calls[i].at <= span
    ensures CountAllowed(Remembering(BucketRule(limits, windowMs), map[], calls)[i..j], calls[i..j], key) as real
            <= limits(key) as real + Gain(span, limits(key), windowMs)
  {
    hide Remembering, IsSane, Level, BucketRule, CountAllowed, Recalled, Gain, IsOrdered;
    var rule, start := BucketRule(limits, windowMs), calls[i].at;
    var memory := Recalled(rule, map[], calls[..i]);
    CutRun(rule, map[], calls, i, j);
    StretchOf(calls, i, j);
    StretchOf(calls, 0, i);
    assert calls[0..i] == calls[..i];
    assert calls[0].at <= start by { StretchOf(calls, 0, i + 1); assert calls[0..i + 1][i] == calls[i]; }
    NothingIsSane(calls[0].at);
    StaysSane(limits, windowMs, map[], calls[0].at, calls[..i], start);
    SpendsItsLevel(limits, windowMs, memory, start, calls[i..j], key, start + span);
    LevelRises(memory, key, start, start, limits(key), windowMs);
  }

  /** Over any run and any stretch of it, a key gets its limit and what the stretch refills, at most. */
  lemma {:induction false} BucketRateIsBounded(limits: string -> Positive, windowMs: Positive, calls: seq<Call>,
                                                key: string, i: nat, j: nat, span: nat)
    requires IsOrdered(calls) && HasFewKeys(calls)
    requires i < j <= |calls| && calls[j - 1].at - calls[i].at <= span
    ensures CountAllowed(Decisions(BucketRule(limits, windowMs), [], calls)[i..j], calls[i..j], key) as real
            <= limits(key) as real + Gain(span, limits(key), windowMs)
  {
    hide IsLawful, Decisions, Remembering, BucketRule, CountAllowed, Gain;
    BucketsAreLawful(limits, windowMs);
    ForgettingIsInvisible(BucketRule(limits, windowMs), (bucket: Bucket, k: string) => bucket.limit == limits(k),
                          calls);
    StretchOfRemembering(limits, windowMs, calls, key, i, j, span);
  }

  lemma {:induction false} RefusalsKeepLevel(
    limits: string -> Positive, windowMs: Positive, memory: map<string, Bucket>, now: int, calls: seq<Call>,
    key: string, u: int)
    requires IsSane(memory, now) && IsOrdered(calls) && StartsAfter(calls, now) && now <= u
    requires forall i | 0 <= i < |calls| :: calls[i].at <= u
    requires AreRefused(Remembering(BucketRule(limits, windowMs), memory, calls), calls, key)
    ensures var later := Recalled(BucketRule(limits, windowMs), memory, calls);
            Level(later, key, u, limits(key), windowMs) == Level(memory, key, u, limits(key), windowMs)
    decreases |calls|
  {
    hide Gain, Level, Remember, IsSane;
    var rule := BucketRule(limits, windowMs);
    if calls != [] {
      var (next, decision) := Remember(rule, memory, calls[0]);
      SaneLater(memory, now, calls[0].at);
      LevelAfter(limits, windowMs, memory, calls[0], key, u);
      var decisions, rest := Remembering(rule, memory, calls), Remembering(rule, next, calls[1..]);
      assert decisions[0] == decision && decisions[1..] == rest;
      assert AreRefused(rest, calls[1..], key) by {
        assert forall k | 0 <= k < |rest| :: rest[k] == decisions[k + 1] && calls[1..][k] == calls[k + 1];
      }
      RefusalsKeepLevel(limits, windowMs, next, calls[0].at, calls[1..], key, u);
    }
  }

  /** The decision at `i` of a run, from what is remembered of the calls before it. */
  lemma {:induction false} DecisionAt<T(!new)>(rule: Rule<T>, memory: map<string, T>, calls: seq<Call>, i: nat)
    requires i < |calls|
    ensures Remembering(rule, memory, calls)[i] == Remember(rule, Recalled(rule, memory, calls[..i]), calls[i]).1
    ensures Recalled(rule, memory, calls[..i + 1]) == Remember(rule, Recalled(rule, memory, calls[..i]), calls[i]).0
    decreases i
  {
    if i > 0 {
      var next := Remember(rule, memory, calls[0]).0;
      DecisionAt(rule, next, calls[1..], i - 1);
      assert calls[..i][1..] == calls[1..][..i - 1] && calls[..i + 1][1..] == calls[1..][..i];
    } else {
      assert calls[..0] == [] && calls[..1] == [calls[0]] && calls[..1][1..] == [];
    }
  }

  lemma {:induction false} RecalledTwice<T(!new)>(rule: Rule<T>, memory: map<string, T>, calls: seq<Call>, i: nat,
                                           j: nat)
    requires i <= j <= |calls|
    ensures Recalled(rule, memory, calls[..j]) == Recalled(rule, Recalled(rule, memory, calls[..i]), calls[i..j])
    decreases i
  {
    if i > 0 {
      RecalledTwice(rule, Remember(rule, memory, calls[0]).0, calls[1..], i - 1, j - 1);
      assert calls[..j][1..] == calls[1..][..j - 1] && calls[..i][1..] == calls[1..][..i - 1];
      assert calls[i..j] == calls[1..][i - 1..j - 1];
    } else {
      assert calls[..0] == [] && calls[0..j] == calls[..j];
    }
  }

  /** A bucket that refused at `t` with this many tokens decides the next call by the wait alone. */
  lemma WaitDecides(memory: map<string, Bucket>, key: string, tokens: real, t: int, u: int, limits: string -> Positive,
                    windowMs: Positive)
    requires tokens < 1.0 && t <= u
    requires Level(memory, key, u, limits(key), windowMs)
             == Refilled(Bucket(tokens, t, limits(key)), u, limits(key), windowMs).tokens
    ensures Remember(BucketRule(limits, windowMs), memory, Call(key, u)).1.Allowed?
            <==> (u - t) as real >= WaitMs(tokens, limits(key), windowMs)
  {
    WaitIsExact(tokens, u - t, limits(key), windowMs);
    GainGrows(0, limits(key), windowMs);
  }

  lemma RetryCoversWait(tokens: real, ms: int, limit: Positive, windowMs: Positive)
    ensures var r := RetryAfter(tokens, limit, windowMs);
            && (ms >= SECOND_MS * r ==> ms as real >= WaitMs(tokens, limit, windowMs))
            && (r > 1 && ms <= SECOND_MS * (r - 1) ==> (ms as real) < WaitMs(tokens, limit, windowMs))
  {
  }

  /** After a refusal, and whatever refused calls come between: a retry at the seconds named is allowed, and where that
      is more than one, a retry a second earlier is refused. */
  lemma {:induction false} BucketRetryIsExact(limits: string -> Positive, windowMs: Positive, calls: seq<Call>,
                                              key: string, i: nat, j: nat)
    requires IsOrdered(calls) && HasFewKeys(calls)
    requires i < j < |calls| && calls[i].key == key == calls[j].key
    requires var decisions := Decisions(BucketRule(limits, windowMs), [], calls);
             decisions[i].Refused? && AreRefused(decisions[i + 1..j], calls[i + 1..j], key)
    ensures var decisions := Decisions(BucketRule(limits, windowMs), [], calls);
            var (t, u, r) := (calls[i].at, calls[j].at, decisions[i].retryAfterSeconds);
            && (u >= t + SECOND_MS * r ==> decisions[j].Allowed?)
            && (r > 1 && u <= t + SECOND_MS * (r - 1) ==> decisions[j].Refused?)
  {
    hide IsLawful, Decisions, Remembering, IsSane, Level, BucketRule, AreRefused, WaitMs, RetryAfter, Remember;
    var rule := BucketRule(limits, windowMs);
    BucketsAreLawful(limits, windowMs);
    ForgettingIsInvisible(rule, (bucket: Bucket, k: string) => bucket.limit == limits(k), calls);
    var t, u := calls[i].at, calls[j].at;
    NothingIsSane(calls[0].at);
    StaysSane(limits, windowMs, map[], calls[0].at, calls[..i], t);
    var before := Recalled(rule, map[], calls[..i]);
    DecisionAt(rule, map[], calls, i);
    var after := Recalled(rule, map[], calls[..i + 1]);
    var tokens := RefusedWith(limits, windowMs, before, key, t, u);
    CutRun(rule, map[], calls, i + 1, j);
    RefusalsKeepLevel(limits, windowMs, after, t, calls[i + 1..j], key, u);
    RecalledTwice(rule, map[], calls, i + 1, j);
    DecisionAt(rule, map[], calls, j);
    WaitDecides(Recalled(rule, map[], calls[..j]), key, tokens, t, u, limits, windowMs);
    RetryCoversWait(tokens, u - t, limits(key), windowMs);
    assert calls[i] == Call(key, t) && calls[j] == Call(key, u);
  }

  lemma RefusedWith(limits: string -> Positive, windowMs: Positive, memory: map<string, Bucket>, key: string, t: int,
                    u: int)
    returns (tokens: real)
    requires IsSane(memory, t) && t <= u
    requires Remember(BucketRule(limits, windowMs), memory, Call(key, t)).1.Refused?
    ensures var (next, decision) := Remember(BucketRule(limits, windowMs), memory, Call(key, t));
            && tokens < 1.0 && decision == Refused(RetryAfter(tokens, limits(key), windowMs)) && IsSane(next, t)
            && Level(next, key, u, limits(key), windowMs)
               == Refilled(Bucket(tokens, t, limits(key)), u, limits(key), windowMs).tokens
  {
    LevelAfter(limits, windowMs, memory, Call(key, t), key, u);
    tokens := Remember(BucketRule(limits, windowMs), memory, Call(key, t)).0[key].tokens;
  }

  // ---------- fixed window ----------

  datatype Window = Window(startedAt: int, count: nat)

  predicate IsLive(window: Window, now: int, windowMs: nat) {
    window.startedAt + windowMs > now
  }

  /** Whole seconds that cover a span. */
  function CeilSeconds(ms: int): (n: int)
    ensures ms <= SECOND_MS * n < ms + SECOND_MS
  {
    -((-ms) / SECOND_MS)
  }

  function HitOn(existing: Option<Window>, now: int, limit: Positive, windowMs: Positive): (Decision, Window) {
    var current := if existing.Some? && IsLive(existing.value, now, windowMs) then existing.value else Window(now, 0);
    var counted := current.(count := current.count + 1);
    if counted.count <= limit then (Allowed, counted)
    else (Refused(CeilSeconds(counted.startedAt + windowMs - now)), counted)
  }

  function WindowRule(limit: Positive, windowMs: Positive): Rule<Window> {
    Rule((window: Window, now: int) => !IsLive(window, now, windowMs),
         (existing: Option<Window>, call: Call) => HitOn(existing, call.at, limit, windowMs))
  }

  class FixedWindowRateLimiter {
    const limit: Positive
    const windowMs: Positive
    const windows: RecentMap<Window>

    constructor (limit: Positive, windowMs: Positive)
      ensures this.limit == limit && this.windowMs == windowMs
      ensures fresh(windows) && windows.Valid() && windows.entries == []
    {
      this.limit, this.windowMs := limit, windowMs;
      windows := new RecentMap();
    }

    method Hit(key: string, now: int) returns (decision: Decision)
      requires windows.Valid()
      modifies windows
      ensures windows.Valid() && windows.puts == old(windows.puts) + [key]
      ensures (windows.entries, decision) == Serve(WindowRule(limit, windowMs), old(windows.entries), Call(key, now))
    {
      hide Inspected, After, Find, Serve;
      var isOver := (window: Window) => !IsLive(window, now, windowMs);
      ServedBySteps(WindowRule(limit, windowMs), windows.entries, Call(key, now), isOver);
      windows.ForgetCold(isOver);
      var existing := windows.Get(key);
      var current := if existing.Some? && IsLive(existing.value, now, windowMs) then existing.value else Window(now, 0);
      current := current.(count := current.count + 1);
      windows.Put(key, current);
      if current.count <= limit {
        return Allowed;
      }
      var retryAfterMs := current.startedAt + windowMs - now;
      return Refused(CeilSeconds(retryAfterMs));
    }
  }

  lemma {:induction false} WindowsAreLawful(limit: Positive, windowMs: Positive)
    ensures IsLawful(WindowRule(limit, windowMs), (window: Window, key: string) => true)
  {
    var rule, suits := WindowRule(limit, windowMs), (window: Window, key: string) => true;
    assert StaleStays(rule);
    assert StaleIsAsGoodAsNone(rule, suits) by {
      forall v: Window, call: Call | rule.isStale(v, call.at)
        ensures rule.decide(Some(v), call) == rule.decide(None, call)
      {
      }
    }
    assert KeepsSuiting(rule, suits) by {
      hide HitOn;
    }
  }

  lemma CountStep(decisions: seq<Decision>, calls: seq<Call>, key: string, decision: Decision, rest: seq<Decision>)
    requires |decisions| == |calls| && calls != [] && decisions == [decision] + rest
    ensures CountAllowed(decisions, calls, key)
            == (if calls[0].key == key && decision.Allowed? then 1 else 0) + CountAllowed(rest, calls[1..], key)
  {
    assert decisions[1..] == rest;
  }

  /** While one window lasts, it lets through what is left of it. */
  lemma {:induction false} WithinOneWindow(limit: Positive, windowMs: Positive, memory: map<string, Window>,
                                           calls: seq<Call>, key: string)
    requires key in memory && forall i | 0 <= i < |calls| :: IsLive(memory[key], calls[i].at, windowMs)
    ensures var left := limit - memory[key].count;
            CountAllowed(Remembering(WindowRule(limit, windowMs), memory, calls), calls, key)
            <= if left > 0 then left else 0
    decreases |calls|
  {
    if calls != [] {
      var rule := WindowRule(limit, windowMs);
      var (next, decision) := Remember(rule, memory, calls[0]);
      assert key in next && next[key].startedAt == memory[key].startedAt;
      WithinOneWindow(limit, windowMs, next, calls[1..], key);
      CountStep(Remembering(rule, memory, calls), calls, key, decision, Remembering(rule, next, calls[1..]));
    }
  }

  /** What is left of a window still open. */
  function Left(memory: map<string, Window>, key: string, now: int, limit: nat, windowMs: nat): nat {
    if key in memory && IsLive(memory[key], now, windowMs) && memory[key].count < limit then limit - memory[key].count
    else 0
  }

  lemma {:induction false} AcrossTwoWindows(limit: Positive, windowMs: Positive, memory: map<string, Window>, now: int,
                                            calls: seq<Call>, key: string)
    requires IsOrdered(calls) && StartsAfter(calls, now)
    requires forall i | 0 <= i < |calls| :: calls[i].at < now + windowMs
    ensures CountAllowed(Remembering(WindowRule(limit, windowMs), memory, calls), calls, key)
            <= Left(memory, key, now, limit, windowMs) + limit
    decreases |calls|
  {
    if calls != [] {
      var rule, t := WindowRule(limit, windowMs), calls[0].at;
      var (next, decision) := Remember(rule, memory, calls[0]);
      CountStep(Remembering(rule, memory, calls), calls, key, decision, Remembering(rule, next, calls[1..]));
      if calls[0].key == key && !(key in memory && IsLive(memory[key], t, windowMs)) {
        assert next[key] == Window(t, 1);
        WithinOneWindow(limit, windowMs, next, calls[1..], key);
      } else {
        AcrossTwoWindows(limit, windowMs, next, t, calls[1..], key);
      }
    }
  }

  /** No stretch shorter than a window lets through more than two windows' worth. */
  lemma {:induction false} WindowRateIsBounded(limit: Positive, windowMs: Positive, calls: seq<Call>, key: string,
                                               i: nat, j: nat)
    requires IsOrdered(calls) && HasFewKeys(calls)
    requires i < j <= |calls| && calls[j - 1].at - calls[i].at < windowMs
    ensures CountAllowed(Decisions(WindowRule(limit, windowMs), [], calls)[i..j], calls[i..j], key) <= 2 * limit
  {
    hide IsLawful, Decisions, Remembering, WindowRule, CountAllowed;
    var rule := WindowRule(limit, windowMs);
    WindowsAreLawful(limit, windowMs);
    ForgettingIsInvisible(rule, (window: Window, k: string) => true, calls);
    CutRun(rule, map[], calls, i, j);
    AcrossTwoWindows(limit, windowMs, Recalled(rule, map[], calls[..i]), calls[i].at, calls[i..j], key);
  }

  lemma {:induction false} RefusalsKeepWindow(limit: Positive, windowMs: Positive, memory: map<string, Window>,
                                              calls: seq<Call>, key: string)
    requires key in memory && memory[key].count > limit
    requires AreRefused(Remembering(WindowRule(limit, windowMs), memory, calls), calls, key)
    ensures var later := Recalled(WindowRule(limit, windowMs), memory, calls);
            key in later && later[key].startedAt == memory[key].startedAt && later[key].count > limit
    decreases |calls|
  {
    if calls != [] {
      var rule := WindowRule(limit, windowMs);
      var (next, decision) := Remember(rule, memory, calls[0]);
      var decisions, rest := Remembering(rule, memory, calls), Remembering(rule, next, calls[1..]);
      assert decisions[0] == decision && decisions[1..] == rest;
      assert AreRefused(rest, calls[1..], key) by {
        assert forall k | 0 <= k < |rest| :: rest[k] == decisions[k + 1] && calls[1..][k] == calls[k + 1];
      }
      RefusalsKeepWindow(limit, windowMs, next, calls[1..], key);
    }
  }

  lemma WindowRefusedWith(limit: Positive, windowMs: Positive, memory: map<string, Window>, key: string, t: int)
    requires Remember(WindowRule(limit, windowMs), memory, Call(key, t)).1.Refused?
    ensures var (next, decision) := Remember(WindowRule(limit, windowMs), memory, Call(key, t));
            && key in next && next[key].count > limit
            && SECOND_MS * (decision.retryAfterSeconds - 1) < next[key].startedAt + windowMs - t
               <= SECOND_MS * decision.retryAfterSeconds
            && decision.retryAfterSeconds >= 1
  {
  }

  lemma WindowDecides(limit: Positive, windowMs: Positive, memory: map<string, Window>, key: string, u: int)
    requires key in memory && memory[key].count > limit
    ensures Remember(WindowRule(limit, windowMs), memory, Call(key, u)).1.Allowed?
            <==> memory[key].startedAt + windowMs <= u
  {
  }

  /** As for the bucket, and here a second earlier is always too early. */
  lemma {:induction false} WindowRetryIsExact(limit: Positive, windowMs: Positive, calls: seq<Call>, key: string,
                                              i: nat, j: nat)
    requires IsOrdered(calls) && HasFewKeys(calls)
    requires i < j < |calls| && calls[i].key == key == calls[j].key
    requires var decisions := Decisions(WindowRule(limit, windowMs), [], calls);
             decisions[i].Refused? && AreRefused(decisions[i + 1..j], calls[i + 1..j], key)
    ensures var decisions := Decisions(WindowRule(limit, windowMs), [], calls);
            var (t, u, r) := (calls[i].at, calls[j].at, decisions[i].retryAfterSeconds);
            && r >= 1
            && (u >= t + SECOND_MS * r ==> decisions[j].Allowed?)
            && (u <= t + SECOND_MS * (r - 1) ==> decisions[j].Refused?)
  {
    hide IsLawful, Decisions, Remembering, AreRefused, Recalled, Remember, WindowRule;
    var rule := WindowRule(limit, windowMs);
    WindowsAreLawful(limit, windowMs);
    ForgettingIsInvisible(rule, (window: Window, k: string) => true, calls);
    DecisionAt(rule, map[], calls, i);
    assert calls[i] == Call(key, calls[i].at) && calls[j] == Call(key, calls[j].at);
    WindowRefusedWith(limit, windowMs, Recalled(rule, map[], calls[..i]), key, calls[i].at);
    var after := Recalled(rule, map[], calls[..i + 1]);
    CutRun(rule, map[], calls, i + 1, j);
    RefusalsKeepWindow(limit, windowMs, after, calls[i + 1..j], key);
    RecalledTwice(rule, map[], calls, i + 1, j);
    DecisionAt(rule, map[], calls, j);
    WindowDecides(limit, windowMs, Recalled(rule, map[], calls[..j]), key, calls[j].at);
  }
}
