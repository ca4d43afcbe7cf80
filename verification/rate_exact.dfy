/** Exactly which calls the two limiters let through, told from the earlier calls alone. */
module RateExactness {
  import opened RateLimits
  import opened RecentMaps
  import opened Sequences
  import opened Wrappers

  // ---------- fixed window ----------

  /** The call that opened the window a key is in after its first `n` calls. */
  function Opener(calls: seq<Call>, key: string, windowMs: nat, n: nat): (opener: Option<nat>)
    requires n <= |calls|
    ensures opener.Some? ==> opener.value < n && calls[opener.value].key == key
  {
    if n == 0 then None
    else
      var before := Opener(calls, key, windowMs, n - 1);
      if calls[n - 1].key != key then before
      else if before.Some? && calls[n - 1].at < calls[before.value].at + windowMs then before
      else Some(n - 1)
  }

  /** The calls of a key from `from` on, before `to`. */
  function Hits(calls: seq<Call>, key: string, from: nat, to: nat): nat
    requires from <= to <= |calls|
  {
    if from == to then 0 else Hits(calls, key, from, to - 1) + if calls[to - 1].key == key then 1 else 0
  }

  /** What is remembered of a key is where its window began and the hits since. */
  lemma {:induction false} WindowRemembers(limit: Positive, windowMs: Positive, calls: seq<Call>, key: string, n: nat)
    requires n <= |calls|
    ensures Recall(Recalled(WindowRule(limit, windowMs), map[], calls[..n]), key)
            == var opener := Opener(calls, key, windowMs, n);
               if opener.None? then None
               else Some(Window(calls[opener.value].at, Hits(calls, key, opener.value, n)))
  {
    if n > 0 {
      WindowRemembers(limit, windowMs, calls, key, n - 1);
      DecisionAt(WindowRule(limit, windowMs), map[], calls, n - 1);
    } else {
      assert calls[..0] == [];
    }
  }

  lemma {:induction false} WindowDecision(limit: Positive, windowMs: Positive, memory: map<string, Window>, call: Call)
    ensures var decision := Remember(WindowRule(limit, windowMs), memory, call).1;
            var before := Recall(memory, call.key);
            var (start, count) := if before.Some? && call.at < before.value.startedAt + windowMs
                                  then (before.value.startedAt, before.value.count + 1) else (call.at, 1);
            && (decision.Allowed? <==> count <= limit)
            && (decision.Refused? ==> decision.retryAfterSeconds == CeilSeconds(start + windowMs - call.at))
  {
  }

  /** A hit is allowed exactly when it is among the first `limit` of its window; one opens a window when the last is
      over; a refused one is told the whole seconds to that window's end. */
  lemma {:induction false} WindowDecidesExactly(limit: Positive, windowMs: Positive, calls: seq<Call>, j: nat)
    requires IsOrdered(calls) && HasFewKeys(calls) && j < |calls|
    ensures Opener(calls, calls[j].key, windowMs, j + 1).Some?
    ensures var decision := Decisions(WindowRule(limit, windowMs), [], calls)[j];
            var opener := Opener(calls, calls[j].key, windowMs, j + 1).value;
            var left := calls[opener].at + windowMs - calls[j].at;
            && (decision.Allowed? <==> Hits(calls, calls[j].key, opener, j + 1) <= limit)
            && (decision.Refused? ==>
                  1000 * (decision.retryAfterSeconds - 1) < left <= 1000 * decision.retryAfterSeconds)
  {
    var rule, key := WindowRule(limit, windowMs), calls[j].key;
    WindowsAreLawful(limit, windowMs);
    ForgettingIsInvisible(rule, (window: Window, k: string) => true, calls);
    DecisionAt(rule, map[], calls, j);
    WindowRemembers(limit, windowMs, calls, key, j);
    hide IsLawful, Decisions, Remembering, Recalled, WindowRule, Remember;
    WindowDecision(limit, windowMs, Recalled(rule, map[], calls[..j]), calls[j]);
  }

  lemma OpenerIsRecent(calls: seq<Call>, key: string, windowMs: Positive, n: nat)
    requires IsOrdered(calls) && 0 < n <= |calls| && calls[n - 1].key == key
    ensures var opener := Opener(calls, key, windowMs, n);
            opener.Some? && calls[n - 1].at - windowMs < calls[opener.value].at
  {
  }

  /** The hits of a key that came less than a window before call `j`, itself included. */
  function RecentHits(calls: seq<Call>, j: nat, windowMs: nat, n: nat): nat
    requires j < |calls| && n <= |calls|
  {
    if n == 0 then 0
    else RecentHits(calls, j, windowMs, n - 1)
         + if calls[n - 1].key == calls[j].key && calls[j].at - windowMs < calls[n - 1].at then 1 else 0
  }

  lemma {:induction false} HitsAreRecent(calls: seq<Call>, j: nat, windowMs: nat, from: nat, n: nat)
    requires IsOrdered(calls) && from <= n <= j + 1 <= |calls|
    requires from < |calls| && calls[j].at - windowMs < calls[from].at
    ensures Hits(calls, calls[j].key, from, n) <= RecentHits(calls, j, windowMs, n)
  {
    if from < n {
      HitsAreRecent(calls, j, windowMs, from, n - 1);
    }
  }

  /** A refusal is earned: more than `limit` hits of the key, this one included, came within one window's length. */
  lemma {:induction false} RefusalIsEarned(limit: Positive, windowMs: Positive, calls: seq<Call>, j: nat)
    requires IsOrdered(calls) && HasFewKeys(calls) && j < |calls|
    ensures Decisions(WindowRule(limit, windowMs), [], calls)[j].Refused? ==>
              RecentHits(calls, j, windowMs, j + 1) > limit
  {
    WindowDecidesExactly(limit, windowMs, calls, j);
    OpenerIsRecent(calls, calls[j].key, windowMs, j + 1);
    HitsAreRecent(calls, j, windowMs, Opener(calls, calls[j].key, windowMs, j + 1).value, j + 1);
  }

  // ---------- token bucket ----------

  /** Some stretch that began with a full bucket, or the whole run, tells the level by what it refilled and spent. */
  ghost predicate IsTold(decisions: seq<Decision>, calls: seq<Call>, key: string, level: real, limit: nat,
                         windowMs: nat, end: int, i: nat)
    requires |decisions| == |calls| && windowMs > 0 && i <= |calls|
  {
    level == limit as real + Gain(end - (if i < |calls| then calls[i].at else end), limit, windowMs)
             - CountAllowed(decisions[i..], calls[i..], key) as real
  }

  lemma {:induction false} LevelLater(memory: map<string, Bucket>, key: string, t: int, u: int, limit: nat,
                                      windowMs: nat)
    requires windowMs > 0 && IsSane(memory, t) && t <= u
    ensures var later := Level(memory, key, t, limit, windowMs) + Gain(u - t, limit, windowMs);
            Level(memory, key, u, limit, windowMs) == if later < limit as real then later else limit as real
  {
    hide Gain;
    GainGrows(u - t, limit, windowMs);
    if key in memory {
      var since := memory[key].refilledAt;
      GainGrows(t - since, limit, windowMs);
      GainAdds(t - since, u - t, limit, windowMs);
    }
  }

  lemma {:induction false} LevelIsTold(
    limits: string -> Positive, windowMs: Positive, memory: map<string, Bucket>, now: int, calls: seq<Call>,
    key: string, end: int)
    returns (isFull: bool, i: nat)
    requires IsSane(memory, now) && IsOrdered(calls) && StartsAfter(calls, now) && now <= end
    requires forall k | 0 <= k < |calls| :: calls[k].at <= end
    ensures i <= |calls|
    ensures var rule, limit := BucketRule(limits, windowMs), limits(key);
            var decisions := Remembering(rule, memory, calls);
            var level := Level(Recalled(rule, memory, calls), key, end, limit, windowMs);
            if isFull then IsTold(decisions, calls, key, level, limit, windowMs, end, i)
            else level == Level(memory, key, now, limit, windowMs) + Gain(end - now, limit, windowMs)
                          - CountAllowed(decisions, calls, key) as real
    decreases |calls|
  {
    var rule, limit := BucketRule(limits, windowMs), limits(key);
    if calls == [] {
      LevelLater(memory, key, now, end, limit, windowMs);
      GainGrows(end - now, limit, windowMs);
      i := 0;
      isFull := Level(memory, key, now, limit, windowMs) + Gain(end - now, limit, windowMs) >= limit as real;
    } else {
      hide Gain, Level, Remember, IsSane;
      var t := calls[0].at;
      var (next, decision) := Remember(rule, memory, calls[0]);
      SaneLater(memory, now, t);
      LevelLater(memory, key, now, t, limit, windowMs);
      LevelAfter(limits, windowMs, memory, calls[0], key, t);
      isFull, i := LevelIsTold(limits, windowMs, next, t, calls[1..], key, end);
      hide Recalled, Remembering, CountAllowed, BucketRule;
      var decisions, rest := Remembering(rule, memory, calls), Remembering(rule, next, calls[1..]);
      RememberedFirst(rule, memory, calls);
      CountFirst(decision, rest, calls, key);
      var level := Level(Recalled(rule, memory, calls), key, end, limit, windowMs);
      if isFull {
        ToldLater(decision, rest, calls, key, level, limit, windowMs, end, i);
        i := i + 1;
      } else {
        GainAdds(t - now, end - t, limit, windowMs);
        assert decisions[0..] == decisions && calls[0..] == calls;
        i := 0;
        isFull := Level(memory, key, now, limit, windowMs) + Gain(t - now, limit, windowMs) >= limit as real;
      }
    }
  }

  lemma RememberedFirst(rule: Rule<Bucket>, memory: map<string, Bucket>, calls: seq<Call>)
    requires calls != []
    ensures var (next, decision) := Remember(rule, memory, calls[0]);
            && Remembering(rule, memory, calls) == [decision] + Remembering(rule, next, calls[1..])
            && Recalled(rule, memory, calls) == Recalled(rule, next, calls[1..])
  {
  }

  lemma CountFirst(decision: Decision, rest: seq<Decision>, calls: seq<Call>, key: string)
    requires calls != [] && |rest| == |calls| - 1
    ensures CountAllowed([decision] + rest, calls, key)
            == (if calls[0].key == key && decision.Allowed? then 1 else 0) + CountAllowed(rest, calls[1..], key)
  {
    Prepend(decision, rest);
  }

  lemma ToldLater(decision: Decision, rest: seq<Decision>, calls: seq<Call>, key: string, level: real, limit: nat,
                  windowMs: Positive, end: int, i: nat)
    requires calls != [] && |rest| == |calls| - 1 && i <= |rest|
    requires IsTold(rest, calls[1..], key, level, limit, windowMs, end, i)
    ensures IsTold([decision] + rest, calls, key, level, limit, windowMs, end, i + 1)
  {
    assert ([decision] + rest)[i + 1..] == rest[i..] && calls[i + 1..] == calls[1..][i..];
  }

  lemma {:induction false} BucketDecision(limits: string -> Positive, windowMs: Positive, memory: map<string, Bucket>,
                                          call: Call)
    ensures Remember(BucketRule(limits, windowMs), memory, call).1.Allowed?
            <==> Level(memory, call.key, call.at, limits(call.key), windowMs) >= 1.0
  {
    GainGrows(0, limits(call.key), windowMs);
  }

  lemma {:induction false} CountOneMore(decisions: seq<Decision>, calls: seq<Call>, key: string, i: nat, j: nat)
    requires |decisions| == |calls| && i <= j < |calls|
    ensures CountAllowed(decisions[i..j + 1], calls[i..j + 1], key)
            == CountAllowed(decisions[i..j], calls[i..j], key)
               + if calls[j].key == key && decisions[j].Allowed? then 1 else 0
    decreases j - i
  {
    if i < j {
      CountOneMore(decisions, calls, key, i + 1, j);
      assert decisions[i..j + 1][1..] == decisions[i + 1..j + 1] && decisions[i..j][1..] == decisions[i + 1..j];
      assert calls[i..j + 1][1..] == calls[i + 1..j + 1] && calls[i..j][1..] == calls[i + 1..j];
    }
  }

  /** With call `j` let through, the stretch from `i` on stays within the limit and what it refilled. */
  ghost predicate Fits(decisions: seq<Decision>, calls: seq<Call>, limit: nat, windowMs: nat, i: nat, j: nat)
    requires |decisions| == |calls| && windowMs > 0 && i <= j < |calls|
  {
    CountAllowed(decisions[i..j], calls[i..j], calls[j].key) as real + 1.0
    <= limit as real + Gain(calls[j].at - calls[i].at, limit, windowMs)
  }

  /** A call is refused only where letting it through would exceed the rate over some stretch, and always then. */
  lemma {:induction false} BucketDecidesExactly(limits: string -> Positive, windowMs: Positive, calls: seq<Call>,
                                                j: nat)
    requires IsOrdered(calls) && HasFewKeys(calls) && j < |calls|
    ensures var decisions := Decisions(BucketRule(limits, windowMs), [], calls);
            decisions[j].Allowed? <==>
              forall i | 0 <= i <= j :: Fits(decisions, calls, limits(calls[j].key), windowMs, i, j)
  {
    var decisions := Decisions(BucketRule(limits, windowMs), [], calls);
    if decisions[j].Allowed? {
      forall i | 0 <= i <= j
        ensures Fits(decisions, calls, limits(calls[j].key), windowMs, i, j)
      {
        hide Decisions, Gain, CountAllowed;
        BucketRateIsBounded(limits, windowMs, calls, calls[j].key, i, j + 1, calls[j].at - calls[i].at);
        CountOneMore(decisions, calls, calls[j].key, i, j);
      }
    } else {
      var i := RefusalOverruns(limits, windowMs, calls, j);
    }
  }

  lemma {:induction false} RefusalOverruns(limits: string -> Positive, windowMs: Positive, calls: seq<Call>, j: nat)
    returns (i: nat)
    requires IsOrdered(calls) && HasFewKeys(calls) && j < |calls|
    requires Decisions(BucketRule(limits, windowMs), [], calls)[j].Refused?
    ensures i <= j
    ensures !Fits(Decisions(BucketRule(limits, windowMs), [], calls), calls, limits(calls[j].key), windowMs, i, j)
  {
    hide IsLawful, Decisions, Remembering, Recalled, BucketRule, Remember, Gain, Level, CountAllowed, IsTold, Fits;
    hide IsOrdered;
    var rule, key, end := BucketRule(limits, windowMs), calls[j].key, calls[j].at;
    BucketsAreLawful(limits, windowMs);
    ForgettingIsInvisible(rule, (bucket: Bucket, k: string) => bucket.limit == limits(k), calls);
    DecisionAt(rule, map[], calls, j);
    BucketDecision(limits, windowMs, Recalled(rule, map[], calls[..j]), calls[j]);
    i := LevelToldOfRun(limits, windowMs, calls, j, key);
    CutEnd(rule, map[], calls, j);
    ToldOverruns(Remembering(rule, map[], calls), calls, limits(key), windowMs, i, j,
                 Level(Recalled(rule, map[], calls[..j]), key, end, limits(key), windowMs));
  }

  lemma ToldOverruns(decisions: seq<Decision>, calls: seq<Call>, limit: nat, windowMs: Positive, i: nat, j: nat,
                     level: real)
    requires |decisions| == |calls| && i <= j < |calls| && level < 1.0
    requires IsTold(decisions[..j], calls[..j], calls[j].key, level, limit, windowMs, calls[j].at, i)
    ensures !Fits(decisions, calls, limit, windowMs, i, j)
  {
    hide CountAllowed, Gain;
    assert decisions[..j][i..] == decisions[i..j] && calls[..j][i..] == calls[i..j];
  }

  /** The level call `j` finds, told from the beginning of the run or a later full bucket. */
  lemma LevelToldOfRun(limits: string -> Positive, windowMs: Positive, calls: seq<Call>, j: nat, key: string)
    returns (i: nat)
    requires IsOrdered(calls) && j < |calls|
    ensures i <= j
    ensures var rule := BucketRule(limits, windowMs);
            IsTold(Remembering(rule, map[], calls[..j]), calls[..j], key,
                   Level(Recalled(rule, map[], calls[..j]), key, calls[j].at, limits(key), windowMs), limits(key),
                   windowMs, calls[j].at, i)
  {
    hide Remembering, Recalled, BucketRule, Gain, Level, CountAllowed;
    var start := calls[0].at;
    StretchOf(calls, 0, j);
    assert calls[0..j] == calls[..j];
    NothingIsSane(start);
    var isFull;
    isFull, i := LevelIsTold(limits, windowMs, map[], start, calls[..j], key, calls[j].at);
    if !isFull {
      i := 0;
      NewLevel(key, start, limits(key), windowMs);
      var decisions := Remembering(BucketRule(limits, windowMs), map[], calls[..j]);
      assert decisions[0..] == decisions && calls[..j][0..] == calls[..j];
      assert j > 0 ==> calls[..j][0] == calls[0];
    }
  }

  lemma NewLevel(key: string, at: int, limit: nat, windowMs: Positive)
    ensures Level(map[], key, at, limit, windowMs) == limit as real
  {
  }
}
