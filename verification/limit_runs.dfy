/** Whole runs of the four limits: exactly which calls are admitted, told from the calls before. */
module LimitRuns {
  import opened ActionLimiting
  import opened RateExactness
  import opened RateLimits
  import opened RecentMaps

  // ---------- a bucket that only some attempts reach ----------

  /** One attempt as one bucket sees it. */
  datatype Probe = Probe(reaches: bool, call: Call, decision: Decision)

  function CallsOf(lane: seq<Probe>): seq<Call> {
    if lane == [] then []
    else CallsOf(lane[..|lane| - 1]) + if lane[|lane| - 1].reaches then [lane[|lane| - 1].call] else []
  }

  function DecisionsOf(lane: seq<Probe>): (decisions: seq<Decision>)
    ensures |decisions| == |CallsOf(lane)|
  {
    if lane == [] then []
    else DecisionsOf(lane[..|lane| - 1]) + if lane[|lane| - 1].reaches then [lane[|lane| - 1].decision] else []
  }

  predicate Takes(probe: Probe) {
    probe.reaches && probe.decision.Allowed?
  }

  /** The tokens a key took in the attempts from `i` on, before `j`. */
  function SpentIn(lane: seq<Probe>, key: string, i: nat, j: nat): nat
    requires i <= j <= |lane|
  {
    if i == j then 0
    else SpentIn(lane, key, i, j - 1)
         + if Takes(lane[j - 1]) && lane[j - 1].call.key == key then 1 else 0
  }

  ghost predicate IsServed(limits: string -> Positive, windowMs: Positive, lane: seq<Probe>) {
    Decisions(BucketRule(limits, windowMs), [], CallsOf(lane)) == DecisionsOf(lane)
  }

  predicate IsOrderedLane(lane: seq<Probe>) {
    forall i, j | 0 <= i < j < |lane| :: lane[i].call.at <= lane[j].call.at
  }

  /** Where attempt `i` stands among those that reach the bucket. */
  function Place(lane: seq<Probe>, i: nat): nat
    requires i <= |lane|
  {
    |CallsOf(lane[..i])|
  }

  lemma {:induction false} PlaceHolds(lane: seq<Probe>, i: nat)
    requires i <= |lane|
    ensures Place(lane, i) <= |CallsOf(lane)|
    ensures i < |lane| && lane[i].reaches ==>
              && Place(lane, i + 1) == Place(lane, i) + 1 <= |CallsOf(lane)|
              && CallsOf(lane)[Place(lane, i)] == lane[i].call && DecisionsOf(lane)[Place(lane, i)] == lane[i].decision
    ensures i < |lane| && !lane[i].reaches ==> Place(lane, i + 1) == Place(lane, i)
  {
    if i < |lane| {
      assert lane[..i + 1][..i] == lane[..i];
    }
    if i == |lane| {
      assert lane[..i] == lane;
    } else if i == |lane| - 1 {
      assert lane[..i + 1] == lane;
    } else {
      var front := lane[..|lane| - 1];
      PlaceHolds(front, i);
      assert front[..i] == lane[..i] && front[..i + 1] == lane[..i + 1];
    }
  }

  lemma {:induction false} PlacesAscend(lane: seq<Probe>, i: nat, j: nat)
    requires i <= j <= |lane|
    ensures Place(lane, i) <= Place(lane, j) <= |CallsOf(lane)|
  {
    hide CallsOf;
    PlaceHolds(lane, j);
    if i < j {
      PlacesAscend(lane, i, j - 1);
      PlaceHolds(lane, j - 1);
    }
  }

  lemma {:induction false} SpentIsCounted(limits: string -> Positive, windowMs: Positive, lane: seq<Probe>, key: string,
                                          i: nat, j: nat)
    requires IsServed(limits, windowMs, lane) && i <= j <= |lane|
    ensures Place(lane, i) <= Place(lane, j) <= |CallsOf(lane)|
    ensures var decisions, calls := Decisions(BucketRule(limits, windowMs), [], CallsOf(lane)), CallsOf(lane);
            CountAllowed(decisions[Place(lane, i)..Place(lane, j)], calls[Place(lane, i)..Place(lane, j)], key)
            == SpentIn(lane, key, i, j)
  {
    hide CallsOf, DecisionsOf, Decisions, Place, CountAllowed, BucketRule;
    PlacesAscend(lane, i, j);
    if i == j {
      NothingCounted(Decisions(BucketRule(limits, windowMs), [], CallsOf(lane)), CallsOf(lane), key, Place(lane, i));
    } else {
      SpentIsCounted(limits, windowMs, lane, key, i, j - 1);
      PlaceHolds(lane, j - 1);
      PlacesAscend(lane, i, j - 1);
      if lane[j - 1].reaches {
        CountOneMore(Decisions(BucketRule(limits, windowMs), [], CallsOf(lane)), CallsOf(lane), key, Place(lane, i),
                     Place(lane, j - 1));
      }
    }
  }

  lemma NothingCounted(decisions: seq<Decision>, calls: seq<Call>, key: string, x: nat)
    requires |decisions| == |calls| && x <= |calls|
    ensures CountAllowed(decisions[x..x], calls[x..x], key) == 0
  {
  }

  /** The first attempt from `i` on that reaches the bucket, when `k` does. */
  lemma {:induction false} FirstReaching(lane: seq<Probe>, i: nat, k: nat) returns (first: nat)
    requires i <= k < |lane| && lane[k].reaches
    ensures i <= first <= k && lane[first].reaches && Place(lane, first) == Place(lane, i)
    decreases k - i
  {
    if lane[i].reaches {
      first := i;
    } else {
      PlaceHolds(lane, i);
      first := FirstReaching(lane, i + 1, k);
    }
  }

  lemma {:induction false} AttemptAt(lane: seq<Probe>, n: nat, x: nat) returns (i: nat)
    requires n <= |lane| && x < Place(lane, n)
    ensures i < n && lane[i].reaches && Place(lane, i) == x
  {
    PlaceHolds(lane, n - 1) by { NothingPlaced(lane); }
    if lane[n - 1].reaches && Place(lane, n - 1) == x {
      i := n - 1;
    } else {
      i := AttemptAt(lane, n - 1, x);
    }
  }

  lemma NothingPlaced(lane: seq<Probe>)
    ensures Place(lane, 0) == 0
  {
  }

  lemma {:induction false} CallsAreOrdered(lane: seq<Probe>)
    requires IsOrderedLane(lane)
    ensures IsOrdered(CallsOf(lane))
  {
    var calls := CallsOf(lane);
    WholeLane(lane);
    forall x, y | 0 <= x < y < |calls|
      ensures calls[x].at <= calls[y].at
    {
      hide CallsOf, DecisionsOf, Place;
      var i := AttemptAt(lane, |lane|, x);
      var j := AttemptAt(lane, |lane|, y);
      PlaceHolds(lane, i);
      PlaceHolds(lane, j);
      if j < i {
        PlacesAscend(lane, j, i);
      }
    }
  }

  lemma WholeLane(lane: seq<Probe>)
    ensures Place(lane, |lane|) == |CallsOf(lane)|
  {
    assert lane[..|lane|] == lane;
  }

  /** The stretch from attempt `i` on stays within the rate when `k` takes a token too. */
  predicate StaysWithin(lane: seq<Probe>, limit: nat, i: nat, k: nat)
    requires i <= k < |lane|
  {
    SpentIn(lane, lane[k].call.key, i, k) as real + 1.0
    <= limit as real + ((lane[k].call.at - lane[i].call.at) * limit) as real / 60_000.0
  }

  lemma LongerGains(a: int, b: int, limit: nat, windowMs: Positive)
    requires a <= b
    ensures Gain(a, limit, windowMs) <= Gain(b, limit, windowMs)
  {
    GainGrows(b - a, limit, windowMs);
    GainAdds(a, b - a, limit, windowMs);
  }

  /** An attempt that reaches the bucket takes a token exactly when no stretch of attempts up to it would go over. */
  lemma {:induction false} LaneDecides(limits: string -> Positive, lane: seq<Probe>, k: nat)
    requires IsServed(limits, 60_000, lane) && IsOrderedLane(lane) && HasFewKeys(CallsOf(lane))
    requires k < |lane| && lane[k].reaches
    ensures Takes(lane[k]) <==> forall i | 0 <= i <= k :: StaysWithin(lane, limits(lane[k].call.key), i, k)
  {
    var calls, decisions := CallsOf(lane), Decisions(BucketRule(limits, 60_000), [], CallsOf(lane));
    var x, limit := Place(lane, k), limits(lane[k].call.key);
    CallsAreOrdered(lane);
    PlaceHolds(lane, k);
    hide CallsOf, DecisionsOf, Decisions, Place, IsOrdered, HasFewKeys, Gain;
    BucketDecidesExactly(limits, 60_000, calls, x);
    if Takes(lane[k]) {
      forall i | 0 <= i <= k
        ensures StaysWithin(lane, limit, i, k)
      {
        StretchWithin(limits, lane, i, k);
      }
    } else {
      var y := RefusalOverruns(limits, 60_000, calls, x);
      StretchOverruns(limits, lane, k, y);
    }
  }

  lemma {:induction false} StretchOverruns(limits: string -> Positive, lane: seq<Probe>, k: nat, y: nat)
    requires IsServed(limits, 60_000, lane) && k < |lane| && lane[k].reaches
    requires y <= Place(lane, k) < |CallsOf(lane)| && CallsOf(lane)[Place(lane, k)] == lane[k].call
    requires !Fits(Decisions(BucketRule(limits, 60_000), [], CallsOf(lane)), CallsOf(lane), limits(lane[k].call.key),
                   60_000, y, Place(lane, k))
    ensures exists i :: 0 <= i <= k && !StaysWithin(lane, limits(lane[k].call.key), i, k)
  {
    hide CallsOf, DecisionsOf, Decisions, Place, Gain, CountAllowed;
    var i := k;
    if y < Place(lane, k) {
      i := AttemptAt(lane, k, y);
    }
    PlaceHolds(lane, i);
    SpentIsCounted(limits, 60_000, lane, lane[k].call.key, i, k);
    GainIs(lane[k].call.at - lane[i].call.at, limits(lane[k].call.key));
    assert !StaysWithin(lane, limits(lane[k].call.key), i, k);
  }

  lemma GainIs(ms: int, limit: nat)
    ensures Gain(ms, limit, 60_000) == (ms * limit) as real / 60_000.0
  {
  }

  lemma {:induction false} StretchWithin(limits: string -> Positive, lane: seq<Probe>, i: nat, k: nat)
    requires IsServed(limits, 60_000, lane) && IsOrderedLane(lane) && i <= k < |lane| && lane[k].reaches
    requires Place(lane, k) < |CallsOf(lane)| && CallsOf(lane)[Place(lane, k)] == lane[k].call
    requires forall y | 0 <= y <= Place(lane, k) ::
               Fits(Decisions(BucketRule(limits, 60_000), [], CallsOf(lane)), CallsOf(lane), limits(lane[k].call.key),
                    60_000, y, Place(lane, k))
    ensures StaysWithin(lane, limits(lane[k].call.key), i, k)
  {
    hide CallsOf, DecisionsOf, Decisions, Place, Gain;
    var limit := limits(lane[k].call.key);
    var first := FirstReaching(lane, i, k);
    PlaceHolds(lane, first);
    PlacesAscend(lane, first, k);
    SpentIsCounted(limits, 60_000, lane, lane[k].call.key, i, k);
    LongerGains(lane[k].call.at - lane[first].call.at, lane[k].call.at - lane[i].call.at, limit, 60_000);
    GainIs(lane[k].call.at - lane[i].call.at, limit);
    assert Fits(Decisions(BucketRule(limits, 60_000), [], CallsOf(lane)), CallsOf(lane), limit, 60_000,
                Place(lane, i), Place(lane, k));
  }

  // ---------- runs of attempts ----------

  /** One attempt, and the admissions given back since the one before, each by the number of its leases. */
  datatype Attempt = Attempt(freed: seq<nat>, key: LimitKey, at: int)

  function FreedOne(l: Limits, n: nat): Limits {
    if n < |l.targetLeases| && n < |l.clientLeases| then
      l.(targetLeases := l.targetLeases[n := l.targetLeases[n].(isReleased := true)],
         clientLeases := l.clientLeases[n := l.clientLeases[n].(isReleased := true)])
    else l
  }

  function Freed(l: Limits, freed: seq<nat>): (after: Limits)
    ensures after.targets == l.targets && after.clients == l.clients
  {
    if freed == [] then l else FreedOne(Freed(l, freed[..|freed| - 1]), freed[|freed| - 1])
  }

  function AfterRun(run: seq<Attempt>, n: nat): Limits
    requires n <= |run|
  {
    if n == 0 then Limits([], [], [], [])
    else Acquired(Freed(AfterRun(run, n - 1), run[n - 1].freed), run[n - 1].key, run[n - 1].at).0
  }

  /** What attempt `k` finds. */
  function Found(run: seq<Attempt>, k: nat): Limits
    requires k < |run|
  {
    Freed(AfterRun(run, k), run[k].freed)
  }

  function Answer(run: seq<Attempt>, k: nat): LimitDecision
    requires k < |run|
  {
    Acquired(Found(run, k), run[k].key, run[k].at).1
  }

  function TargetDecision(run: seq<Attempt>, k: nat): Decision
    requires k < |run|
  {
    Taken(Found(run, k).targets, run[k].key.targetId, run[k].key.targetPerMinute, run[k].at).1
  }

  function ClientDecision(run: seq<Attempt>, k: nat): Decision
    requires k < |run|
  {
    Taken(Found(run, k).clients, run[k].key.clientId, 120, run[k].at).1
  }

  predicate PassesTarget(run: seq<Attempt>, k: nat)
    requires k < |run|
  {
    TargetDecision(run, k).Allowed?
  }

  predicate PassesClient(run: seq<Attempt>, k: nat)
    requires k < |run|
  {
    PassesTarget(run, k) && ClientDecision(run, k).Allowed?
  }

  function TargetLane(run: seq<Attempt>, n: nat): (lane: seq<Probe>)
    requires n <= |run|
    ensures |lane| == n
  {
    seq(n, k requires 0 <= k < n => Probe(true, Call(run[k].key.targetId, run[k].at), TargetDecision(run, k)))
  }

  function ClientLane(run: seq<Attempt>, n: nat): (lane: seq<Probe>)
    requires n <= |run|
    ensures |lane| == n
  {
    seq(n, k requires 0 <= k < n =>
          Probe(PassesTarget(run, k), Call(run[k].key.clientId, run[k].at), ClientDecision(run, k)))
  }

  /** A clock that does not run back, a budget for each target, and no more keys than the limiters remember. */
  ghost predicate IsOrderly(run: seq<Attempt>, budgets: string -> Positive) {
    && (forall i, j | 0 <= i < j < |run| :: run[i].at <= run[j].at)
    && (forall k | 0 <= k < |run| :: run[k].key.targetPerMinute == budgets(run[k].key.targetId))
    && |set k | 0 <= k < |run| :: run[k].key.targetId| <= 10_000
    && |set k | 0 <= k < |run| :: run[k].key.clientId| <= 10_000
  }

  // ---------- the buckets' own runs ----------

  function Entries(rule: Rule<Bucket>, entries: seq<Entry<Bucket>>, calls: seq<Call>): seq<Entry<Bucket>>
    decreases |calls|
  {
    if calls == [] then entries else Entries(rule, Serve(rule, entries, calls[0]).0, calls[1..])
  }

  lemma {:induction false} OneMoreServed(rule: Rule<Bucket>, entries: seq<Entry<Bucket>>, calls: seq<Call>, call: Call)
    ensures Decisions(rule, entries, calls + [call])
            == Decisions(rule, entries, calls) + [Serve(rule, Entries(rule, entries, calls), call).1]
    ensures Entries(rule, entries, calls + [call]) == Serve(rule, Entries(rule, entries, calls), call).0
    decreases |calls|
  {
    hide Serve;
    if calls == [] {
      assert [call][1..] == [] && [] + [call] == [call];
    } else {
      OneMoreServed(rule, Serve(rule, entries, calls[0]).0, calls[1..], call);
      assert (calls + [call])[1..] == calls[1..] + [call];
    }
  }

  /** A bucket taken under one budget is taken as under all of them. */
  lemma TakenUnder(limits: string -> Positive, entries: seq<Entry<Bucket>>, key: string, at: int)
    ensures Taken(entries, key, limits(key), at) == Serve(BucketRule(limits, 60_000), entries, Call(key, at))
  {
    hide Inspected, After, Find, TakeFrom;
    IsAlways(limits(key), key);
    var isFull := (bucket: Bucket) => IsFull(bucket, at, 60_000);
    ServedBySteps(BucketRule(limits, 60_000), entries, Call(key, at), isFull);
    ServedBySteps(BucketRule(Always(limits(key)), 60_000), entries, Call(key, at), isFull);
  }

  lemma LaneGrows(lane: seq<Probe>, last: Probe)
    ensures CallsOf(lane + [last]) == if last.reaches then CallsOf(lane) + [last.call] else CallsOf(lane)
    ensures DecisionsOf(lane + [last])
            == if last.reaches then DecisionsOf(lane) + [last.decision] else DecisionsOf(lane)
  {
    assert (lane + [last])[..|lane|] == lane;
    assert DecisionsOf(lane) + [] == DecisionsOf(lane) && CallsOf(lane) + [] == CallsOf(lane);
  }

  lemma ServedOneMore(limits: string -> Positive, lane: seq<Probe>, last: Probe)
    requires IsServed(limits, 60_000, lane)
    requires last.reaches ==>
               last.decision
               == Serve(BucketRule(limits, 60_000), Entries(BucketRule(limits, 60_000), [], CallsOf(lane)), last.call).1
    ensures IsServed(limits, 60_000, lane + [last])
  {
    hide CallsOf, DecisionsOf, Decisions, Serve, Entries;
    LaneGrows(lane, last);
    OneMoreServed(BucketRule(limits, 60_000), [], CallsOf(lane), last.call);
  }

  function ClientBudget(): string -> Positive {
    Always(120)
  }

  /** What an attempt does to the two bucket maps: the client's is reached only past the target's. */
  lemma AcquiredTakes(l: Limits, key: LimitKey, at: int)
    ensures var (target, after) := (Taken(l.targets, key.targetId, key.targetPerMinute, at), Acquired(l, key, at).0);
            && after.targets == target.0
            && after.clients == if target.1.Allowed? then Taken(l.clients, key.clientId, 120, at).0 else l.clients
  {
    hide Taken, Unreleased;
  }

  predicate IsKept(limits: string -> Positive, lane: seq<Probe>, entries: seq<Entry<Bucket>>) {
    entries == Entries(BucketRule(limits, 60_000), [], CallsOf(lane))
  }

  lemma KeptOneMore(limits: string -> Positive, lane: seq<Probe>, last: Probe, entries: seq<Entry<Bucket>>)
    requires IsServed(limits, 60_000, lane) && IsKept(limits, lane, entries)
    requires last.reaches ==>
               last.decision == Taken(entries, last.call.key, limits(last.call.key), last.call.at).1
    ensures IsServed(limits, 60_000, lane + [last])
    ensures IsKept(limits, lane + [last],
                   if last.reaches then Taken(entries, last.call.key, limits(last.call.key), last.call.at).0
                   else entries)
  {
    hide CallsOf, DecisionsOf, Decisions, Serve, Entries, IsServed, Taken, BucketRule;
    TakenUnder(limits, entries, last.call.key, last.call.at);
    assert last.call == Call(last.call.key, last.call.at);
    ServedOneMore(limits, lane, last);
    LaneGrows(lane, last);
    OneMoreServed(BucketRule(limits, 60_000), [], CallsOf(lane), last.call);
  }

  function TargetProbe(run: seq<Attempt>, k: nat): Probe
    requires k < |run|
  {
    Probe(true, Call(run[k].key.targetId, run[k].at), TargetDecision(run, k))
  }

  function ClientProbe(run: seq<Attempt>, k: nat): Probe
    requires k < |run|
  {
    Probe(PassesTarget(run, k), Call(run[k].key.clientId, run[k].at), ClientDecision(run, k))
  }

  lemma LanesGrow(run: seq<Attempt>, n: nat)
    requires 0 < n <= |run|
    ensures TargetLane(run, n) == TargetLane(run, n - 1) + [TargetProbe(run, n - 1)]
    ensures ClientLane(run, n) == ClientLane(run, n - 1) + [ClientProbe(run, n - 1)]
  {
    hide TargetDecision, ClientDecision;
  }

  predicate HasBudgets(run: seq<Attempt>, budgets: string -> Positive) {
    forall k | 0 <= k < |run| :: run[k].key.targetPerMinute == budgets(run[k].key.targetId)
  }

  lemma NothingYet(run: seq<Attempt>)
    ensures AfterRun(run, 0) == Limits([], [], [], [])
  {
  }

  lemma LanesBegin(run: seq<Attempt>, budgets: string -> Positive)
    ensures IsServed(budgets, 60_000, TargetLane(run, 0)) && IsServed(ClientBudget(), 60_000, ClientLane(run, 0))
    ensures IsKept(budgets, TargetLane(run, 0), AfterRun(run, 0).targets)
    ensures IsKept(ClientBudget(), ClientLane(run, 0), AfterRun(run, 0).clients)
  {
    hide AfterRun, TargetDecision, ClientDecision;
    NothingYet(run);
  }

  /** After `n` attempts each bucket map is what its own calls made of it. */
  lemma {:induction false} LanesAreServed(run: seq<Attempt>, budgets: string -> Positive, n: nat)
    requires n <= |run| && HasBudgets(run, budgets)
    ensures IsServed(budgets, 60_000, TargetLane(run, n)) && IsServed(ClientBudget(), 60_000, ClientLane(run, n))
    ensures IsKept(budgets, TargetLane(run, n), AfterRun(run, n).targets)
    ensures IsKept(ClientBudget(), ClientLane(run, n), AfterRun(run, n).clients)
  {
    hide AfterRun, IsServed, IsKept, Taken, Always, TargetLane, ClientLane;
    if n == 0 {
      LanesBegin(run, budgets);
    } else {
      LanesAreServed(run, budgets, n - 1);
      LanesGrow(run, n);
      MapsAfter(run, n - 1);
      IsAlways(120, run[n - 1].key.clientId);
      KeptOneMore(budgets, TargetLane(run, n - 1), TargetProbe(run, n - 1), AfterRun(run, n - 1).targets);
      KeptOneMore(ClientBudget(), ClientLane(run, n - 1), ClientProbe(run, n - 1), AfterRun(run, n - 1).clients);
    }
  }

  /** What attempt `k` makes of the two maps. */
  lemma MapsAfter(run: seq<Attempt>, k: nat)
    requires k < |run|
    ensures Found(run, k).targets == AfterRun(run, k).targets && Found(run, k).clients == AfterRun(run, k).clients
    ensures var (key, before, after) := (run[k].key, AfterRun(run, k), AfterRun(run, k + 1));
            var target := Taken(before.targets, key.targetId, key.targetPerMinute, run[k].at);
            && after.targets == target.0 && TargetDecision(run, k) == target.1
            && after.clients == (if PassesTarget(run, k) then Taken(before.clients, key.clientId, 120, run[k].at).0
                                 else before.clients)
            && ClientDecision(run, k) == Taken(before.clients, key.clientId, 120, run[k].at).1
  {
    hide Acquired, Taken, Freed;
    AcquiredTakes(Found(run, k), run[k].key, run[k].at);
  }

  // ---------- the theorems ----------

  /** The calls to a target that took one of its tokens, from attempt `i` on, before `j`. */
  function TargetSpent(run: seq<Attempt>, target: string, i: nat, j: nat): nat
    requires i <= j <= |run|
  {
    if i == j then 0
    else
      TargetSpent(run, target, i, j - 1)
      + if run[j - 1].key.targetId == target && PassesTarget(run, j - 1) then 1 else 0
  }

  /** The calls of a client that took one of its tokens. */
  function ClientSpent(run: seq<Attempt>, client: string, i: nat, j: nat): nat
    requires i <= j <= |run|
  {
    if i == j then 0
    else
      ClientSpent(run, client, i, j - 1)
      + if run[j - 1].key.clientId == client && PassesClient(run, j - 1) then 1 else 0
  }

  /** One more call to the target of `k` keeps every stretch up to it within the budget and what it refills. */
  ghost predicate FitsTarget(run: seq<Attempt>, budget: nat, k: nat)
    requires k < |run|
  {
    forall i | 0 <= i <= k ::
      TargetSpent(run, run[k].key.targetId, i, k) as real + 1.0
      <= budget as real + ((run[k].at - run[i].at) * budget) as real / 60_000.0
  }

  /** The same of the client of `k` and 120 a minute. */
  ghost predicate FitsClient(run: seq<Attempt>, k: nat)
    requires k < |run|
  {
    forall i | 0 <= i <= k ::
      ClientSpent(run, run[k].key.clientId, i, k) as real + 1.0
      <= 120.0 + ((run[k].at - run[i].at) * 120) as real / 60_000.0
  }

  lemma TargetLaneAt(run: seq<Attempt>, n: nat, k: nat)
    requires k < n <= |run|
    ensures TargetLane(run, n)[k] == TargetProbe(run, k)
  {
    hide TargetDecision;
  }

  lemma ClientLaneAt(run: seq<Attempt>, n: nat, k: nat)
    requires k < n <= |run|
    ensures ClientLane(run, n)[k] == ClientProbe(run, k)
  {
    hide TargetDecision, ClientDecision;
  }

  lemma {:induction false} TargetSpentAlike(run: seq<Attempt>, n: nat, target: string, i: nat, j: nat)
    requires i <= j <= n <= |run|
    ensures SpentIn(TargetLane(run, n), target, i, j) == TargetSpent(run, target, i, j)
  {
    hide TargetDecision, TargetLane, AfterRun, Acquired, Freed;
    if i < j {
      TargetSpentAlike(run, n, target, i, j - 1);
      TargetLaneAt(run, n, j - 1);
    }
  }

  lemma {:induction false} ClientSpentAlike(run: seq<Attempt>, n: nat, client: string, i: nat, j: nat)
    requires i <= j <= n <= |run|
    ensures SpentIn(ClientLane(run, n), client, i, j) == ClientSpent(run, client, i, j)
  {
    hide TargetDecision, ClientDecision, ClientLane, AfterRun, Acquired, Freed;
    if i < j {
      ClientSpentAlike(run, n, client, i, j - 1);
      ClientNeedsTarget(run, j - 1);
      ClientLaneAt(run, n, j - 1);
    }
  }

  lemma ClientNeedsTarget(run: seq<Attempt>, k: nat)
    requires k < |run|
    ensures PassesClient(run, k) ==> PassesTarget(run, k)
  {
    hide TargetDecision;
  }

  lemma {:induction false} KeysOfLane(lane: seq<Probe>, keys: set<string>)
    requires forall k | 0 <= k < |lane| :: lane[k].call.key in keys
    requires |keys| <= 10_000
    ensures HasFewKeys(CallsOf(lane))
  {
    var calls := CallsOf(lane);
    WholeLane(lane);
    forall x | 0 <= x < |calls|
      ensures calls[x].key in keys
    {
      hide CallsOf, DecisionsOf, Place;
      var i := AttemptAt(lane, |lane|, x);
      PlaceHolds(lane, i);
    }
    Smaller(set x | 0 <= x < |calls| :: calls[x].key, keys);
  }

  lemma LanesAreOrderly(run: seq<Attempt>, budgets: string -> Positive, n: nat)
    requires IsOrderly(run, budgets) && n <= |run|
    ensures IsOrderedLane(TargetLane(run, n)) && HasFewKeys(CallsOf(TargetLane(run, n)))
    ensures IsOrderedLane(ClientLane(run, n)) && HasFewKeys(CallsOf(ClientLane(run, n)))
  {
    hide TargetDecision, ClientDecision, CallsOf;
    KeysOfLane(TargetLane(run, n), set k | 0 <= k < |run| :: run[k].key.targetId);
    KeysOfLane(ClientLane(run, n), set k | 0 <= k < |run| :: run[k].key.clientId);
  }

  lemma {:induction false} TargetGivesExactly(run: seq<Attempt>, budgets: string -> Positive, k: nat)
    requires IsOrderly(run, budgets) && k < |run|
    ensures PassesTarget(run, k) <==> FitsTarget(run, run[k].key.targetPerMinute, k)
  {
    hide TargetDecision, ClientDecision, CallsOf, DecisionsOf, IsServed, IsKept, IsOrderedLane, HasFewKeys, SpentIn;
    hide TargetSpent;
    hide TargetLane, ClientLane;
    var n, key := |run|, run[k].key;
    LanesAreServed(run, budgets, n);
    LanesAreOrderly(run, budgets, n);
    var lane := TargetLane(run, n);
    TargetLaneAt(run, n, k);
    LaneDecides(budgets, lane, k);
    forall i | 0 <= i <= k
      ensures StaysWithin(lane, key.targetPerMinute, i, k)
              <==> TargetSpent(run, key.targetId, i, k) as real + 1.0
                   <= key.targetPerMinute as real + ((run[k].at - run[i].at) * key.targetPerMinute) as real / 60_000.0
    {
      TargetLaneAt(run, n, i);
      TargetSpentAlike(run, n, key.targetId, i, k);
    }
  }

  lemma {:induction false} ClientGivesExactly(run: seq<Attempt>, budgets: string -> Positive, k: nat)
    requires IsOrderly(run, budgets) && k < |run| && PassesTarget(run, k)
    ensures PassesClient(run, k) <==> FitsClient(run, k)
  {
    hide TargetDecision, ClientDecision, CallsOf, DecisionsOf, IsServed, IsKept, IsOrderedLane, HasFewKeys, SpentIn;
    hide ClientSpent;
    hide TargetLane, ClientLane, Always;
    var n, key := |run|, run[k].key;
    LanesAreServed(run, budgets, n);
    LanesAreOrderly(run, budgets, n);
    var lane := ClientLane(run, n);
    ClientLaneAt(run, n, k);
    IsAlways(120, key.clientId);
    LaneDecides(ClientBudget(), lane, k);
    forall i | 0 <= i <= k
      ensures StaysWithin(lane, 120, i, k)
              <==> ClientSpent(run, key.clientId, i, k) as real + 1.0
                   <= 120.0 + ((run[k].at - run[i].at) * 120) as real / 60_000.0
    {
      ClientLaneAt(run, n, i);
      ClientSpentAlike(run, n, key.clientId, i, k);
    }
  }

  /** The target's bucket gives a token exactly where its budget has room; the client's, reached only then, likewise. */
  lemma TokensAreGivenExactly(run: seq<Attempt>, budgets: string -> Positive, k: nat)
    requires IsOrderly(run, budgets) && k < |run|
    ensures PassesTarget(run, k) <==> FitsTarget(run, run[k].key.targetPerMinute, k)
    ensures PassesClient(run, k) <==> FitsTarget(run, run[k].key.targetPerMinute, k) && FitsClient(run, k)
  {
    hide TargetDecision, ClientDecision, FitsTarget, FitsClient, IsOrderly;
    TargetGivesExactly(run, budgets, k);
    ClientNeedsTarget(run, k);
    if PassesTarget(run, k) {
      ClientGivesExactly(run, budgets, k);
    }
  }

  // ---------- calls in flight ----------

  /** The calls admitted before attempt `k`. */
  function Admissions(run: seq<Attempt>, k: nat): nat
    requires k <= |run|
  {
    if k == 0 then 0 else Admissions(run, k - 1) + if Answer(run, k - 1).Admitted? then 1 else 0
  }

  /** The leases of the call admitted by attempt `i` were given back when attempt `k` finds the limits. */
  ghost predicate IsGivenBack(run: seq<Attempt>, i: nat, k: nat)
    requires i < k < |run| && Answer(run, i).Admitted?
  {
    exists m :: i < m <= k && Answer(run, i).targetLease in run[m].freed
  }

  /** Of the first `j` attempts, the calls attempt `k` finds in flight. */
  ghost function InFlight(run: seq<Attempt>, of: LimitKey -> bool, j: nat, k: nat): nat
    requires j <= k < |run|
  {
    hide Answer;
    if j == 0 then 0
    else InFlight(run, of, j - 1, k)
         + if of(run[j - 1].key) && Answer(run, j - 1).Admitted? && !IsGivenBack(run, j - 1, k) then 1 else 0
  }

  lemma {:induction false} FreedIs(l: Limits, freed: seq<nat>)
    requires |l.targetLeases| == |l.clientLeases|
    ensures var after := Freed(l, freed);
            && |after.targetLeases| == |after.clientLeases| == |l.targetLeases|
            && forall n | 0 <= n < |l.targetLeases| ::
                 var (target, client) := (l.targetLeases[n], l.clientLeases[n]);
                 && after.targetLeases[n] == target.(isReleased := target.isReleased || n in freed)
                 && after.clientLeases[n] == client.(isReleased := client.isReleased || n in freed)
  {
    if freed != [] {
      var front, last := freed[..|freed| - 1], freed[|freed| - 1];
      FreedIs(l, front);
      assert forall n :: n in freed <==> n in front || n == last by {
        assert freed == front + [last];
      }
    }
  }

  lemma AnswerIs(run: seq<Attempt>, k: nat)
    requires k < |run|
    ensures var (found, after, key) := (Found(run, k), AfterRun(run, k + 1), run[k].key);
            if Answer(run, k).Admitted? then
              && Answer(run, k) == Admitted(|found.targetLeases|, |found.clientLeases|)
              && after.targetLeases == found.targetLeases + [Lease(key.targetId, false)]
              && after.clientLeases == found.clientLeases + [Lease(key.clientId, false)]
            else after.targetLeases == found.targetLeases && after.clientLeases == found.clientLeases
  {
    hide Taken, Freed, Unreleased;
  }

  lemma FoundAsMany(run: seq<Attempt>, k: nat)
    requires k < |run| && |AfterRun(run, k).targetLeases| == |AfterRun(run, k).clientLeases|
    ensures |Found(run, k).targetLeases| == |Found(run, k).clientLeases| == |AfterRun(run, k).targetLeases|
  {
    hide AfterRun, Freed;
    FreedIs(AfterRun(run, k), run[k].freed);
  }

  /** There is one lease of each kind for every admission. */
  lemma {:induction false} LeasesAreCounted(run: seq<Attempt>, k: nat)
    requires k <= |run|
    ensures |AfterRun(run, k).targetLeases| == |AfterRun(run, k).clientLeases| == Admissions(run, k)
    ensures k < |run| ==> |Found(run, k).targetLeases| == |Found(run, k).clientLeases| == Admissions(run, k)
  {
    hide AfterRun, Answer, Found;
    if k == 0 {
      NothingYet(run);
    } else {
      LeasesAreCounted(run, k - 1);
      AnswerIs(run, k - 1);
    }
    if k < |run| {
      FoundAsMany(run, k);
    }
  }

  /** The leases of an admission, where attempt `k` finds them. */
  lemma {:induction false} LeaseFound(run: seq<Attempt>, i: nat, k: nat)
    requires i < k < |run| && Answer(run, i).Admitted?
    ensures var (n, found, key) := (Admissions(run, i), Found(run, k), run[i].key);
            && Answer(run, i) == Admitted(n, n) && n < |found.targetLeases| == |found.clientLeases|
            && found.targetLeases[n] == Lease(key.targetId, IsGivenBack(run, i, k))
            && found.clientLeases[n] == Lease(key.clientId, IsGivenBack(run, i, k))
    decreases k
  {
    hide Freed, AfterRun, Answer, Admissions;
    var n := Admissions(run, i);
    LeasesAreCounted(run, i);
    AnswerIs(run, i);
    LeasesAreCounted(run, k - 1);
    LeasesAreCounted(run, k);
    AnswerIs(run, k - 1);
    FreedIs(AfterRun(run, k), run[k].freed);
    if i < k - 1 {
      LeaseFound(run, i, k - 1);
      assert IsGivenBack(run, i, k) <==> IsGivenBack(run, i, k - 1) || n in run[k].freed;
    }
  }

  lemma OneMoreLease(leases: seq<Lease>, n: nat, key: string)
    requires n < |leases|
    ensures Unreleased(leases[..n + 1], key)
            == Unreleased(leases[..n], key) + if leases[n] == Lease(key, false) then 1 else 0
  {
    assert leases[..n + 1][..n] == leases[..n];
  }

  lemma NothingGivenOut(key: string)
    ensures Unreleased([], key) == 0
  {
  }

  lemma {:induction false} InFlightSoFar(run: seq<Attempt>, target: string, client: string, j: nat, k: nat)
    requires j <= k < |run|
    ensures Admissions(run, j) <= |Found(run, k).targetLeases| == |Found(run, k).clientLeases|
    ensures Unreleased(Found(run, k).targetLeases[..Admissions(run, j)], target)
            == InFlight(run, (key: LimitKey) => key.targetId == target, j, k)
    ensures Unreleased(Found(run, k).clientLeases[..Admissions(run, j)], client)
            == InFlight(run, (key: LimitKey) => key.clientId == client, j, k)
  {
    hide Found, Answer, IsGivenBack, AfterRun;
    LeasesAreCounted(run, k);
    if j == 0 {
      NothingGivenOut(target);
      NothingGivenOut(client);
    } else {
      InFlightSoFar(run, target, client, j - 1, k);
      hide Unreleased;
      if Answer(run, j - 1).Admitted? {
        LeaseFound(run, j - 1, k);
        OneMoreLease(Found(run, k).targetLeases, Admissions(run, j - 1), target);
        OneMoreLease(Found(run, k).clientLeases, Admissions(run, j - 1), client);
      }
    }
  }

  /** The counters hold the calls in flight. */
  lemma InFlightIsCounted(run: seq<Attempt>, target: string, client: string, k: nat)
    requires k < |run|
    ensures Unreleased(Found(run, k).targetLeases, target)
            == InFlight(run, (key: LimitKey) => key.targetId == target, k, k)
    ensures Unreleased(Found(run, k).clientLeases, client)
            == InFlight(run, (key: LimitKey) => key.clientId == client, k, k)
  {
    hide Found, InFlight, Unreleased, Admissions;
    InFlightSoFar(run, target, client, k, k);
    LeasesAreCounted(run, k);
    assert Found(run, k).targetLeases[..Admissions(run, k)] == Found(run, k).targetLeases;
    assert Found(run, k).clientLeases[..Admissions(run, k)] == Found(run, k).clientLeases;
  }

  lemma AdmittedWhen(run: seq<Attempt>, k: nat)
    requires k < |run|
    ensures Answer(run, k).Admitted? <==>
              && PassesClient(run, k)
              && Unreleased(Found(run, k).targetLeases, run[k].key.targetId) < 4
              && Unreleased(Found(run, k).clientLeases, run[k].key.clientId) < 8
  {
    hide Taken, Unreleased, Found;
  }

  /** A call is admitted exactly when its target's budget and its client's have room, fewer than four calls are in
      flight to its target, and fewer than eight from its client. */
  lemma AdmittedExactly(run: seq<Attempt>, budgets: string -> Positive, k: nat)
    requires IsOrderly(run, budgets) && k < |run|
    ensures var (target, client) := (run[k].key.targetId, run[k].key.clientId);
            Answer(run, k).Admitted? <==>
              && FitsTarget(run, run[k].key.targetPerMinute, k) && FitsClient(run, k)
              && InFlight(run, (key: LimitKey) => key.targetId == target, k, k) < 4
              && InFlight(run, (key: LimitKey) => key.clientId == client, k, k) < 8
  {
    TokensAreGivenExactly(run, budgets, k);
    hide FitsTarget, FitsClient, Unreleased, Found, InFlight, Answer, PassesClient, PassesTarget;
    AdmittedWhen(run, k);
    InFlightIsCounted(run, run[k].key.targetId, run[k].key.clientId, k);
  }

  /** The calls of a client, or to a target, that are admitted. */
  function AdmittedOf(run: seq<Attempt>, of: LimitKey -> bool, i: nat, j: nat): nat
    requires i <= j <= |run|
  {
    if i == j then 0
    else AdmittedOf(run, of, i, j - 1) + if of(run[j - 1].key) && Answer(run, j - 1).Admitted? then 1 else 0
  }

  lemma AdmittedPass(run: seq<Attempt>, k: nat)
    requires k < |run|
    ensures Answer(run, k).Admitted? ==> PassesTarget(run, k) && PassesClient(run, k)
  {
    hide Taken, Unreleased, Found;
  }

  lemma {:induction false} AdmittedWereSpent(run: seq<Attempt>, target: string, client: string, i: nat, j: nat)
    requires i <= j <= |run|
    ensures AdmittedOf(run, (key: LimitKey) => key.targetId == target, i, j) <= TargetSpent(run, target, i, j)
    ensures AdmittedOf(run, (key: LimitKey) => key.clientId == client, i, j) <= ClientSpent(run, client, i, j)
  {
    hide PassesTarget, PassesClient, Answer;
    if i < j {
      AdmittedWereSpent(run, target, client, i, j - 1);
      AdmittedPass(run, j - 1);
    }
  }

  predicate IsWithin(spent: nat, limit: nat, span: int) {
    spent as real <= limit as real + (span * limit) as real / 60_000.0
  }

  lemma WithinLonger(spent: nat, limit: nat, a: nat, b: nat)
    requires a <= b
    ensures IsWithin(spent, limit, a) ==> IsWithin(spent, limit, b)
    ensures IsWithin(0, limit, a)
  {
    GainIs(a, limit);
    GainIs(b, limit);
    LongerGains(a, b, limit, 60_000);
    LongerGains(0, a, limit, 60_000);
    GainGrows(a, limit, 60_000);
  }

  lemma {:induction false} TargetSpendingIsBounded(run: seq<Attempt>, budgets: string -> Positive, target: string,
                                                   i: nat, j: nat)
    requires IsOrderly(run, budgets) && i < j <= |run|
    ensures IsWithin(TargetSpent(run, target, i, j), budgets(target), run[j - 1].at - run[i].at)
    decreases j
  {
    hide PassesTarget, PassesClient;
    var k := j - 1;
    WithinLonger(0, budgets(target), 0, run[k].at - run[i].at);
    if i < k {
      TargetSpendingIsBounded(run, budgets, target, i, k);
      WithinLonger(TargetSpent(run, target, i, k), budgets(target), run[k - 1].at - run[i].at, run[k].at - run[i].at);
    }
    TokensAreGivenExactly(run, budgets, k);
  }

  lemma {:induction false} ClientSpendingIsBounded(run: seq<Attempt>, budgets: string -> Positive, client: string,
                                                   i: nat, j: nat)
    requires IsOrderly(run, budgets) && i < j <= |run|
    ensures IsWithin(ClientSpent(run, client, i, j), 120, run[j - 1].at - run[i].at)
    decreases j
  {
    hide PassesTarget, PassesClient;
    var k := j - 1;
    WithinLonger(0, 120, 0, run[k].at - run[i].at);
    if i < k {
      ClientSpendingIsBounded(run, budgets, client, i, k);
      WithinLonger(ClientSpent(run, client, i, k), 120, run[k - 1].at - run[i].at, run[k].at - run[i].at);
    }
    TokensAreGivenExactly(run, budgets, k);
  }

  /** What any stretch of a run admits: of a client at most 120 calls and what the stretch refills of them, to a target
      at most its budget and what the stretch refills. */
  lemma AdmissionIsBounded(run: seq<Attempt>, budgets: string -> Positive, target: string, client: string, i: nat,
                           j: nat, span: nat)
    requires IsOrderly(run, budgets) && i < j <= |run| && run[j - 1].at - run[i].at <= span
    ensures AdmittedOf(run, (key: LimitKey) => key.clientId == client, i, j) as real
            <= 120.0 + (span * 120) as real / 60_000.0
    ensures AdmittedOf(run, (key: LimitKey) => key.targetId == target, i, j) as real
            <= budgets(target) as real + (span * budgets(target)) as real / 60_000.0
  {
    hide TargetSpent, ClientSpent, AdmittedOf;
    AdmittedWereSpent(run, target, client, i, j);
    TargetSpendingIsBounded(run, budgets, target, i, j);
    ClientSpendingIsBounded(run, budgets, client, i, j);
    var lasted := run[j - 1].at - run[i].at;
    WithinLonger(TargetSpent(run, target, i, j), budgets(target), lasted, span);
    WithinLonger(ClientSpent(run, client, i, j), 120, lasted, span);
  }

  // ---------- what a denial tells ----------

  lemma {:induction false} NoneAllowed(decisions: seq<Decision>, calls: seq<Call>, key: string)
    requires |decisions| == |calls| && CountAllowed(decisions, calls, key) == 0
    ensures AreRefused(decisions, calls, key)
  {
    if calls != [] {
      NoneAllowed(decisions[1..], calls[1..], key);
      forall k | 0 <= k < |calls| && calls[k].key == key
        ensures decisions[k].Refused?
      {
        assert k > 0 ==> calls[1..][k - 1] == calls[k] && decisions[1..][k - 1] == decisions[k];
      }
    }
  }

  /** A refused attempt's wait is exact for the next that reaches the bucket, when none in between took a token. */
  lemma {:induction false} LaneRetry(limits: string -> Positive, lane: seq<Probe>, k: nat, m: nat)
    requires IsServed(limits, 60_000, lane) && IsOrderedLane(lane) && HasFewKeys(CallsOf(lane))
    requires k < m < |lane| && lane[k].reaches && lane[m].reaches && lane[k].call.key == lane[m].call.key
    requires lane[k].decision.Refused? && SpentIn(lane, lane[k].call.key, k + 1, m) == 0
    ensures var (t, u, r) := (lane[k].call.at, lane[m].call.at, lane[k].decision.retryAfterSeconds);
            && (u >= t + 1000 * r ==> lane[m].decision.Allowed?)
            && (r > 1 && u <= t + 1000 * (r - 1) ==> lane[m].decision.Refused?)
  {
    hide CallsOf, DecisionsOf, Decisions, Place, IsOrdered, CountAllowed, AreRefused, SpentIn;
    var calls, decisions := CallsOf(lane), Decisions(BucketRule(limits, 60_000), [], CallsOf(lane));
    var x, y, key := Place(lane, k), Place(lane, m), lane[k].call.key;
    CallsAreOrdered(lane);
    PlaceHolds(lane, k);
    PlaceHolds(lane, m);
    PlacesAscend(lane, k + 1, m);
    SpentIsCounted(limits, 60_000, lane, key, k + 1, m);
    NoneAllowed(decisions[x + 1..y], calls[x + 1..y], key);
    assert HasFewKeys(calls);
    BucketRetryIsExact(limits, 60_000, calls, key, x, y);
  }

  lemma DenialIsOfFirst(run: seq<Attempt>, k: nat)
    requires k < |run| && Answer(run, k).Denied?
    ensures Answer(run, k).retryAfterSeconds
            == if TargetDecision(run, k).Refused? then TargetDecision(run, k).retryAfterSeconds
               else if ClientDecision(run, k).Refused? then ClientDecision(run, k).retryAfterSeconds else 1
  {
    hide Taken, Unreleased, Found;
  }

  /** The target's bucket refuses `k`: when it has room again. */
  lemma {:induction false} TargetTellsWhen(run: seq<Attempt>, budgets: string -> Positive, k: nat, m: nat)
    requires IsOrderly(run, budgets) && k < m < |run| && Answer(run, k).Denied? && !PassesTarget(run, k)
    requires run[m].key.targetId == run[k].key.targetId && TargetSpent(run, run[k].key.targetId, k + 1, m) == 0
    ensures var (t, u, r) := (run[k].at, run[m].at, Answer(run, k).retryAfterSeconds);
            && (u >= t + 1000 * r ==> PassesTarget(run, m))
            && (r > 1 && u <= t + 1000 * (r - 1) ==> !PassesTarget(run, m))
  {
    var n := |run|;
    hide Answer, TargetDecision, ClientDecision, AfterRun, Found, Acquired, Freed, Taken;
    DenialIsOfFirst(run, k);
    hide CallsOf, DecisionsOf, IsServed, IsKept, IsOrderedLane, HasFewKeys, SpentIn;
    hide TargetSpent, TargetLane, ClientLane, Always;
    LanesAreServed(run, budgets, n);
    LanesAreOrderly(run, budgets, n);
    TargetLaneAt(run, n, k);
    TargetLaneAt(run, n, m);
    TargetSpentAlike(run, n, run[k].key.targetId, k + 1, m);
    LaneRetry(budgets, TargetLane(run, n), k, m);
  }

  /** The client's bucket does. */
  lemma {:induction false} ClientTellsWhen(run: seq<Attempt>, budgets: string -> Positive, k: nat, m: nat)
    requires IsOrderly(run, budgets) && k < m < |run| && Answer(run, k).Denied?
    requires PassesTarget(run, k) && !PassesClient(run, k) && PassesTarget(run, m)
    requires run[m].key.clientId == run[k].key.clientId && ClientSpent(run, run[k].key.clientId, k + 1, m) == 0
    ensures var (t, u, r) := (run[k].at, run[m].at, Answer(run, k).retryAfterSeconds);
            && (u >= t + 1000 * r ==> PassesClient(run, m))
            && (r > 1 && u <= t + 1000 * (r - 1) ==> !PassesClient(run, m))
  {
    var n := |run|;
    hide Answer, TargetDecision, ClientDecision, AfterRun, Found, Acquired, Freed, Taken;
    DenialIsOfFirst(run, k);
    hide CallsOf, DecisionsOf, IsServed, IsKept, IsOrderedLane, HasFewKeys, SpentIn;
    hide ClientSpent, TargetLane, ClientLane, Always;
    LanesAreServed(run, budgets, n);
    LanesAreOrderly(run, budgets, n);
    ClientLaneAt(run, n, k);
    ClientLaneAt(run, n, m);
    ClientSpentAlike(run, n, run[k].key.clientId, k + 1, m);
    LaneRetry(ClientBudget(), ClientLane(run, n), k, m);
  }

  /** Where both buckets had room, too many calls were in flight, and the wait is one second. */
  lemma InFlightTellsOneSecond(run: seq<Attempt>, k: nat)
    requires k < |run| && Answer(run, k).Denied? && PassesClient(run, k)
    ensures Answer(run, k).retryAfterSeconds == 1
  {
    DenialIsOfFirst(run, k);
    hide TargetDecision, ClientDecision, Answer;
  }
}
