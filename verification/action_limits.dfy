/** In-flight counters with releasable leases, and the four limits a call passes before its credential is fetched. */
module ActionLimiting {
  import opened RecentMaps
  import opened RateLimits

  const MINUTE_MS: Positive := 60_000
  const CLIENT_CALLS_PER_MINUTE: Positive := 120
  const TARGET_IN_FLIGHT := 4
  const CLIENT_IN_FLIGHT := 8
  const IN_FLIGHT_RETRY_SECONDS := 1

  /** What one release function holds: the key it was given for and whether it was called. */
  datatype Lease = Lease(key: string, isReleased: bool)

  function Unreleased(leases: seq<Lease>, key: string): nat {
    if leases == [] then 0
    else Unreleased(leases[..|leases| - 1], key)
         + (if leases[|leases| - 1] == Lease(key, false) then 1 else 0)
  }

  function CountIn(counts: map<string, nat>, key: string): nat {
    if key in counts then counts[key] else 0
  }

  lemma {:induction false} UnreleasedAfterEnter(leases: seq<Lease>, entered: string, key: string)
    ensures Unreleased(leases + [Lease(entered, false)], key)
            == Unreleased(leases, key) + if key == entered then 1 else 0
  {
    assert (leases + [Lease(entered, false)])[..|leases|] == leases;
  }

  lemma {:induction false} UnreleasedAfterRelease(leases: seq<Lease>, i: nat, key: string)
    requires i < |leases| && !leases[i].isReleased
    ensures Unreleased(leases, key)
            == Unreleased(leases[i := leases[i].(isReleased := true)], key) + if key == leases[i].key then 1 else 0
  {
    var front, last := leases[..|leases| - 1], leases[|leases| - 1];
    var after := leases[i := leases[i].(isReleased := true)];
    if i < |front| {
      UnreleasedAfterRelease(front, i, key);
      assert after[..|front|] == front[i := front[i].(isReleased := true)];
    } else {
      assert after[..|front|] == front;
    }
  }

  class InFlight {
    var counts: map<string, nat>
    var leases: seq<Lease>

    /** The count of every key is the number of its leases not yet released, and no zero is kept. */
    ghost predicate Valid()
      reads this
    {
      && (forall key :: CountIn(counts, key) == Unreleased(leases, key))
      && (forall key | key in counts :: counts[key] > 0)
    }

    constructor ()
      ensures Valid() && leases == []
    {
      counts := map[];
      leases := [];
    }

    function Count(key: string): nat
      reads this
    {
      CountIn(counts, key)
    }

    method Enter(key: string) returns (lease: nat)
      requires Valid()
      modifies this
      ensures Valid() && lease == |old(leases)| && leases == old(leases) + [Lease(key, false)]
    {
      counts := counts[key := Count(key) + 1];
      lease := |leases|;
      leases := leases + [Lease(key, false)];
      forall other
        ensures CountIn(counts, other) == Unreleased(leases, other)
      {
        UnreleasedAfterEnter(old(leases), key, other);
      }
    }

    /** Releasing again does nothing. */
    method Release(lease: nat)
      requires Valid() && lease < |leases|
      modifies this
      ensures Valid() && leases == old(leases)[lease := old(leases)[lease].(isReleased := true)]
      ensures old(leases)[lease].isReleased ==> counts == old(counts)
    {
      if leases[lease].isReleased {
        return;
      }
      var key := leases[lease].key;
      UnreleasedAfterRelease(leases, lease, key);
      leases := leases[lease := leases[lease].(isReleased := true)];
      var remaining := Count(key) - 1;
      if remaining == 0 {
        counts := counts - {key};
      } else {
        counts := counts[key := remaining];
      }
      forall other
        ensures CountIn(counts, other) == Unreleased(leases, other)
      {
        assert CountIn(old(counts), other) == Unreleased(old(leases), other);
        UnreleasedAfterRelease(old(leases), lease, other);
      }
    }
  }

  datatype LimitDecision = Admitted(targetLease: nat, clientLease: nat) | Denied(retryAfterSeconds: nat)

  datatype LimitKey = LimitKey(targetId: string, clientId: string, targetPerMinute: Positive)

  /** The four limits as one value. */
  datatype Limits = Limits(targets: seq<Entry<Bucket>>, clients: seq<Entry<Bucket>>, targetLeases: seq<Lease>,
                           clientLeases: seq<Lease>)

  function Always(limit: Positive): string -> Positive {
    (key: string) => limit
  }

  lemma IsAlways(limit: Positive, key: string)
    ensures Always(limit)(key) == limit
  {
  }

  function Taken(entries: seq<Entry<Bucket>>, key: string, limit: Positive, at: int): (seq<Entry<Bucket>>, Decision) {
    Serve(BucketRule(Always(limit), MINUTE_MS), entries, Call(key, at))
  }

  /** The target's bucket, then the client's, then both counters; what an earlier refusal leaves untouched. */
  function Acquired(l: Limits, key: LimitKey, at: int): (Limits, LimitDecision) {
    var (targets, target) := Taken(l.targets, key.targetId, key.targetPerMinute, at);
    if target.Refused? then (l.(targets := targets), Denied(target.retryAfterSeconds))
    else
      var (clients, client) := Taken(l.clients, key.clientId, CLIENT_CALLS_PER_MINUTE, at);
      var spent := l.(targets := targets, clients := clients);
      if client.Refused? then (spent, Denied(client.retryAfterSeconds))
      else if Unreleased(l.targetLeases, key.targetId) >= TARGET_IN_FLIGHT
              || Unreleased(l.clientLeases, key.clientId) >= CLIENT_IN_FLIGHT then
        (spent, Denied(IN_FLIGHT_RETRY_SECONDS))
      else
        (spent.(targetLeases := l.targetLeases + [Lease(key.targetId, false)],
                clientLeases := l.clientLeases + [Lease(key.clientId, false)]),
         Admitted(|l.targetLeases|, |l.clientLeases|))
  }

  ghost predicate WithinCap(leases: seq<Lease>, cap: nat) {
    forall key :: Unreleased(leases, key) <= cap
  }

  lemma CapAfterEnter(leases: seq<Lease>, key: string, cap: nat)
    requires WithinCap(leases, cap) && Unreleased(leases, key) < cap
    ensures WithinCap(leases + [Lease(key, false)], cap)
  {
    forall other
      ensures Unreleased(leases + [Lease(key, false)], other) <= cap
    {
      UnreleasedAfterEnter(leases, key, other);
    }
  }

  lemma CapAfterRelease(leases: seq<Lease>, i: nat, cap: nat)
    requires WithinCap(leases, cap) && i < |leases|
    ensures WithinCap(leases[i := leases[i].(isReleased := true)], cap)
  {
    var after := leases[i := leases[i].(isReleased := true)];
    if leases[i].isReleased {
      assert after == leases;
    } else {
      forall key
        ensures Unreleased(after, key) <= cap
      {
        UnreleasedAfterRelease(leases, i, key);
      }
    }
  }

  class ActionLimits {
    const targets: RateLimiter
    const clients: RateLimiter
    const inFlightTargets: InFlight
    const inFlightClients: InFlight

    ghost function Repr(): set<object> {
      {targets.buckets, clients.buckets, inFlightTargets, inFlightClients}
    }

    /** At every moment at most four calls are in flight to a target and eight from a client. */
    ghost predicate Valid()
      reads Repr()
    {
      && targets.buckets != clients.buckets && inFlightTargets != inFlightClients
      && targets.windowMs == MINUTE_MS == clients.windowMs
      && targets.buckets.Valid() && clients.buckets.Valid() && inFlightTargets.Valid() && inFlightClients.Valid()
      && WithinCap(inFlightTargets.leases, TARGET_IN_FLIGHT) && WithinCap(inFlightClients.leases, CLIENT_IN_FLIGHT)
    }

    constructor ()
      ensures Valid() && fresh(Repr()) && inFlightTargets.leases == [] == inFlightClients.leases
    {
      targets := new RateLimiter(MINUTE_MS);
      clients := new RateLimiter(MINUTE_MS);
      inFlightTargets := new InFlight();
      inFlightClients := new InFlight();
    }

    ghost function Value(): Limits
      reads Repr()
    {
      Limits(targets.buckets.entries, clients.buckets.entries, inFlightTargets.leases, inFlightClients.leases)
    }

    method Acquire(key: LimitKey, at: int) returns (decision: LimitDecision)
      requires Valid()
      modifies Repr()
      ensures Valid() && (Value(), decision) == Acquired(old(Value()), key, at)
    {
      hide Serve, WithinCap, BucketRule, Unreleased;
      IsAlways(key.targetPerMinute, key.targetId);
      IsAlways(CLIENT_CALLS_PER_MINUTE, key.clientId);
      hide Always;
      var target := targets.Take(key.targetId, key.targetPerMinute, at, Always(key.targetPerMinute));
      if target.Refused? {
        return Denied(target.retryAfterSeconds);
      }
      var client := clients.Take(key.clientId, CLIENT_CALLS_PER_MINUTE, at, Always(CLIENT_CALLS_PER_MINUTE));
      if client.Refused? {
        return Denied(client.retryAfterSeconds);
      }
      if inFlightTargets.Count(key.targetId) >= TARGET_IN_FLIGHT
         || inFlightClients.Count(key.clientId) >= CLIENT_IN_FLIGHT {
        return Denied(IN_FLIGHT_RETRY_SECONDS);
      }
      CapAfterEnter(inFlightTargets.leases, key.targetId, TARGET_IN_FLIGHT);
      CapAfterEnter(inFlightClients.leases, key.clientId, CLIENT_IN_FLIGHT);
      var targetLease := inFlightTargets.Enter(key.targetId);
      var clientLease := inFlightClients.Enter(key.clientId);
      return Admitted(targetLease, clientLease);
    }

    method Release(targetLease: nat, clientLease: nat)
      requires Valid() && targetLease < |inFlightTargets.leases| && clientLease < |inFlightClients.leases|
      modifies inFlightTargets, inFlightClients
      ensures Valid() && Value().targets == old(Value().targets) && Value().clients == old(Value().clients)
      ensures inFlightTargets.leases
              == old(inFlightTargets.leases)[targetLease :=
                   old(inFlightTargets.leases)[targetLease].(isReleased := true)]
      ensures inFlightClients.leases
              == old(inFlightClients.leases)[clientLease :=
                   old(inFlightClients.leases)[clientLease].(isReleased := true)]
    {
      hide WithinCap, Unreleased;
      CapAfterRelease(inFlightTargets.leases, targetLease, TARGET_IN_FLIGHT);
      CapAfterRelease(inFlightClients.leases, clientLease, CLIENT_IN_FLIGHT);
      inFlightTargets.Release(targetLease);
      inFlightClients.Release(clientLease);
    }
  }
}
