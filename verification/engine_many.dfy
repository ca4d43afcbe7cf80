/** A call over several targets: one row and one event for every name on every path, every lease released, every
    credential holder disposed of once, whatever other calls do at each await. */
module EngineMany {
  import opened Sequences
  import opened Wrappers
  import opened RateLimits
  import opened ActionLimiting

  // ---------- what the call meets ----------

  /** The codes a call is refused with before anything runs. */
  predicate IsDeniedCode(code: string) {
    code in {"actions_disabled", "connector_disabled", "unknown_target", "target_disabled", "target_invalid",
             "not_granted", "insufficient_scope", "invalid_arguments", "policy_denied", "rate_limited"}
  }

  function OutcomeOf(code: string): string {
    (if IsDeniedCode(code) then "denied:" else "error:") + code
  }

  const INTERRUPTED := "error:interrupted"

  datatype Resolution = Unresolved(code: string) | ResolvedTo(isRead: bool, targetId: string, perMinute: Positive)

  /** How fetching one credential and pinning its destination go, and what other calls do meanwhile. */
  datatype Attempt = Attempt(fetch: Option<string>, duringFetch: seq<Other>, pin: Option<string>, duringPin: seq<Other>)

  datatype RunEnd = Answered | Failed(code: string) | Threw | TimedOut | NoRunMany

  /** A step of some other call. */
  datatype Other =
    | WritesRow(owner: nat, name: string, outcome: string)
    | CompletesRow(id: nat, outcome: string)
    | Acquires(key: LimitKey, at: int)
    | Releases(targetLease: nat, clientLease: nat)

  datatype Row = Row(owner: nat, name: string, outcome: string, completions: nat)

  datatype Event = Event(owner: nat, name: string, outcome: string)

  datatype CallOutcome = Done | Refusal(code: string, repo: Option<string>)

  // ---------- what the agent is told ----------

  function ResolutionError(resolution: Resolution): Option<string> {
    match resolution
    case Unresolved(code) => Some(code)
    case ResolvedTo(isRead, _, _) => if isRead then None else Some("connector_fault")
  }

  /** The first name something is wrong with. */
  function FirstError(errors: seq<Option<string>>): (first: Option<nat>)
    ensures first.Some? ==> first.value < |errors| && errors[first.value].Some?
  {
    if errors == [] then None
    else if errors[0].Some? then Some(0)
    else
      var later := FirstError(errors[1..]);
      if later.Some? then Some(later.value + 1) else None
  }

  lemma {:induction false} FirstErrorIsFirst(errors: seq<Option<string>>)
    ensures var first := FirstError(errors);
            forall i | 0 <= i < (if first.Some? then first.value else |errors|) :: errors[i].None?
  {
    if errors != [] && errors[0].None? {
      FirstErrorIsFirst(errors[1..]);
      assert forall i | 1 <= i < |errors| :: errors[i] == errors[1..][i - 1];
    }
  }

  function ResolutionErrors(resolutions: seq<Resolution>): (errors: seq<Option<string>>)
    ensures |errors| == |resolutions|
  {
    seq(|resolutions|, i requires 0 <= i < |resolutions| => ResolutionError(resolutions[i]))
  }

  function LimitErrors(limits: seq<LimitDecision>): (errors: seq<Option<string>>)
    ensures |errors| == |limits|
  {
    seq(|limits|, i requires 0 <= i < |limits| => if limits[i].Denied? then Some("rate_limited") else None)
  }

  function AttemptError(attempt: Attempt): Option<string> {
    if attempt.fetch.Some? then attempt.fetch else attempt.pin
  }

  function AttemptErrors(attempts: seq<Attempt>): (errors: seq<Option<string>>)
    ensures |errors| == |attempts|
  {
    seq(|attempts|, i requires 0 <= i < |attempts| => AttemptError(attempts[i]))
  }

  function RunCode(end: RunEnd): Option<string> {
    match end
    case Answered => None
    case Failed(code) => Some(code)
    case Threw => Some("upstream_error")
    case TimedOut => Some("timeout")
    case NoRunMany => Some("connector_fault")
  }

  /** What a call comes to: the answer of the agent, the outcome of rows and events, and whether rows were reserved. */
  datatype Verdict = Verdict(answer: CallOutcome, outcome: string, isReserved: bool)

  function RefusedFor(errors: seq<Option<string>>, names: seq<string>): Verdict
    requires |errors| == |names| && FirstError(errors).Some?
  {
    var i := FirstError(errors).value;
    Verdict(Refusal(errors[i].value, Some(names[i])), OutcomeOf(errors[i].value), false)
  }

  function AfterRun(end: RunEnd): Verdict {
    var code := RunCode(end);
    if code.None? then Verdict(Done, "ok", true)
    else Verdict(Refusal(code.value, None), "error:" + code.value, true)
  }

  function VerdictOnCredentials(names: seq<string>, attempts: seq<Attempt>, end: RunEnd): Verdict
    requires |attempts| == |names|
  {
    if FirstError(AttemptErrors(attempts)).Some? then RefusedFor(AttemptErrors(attempts), names) else AfterRun(end)
  }

  /** The first failure, in the order resolution, joint policy, limits, credentials and destinations, run. */
  function VerdictOf(names: seq<string>, resolutions: seq<Resolution>, isJointlyRefused: bool,
                     limits: seq<LimitDecision>, attempts: seq<Attempt>, end: RunEnd): Verdict
    requires |names| == |resolutions| == |attempts|
    requires limits == [] || |limits| == |names|
  {
    if FirstError(ResolutionErrors(resolutions)).Some? then RefusedFor(ResolutionErrors(resolutions), names)
    else if isJointlyRefused then Verdict(Refusal("policy_denied", None), OutcomeOf("policy_denied"), false)
    else if limits != [] && FirstError(LimitErrors(limits)).Some? then RefusedFor(LimitErrors(limits), names)
    else VerdictOnCredentials(names, attempts, end)
  }

  // ---------- what the call leaves behind ----------

  function EventsOf(events: seq<Event>, owner: nat): seq<Event> {
    if events == [] then []
    else
      EventsOf(events[..|events| - 1], owner)
      + (if events[|events| - 1].owner == owner then [events[|events| - 1]] else [])
  }

  function EventsFor(owner: nat, names: seq<string>, outcome: string): (events: seq<Event>)
    ensures |events| == |names|
  {
    seq(|names|, i requires 0 <= i < |names| => Event(owner, names[i], outcome))
  }

  /** The rows of a call are `ids`, one for each name in order. */
  ghost predicate AreRows(rows: map<nat, Row>, owner: nat, ids: seq<nat>, names: seq<string>, outcome: string,
                          completions: nat) {
    && |ids| == |names|
    && (forall i | 0 <= i < |ids| :: ids[i] in rows && rows[ids[i]] == Row(owner, names[i], outcome, completions))
    && (forall i, j | 0 <= i < j < |ids| :: ids[i] != ids[j])
    && (forall id | id in rows && rows[id].owner == owner :: id in ids)
  }

  lemma EventAppended(events: seq<Event>, event: Event, owner: nat)
    ensures EventsOf(events + [event], owner)
            == EventsOf(events, owner) + if event.owner == owner then [event] else []
  {
    assert (events + [event])[..|events|] == events;
  }

  /** The leases a call holds: of one key each, given out and still unreleased. */
  ghost predicate AreHeld(leases: seq<Lease>, held: seq<nat>) {
    && (forall i | 0 <= i < |held| :: held[i] < |leases| && !leases[held[i]].isReleased)
    && (forall i, j | 0 <= i < j < |held| :: held[i] != held[j])
  }

  class Engine {
    const limits: ActionLimits
    var rows: map<nat, Row>
    var events: seq<Event>
    var nextId: nat

    ghost function Repr(): set<object> {
      {this} + limits.Repr()
    }

    ghost predicate Valid()
      reads Repr()
    {
      this !in limits.Repr() && limits.Valid() && forall id | id in rows :: id < nextId
    }

    constructor ()
      ensures Valid() && fresh(Repr()) && rows == map[] && events == []
    {
      limits := new ActionLimits();
      rows := map[];
      events := [];
      nextId := 0;
    }

    method InsertRow(owner: nat, name: string, outcome: string) returns (id: nat)
      requires Valid()
      modifies this`rows, this`nextId
      ensures Valid() && id !in old(rows) && rows == old(rows)[id := Row(owner, name, outcome, 0)]
    {
      id := nextId;
      nextId := nextId + 1;
      rows := rows[id := Row(owner, name, outcome, 0)];
    }

    /** A refused or failed name: one row and one event. */
    method RecordFailure(owner: nat, name: string, code: string) returns (id: nat)
      requires Valid()
      modifies this
      ensures Valid() && id !in old(rows) && rows == old(rows)[id := Row(owner, name, OutcomeOf(code), 0)]
      ensures events == old(events) + [Event(owner, name, OutcomeOf(code))]
    {
      id := InsertRow(owner, name, OutcomeOf(code));
      events := events + [Event(owner, name, OutcomeOf(code))];
    }

    /** `complete` of a reservation. */
    method Complete(id: nat, outcome: string)
      requires Valid() && id in rows
      modifies this`rows, this`events
      ensures Valid()
      ensures rows == old(rows)[id := old(rows)[id].(outcome := outcome, completions := old(rows)[id].completions + 1)]
      ensures events == old(events) + [Event(old(rows)[id].owner, old(rows)[id].name, outcome)]
    {
      var row := rows[id];
      rows := rows[id := row.(outcome := outcome, completions := row.completions + 1)];
      events := events + [Event(row.owner, row.name, outcome)];
    }

    /** Other calls run while this one awaits: they write and complete their own rows and take and return their own
        leases. */
    method Elsewhere(steps: seq<Other>, owner: nat, heldTargets: seq<nat>, heldClients: seq<nat>)
      requires Valid() && AreHeld(limits.inFlightTargets.leases, heldTargets)
      requires AreHeld(limits.inFlightClients.leases, heldClients)
      modifies Repr()
      ensures Valid() && AreHeld(limits.inFlightTargets.leases, heldTargets)
      ensures AreHeld(limits.inFlightClients.leases, heldClients)
      ensures EventsOf(events, owner) == EventsOf(old(events), owner)
      ensures SameOwn(old(rows), rows, owner)
    {
      hide EventsOf, AreHeld;
      for n := 0 to |steps|
        invariant Valid() && AreHeld(limits.inFlightTargets.leases, heldTargets)
        invariant AreHeld(limits.inFlightClients.leases, heldClients)
        invariant EventsOf(events, owner) == EventsOf(old(events), owner)
        invariant SameOwn(old(rows), rows, owner)
      {
        OneElsewhere(steps[n], owner, heldTargets, heldClients);
      }
    }

    method OneElsewhere(step: Other, owner: nat, heldTargets: seq<nat>, heldClients: seq<nat>)
      requires Valid() && AreHeld(limits.inFlightTargets.leases, heldTargets)
      requires AreHeld(limits.inFlightClients.leases, heldClients)
      modifies Repr()
      ensures Valid() && AreHeld(limits.inFlightTargets.leases, heldTargets)
      ensures AreHeld(limits.inFlightClients.leases, heldClients)
      ensures EventsOf(events, owner) == EventsOf(old(events), owner)
      ensures SameOwn(old(rows), rows, owner)
    {
      hide EventsOf;
      match step {
        case WritesRow(other, name, outcome) =>
          if other != owner {
            var id := InsertRow(other, name, outcome);
          }
        case CompletesRow(id, outcome) =>
          if id in rows && rows[id].owner != owner {
            EventAppended(events, Event(rows[id].owner, rows[id].name, outcome), owner);
            Complete(id, outcome);
          }
        case Acquires(key, at) =>
          HeldStays(limits.Value(), key, at, heldTargets, heldClients);
          hide Acquired, AreHeld;
          var decision := limits.Acquire(key, at);
        case Releases(targetLease, clientLease) =>
          if targetLease < |limits.inFlightTargets.leases| && clientLease < |limits.inFlightClients.leases|
             && targetLease !in heldTargets && clientLease !in heldClients {
            limits.Release(targetLease, clientLease);
          }
      }
    }

    /** Every name gets its row and event with the one error; the agent hears which name failed. */
    method FailAll(owner: nat, names: seq<string>, failing: nat, code: string)
      returns (answer: CallOutcome, ids: seq<nat>)
      requires Valid() && failing < |names| && forall id | id in rows :: rows[id].owner != owner
      modifies this
      ensures Valid() && answer == Refusal(code, Some(names[failing]))
      ensures Leaves(rows, events, old(events), owner, ids, names, OutcomeOf(code), false)
    {
      hide Leaves;
      ids := RecordAll(owner, names, code);
      answer := Refusal(code, Some(names[failing]));
    }

    method RecordAll(owner: nat, names: seq<string>, code: string) returns (ids: seq<nat>)
      requires Valid() && forall id | id in rows :: rows[id].owner != owner
      modifies this
      ensures Valid() && Leaves(rows, events, old(events), owner, ids, names, OutcomeOf(code), false)
    {
      hide EventsOf, OutcomeOf;
      ids := [];
      for i := 0 to |names|
        invariant Valid() && AreRows(rows, owner, ids, names[..i], OutcomeOf(code), 0)
        invariant EventsOf(events, owner)
                  == EventsOf(old(events), owner) + EventsFor(owner, names[..i], OutcomeOf(code))
      {
        EventAppended(events, Event(owner, names[i], OutcomeOf(code)), owner);
        ghost var was := rows;
        var id := RecordFailure(owner, names[i], code);
        OneMoreRow(was, owner, ids, names, i, OutcomeOf(code), id);
        OneMoreEvent(owner, names, i, OutcomeOf(code));
        ids := ids + [id];
      }
      assert names[..|names|] == names;
    }

    /** Every name is resolved; the first that fails fails the call for all of them. */
    method ResolveAll(owner: nat, names: seq<string>, resolutions: seq<Resolution>)
      returns (answer: Option<CallOutcome>, ids: seq<nat>)
      requires Valid() && |names| == |resolutions| && forall id | id in rows :: rows[id].owner != owner
      modifies this
      ensures Valid()
      ensures answer.Some? <==> FirstError(ResolutionErrors(resolutions)).Some?
      ensures answer.None? ==> rows == old(rows) && events == old(events)
      ensures answer.Some? ==>
                var refused := RefusedFor(ResolutionErrors(resolutions), names);
                && Leaves(rows, events, old(events), owner, ids, names, refused.outcome, refused.isReserved)
                && answer.value == refused.answer
    {
      hide Leaves, OutcomeOf, FirstError;
      ghost var errors := ResolutionErrors(resolutions);
      var first: Option<nat> := None;
      var error := "";
      for i := 0 to |names|
        invariant first.None? ==> forall j | 0 <= j < i :: errors[j].None?
        invariant first.Some? ==> first.value < i && errors[first.value] == Some(error)
                                  && forall j | 0 <= j < first.value :: errors[j].None?
      {
        var problem := ResolutionError(resolutions[i]);
        if problem.Some? && first.None? {
          first, error := Some(i), problem.value;
        }
      }
      FirstErrorAt(errors, first);
      ids := [];
      answer := None;
      if first.Some? {
        var refused;
        refused, ids := FailAll(owner, names, first.value, error);
        answer := Some(refused);
      }
    }

    /** The four limits of every name, taken whether or not an earlier name was refused. */
    method AcquireAll(clientId: string, resolutions: seq<Resolution>, ats: seq<int>)
      returns (decisions: seq<LimitDecision>)
      requires Valid() && |ats| == |resolutions| && forall i | 0 <= i < |resolutions| :: resolutions[i].ResolvedTo?
      modifies limits.Repr()
      ensures Valid() && |decisions| == |resolutions|
      ensures (limits.Value(), decisions) == AcquiredAll(old(limits.Value()), LimitKeys(resolutions, clientId), ats)
      ensures AreHeld(limits.inFlightTargets.leases, HeldTargets(decisions))
      ensures AreHeld(limits.inFlightClients.leases, HeldClients(decisions))
    {
      hide AreHeld, HeldTargets, HeldClients, Acquired;
      decisions := [];
      NoneHeld(limits.inFlightTargets.leases);
      NoneHeld(limits.inFlightClients.leases);
      for i := 0 to |resolutions|
        invariant Valid() && |decisions| == i
        invariant AreHeld(limits.inFlightTargets.leases, HeldTargets(decisions))
        invariant AreHeld(limits.inFlightClients.leases, HeldClients(decisions))
        invariant (limits.Value(), decisions)
                  == AcquiredAll(old(limits.Value()), LimitKeys(resolutions, clientId)[..i], ats[..i])
      {
        OneMoreAcquired(old(limits.Value()), LimitKeys(resolutions, clientId), ats, i);
        var key := LimitKey(resolutions[i].targetId, clientId, resolutions[i].perMinute);
        OneMoreHeld(limits.Value(), key, ats[i], decisions);
        var decision := limits.Acquire(key, ats[i]);
        decisions := decisions + [decision];
      }
      assert LimitKeys(resolutions, clientId)[..|resolutions|] == LimitKeys(resolutions, clientId);
      assert ats[..|resolutions|] == ats;
    }

    /** The `finally` of the call. */
    method ReleaseAll(decisions: seq<LimitDecision>)
      requires Valid() && AreHeld(limits.inFlightTargets.leases, HeldTargets(decisions))
      requires AreHeld(limits.inFlightClients.leases, HeldClients(decisions))
      modifies limits.Repr()
      ensures Valid()
      ensures AreReleased(limits.inFlightTargets.leases, limits.inFlightClients.leases, decisions, |decisions|)
    {
      hide AreHeld, HeldTargets, HeldClients;
      HeldAreGivenOut(limits.inFlightTargets.leases, limits.inFlightClients.leases, decisions);
      for i := 0 to |decisions|
        invariant Valid() && AreReleased(limits.inFlightTargets.leases, limits.inFlightClients.leases, decisions, i)
      {
        if decisions[i].Admitted? {
          limits.Release(decisions[i].targetLease, decisions[i].clientLease);
        }
      }
    }

    method Reserve(owner: nat, names: seq<string>) returns (ids: seq<nat>)
      requires Valid() && forall id | id in rows :: rows[id].owner != owner
      modifies this`rows, this`nextId
      ensures Valid() && AreRows(rows, owner, ids, names, INTERRUPTED, 0)
    {
      ids := [];
      for i := 0 to |names|
        invariant Valid() && AreRows(rows, owner, ids, names[..i], INTERRUPTED, 0)
      {
        ghost var was := rows;
        var id := InsertRow(owner, names[i], INTERRUPTED);
        OneMoreRow(was, owner, ids, names, i, INTERRUPTED, id);
        ids := ids + [id];
      }
      assert names[..|names|] == names;
    }

    /** Each reserved row is completed, once. */
    method CompleteAll(owner: nat, names: seq<string>, ids: seq<nat>, outcome: string)
      requires Valid() && AreRows(rows, owner, ids, names, INTERRUPTED, 0)
      modifies this`rows, this`events
      ensures Valid() && Leaves(rows, events, old(events), owner, ids, names, outcome, true)
    {
      hide EventsOf, AreRows, EventsFor, AreHalfDone;
      RowsBegin(rows, owner, ids, names, outcome);
      for i := 0 to |ids|
        invariant Valid() && AreHalfDone(rows, owner, ids, names, outcome, i)
        invariant |ids| == |names|
        invariant EventsOf(events, owner) == EventsOf(old(events), owner) + EventsFor(owner, names[..i], outcome)
      {
        EventAppended(events, Event(owner, names[i], outcome), owner);
        OneMoreEvent(owner, names, i, outcome);
        OneMoreDone(rows, owner, ids, names, outcome, i);
        Complete(ids[i], outcome);
        Associates(EventsOf(old(events), owner), EventsFor(owner, names[..i], outcome),
                   [Event(owner, names[i], outcome)]);
      }
      assert names[..|names|] == names;
      RowsEnd(rows, owner, ids, names, outcome);
    }

    /** Fetch and pin every credential, then run. A holder is disposed of where its life ends. */
    method ExecuteMany(owner: nat, names: seq<string>, attempts: seq<Attempt>, end: RunEnd, duringRun: seq<Other>,
                       heldTargets: seq<nat>, heldClients: seq<nat>)
      returns (answer: CallOutcome, ids: seq<nat>, holders: seq<nat>)
      requires Valid() && |names| == |attempts| && forall id | id in rows :: rows[id].owner != owner
      requires AreHeld(limits.inFlightTargets.leases, heldTargets)
      requires AreHeld(limits.inFlightClients.leases, heldClients)
      modifies Repr()
      ensures Valid()
      ensures AreHeld(limits.inFlightTargets.leases, heldTargets) && AreHeld(limits.inFlightClients.leases, heldClients)
      ensures var verdict := VerdictOnCredentials(names, attempts, end);
              && answer == verdict.answer
              && Leaves(rows, events, old(events), owner, ids, names, verdict.outcome, verdict.isReserved)
      ensures |holders| == FetchedBy(attempts) && forall i | 0 <= i < |holders| :: holders[i] == 1
    {
      hide EventsOf, AreHeld, Leaves, OutcomeOf, AfterRun, VerdictOnCredentials, FetchedBy, Valid;
      holders := [];
      for index := 0 to |names|
        invariant Valid() && AreHeld(limits.inFlightTargets.leases, heldTargets)
        invariant AreHeld(limits.inFlightClients.leases, heldClients)
        invariant forall id | id in rows :: rows[id].owner != owner
        invariant EventsOf(events, owner) == EventsOf(old(events), owner)
        invariant |holders| == index && forall j | 0 <= j < index :: holders[j] == 0
        invariant forall j | 0 <= j < index :: AttemptError(attempts[j]).None?
      {
        Elsewhere(attempts[index].duringFetch, owner, heldTargets, heldClients);
        if attempts[index].fetch.Some? {
          CredentialsFail(names, attempts, end, index);
          holders := DisposeAll(holders, index);
          ghost var was := events;
          answer, ids := FailAll(owner, names, index, attempts[index].fetch.value);
          LeavesSince(rows, events, was, old(events), owner, ids, names, OutcomeOf(attempts[index].fetch.value), false);
          return;
        }
        holders := holders + [0];
        Elsewhere(attempts[index].duringPin, owner, heldTargets, heldClients);
        if attempts[index].pin.Some? {
          CredentialsFail(names, attempts, end, index);
          holders := holders[index := holders[index] + 1];
          holders := DisposeAll(holders, index);
          ghost var was := events;
          answer, ids := FailAll(owner, names, index, attempts[index].pin.value);
          LeavesSince(rows, events, was, old(events), owner, ids, names, OutcomeOf(attempts[index].pin.value), false);
          return;
        }
      }
      CredentialsHold(names, attempts, end);
      ghost var was := events;
      answer, ids, holders := RunReserved(owner, names, end, duringRun, heldTargets, heldClients, holders);
      LeavesSince(rows, events, was, old(events), owner, ids, names, AfterRun(end).outcome, AfterRun(end).isReserved);
    }

    /** The second half: reserve a row for every name, run the connector, complete the rows. */
    method RunReserved(owner: nat, names: seq<string>, end: RunEnd, duringRun: seq<Other>, heldTargets: seq<nat>,
                       heldClients: seq<nat>, fetched: seq<nat>)
      returns (answer: CallOutcome, ids: seq<nat>, holders: seq<nat>)
      requires Valid() && forall id | id in rows :: rows[id].owner != owner
      requires AreHeld(limits.inFlightTargets.leases, heldTargets)
      requires AreHeld(limits.inFlightClients.leases, heldClients)
      requires forall i | 0 <= i < |fetched| :: fetched[i] == 0
      modifies Repr()
      ensures Valid()
      ensures AreHeld(limits.inFlightTargets.leases, heldTargets) && AreHeld(limits.inFlightClients.leases, heldClients)
      ensures answer == AfterRun(end).answer
      ensures Leaves(rows, events, old(events), owner, ids, names, AfterRun(end).outcome, AfterRun(end).isReserved)
      ensures |holders| == |fetched| && forall i | 0 <= i < |holders| :: holders[i] == 1
    {
      hide EventsOf, AreHeld, AreRows, EventsFor;
      ids := Reserve(owner, names);
      ghost var reserved := rows;
      holders := RunConnectorMany(owner, duringRun, heldTargets, heldClients, fetched);
      SameRows(reserved, rows, owner, ids, names, INTERRUPTED, 0);
      var code := RunCode(end);
      if code.Some? {
        CompleteAll(owner, names, ids, "error:" + code.value);
        answer := Refusal(code.value, None);
        return;
      }
      CompleteAll(owner, names, ids, "ok");
      answer := Done;
    }

    /** However the run ends, every holder it was given is disposed of. */
    method RunConnectorMany(owner: nat, duringRun: seq<Other>, heldTargets: seq<nat>, heldClients: seq<nat>,
                            holders: seq<nat>) returns (after: seq<nat>)
      requires Valid() && AreHeld(limits.inFlightTargets.leases, heldTargets)
      requires AreHeld(limits.inFlightClients.leases, heldClients)
      modifies Repr()
      ensures Valid() && AreHeld(limits.inFlightTargets.leases, heldTargets)
      ensures AreHeld(limits.inFlightClients.leases, heldClients)
      ensures EventsOf(events, owner) == EventsOf(old(events), owner) && SameOwn(old(rows), rows, owner)
      ensures |after| == |holders| && forall i | 0 <= i < |holders| :: after[i] == holders[i] + 1
    {
      hide EventsOf, AreHeld;
      Elsewhere(duringRun, owner, heldTargets, heldClients);
      after := DisposeAll(holders, |holders|);
    }

    /** Whatever is wrong with the call, and whenever: a row and an event for each name with the outcome the verdict
        gives, no lease kept, no holder left or disposed of twice. */
    method CallMany(owner: nat, target: string, names: seq<string>, max: nat, hasSingleOnly: bool,
                    resolutions: seq<Resolution>, isJointlyRefused: bool, clientId: string, ats: seq<int>,
                    attempts: seq<Attempt>, duringRun: seq<Other>, end: RunEnd)
      returns (answer: CallOutcome, ids: seq<nat>, decisions: seq<LimitDecision>, holders: seq<nat>)
      requires Valid() && |names| == |resolutions| == |attempts| == |ats|
      requires forall id | id in rows :: rows[id].owner != owner
      modifies Repr()
      ensures Valid() && decisions == if ReachesLimits(names, max, hasSingleOnly, resolutions, isJointlyRefused)
                                      then AcquiredAll(old(limits.Value()), LimitKeys(resolutions, clientId), ats).1
                                      else []
      ensures !IsGoodRepo(names, max, hasSingleOnly) ==>
                Leaves(rows, events, old(events), owner, ids, [target], OutcomeOf("invalid_arguments"), false)
                && answer == Refusal("invalid_arguments", None)
      ensures IsGoodRepo(names, max, hasSingleOnly) ==>
                var verdict := VerdictOf(names, resolutions, isJointlyRefused, decisions, attempts, end);
                && answer == verdict.answer
                && Leaves(rows, events, old(events), owner, ids, names, verdict.outcome, verdict.isReserved)
      ensures AreReleased(limits.inFlightTargets.leases, limits.inFlightClients.leases, decisions, |decisions|)
      ensures |holders| == if ReachesLimits(names, max, hasSingleOnly, resolutions, isJointlyRefused)
                              && FirstError(LimitErrors(decisions)).None?
                           then FetchedBy(attempts) else 0
      ensures forall i | 0 <= i < |holders| :: holders[i] == 1
    {
      hide EventsOf, AreHeld, HeldTargets, HeldClients, Leaves, OutcomeOf, FirstError, VerdictOnCredentials;
      hide FetchedBy, LimitErrors, Valid;
      hide AcquiredAll, LimitKeys, ReachesLimits;
      Reaching(names, max, hasSingleOnly, resolutions, isJointlyRefused);
      ids, decisions, holders := [], [], [];
      var distinct := set name | name in names;
      if |distinct| != |names| || |names| == 0 || |names| > max || (|names| > 1 && hasSingleOnly) {
        ids := RecordAll(owner, [target], "invalid_arguments");
        return Refusal("invalid_arguments", None), ids, decisions, holders;
      }
      var failed;
      failed, ids := ResolveAll(owner, names, resolutions);
      if failed.Some? {
        return failed.value, ids, decisions, holders;
      }
      AllResolved(resolutions);
      if isJointlyRefused {
        ids := RecordAll(owner, names, "policy_denied");
        return Refusal("policy_denied", None), ids, decisions, holders;
      }
      decisions := AcquireAll(clientId, resolutions, ats);
      var refusedAt := RefusedAt(decisions);
      if refusedAt.Some? {
        answer, ids := FailAll(owner, names, refusedAt.value, "rate_limited");
      } else {
        answer, ids, holders :=
          ExecuteMany(owner, names, attempts, end, duringRun, HeldTargets(decisions), HeldClients(decisions));
      }
      ReleaseAll(decisions);
    }
  }

  // ---------- helpers of the call ----------

  function LimitKeyOf(resolution: Resolution, clientId: string): LimitKey {
    match resolution
    case Unresolved(_) => LimitKey("", clientId, 1)
    case ResolvedTo(_, targetId, perMinute) => LimitKey(targetId, clientId, perMinute)
  }

  function LimitKeys(resolutions: seq<Resolution>, clientId: string): (keys: seq<LimitKey>)
    ensures |keys| == |resolutions|
  {
    seq(|resolutions|, i requires 0 <= i < |resolutions| => LimitKeyOf(resolutions[i], clientId))
  }

  /** Every name's limits taken in turn. */
  function AcquiredAll(l: Limits, keys: seq<LimitKey>, ats: seq<int>): (r: (Limits, seq<LimitDecision>))
    requires |keys| == |ats|
    ensures |r.1| == |keys|
    decreases |keys|
  {
    if keys == [] then (l, [])
    else
      var n := |keys| - 1;
      var (before, decisions) := AcquiredAll(l, keys[..n], ats[..n]);
      var (after, decision) := Acquired(before, keys[n], ats[n]);
      (after, decisions + [decision])
  }

  lemma OneMoreAcquired(l: Limits, keys: seq<LimitKey>, ats: seq<int>, i: nat)
    requires i < |keys| == |ats|
    ensures var (before, decisions) := AcquiredAll(l, keys[..i], ats[..i]);
            var (after, decision) := Acquired(before, keys[i], ats[i]);
            AcquiredAll(l, keys[..i + 1], ats[..i + 1]) == (after, decisions + [decision])
  {
    assert keys[..i + 1][..i] == keys[..i] && ats[..i + 1][..i] == ats[..i];
  }

  lemma Reaching(names: seq<string>, max: nat, hasSingleOnly: bool, resolutions: seq<Resolution>,
                 isJointlyRefused: bool)
    ensures ReachesLimits(names, max, hasSingleOnly, resolutions, isJointlyRefused)
            <==> IsGoodRepo(names, max, hasSingleOnly) && FirstError(ResolutionErrors(resolutions)).None?
                 && !isJointlyRefused
  {
  }

  /** The call gets as far as its limits. */
  ghost predicate ReachesLimits(names: seq<string>, max: nat, hasSingleOnly: bool, resolutions: seq<Resolution>,
                                isJointlyRefused: bool) {
    IsGoodRepo(names, max, hasSingleOnly) && FirstError(ResolutionErrors(resolutions)).None? && !isJointlyRefused
  }

  /** The rows and events one call leaves: each row completed once if the call reserved it, never otherwise. */
  ghost predicate Leaves(rows: map<nat, Row>, events: seq<Event>, was: seq<Event>, owner: nat, ids: seq<nat>,
                         names: seq<string>, outcome: string, isReserved: bool) {
    && AreRows(rows, owner, ids, names, outcome, if isReserved then 1 else 0)
    && EventsOf(events, owner) == EventsOf(was, owner) + EventsFor(owner, names, outcome)
  }

  /** One to `max` distinct names, and none of the arguments allowed with one only. */
  ghost predicate IsGoodRepo(names: seq<string>, max: nat, hasSingleOnly: bool) {
    && 1 <= |names| <= max && (|names| > 1 ==> !hasSingleOnly) && |set name | name in names| == |names|
  }

  /** The credentials a call fetches before something fails. */
  function FetchedBy(attempts: seq<Attempt>): nat {
    var first := FirstError(AttemptErrors(attempts));
    if first.None? then |attempts| else first.value + if attempts[first.value].fetch.None? then 1 else 0
  }

  lemma FirstErrorAt(errors: seq<Option<string>>, at: Option<nat>)
    requires at.None? ==> forall j | 0 <= j < |errors| :: errors[j].None?
    requires at.Some? ==>
               at.value < |errors| && errors[at.value].Some? && forall j | 0 <= j < at.value :: errors[j].None?
    ensures FirstError(errors) == at
  {
    FirstErrorIsFirst(errors);
  }

  /** `dispose` of the first `n` holders, in turn. */
  method DisposeAll(holders: seq<nat>, n: nat) returns (after: seq<nat>)
    requires n <= |holders|
    ensures |after| == |holders|
    ensures forall i | 0 <= i < |holders| :: after[i] == holders[i] + if i < n then 1 else 0
  {
    after := holders;
    for i := 0 to n
      invariant |after| == |holders|
      invariant forall j | 0 <= j < |holders| :: after[j] == holders[j] + if j < i then 1 else 0
    {
      after := after[i := after[i] + 1];
    }
  }

  /** The index of the first refused limit. */
  method RefusedAt(decisions: seq<LimitDecision>) returns (at: Option<nat>)
    ensures at == FirstError(LimitErrors(decisions))
    ensures at.Some? ==> LimitErrors(decisions)[at.value] == Some("rate_limited")
  {
    at := None;
    for i := 0 to |decisions|
      invariant forall j | 0 <= j < i :: LimitErrors(decisions)[j].None?
    {
      if decisions[i].Denied? {
        FirstErrorAt(LimitErrors(decisions), Some(i));
        return Some(i);
      }
    }
    FirstErrorAt(LimitErrors(decisions), None);
  }

  lemma CredentialsFail(names: seq<string>, attempts: seq<Attempt>, end: RunEnd, k: nat)
    requires k < |names| == |attempts| && AttemptError(attempts[k]).Some?
    requires forall j | 0 <= j < k :: AttemptError(attempts[j]).None?
    ensures var code := AttemptError(attempts[k]).value;
            VerdictOnCredentials(names, attempts, end) == Verdict(Refusal(code, Some(names[k])), OutcomeOf(code), false)
    ensures FetchedBy(attempts) == k + if attempts[k].fetch.None? then 1 else 0
  {
    FirstErrorAt(AttemptErrors(attempts), Some(k));
  }

  lemma CredentialsHold(names: seq<string>, attempts: seq<Attempt>, end: RunEnd)
    requires |names| == |attempts| && forall j | 0 <= j < |attempts| :: AttemptError(attempts[j]).None?
    ensures VerdictOnCredentials(names, attempts, end) == AfterRun(end) && FetchedBy(attempts) == |attempts|
  {
    FirstErrorAt(AttemptErrors(attempts), None);
  }

  /** Events of others in between are no part of what a call leaves. */
  lemma LeavesSince(rows: map<nat, Row>, events: seq<Event>, was: seq<Event>, before: seq<Event>, owner: nat,
                    ids: seq<nat>, names: seq<string>, outcome: string, isReserved: bool)
    requires EventsOf(was, owner) == EventsOf(before, owner)
    requires Leaves(rows, events, was, owner, ids, names, outcome, isReserved)
    ensures Leaves(rows, events, before, owner, ids, names, outcome, isReserved)
  {
  }

  lemma AllResolved(resolutions: seq<Resolution>)
    requires FirstError(ResolutionErrors(resolutions)).None?
    ensures forall i | 0 <= i < |resolutions| :: resolutions[i].ResolvedTo?
  {
    FirstErrorIsFirst(ResolutionErrors(resolutions));
    assert forall i | 0 <= i < |resolutions| :: ResolutionErrors(resolutions)[i] == ResolutionError(resolutions[i]);
  }

  function HeldTargets(decisions: seq<LimitDecision>): seq<nat> {
    if decisions == [] then []
    else
      HeldTargets(decisions[..|decisions| - 1])
      + (if decisions[|decisions| - 1].Admitted? then [decisions[|decisions| - 1].targetLease] else [])
  }

  function HeldClients(decisions: seq<LimitDecision>): seq<nat> {
    if decisions == [] then []
    else
      HeldClients(decisions[..|decisions| - 1])
      + (if decisions[|decisions| - 1].Admitted? then [decisions[|decisions| - 1].clientLease] else [])
  }

  lemma NoneHeld(leases: seq<Lease>)
    ensures AreHeld(leases, HeldTargets([])) && AreHeld(leases, HeldClients([]))
  {
  }

  lemma HeldAppend(leases: seq<Lease>, held: seq<nat>, key: string)
    requires AreHeld(leases, held)
    ensures AreHeld(leases + [Lease(key, false)], held + [|leases|])
  {
    var more, list := leases + [Lease(key, false)], held + [|leases|];
    assert forall i | 0 <= i < |held| :: list[i] == held[i] && more[held[i]] == leases[held[i]];
    assert list[|held|] == |leases| && more[|leases|] == Lease(key, false);
  }

  lemma HeldStays(l: Limits, key: LimitKey, at: int, heldTargets: seq<nat>, heldClients: seq<nat>)
    requires AreHeld(l.targetLeases, heldTargets) && AreHeld(l.clientLeases, heldClients)
    ensures var next := Acquired(l, key, at).0;
            AreHeld(next.targetLeases, heldTargets) && AreHeld(next.clientLeases, heldClients)
  {
    hide Taken;
  }

  lemma HeldStep(decisions: seq<LimitDecision>, decision: LimitDecision)
    ensures HeldTargets(decisions + [decision])
            == HeldTargets(decisions) + if decision.Admitted? then [decision.targetLease] else []
    ensures HeldClients(decisions + [decision])
            == HeldClients(decisions) + if decision.Admitted? then [decision.clientLease] else []
  {
    assert (decisions + [decision])[..|decisions|] == decisions;
  }

  lemma OneMoreHeld(l: Limits, key: LimitKey, at: int, decisions: seq<LimitDecision>)
    requires AreHeld(l.targetLeases, HeldTargets(decisions)) && AreHeld(l.clientLeases, HeldClients(decisions))
    ensures var (next, decision) := Acquired(l, key, at);
            && AreHeld(next.targetLeases, HeldTargets(decisions + [decision]))
            && AreHeld(next.clientLeases, HeldClients(decisions + [decision]))
  {
    hide AreHeld, HeldTargets, HeldClients, Taken;
    HeldStep(decisions, Acquired(l, key, at).1);
    HeldAppend(l.targetLeases, HeldTargets(decisions), key.targetId);
    HeldAppend(l.clientLeases, HeldClients(decisions), key.clientId);
    assert HeldTargets(decisions) + [] == HeldTargets(decisions);
    assert HeldClients(decisions) + [] == HeldClients(decisions);
  }

  /** Of the first `n` decisions, every lease given is released; all of them were given out. */
  ghost predicate AreReleased(targets: seq<Lease>, clients: seq<Lease>, decisions: seq<LimitDecision>, n: nat) {
    forall i | 0 <= i < |decisions| && decisions[i].Admitted? ::
      && decisions[i].targetLease < |targets| && decisions[i].clientLease < |clients|
      && (i < n ==> targets[decisions[i].targetLease].isReleased && clients[decisions[i].clientLease].isReleased)
  }

  lemma {:induction false} HeldAreGivenOut(targets: seq<Lease>, clients: seq<Lease>, decisions: seq<LimitDecision>)
    requires AreHeld(targets, HeldTargets(decisions)) && AreHeld(clients, HeldClients(decisions))
    ensures AreReleased(targets, clients, decisions, 0)
  {
    if decisions != [] {
      var front, last := decisions[..|decisions| - 1], decisions[|decisions| - 1];
      FrontIsHeld(targets, HeldTargets(front), HeldTargets(decisions));
      FrontIsHeld(clients, HeldClients(front), HeldClients(decisions));
      HeldAreGivenOut(targets, clients, front);
      if last.Admitted? {
        assert HeldTargets(decisions)[|HeldTargets(front)|] == last.targetLease;
        assert HeldClients(decisions)[|HeldClients(front)|] == last.clientLease;
      }
      forall i | 0 <= i < |decisions| && decisions[i].Admitted?
        ensures decisions[i].targetLease < |targets| && decisions[i].clientLease < |clients|
      {
        if i < |front| {
          assert front[i] == decisions[i];
        }
      }
    }
  }

  lemma FrontIsHeld(leases: seq<Lease>, front: seq<nat>, held: seq<nat>)
    requires front <= held && AreHeld(leases, held)
    ensures AreHeld(leases, front)
  {
    assert forall i | 0 <= i < |front| :: front[i] == held[i];
  }

  /** The first `n` rows are completed, the others still reserved. */
  ghost predicate AreHalfDone(rows: map<nat, Row>, owner: nat, ids: seq<nat>, names: seq<string>, outcome: string,
                              n: nat) {
    && |ids| == |names|
    && (forall i | 0 <= i < |ids| ::
          && ids[i] in rows
          && rows[ids[i]] == if i < n then Row(owner, names[i], outcome, 1) else Row(owner, names[i], INTERRUPTED, 0))
    && (forall i, j | 0 <= i < j < |ids| :: ids[i] != ids[j])
    && (forall id | id in rows && rows[id].owner == owner :: id in ids)
  }

  lemma RowsBegin(rows: map<nat, Row>, owner: nat, ids: seq<nat>, names: seq<string>, outcome: string)
    requires AreRows(rows, owner, ids, names, INTERRUPTED, 0)
    ensures AreHalfDone(rows, owner, ids, names, outcome, 0) && |ids| == |names|
  {
  }

  lemma OneMoreDone(rows: map<nat, Row>, owner: nat, ids: seq<nat>, names: seq<string>, outcome: string, i: nat)
    requires i < |ids| == |names| && AreHalfDone(rows, owner, ids, names, outcome, i)
    ensures ids[i] in rows && rows[ids[i]] == Row(owner, names[i], INTERRUPTED, 0)
    ensures AreHalfDone(rows[ids[i] := Row(owner, names[i], outcome, 1)], owner, ids, names, outcome, i + 1)
  {
  }

  lemma RowsEnd(rows: map<nat, Row>, owner: nat, ids: seq<nat>, names: seq<string>, outcome: string)
    requires AreHalfDone(rows, owner, ids, names, outcome, |ids|)
    ensures AreRows(rows, owner, ids, names, outcome, 1)
  {
  }

  lemma SameRows(was: map<nat, Row>, now: map<nat, Row>, owner: nat, ids: seq<nat>, names: seq<string>, outcome: string,
                 completions: nat)
    requires SameOwn(was, now, owner) && AreRows(was, owner, ids, names, outcome, completions)
    ensures AreRows(now, owner, ids, names, outcome, completions)
  {
  }

  /** The rows of one call are untouched by the steps of others. */
  ghost predicate SameOwn(was: map<nat, Row>, now: map<nat, Row>, owner: nat) {
    && (forall id | id in was && was[id].owner == owner :: id in now && now[id] == was[id])
    && (forall id | id in now && now[id].owner == owner :: id in was && was[id] == now[id])
  }

  lemma OneMoreRow(rows: map<nat, Row>, owner: nat, ids: seq<nat>, names: seq<string>, i: nat, outcome: string, id: nat)
    requires i < |names| && AreRows(rows, owner, ids, names[..i], outcome, 0) && id !in rows
    ensures AreRows(rows[id := Row(owner, names[i], outcome, 0)], owner, ids + [id], names[..i + 1], outcome, 0)
  {
    assert names[..i + 1] == names[..i] + [names[i]];
  }

  lemma OneMoreEvent(owner: nat, names: seq<string>, i: nat, outcome: string)
    requires i < |names|
    ensures EventsFor(owner, names[..i + 1], outcome)
            == EventsFor(owner, names[..i], outcome) + [Event(owner, names[i], outcome)]
  {
  }
}
