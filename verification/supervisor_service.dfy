/** What the supervisor is for: a child is served only after it was brought up in full; left in peace, the restart loop
    always comes to serve one; and every call comes to an end. */
module SupervisorService {
  import opened Supervisor
  import opened Wrappers

  // ---------- service is earned ----------

  /** How many of the five awaits of a start have gone well: version, login, status, unlock, first sync. */
  function Passed(start: Start): nat {
    match start
    case LogIn => 1
    case AllocatePort => 2
    case Probe(_) => 2
    case ProbePause(_) => 2
    case Probed(_, ok) => if ok then 3 else 0
    case Unlock(_) => 3
    case UnlockPause(_) => 3
    case Unlocked(_, ok) => if ok then 4 else 0
    case InitialSync(_) => 4
    case Finished(result) => if result.Up? then 5 else 0
    case _ => 0
  }

  /** A start past its `m`-th await; past the third, it is the start of child `c`. */
  predicate IsPast(start: Start, m: nat, c: Child) {
    Passed(start) >= m && (m >= 3 ==> StartHolds(start) == Some(c))
  }

  predicate SomeStartIsPast(s: State, m: nat, c: Child) {
    || (s.loop.Starting? && IsPast(s.loop.start, m, c))
    || (s.loop.Serving? && (m >= 3 ==> s.loop.child == c))
    || (s.operation.StartingNew? && IsPast(s.operation.start, m, c))
    || (s.operation.RetiringOld? && (m >= 3 ==> s.operation.child == c))
  }

  /** The start awaits the `m`-th reply. */
  predicate Awaits(start: Start, m: nat, c: Child) {
    || (m == 1 && start == CheckVersion)
    || (m == 2 && start == LogIn)
    || (m == 3 && start == Probe(c))
    || (m == 4 && start == Unlock(c))
    || (m == 5 && start == InitialSync(c))
  }

  /** The `m`-th await of a start, of child `c` from the third on, is answered, and well; of the first sync it only
      matters that it is over. */
  predicate IsAnswered(s: State, action: Action, m: nat, c: Child) {
    || (action.LoopResumes? && (action.reply == Good || m == 5) && s.loop.Starting? && Awaits(s.loop.start, m, c))
    || (action.OperationResumes? && (action.reply == Good || m == 5)
        && s.operation.StartingNew? && Awaits(s.operation.start, m, c))
  }

  ghost predicate WasAnswered(s: State, actions: seq<Action>, m: nat, c: Child)
    decreases |actions|
  {
    && actions != [] && Step(s, actions[0]).Some?
    && (IsAnswered(s, actions[0], m, c) || WasAnswered(Step(s, actions[0]).value, actions[1..], m, c))
  }

  lemma AdvancePasses(s: State, start: Start, reply: Reply, m: nat, c: Child)
    requires 1 <= m <= 5 && Advance(s, start, reply).Some? && IsPast(Advance(s, start, reply).value.1, m, c)
    ensures IsPast(start, m, c) || ((reply == Good || m == 5) && Awaits(start, m, c))
  {
  }

  lemma LoopPasses(s: State, reply: Reply, m: nat, c: Child)
    requires 1 <= m <= 5 && LoopStep(s, reply).Some? && SomeStartIsPast(LoopStep(s, reply).value, m, c)
    ensures SomeStartIsPast(s, m, c) || IsAnswered(s, LoopResumes(reply), m, c)
  {
    hide Advance;
    LoopLeavesOperation(s, reply);
    if s.loop.Starting? && !s.loop.start.Finished? {
      if IsPast(Advance(s, s.loop.start, reply).value.1, m, c) {
        AdvancePasses(s, s.loop.start, reply, m, c);
      }
    }
  }

  lemma OperationPasses(s: State, reply: Reply, m: nat, c: Child)
    requires 1 <= m <= 5 && OperationStep(s, reply).Some? && SomeStartIsPast(OperationStep(s, reply).value, m, c)
    ensures SomeStartIsPast(s, m, c) || IsAnswered(s, OperationResumes(reply), m, c)
  {
    hide Advance;
    if s.operation.StartingNew? && !s.operation.start.Finished? {
      AdvanceFrame(s, s.operation.start, reply);
      if IsPast(Advance(s, s.operation.start, reply).value.1, m, c) {
        AdvancePasses(s, s.operation.start, reply, m, c);
      }
    }
  }

  lemma StepPasses(s: State, action: Action, m: nat, c: Child)
    requires 1 <= m <= 5 && Step(s, action).Some? && SomeStartIsPast(Step(s, action).value, m, c)
    ensures SomeStartIsPast(s, m, c) || IsAnswered(s, action, m, c)
  {
    hide LoopStep, OperationStep;
    match action {
      case LoopResumes(reply) => LoopPasses(s, reply, m, c);
      case OperationResumes(reply) => OperationPasses(s, reply, m, c);
      case _ =>
    }
  }

  lemma {:induction false} RunPasses(s: State, actions: seq<Action>, s': State, m: nat, c: Child)
    requires 1 <= m <= 5 && Run(s, actions, s') && SomeStartIsPast(s', m, c)
    ensures SomeStartIsPast(s, m, c) || WasAnswered(s, actions, m, c)
    decreases |actions|
  {
    if actions != [] {
      hide SomeStartIsPast, IsAnswered, Step;
      var t := Step(s, actions[0]).value;
      RunPasses(t, actions[1..], s', m, c);
      if SomeStartIsPast(t, m, c) {
        StepPasses(s, actions[0], m, c);
      }
    }
  }

  /** A child is served only when the version was accepted, the login succeeded, and this very child answered, was
      unlocked and had its first sync. */
  lemma ServiceIsEarned(configured: bool, actions: seq<Action>, s: State, m: nat)
    requires Run(Initial(configured), actions, s) && s.loop.Serving? && 1 <= m <= 5
    ensures WasAnswered(Initial(configured), actions, m, s.loop.child)
  {
    RunPasses(Initial(configured), actions, s, m, s.loop.child);
  }

  // ---------- service is reached ----------

  /** Idle, not halted, and the loop has neither ended nor been refused its version. */
  predicate IsLeftInPeace(s: State) {
    && Inv(s) && s.operation.Idle? && !s.isHalted && s.loop != Ended
    && (s.loop.Starting? ==> s.loop.start != Finished(VersionRefused))
  }

  /** Every reply is good, and a child being stopped dies. */
  function Peaceful(s: State): Action {
    if LoopStops(s.loop).Some? && LoopStops(s.loop).value in s.alive then Die(LoopStops(s.loop).value)
    else LoopResumes(Good)
  }

  predicate IsDead(s: State, c: Option<Child>) {
    c.Some? && c.value !in s.alive
  }

  function StartDistance(start: Start): nat {
    match start
    case CheckVersion => 10
    case LogIn => 9
    case AllocatePort => 8
    case ProbePause(_) => 7
    case Probe(_) => 6
    case Probed(_, ok) => if ok then 5 else 18
    case UnlockPause(_) => 5
    case Unlock(_) => 4
    case Unlocked(_, ok) => if ok then 3 else 18
    case InitialSync(_) => 2
    case Detach(_, _) => 16
    case Finished(result) => if result.Up? then 1 else 15
  }

  /** The steps still to go before a live child is served. */
  function Distance(s: State): nat {
    match s.loop
    case Ended => 0
    case Serving(child) => if child in s.alive then 0 else 17
    case Exited(_) => 16
    case BackingOff => 14
    case Rested => 13
    case Starting(_, start) =>
      StartDistance(start)
      + (if start.Detach? then if LoopStops(s.loop).Some? && !IsDead(s, LoopStops(s.loop)) then 1 else 0
         else if IsDead(s, StartHolds(start)) then 20 else 0)
  }

  lemma PeaceDescends(s: State)
    requires IsLeftInPeace(s) && Distance(s) > 0
    ensures Step(s, Peaceful(s)).Some?
    ensures var s' := Step(s, Peaceful(s)).value; IsLeftInPeace(s') && Distance(s') < Distance(s)
  {
    StepKeeps(s, Peaceful(s));
    hide ChildrenHeld, PhasesAgree, OperationStep;
  }

  /** From any state left in peace a live child is served, and the backend ready, within 38 steps of good replies. */
  lemma {:induction false} Recovers(s: State) returns (actions: seq<Action>, s': State)
    requires IsLeftInPeace(s)
    ensures Run(s, actions, s') && s'.loop.Serving? && s'.loop.child in s'.alive && s'.isReady
    ensures |actions| <= Distance(s) <= 38
    ensures forall i | 0 <= i < |actions| :: actions[i].Die? || actions[i] == LoopResumes(Good)
    decreases Distance(s)
  {
    if Distance(s) == 0 {
      actions, s' := [], s;
    } else {
      PeaceDescends(s);
      var rest;
      rest, s' := Recovers(Step(s, Peaceful(s)).value);
      actions := [Peaceful(s)] + rest;
    }
  }

  /** A configured supervisor that is neither reconfigured nor stopped, and whose version was not refused, can always
      come to serve. */
  lemma ReachesService(s: State) returns (actions: seq<Action>, s': State)
    requires Reachable(s) && s.operation.Idle? && !s.isHalted && s.loop != Ended
    requires s.loop.Starting? ==> s.loop.start != Finished(VersionRefused)
    ensures Run(s, actions, s') && s'.loop.Serving? && s'.loop.child in s'.alive && s'.isReady && |actions| <= 38
    ensures forall i | 0 <= i < |actions| :: actions[i].Die? || actions[i] == LoopResumes(Good)
  {
    ReachableHolds(s);
    actions, s' := Recovers(s);
  }

  // ---------- a start that fails ----------

  /** Past its deadline, at a refusal of the password, or at a halt, a start lets go of its child and stops it. */
  lemma FailureLetsGo(s: State, reply: Reply, later: Reply)
    requires s.loop.Starting?
    requires || (s.loop.start.ProbePause? && (reply == Late || s.isHalted))
             || (s.loop.start.Unlock? && reply in {Bad, Refused})
             || (s.loop.start.UnlockPause? && s.isHalted)
    ensures Step(s, LoopResumes(reply)).Some?
    ensures var failed := Step(s, LoopResumes(reply)).value;
            Step(failed, LoopResumes(later))
            == Some(s.(serve := None, loop := Starting(s.loop.generation, Detach(s.serve, false))))
  {
  }

  // ---------- the end of the loop ----------

  /** A start whose version is refused is the last of its loop. */
  lemma RefusedVersionEndsTheLoop(s: State, later: Reply)
    requires s.loop.Starting? && s.loop.start == CheckVersion
    ensures Step(s, LoopResumes(Refused)).Some?
    ensures var refused := Step(s, LoopResumes(Refused)).value;
            Step(refused, LoopResumes(later)) == Some(refused.(loop := Ended)) && refused.alive == s.alive
  {
  }

  /** What follows the end of a served child: readiness and the attachment go; halted, the loop ends, and otherwise it
      pauses. */
  lemma ExitDecides(s: State, reply: Reply, later: Reply)
    requires s.loop.Serving? && s.loop.child !in s.alive
    ensures Step(s, LoopResumes(reply)).Some?
    ensures Step(Step(s, LoopResumes(reply)).value, LoopResumes(later))
            == Some(s.(isReady := false, serve := None, loop := if s.isHalted then Ended else BackingOff))
  {
  }

  /** A start that fails is tried again after a pause; halted, the loop ends without one. */
  lemma FailureRetries(s: State, replies: seq<Reply>)
    requires s.loop.Starting? && s.loop.start == Finished(Down) && |replies| == 3
    ensures Step(s, LoopResumes(replies[0])).Some?
    ensures var failed := Step(s, LoopResumes(replies[0])).value;
            if s.isHalted then Step(failed, LoopResumes(replies[1])) == Some(s.(loop := Ended))
            else
              && failed == s.(loop := BackingOff) && Step(failed, LoopResumes(replies[1])).Some?
              && Step(Step(failed, LoopResumes(replies[1])).value, LoopResumes(replies[2]))
                 == Some(s.(loop := if s.generation.None? then Ended
                                    else Starting(s.generation.value, CheckVersion)))
  {
  }

  /** A loop that has ended stays so, and serves nobody: nothing but a call of `reconfigure` or `stop` can happen. */
  lemma OnlyACallRevives(s: State, action: Action)
    requires Reachable(s) && s.operation.Idle? && s.loop == Ended && Step(s, action).Some?
    ensures action == CallReconfigure || action == CallStop
    ensures s.alive == {} && !s.isReady
  {
    ReachableHolds(s);
  }

  // ---------- calls ----------

  /** A call that is taken ends readiness at once; only a start that has succeeded brings it back. */
  lemma CallEndsReadiness(s: State, action: Action)
    requires Step(s, action).Some?
    ensures (action == CallReconfigure || action == CallStop) && s.operation.Idle? && !s.isStopping ==>
              !Step(s, action).value.isReady && Step(s, action).value.isHalted
    ensures !s.isReady && Step(s, action).value.isReady ==>
              || (action.LoopResumes? && s.loop.Starting? && s.loop.start.Finished? && s.loop.start.result.Up?)
              || (action.OperationResumes? && !s.isHalted && (s.operation.StartingNew? || s.operation.RetiringOld?))
  {
    if action.LoopResumes? && s.loop.Starting? && !s.loop.start.Finished? {
      AdvanceFrame(s, s.loop.start, action.reply);
    }
    if action.OperationResumes? && s.operation.StartingNew? && !s.operation.start.Finished? {
      AdvanceFrame(s, s.operation.start, action.reply);
    }
    hide Advance;
  }

  predicate IsCall(action: Action) {
    action == CallReconfigure || action == CallStop
  }

  lemma {:induction false} RunSteps(s: State, actions: seq<Action>, t: State, action: Action)
    requires Run(s, actions, t) && Step(t, action).Some?
    ensures Run(s, actions + [action], Step(t, action).value)
    decreases |actions|
  {
    hide Step;
    if actions == [] {
      assert [action][1..] == [] && [] + [action] == [action];
    } else {
      RunSteps(Step(s, actions[0]).value, actions[1..], t, action);
      assert (actions + [action])[1..] == actions[1..] + [action];
    }
  }

  lemma StepReaches(s: State, action: Action)
    requires Reachable(s) && Step(s, action).Some?
    ensures Reachable(Step(s, action).value)
  {
    hide Step, Run;
    var configured, actions :| Run(Initial(configured), actions, s);
    RunSteps(Initial(configured), actions, s, action);
  }

  /** A halt under way comes to its end without another call. */
  lemma {:induction false} HaltEnds(s: State) returns (actions: seq<Action>, s': State)
    requires Reachable(s) && IsHalting(s.operation)
    ensures Run(s, actions, s') && Reachable(s') && s'.operation == Halted(s.operation.task)
    ensures forall i | 0 <= i < |actions| :: !IsCall(actions[i])
    decreases HaltRank(s)
  {
    if s.operation.Halted? {
      actions, s' := [], s;
    } else {
      HaltProgresses(s);
      var action :| action != CallReconfigure && Step(s, action).Some?;
      HaltDescends(s, action);
      StepReaches(s, action);
      HaltGoesOn(s, action);
      var rest;
      rest, s' := HaltEnds(Step(s, action).value);
      actions := [action] + rest;
    }
  }

  lemma HaltGoesOn(s: State, action: Action)
    requires IsHalting(s.operation) && !s.operation.Halted? && action != CallReconfigure && Step(s, action).Some?
    ensures !IsCall(action) && IsHalting(Step(s, action).value.operation)
    ensures Step(s, action).value.operation.task == s.operation.task
  {
    if action.LoopResumes? {
      LoopLeavesOperation(s, action.reply);
    }
    hide Advance;
  }

  /** Every reply is good, and the child a switch stops dies. */
  function Calm(s: State): Action {
    var child := OperationStops(s.operation);
    if child.Some? && child.value in s.alive then Die(child.value) else OperationResumes(Good)
  }

  function SwitchStartRank(start: Start): nat {
    match start
    case CheckVersion => 16
    case LogIn => 15
    case AllocatePort => 14
    case ProbePause(_) => 13
    case Probe(_) => 12
    case Probed(_, _) => 11
    case UnlockPause(_) => 10
    case Unlock(_) => 9
    case Unlocked(_, _) => 8
    case Detach(_, _) => 6
    case InitialSync(_) => 5
    case Finished(_) => 3
  }

  /** The steps a switch still has to go, once halted. */
  function SwitchRank(s: State): nat {
    var child := OperationStops(s.operation);
    (match s.operation
     case Halted(_) => 28
     case RemovingNew(_, _) => 27
     case StartingNew(_, _, start) => 10 + SwitchStartRank(start)
     case RetiringOld(_, _, _) => 7
     case FailStopping(_, _, _, _) => 8
     case FailRetiring(_, _) => 7
     case Settled(_, _, _) => 5
     case _ => 0)
    + if child.Some? && child.value in s.alive then 1 else 0
  }

  predicate IsSwitchHalted(s: State) {
    (s.operation.Halted? && s.operation.task.Switch?) || IsSwitchingAlone(s.operation) || s.operation.Settled?
  }

  lemma CalmDescends(s: State)
    requires IsSwitchHalted(s)
    ensures Step(s, Calm(s)).Some? && !IsCall(Calm(s))
    ensures var s' := Step(s, Calm(s)).value;
            SwitchRank(s') < SwitchRank(s) && (IsSwitchHalted(s') || s'.operation.Idle?)
  {
  }

  lemma {:induction false} SwitchEnds(s: State) returns (actions: seq<Action>, s': State)
    requires IsSwitchHalted(s) || s.operation.Idle?
    ensures Run(s, actions, s') && s'.operation.Idle? && |actions| <= SwitchRank(s)
    ensures forall i | 0 <= i < |actions| :: !IsCall(actions[i])
    decreases SwitchRank(s)
  {
    if s.operation.Idle? {
      actions, s' := [], s;
    } else {
      CalmDescends(s);
      var rest;
      rest, s' := SwitchEnds(Step(s, Calm(s)).value);
      actions := [Calm(s)] + rest;
    }
  }

  lemma {:induction false} RunsJoin(s: State, a: seq<Action>, t: State, b: seq<Action>, u: State)
    requires Run(s, a, t) && Run(t, b, u)
    ensures Run(s, a + b, u)
    decreases |a|
  {
    hide Step;
    if a == [] {
      assert a + b == b;
    } else {
      RunsJoin(Step(s, a[0]).value, a[1..], t, b, u);
      assert (a + b)[1..] == a[1..] + b;
    }
  }

  /** Every reconfiguration and every stop can come to its end without another call: the one leaves the supervisor idle,
      open to the next call, the other stopped. */
  lemma CallsComeToAnEnd(s: State) returns (actions: seq<Action>, s': State)
    requires Reachable(s)
    ensures Run(s, actions, s') && forall i | 0 <= i < |actions| :: !IsCall(actions[i])
    ensures s'.operation == if s.isStopping then Stopped else Idle
  {
    ReachableHolds(s);
    hide Run, Step, Inv;
    if s.operation.Idle? || s.operation.Stopped? {
      actions, s' := NoSteps(s);
    } else if IsHalting(s.operation) {
      var first, t := HaltEnds(s);
      var rest;
      if s.operation.task.Stop? {
        rest, s' := StopEnds(t);
      } else {
        rest, s' := SwitchEnds(t);
      }
      RunsJoin(s, first, t, rest, s');
      actions := first + rest;
    } else {
      actions, s' := SwitchEnds(s);
    }
  }

  lemma NoSteps(s: State) returns (actions: seq<Action>, s': State)
    ensures Run(s, actions, s') && actions == [] && s' == s
  {
    actions, s' := [], s;
  }

  lemma StopEnds(s: State) returns (actions: seq<Action>, s': State)
    requires s.operation == Halted(Stop)
    ensures Run(s, actions, s') && s'.operation.Stopped? && actions == [OperationResumes(Good)]
  {
    actions, s' := [OperationResumes(Good)], Step(s, OperationResumes(Good)).value;
    assert actions[1..] == [];
  }
}
