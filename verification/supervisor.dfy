/** The `bw serve` supervisor: a restart loop, a reconfiguration and a stop interleave at every `await` over a few
    shared fields. One transition runs one of them from an `await` that has settled to its next one. */
module Supervisor {
  import opened Wrappers

  type Generation = nat
  type Child = nat

  /** How the thing awaited turned out. `Late` is a deadline, a settle window or a grace period running out. */
  datatype Reply = Good | Bad | Refused | Late

  datatype StartResult = Up(child: Child) | Down | VersionRefused

  /** `GenerationStarter.start`, by the await it is suspended at; `Probed`, `Unlocked` and `Finished` are an inner
      async call that has returned and not yet been resumed from. */
  datatype Start =
    | CheckVersion
    | LogIn
    | AllocatePort
    | Probe(child: Child)
    | ProbePause(child: Child)
    | Probed(child: Child, ok: bool)
    | Unlock(child: Child)
    | UnlockPause(child: Child)
    | Unlocked(child: Child, ok: bool)
    | Detach(target: Option<Child>, killed: bool)
    | InitialSync(child: Child)
    | Finished(result: StartResult)

  /** `RestartLoop.run`. */
  datatype Loop =
    | Ended
    | Starting(generation: Generation, start: Start)
    | Serving(child: Child)
    | Exited(wasHalted: bool)
    | BackingOff
    | Rested

  datatype Task = Switch(previous: Option<Generation>) | Stop

  /** `reconfigure` or `stop`; at most one of them runs. */
  datatype Operation =
    | Idle
    | Locking(task: Task)
    | Stopping(task: Task, target: Option<Child>, killed: bool)
    | AwaitingLoop(task: Task)
    | Halted(task: Task)
    | RemovingNew(previous: Option<Generation>, next: Generation)
    | StartingNew(previous: Option<Generation>, next: Generation, start: Start)
    | RetiringOld(previous: Option<Generation>, next: Generation, child: Child)
    | FailStopping(previous: Option<Generation>, next: Generation, target: Option<Child>, killed: bool)
    | FailRetiring(previous: Option<Generation>, next: Generation)
    | Settled(previous: Option<Generation>, next: Generation, ok: bool)
    | Stopped

  datatype State = State(
    generation: Option<Generation>, serve: Option<Child>,
    isReady: bool, isHalted: bool, isStopping: bool,
    loop: Loop, operation: Operation,
    created: nat, disposed: set<Generation>,
    spawned: nat, alive: set<Child>)

  datatype Action =
    | Die(child: Child)
    | LoopResumes(reply: Reply)
    | OperationResumes(reply: Reply)
    | CallReconfigure
    | CallStop

  // ---------- stopping a child ----------

  /** `#stopServe`: forget the handle, then await the child's end. */
  function TakeServe(s: State): (State, Option<Child>) {
    (s.(serve := None), s.serve)
  }

  /** `ServeHandle.stop` returns once the child is dead; the grace period may lead to SIGKILL first. */
  predicate IsGone(s: State, target: Option<Child>) {
    target.Some? ==> target.value !in s.alive
  }

  // ---------- starting a generation ----------

  function BeginDetach(s: State): (State, Start) {
    var (s', target) := TakeServe(s);
    (s', Detach(target, false))
  }

  /** One resumption of a start; None when what it awaits has not settled. */
  function Advance(s: State, start: Start, reply: Reply): Option<(State, Start)> {
    match start
    case CheckVersion =>
      Some((s, if reply == Good then LogIn else if reply == Refused then Finished(VersionRefused) else Finished(Down)))
    case LogIn => Some((s, if reply == Good then AllocatePort else Finished(Down)))
    case AllocatePort =>
      var child := s.spawned;
      var s' := s.(spawned := child + 1, alive := s.alive + {child}, serve := Some(child));
      Some((s', if s.isHalted then Probed(child, false) else Probe(child)))
    case Probe(child) => Some((s, if reply == Good then Probed(child, true) else ProbePause(child)))
    case ProbePause(child) => Some((s, if reply == Late || s.isHalted then Probed(child, false) else Probe(child)))
    case Probed(child, ok) => Some(if ok then (s, Unlock(child)) else BeginDetach(s))
    case Unlock(child) =>
      Some((s, if reply == Good then Unlocked(child, true)
               else if reply == Late then UnlockPause(child) else Unlocked(child, false)))
    case UnlockPause(child) => Some((s, if s.isHalted then Unlocked(child, false) else Unlock(child)))
    case Unlocked(child, ok) => Some(if ok then (s, InitialSync(child)) else BeginDetach(s))
    case Detach(target, killed) =>
      if IsGone(s, target) then Some((s, Finished(Down)))
      else if reply == Late && !killed then Some((s, Detach(target, true)))
      else None
    case InitialSync(child) => Some((s, Finished(Up(child))))
    case Finished(_) => None
  }

  // ---------- the restart loop ----------

  /** The head of the `while`: halted or unconfigured ends the loop. */
  function LoopHead(s: State): State {
    s.(loop := if s.isHalted || s.generation.None? then Ended else Starting(s.generation.value, CheckVersion))
  }

  /** `#serveUntilExit` up to its await: ready at once, whether or not a halt has arrived. */
  function BeginServing(s: State, child: Child): State {
    s.(isReady := true, loop := Serving(child))
  }

  /** `#recordFailure` up to its await. */
  function RecordFailure(s: State): State {
    s.(loop := if s.isHalted then Rested else BackingOff)
  }

  function LoopStep(s: State, reply: Reply): Option<State> {
    match s.loop
    case Ended => None
    case Starting(generation, start) =>
      if start.Finished? then
        match start.result
        case Up(child) => Some(BeginServing(s, child))
        case Down => Some(RecordFailure(s))
        case VersionRefused => Some(s.(loop := Ended))
      else
        var next := Advance(s, start, reply);
        if next.None? then None else Some(next.value.0.(loop := Starting(generation, next.value.1)))
    case Serving(child) =>
      if child in s.alive then None
      else Some(s.(isReady := false, serve := None, loop := Exited(s.isHalted)))
    case Exited(wasHalted) => Some(if wasHalted then s.(loop := Ended) else RecordFailure(s))
    case BackingOff => Some(s.(loop := Rested))
    case Rested => Some(LoopHead(s))
  }

  // ---------- reconfigure and stop ----------

  /** `#halt` up to its first await. */
  function BeginHalt(s: State, task: Task): State {
    s.(isHalted := true, isReady := false,
       operation := if s.serve.Some? then Locking(task) else AwaitingLoop(task))
  }

  function OperationStep(s: State, reply: Reply): Option<State> {
    match s.operation
    case Idle => None
    case Locking(task) =>
      var (s', target) := TakeServe(s);
      Some(s'.(operation := Stopping(task, target, false)))
    case Stopping(task, target, killed) =>
      if IsGone(s, target) then Some(s.(operation := AwaitingLoop(task)))
      else if reply == Late && !killed then Some(s.(operation := Stopping(task, target, true)))
      else None
    case AwaitingLoop(task) => if s.loop == Ended then Some(s.(operation := Halted(task))) else None
    case Halted(task) =>
      if task.Stop? then
        Some(s.(operation := Stopped,
                disposed := if s.generation.Some? then s.disposed + {s.generation.value} else s.disposed))
      else
        Some(s.(created := s.created + 1, generation := Some(s.created),
                operation := RemovingNew(task.previous, s.created)))
    case RemovingNew(previous, next) =>
      Some(s.(isHalted := false, operation := StartingNew(previous, next, CheckVersion)))
    case StartingNew(previous, next, start) =>
      if !start.Finished? then
        var advanced := Advance(s, start, reply);
        if advanced.None? then None
        else Some(advanced.value.0.(operation := StartingNew(previous, next, advanced.value.1)))
      else if start.result.Up? && !s.isHalted then
        if previous.Some? then
          Some(s.(disposed := s.disposed + {previous.value},
                  operation := RetiringOld(previous, next, start.result.child)))
        else
          Some(Serve(s, previous, next, start.result.child))
      else
        var (s', target) := TakeServe(s);
        Some(s'.(operation := FailStopping(previous, next, target, false)))
    case RetiringOld(previous, next, child) => Some(Serve(s, previous, next, child))
    case FailStopping(previous, next, target, killed) =>
      if IsGone(s, target) then
        Some(s.(disposed := s.disposed + {next}, operation := FailRetiring(previous, next)))
      else if reply == Late && !killed then Some(s.(operation := FailStopping(previous, next, target, true)))
      else None
    case FailRetiring(previous, next) =>
      var restored := s.(generation := previous, operation := Settled(previous, next, false));
      Some(if s.isStopping then restored else LoopHead(restored.(isHalted := false)))
    case Settled(_, _, _) => Some(s.(operation := Idle))
    case Stopped => None
  }

  /** The new generation is up: the loop takes over its child. */
  function Serve(s: State, previous: Option<Generation>, next: Generation, child: Child): State {
    var done := s.(operation := Settled(previous, next, true));
    if s.isHalted then done.(loop := Ended) else BeginServing(done, child)
  }

  // ---------- the system ----------

  function Step(s: State, action: Action): Option<State> {
    match action
    case Die(child) => if child in s.alive then Some(s.(alive := s.alive - {child})) else None
    case LoopResumes(reply) => LoopStep(s, reply)
    case OperationResumes(reply) => OperationStep(s, reply)
    case CallReconfigure =>
      Some(if s.isStopping || !s.operation.Idle? then s else BeginHalt(s, Switch(s.generation)))
    case CallStop =>
      if s.operation.Idle? && !s.isStopping then Some(BeginHalt(s.(isStopping := true), Stop)) else None
  }

  /** Right after construction and `start()`. */
  function Initial(configured: bool): State {
    LoopHead(State(if configured then Some(0) else None, None, false, false, false, Ended, Idle,
                   if configured then 1 else 0, {}, 0, {}))
  }

  ghost predicate Run(s: State, actions: seq<Action>, s': State)
    decreases |actions|
  {
    if actions == [] then s == s'
    else Step(s, actions[0]).Some? && Run(Step(s, actions[0]).value, actions[1..], s')
  }

  ghost predicate Reachable(s: State) {
    exists configured, actions :: Run(Initial(configured), actions, s)
  }

  // ---------- the invariant ----------

  function StartHolds(start: Start): Option<Child> {
    match start
    case CheckVersion => None
    case LogIn => None
    case AllocatePort => None
    case Probe(child) => Some(child)
    case ProbePause(child) => Some(child)
    case Probed(child, _) => Some(child)
    case Unlock(child) => Some(child)
    case UnlockPause(child) => Some(child)
    case Unlocked(child, _) => Some(child)
    case Detach(target, _) => target
    case InitialSync(child) => Some(child)
    case Finished(result) => if result.Up? then Some(result.child) else None
  }

  /** The child the loop is answerable for. */
  function LoopHolds(loop: Loop): Option<Child> {
    match loop
    case Starting(_, start) => StartHolds(start)
    case Serving(child) => Some(child)
    case _ => None
  }

  function OperationHolds(operation: Operation): Option<Child> {
    match operation
    case Stopping(_, target, _) => target
    case StartingNew(_, _, start) => StartHolds(start)
    case RetiringOld(_, _, child) => Some(child)
    case FailStopping(_, _, target, _) => target
    case _ => None
  }

  predicate IsBeforeSpawn(start: Start) {
    start.CheckVersion? || start.LogIn? || start.AllocatePort?
  }

  /** Suspended between spawning a child and giving it up. */
  predicate Keeps(start: Start) {
    !IsBeforeSpawn(start) && !start.Detach? && (start.Finished? ==> start.result.Up?)
  }

  predicate KeepsLoop(loop: Loop) {
    loop.Serving? || (loop.Starting? && Keeps(loop.start))
  }

  predicate KeepsOperation(operation: Operation) {
    operation.RetiringOld? || (operation.StartingNew? && Keeps(operation.start))
  }

  predicate IsHalting(operation: Operation) {
    operation.Locking? || operation.Stopping? || operation.AwaitingLoop? || operation.Halted?
  }

  /** Between its halt and its end, a switch has the supervisor to itself. */
  predicate IsSwitchingAlone(operation: Operation) {
    operation.RemovingNew? || operation.StartingNew? || operation.RetiringOld? || operation.FailStopping?
    || operation.FailRetiring?
  }

  /** The child somebody has taken the handle of and is waiting for. */
  function LoopStops(loop: Loop): Option<Child> {
    if loop.Starting? && loop.start.Detach? then loop.start.target else None
  }

  function OperationStops(operation: Operation): Option<Child> {
    match operation
    case Stopping(_, target, _) => target
    case FailStopping(_, _, target, _) => target
    case StartingNew(_, _, start) => if start.Detach? then start.target else None
    case _ => None
  }

  /** Every live child is attached or being stopped; whoever holds a child holds the same one. */
  predicate ChildrenHeld(s: State) {
    var l, o := LoopHolds(s.loop), OperationHolds(s.operation);
    && (forall c | c in s.alive ::
          s.serve == Some(c) || LoopStops(s.loop) == Some(c) || OperationStops(s.operation) == Some(c))
    && (LoopStops(s.loop).Some? || OperationStops(s.operation).Some? ==> s.serve.None?)
    && (l.Some? && o.Some? ==> l == o)
    && (s.serve.Some? ==> (s.serve == l && KeepsLoop(s.loop)) || (s.serve == o && KeepsOperation(s.operation)))
    && (l.Some? ==> l.value < s.spawned) && (o.Some? ==> o.value < s.spawned)
  }

  /** Which phases exclude which. */
  predicate PhasesAgree(s: State) {
    && (s.loop.Starting? && IsBeforeSpawn(s.loop.start) ==>
          !s.operation.Locking? && !s.operation.Stopping? && s.alive == {} && s.serve.None?)
    && (IsSwitchingAlone(s.operation) || s.operation.Halted? || s.operation.Stopped? ==> s.loop == Ended)
    && (s.operation.AwaitingLoop? || s.operation.Halted? || s.operation.RemovingNew? || s.operation.Stopped? ==>
          s.loop == Ended ==> s.alive == {} && s.serve.None?)
    && (s.operation.StartingNew? && IsBeforeSpawn(s.operation.start) ==> s.alive == {} && s.serve.None?)
    && (s.operation.FailStopping? || s.operation.FailRetiring? ==> s.serve.None?)
    && (LoopHolds(s.loop).None? && OperationHolds(s.operation).None? ==> s.alive == {})
    && (HasLetGo(s) && KeepsLoop(s.loop) && LoopHolds(s.loop).value in s.alive ==> GivesUpChild(s.loop))
  }

  /** A halt that has no child to stop any more. */
  predicate HasLetGo(s: State) {
    || s.operation.AwaitingLoop?
    || (s.operation.Locking? && s.serve.None?)
    || (s.operation.Stopping? && s.operation.target.None?)
  }

  /** The loop has spawned a child into a halt and is about to stop it. */
  predicate GivesUpChild(loop: Loop) {
    loop.Starting? && loop.start.Probed? && !loop.start.ok
  }

  predicate FlagsAgree(s: State) {
    && (s.isHalted <==> IsHalting(s.operation) || s.operation.RemovingNew? || s.operation.Stopped?)
    && (s.isStopping <==> (IsHalting(s.operation) && s.operation.task.Stop?) || s.operation.Stopped?)
    && (s.isReady ==> s.loop.Serving?)
    && (s.loop.Serving? && !s.isHalted ==> s.isReady)
    && (s.loop.Exited? && s.loop.wasHalted ==> s.isHalted)
    && (!s.isHalted && KeepsLoop(s.loop) ==> s.serve == LoopHolds(s.loop))
    && (KeepsOperation(s.operation) ==> s.serve == OperationHolds(s.operation))
  }

  predicate GenerationsKept(s: State) {
    && (forall g | g in s.disposed :: g < s.created)
    && (s.generation.Some? ==> s.generation.value < s.created)
    && (s.loop.Starting? ==> s.generation == Some(s.loop.generation))
    && (s.loop != Ended ==> s.generation.Some?)
    && (s.generation.Some? && !s.operation.FailRetiring? && !s.operation.Stopped? ==> s.generation.value !in s.disposed)
    && (IsHalting(s.operation) && s.operation.task.Switch? ==> s.operation.task.previous == s.generation)
    && (IsSwitchingAlone(s.operation) ==>
          && s.generation == Some(s.operation.next) && s.operation.previous != Some(s.operation.next)
          && (s.operation.previous.Some? ==> s.operation.previous.value < s.created)
          && (s.operation.previous.Some? && !s.operation.RetiringOld? ==> s.operation.previous.value !in s.disposed)
          && (s.operation.previous.Some? && s.operation.RetiringOld? ==> s.operation.previous.value in s.disposed)
          && (s.operation.FailRetiring? ==> s.operation.next in s.disposed))
    && (s.operation.Stopped? && s.generation.Some? ==> s.generation.value in s.disposed)
    && (s.operation.Settled? ==> Outcome(s, s.operation.previous, s.operation.next, s.operation.ok))
  }

  /** What a reconfiguration leaves behind: the new generation with the old one disposed, or the old one untouched. */
  predicate Outcome(s: State, previous: Option<Generation>, next: Generation, ok: bool) {
    if ok then
      s.generation == Some(next) && next !in s.disposed && (previous.Some? ==> previous.value in s.disposed)
    else
      s.generation == previous && next in s.disposed && (previous.Some? ==> previous.value !in s.disposed)
  }

  predicate Inv(s: State) {
    ChildrenHeld(s) && PhasesAgree(s) && FlagsAgree(s) && GenerationsKept(s)
  }

  lemma InitialHolds(configured: bool)
    ensures Inv(Initial(configured))
  {
  }

  /** A start writes the child and its handle, and nothing else. */
  lemma AdvanceFrame(s: State, start: Start, reply: Reply)
    requires Advance(s, start, reply).Some?
    ensures var s' := Advance(s, start, reply).value.0;
            s' == s.(spawned := s'.spawned, alive := s'.alive, serve := s'.serve)
  {
  }

  predicate IsStarting(s: State) {
    ChildrenHeld(s) && PhasesAgree(s) && FlagsAgree(s) && s.loop.Starting? && !s.loop.start.Finished?
  }

  predicate GivesUp(start: Start) {
    (start.Probed? || start.Unlocked?) && !start.ok
  }

  lemma LoopSpawnKeepsChildren(s: State, reply: Reply)
    requires IsStarting(s) && s.loop.start.AllocatePort?
    ensures ChildrenHeld(LoopStep(s, reply).value)
  {
  }

  lemma LoopDetachKeepsChildren(s: State, reply: Reply)
    requires IsStarting(s) && GivesUp(s.loop.start)
    ensures ChildrenHeld(LoopStep(s, reply).value)
  {
  }

  lemma LoopAdvanceKeepsChildren(s: State, reply: Reply)
    requires IsStarting(s) && !s.loop.start.AllocatePort? && !GivesUp(s.loop.start) && LoopStep(s, reply).Some?
    ensures ChildrenHeld(LoopStep(s, reply).value)
  {
  }

  lemma LoopStartKeepsChildren(s: State, reply: Reply)
    requires IsStarting(s) && LoopStep(s, reply).Some?
    ensures ChildrenHeld(LoopStep(s, reply).value)
  {
    hide ChildrenHeld, LoopStep;
    if s.loop.start.AllocatePort? {
      LoopSpawnKeepsChildren(s, reply);
    } else if GivesUp(s.loop.start) {
      LoopDetachKeepsChildren(s, reply);
    } else {
      LoopAdvanceKeepsChildren(s, reply);
    }
  }

  lemma LoopKeepsChildren(s: State, reply: Reply)
    requires Inv(s) && LoopStep(s, reply).Some?
    ensures ChildrenHeld(LoopStep(s, reply).value)
  {
    hide GenerationsKept;
    if s.loop.Starting? && !s.loop.start.Finished? {
      LoopStartKeepsChildren(s, reply);
    } else {
      hide Advance;
    }
  }

  lemma LoopKeepsPhases(s: State, reply: Reply)
    requires Inv(s) && LoopStep(s, reply).Some?
    ensures PhasesAgree(LoopStep(s, reply).value)
  {
    hide GenerationsKept;
    LoopLeavesOperation(s, reply);
    if !s.loop.Starting? || s.loop.start.Finished? {
      hide Advance;
    }
  }

  lemma LoopKeepsFlags(s: State, reply: Reply)
    requires Inv(s) && LoopStep(s, reply).Some?
    ensures FlagsAgree(LoopStep(s, reply).value)
  {
    hide GenerationsKept, ChildrenHeld;
  }

  lemma LoopKeepsGenerations(s: State, reply: Reply)
    requires Inv(s) && LoopStep(s, reply).Some?
    ensures GenerationsKept(LoopStep(s, reply).value)
  {
    hide ChildrenHeld, Advance;
    LoopLeavesOperation(s, reply);
    if s.loop.Starting? && !s.loop.start.Finished? {
      AdvanceFrame(s, s.loop.start, reply);
    }
  }

  lemma LoopKeeps(s: State, reply: Reply)
    requires Inv(s) && LoopStep(s, reply).Some?
    ensures Inv(LoopStep(s, reply).value)
  {
    hide ChildrenHeld, PhasesAgree, FlagsAgree, GenerationsKept;
    LoopKeepsChildren(s, reply);
    LoopKeepsPhases(s, reply);
    LoopKeepsFlags(s, reply);
    LoopKeepsGenerations(s, reply);
  }

  lemma OperationStartKeepsChildren(s: State, reply: Reply)
    requires ChildrenHeld(s) && PhasesAgree(s) && FlagsAgree(s)
    requires s.operation.StartingNew? && !s.operation.start.Finished? && OperationStep(s, reply).Some?
    ensures ChildrenHeld(OperationStep(s, reply).value)
  {
  }

  lemma OperationKeepsChildren(s: State, reply: Reply)
    requires Inv(s) && OperationStep(s, reply).Some?
    ensures ChildrenHeld(OperationStep(s, reply).value)
  {
    hide GenerationsKept;
    if s.operation.StartingNew? && !s.operation.start.Finished? {
      OperationStartKeepsChildren(s, reply);
    }
  }

  lemma OperationKeepsPhases(s: State, reply: Reply)
    requires Inv(s) && OperationStep(s, reply).Some?
    ensures PhasesAgree(OperationStep(s, reply).value)
  {
    hide GenerationsKept;
    if s.operation.StartingNew? && !s.operation.start.Finished? {
      AdvanceFrame(s, s.operation.start, reply);
    } else {
      hide Advance;
    }
  }

  lemma OperationKeepsFlags(s: State, reply: Reply)
    requires Inv(s) && OperationStep(s, reply).Some?
    ensures FlagsAgree(OperationStep(s, reply).value)
  {
    hide GenerationsKept, ChildrenHeld;
  }

  lemma OperationKeepsGenerations(s: State, reply: Reply)
    requires Inv(s) && OperationStep(s, reply).Some?
    ensures GenerationsKept(OperationStep(s, reply).value)
  {
    hide ChildrenHeld, Advance;
    if s.operation.StartingNew? && !s.operation.start.Finished? {
      AdvanceFrame(s, s.operation.start, reply);
    }
  }

  lemma OperationKeeps(s: State, reply: Reply)
    requires Inv(s) && OperationStep(s, reply).Some?
    ensures Inv(OperationStep(s, reply).value)
  {
    hide ChildrenHeld, PhasesAgree, FlagsAgree, GenerationsKept;
    OperationKeepsChildren(s, reply);
    OperationKeepsPhases(s, reply);
    OperationKeepsFlags(s, reply);
    OperationKeepsGenerations(s, reply);
  }

  lemma StepKeeps(s: State, action: Action)
    requires Inv(s) && Step(s, action).Some?
    ensures Inv(Step(s, action).value)
  {
    match action
    case LoopResumes(reply) => LoopKeeps(s, reply);
    case OperationResumes(reply) => OperationKeeps(s, reply);
    case _ =>
  }

  lemma {:induction false} RunKeeps(s: State, actions: seq<Action>, s': State)
    requires Inv(s) && Run(s, actions, s')
    ensures Inv(s')
    decreases |actions|
  {
    if actions != [] {
      StepKeeps(s, actions[0]);
      RunKeeps(Step(s, actions[0]).value, actions[1..], s');
    }
  }

  lemma ReachableHolds(s: State)
    requires Reachable(s)
    ensures Inv(s)
  {
    var configured, actions :| Run(Initial(configured), actions, s);
    InitialHolds(configured);
    RunKeeps(Initial(configured), actions, s);
  }

  // ---------- the theorems ----------

  /** In every interleaving at most one `bw serve` child is alive. */
  lemma AtMostOneChild(s: State, c: Child, d: Child)
    requires Reachable(s) && c in s.alive && d in s.alive
    ensures c == d
  {
    ReachableHolds(s);
  }

  /** Once `stop` has returned no child is alive, the backend is not ready, the credentials are disposed of, and no
      later step changes anything. */
  lemma {:induction false} StoppedForGood(s: State, actions: seq<Action>, s': State)
    requires Reachable(s) && s.operation.Stopped? && Run(s, actions, s')
    ensures s'.alive == {} && !s'.isReady && s'.serve.None? && s'.loop == Ended && s' == s
    ensures s'.generation.Some? ==> s'.generation.value in s'.disposed
    decreases |actions|
  {
    ReachableHolds(s);
    if actions != [] {
      assert actions[0] == CallReconfigure;
      StoppedForGood(s, actions[1..], s');
    }
  }

  /** The backend is ready whenever a child is served and no halt has come, and never otherwise unless one has. */
  lemma ReadyWhileServing(s: State)
    requires Reachable(s)
    ensures s.isReady ==> s.loop.Serving?
    ensures !s.isHalted ==> (s.isReady <==> s.loop.Serving?)
    ensures !s.isHalted && s.loop.Serving? ==> s.serve == Some(s.loop.child)
  {
    ReachableHolds(s);
  }

  /** While a halt waits for the loop, no served child is alive, and a child just spawned into the halt is stopped
      before it is probed. */
  lemma HaltEndsService(s: State)
    requires Reachable(s) && s.operation.AwaitingLoop?
    ensures s.loop.Serving? ==> s.loop.child !in s.alive
    ensures s.loop.Starting? && StartHolds(s.loop.start).Some? && StartHolds(s.loop.start).value in s.alive ==>
              s.loop.start == Probed(StartHolds(s.loop.start).value, false) || s.loop.start.Detach?
  {
    ReachableHolds(s);
  }

  /** A child that was attached when the halt came is asked to lock before it is stopped. */
  lemma LocksFirst(s: State, action: Action)
    requires Reachable(s) && Step(s, action).Some? && Step(s, action).value.operation.Stopping?
    ensures s.operation.Stopping? || (s.operation.Locking? && action.OperationResumes?)
    ensures s.operation.Idle? && s.serve.Some? ==> BeginHalt(s, Stop).operation == Locking(Stop)
  {
    hide Advance;
    if action.LoopResumes? {
      LoopLeavesOperation(s, action.reply);
    }
  }

  /** No start, by the loop or by a switch, ever reads the credentials of a disposed generation. */
  lemma NoStartAfterDisposal(s: State)
    requires Reachable(s)
    ensures s.loop.Starting? ==> s.loop.generation !in s.disposed
    ensures s.operation.StartingNew? ==> s.operation.next !in s.disposed
  {
    ReachableHolds(s);
  }

  /** Every state of the run but its last is inside the same reconfiguration. */
  ghost predicate RunsSwitch(s: State, actions: seq<Action>, s': State)
    decreases |actions|
  {
    if actions == [] then s == s'
    else
      && !s.operation.Idle? && !s.operation.Settled?
      && Step(s, actions[0]).Some? && RunsSwitch(Step(s, actions[0]).value, actions[1..], s')
  }

  function PreviousOf(operation: Operation): Option<Option<Generation>> {
    match operation
    case RemovingNew(previous, _) => Some(previous)
    case StartingNew(previous, _, _) => Some(previous)
    case RetiringOld(previous, _, _) => Some(previous)
    case FailStopping(previous, _, _, _) => Some(previous)
    case FailRetiring(previous, _) => Some(previous)
    case Settled(previous, _, _) => Some(previous)
    case Idle => None
    case Stopped => None
    case _ => if operation.task.Switch? then Some(operation.task.previous) else None
  }

  lemma LoopLeavesOperation(s: State, reply: Reply)
    requires LoopStep(s, reply).Some?
    ensures LoopStep(s, reply).value.operation == s.operation
  {
    if s.loop.Starting? && !s.loop.start.Finished? {
      AdvanceFrame(s, s.loop.start, reply);
    }
    hide Advance;
  }

  lemma OperationRemembers(s: State, reply: Reply)
    requires PreviousOf(s.operation).Some? && !s.operation.Settled? && OperationStep(s, reply).Some?
    ensures PreviousOf(OperationStep(s, reply).value.operation) == PreviousOf(s.operation)
  {
    hide Advance;
  }

  lemma StepRemembers(s: State, action: Action)
    requires PreviousOf(s.operation).Some? && !s.operation.Settled? && Step(s, action).Some?
    ensures PreviousOf(Step(s, action).value.operation) == PreviousOf(s.operation)
  {
    hide LoopStep, OperationStep;
    match action {
      case LoopResumes(reply) => LoopLeavesOperation(s, reply);
      case OperationResumes(reply) => OperationRemembers(s, reply);
      case _ =>
    }
  }

  /** What the step that settles a reconfiguration leaves: its own child served and ready, or the loop begun anew on the
      generation found. */
  predicate IsSettledWell(s: State) {
    s.operation.Settled? ==>
      if s.operation.ok then s.loop.Serving? && s.isReady && !s.isHalted
      else s.loop == if s.operation.previous.None? then Ended else Starting(s.operation.previous.value, CheckVersion)
  }

  lemma SettlesWell(s: State, action: Action)
    requires Inv(s) && !s.operation.Settled? && Step(s, action).Some?
    ensures IsSettledWell(Step(s, action).value)
  {
    hide Advance, ChildrenHeld, LoopStep;
    if action.LoopResumes? {
      LoopLeavesOperation(s, action.reply);
    }
  }

  lemma {:induction false} SwitchSettlesWell(s: State, actions: seq<Action>, s': State)
    requires Inv(s) && RunsSwitch(s, actions, s') && !s.operation.Settled?
    ensures IsSettledWell(s')
    decreases |actions|
  {
    if actions != [] {
      hide Inv, Step, IsSettledWell;
      var t := Step(s, actions[0]).value;
      SettlesWell(s, actions[0]);
      StepKeeps(s, actions[0]);
      if t.operation.Settled? {
        assert actions[1..] == [];
      } else {
        SwitchSettlesWell(t, actions[1..], s');
      }
    }
  }

  lemma {:induction false} SwitchRemembers(s: State, actions: seq<Action>, s': State)
    requires PreviousOf(s.operation).Some? && RunsSwitch(s, actions, s')
    ensures PreviousOf(s'.operation) == PreviousOf(s.operation)
    decreases |actions|
  {
    if actions != [] {
      var t := Step(s, actions[0]).value;
      StepRemembers(s, actions[0]);
      SwitchRemembers(t, actions[1..], s');
    }
  }

  lemma {:induction false} SwitchRuns(s: State, actions: seq<Action>, s': State)
    requires RunsSwitch(s, actions, s')
    ensures Run(s, actions, s')
    decreases |actions|
  {
    if actions != [] {
      SwitchRuns(Step(s, actions[0]).value, actions[1..], s');
    }
  }

  /** A reconfiguration that completes leaves the new generation current and the old one disposed, or, when it
      failed, exactly the generation it found, undisposed. */
  lemma ReconfigurationOutcome(s: State, actions: seq<Action>, s': State)
    requires Reachable(s) && s.operation.Idle? && !s.isStopping
    requires RunsSwitch(BeginHalt(s, Switch(s.generation)), actions, s') && s'.operation.Settled?
    ensures Outcome(s', s.generation, s'.operation.next, s'.operation.ok)
    ensures s'.operation.ok ==> s'.loop.Serving? && s'.isReady && !s'.isHalted
    ensures !s'.operation.ok ==>
              s'.loop == if s.generation.None? then Ended else Starting(s.generation.value, CheckVersion)
  {
    var begun := BeginHalt(s, Switch(s.generation));
    ReachableHolds(s);
    StepKeeps(s, CallReconfigure);
    SwitchSettlesWell(begun, actions, s');
    SwitchRuns(begun, actions, s');
    RunKeeps(begun, actions, s');
    SwitchRemembers(begun, actions, s');
  }

  // ---------- a halt always ends ----------

  function StartRank(start: Start): nat {
    match start
    case CheckVersion => 30
    case LogIn => 29
    case AllocatePort => 28
    case Probe(_) => 25
    case ProbePause(_) => 24
    case Probed(_, _) => 23
    case Unlock(_) => 22
    case UnlockPause(_) => 21
    case Unlocked(_, _) => 20
    case Detach(_, killed) => if killed then 18 else 19
    case InitialSync(_) => 19
    case Finished(_) => 15
  }

  function LoopRank(loop: Loop): nat {
    match loop
    case Ended => 0
    case Starting(_, start) => StartRank(start)
    case Serving(_) => 10
    case Exited(_) => 8
    case BackingOff => 6
    case Rested => 5
  }

  function OperationRank(operation: Operation): nat {
    match operation
    case Locking(_) => 6
    case Stopping(_, _, killed) => if killed then 4 else 5
    case AwaitingLoop(_) => 3
    case _ => 0
  }

  function HaltRank(s: State): nat {
    LoopRank(s.loop) + OperationRank(s.operation) + |s.alive|
  }

  /** Only a spawn adds a child, and one. */
  lemma AliveAfter(s: State, start: Start, reply: Reply)
    requires Advance(s, start, reply).Some?
    ensures |Advance(s, start, reply).value.0.alive| <= |s.alive| + if start.AllocatePort? then 1 else 0
  {
  }

  lemma StartDescends(s: State, start: Start, reply: Reply)
    requires s.isHalted && !start.Finished? && Advance(s, start, reply).Some?
    ensures var (s', start') := Advance(s, start, reply).value;
            StartRank(start') + |s'.alive| < StartRank(start) + |s.alive|
  {
    AliveAfter(s, start, reply);
  }

  lemma LoopDescends(s: State, reply: Reply)
    requires s.isHalted && LoopStep(s, reply).Some?
    ensures var s' := LoopStep(s, reply).value;
            s'.operation == s.operation && LoopRank(s'.loop) + |s'.alive| < LoopRank(s.loop) + |s.alive|
  {
    LoopLeavesOperation(s, reply);
    if s.loop.Starting? && !s.loop.start.Finished? {
      StartDescends(s, s.loop.start, reply);
      hide Advance, StartRank;
    } else {
      hide Advance;
    }
  }

  /** While a halt is under way every step but a refused call brings it strictly closer to its end. */
  lemma HaltDescends(s: State, action: Action)
    requires Reachable(s) && IsHalting(s.operation) && !s.operation.Halted?
    requires action != CallReconfigure && Step(s, action).Some?
    ensures HaltRank(Step(s, action).value) < HaltRank(s)
  {
    assert s.isHalted by { ReachableHolds(s); }
    if action.LoopResumes? {
      LoopDescends(s, action.reply);
    }
  }

  /** ... and some step is always possible: the supervisor's own, or the end of the child it waits for. */
  lemma HaltProgresses(s: State)
    requires Reachable(s) && IsHalting(s.operation)
    ensures exists action :: action != CallReconfigure && Step(s, action).Some?
  {
    ReachableHolds(s);
    if s.operation.AwaitingLoop? && s.loop != Ended {
      assert LoopStops(s.loop).Some? && LoopStops(s.loop).value in s.alive ==>
          Step(s, Die(LoopStops(s.loop).value)).Some?;
      assert Step(s, LoopResumes(Good)).Some? || s.loop.Serving? || LoopStops(s.loop).Some?;
    } else if s.operation.Stopping? && !IsGone(s, s.operation.target) {
      assert Step(s, Die(s.operation.target.value)).Some?;
    } else {
      assert Step(s, OperationResumes(Good)).Some?;
    }
  }
}
