/**
  Starting and stopping the Discord adapter. Any number of tasks call `start` and `stop`; the
  lifecycle lock and the gateway adapter's single-flight check together keep one gateway loop.
  A step runs one task from one await to the next, ends a gateway loop, or cancels a task.
 */
module Lifecycle {
  import opened Wrappers

  datatype Call = Start | Stop

  /** The await a task is at. */
  datatype Await =
    | ForLock(call: Call)
    | ForLogin            // start, in the adapter's connect, past its single-flight check
    | ForYield            // start, the loop has been created
    | ForBotClose         // stop
    | ForLoop(loop: nat)  // stop, waiting for the loop to end

  datatype Loop = Live | Ended | Failed

  /** How a call left, and whether it changed the running state. */
  datatype Event = Opened | AlreadyRunning | Refused | Stopped | StopRaised | Cancelled

  type TaskId = nat

  datatype State = State(
    tasks: map<TaskId, Await>,
    lock: Option<TaskId>,
    running: bool,
    errors: nat,
    task: Option<nat>,  // the adapter's `_task`: an index into `loops`
    loops: seq<Loop>,
    log: seq<Event>)

  datatype Step =
    | Arrive(id: TaskId, call: Call)
    | Enter(id: TaskId, tokenRead: bool)
    | LoginReturns(id: TaskId, ok: bool)
    | YieldReturns(id: TaskId)
    | BotCloseReturns(id: TaskId, ok: bool)
    | LoopReturns(id: TaskId)
    | LoopEnds(loop: nat, failed: bool)
    | Cancel(id: TaskId)

  const START := State(map[], None, false, 0, None, [], [])

  predicate IsLive(s: State, loop: int) { 0 <= loop < |s.loops| && s.loops[loop].Live? }

  /** The adapter's single-flight check. */
  predicate IsConnected(s: State) { s.task.Some? && IsLive(s, s.task.value) }

  /** A call leaves: it releases the lock and is gone. */
  function Leave(s: State, id: TaskId, e: Event): State {
    s.(tasks := s.tasks - {id}, lock := None, log := s.log + [e])
  }

  function Refuse(s: State, id: TaskId): State {
    Leave(s, id, Refused).(errors := s.errors + 1)
  }

  function Halt(s: State, id: TaskId): State {
    Leave(s, id, Stopped).(running := false, task := None)
  }

  /** The lock is taken and the call runs to its first await or to its end. */
  function Entered(s: State, id: TaskId, call: Call, tokenRead: bool): State {
    match call
    case Stop => s.(lock := Some(id), tasks := s.tasks[id := ForBotClose])
    case Start =>
      if s.running then Leave(s, id, AlreadyRunning)
      else if !tokenRead || IsConnected(s) then Refuse(s, id)
      else s.(lock := Some(id), tasks := s.tasks[id := ForLogin])
  }

  function Apply(s: State, step: Step): State {
    match step
    case Arrive(id, call) => if id in s.tasks then s else s.(tasks := s.tasks[id := ForLock(call)])
    case Enter(id, tokenRead) =>
      if s.lock.None? && id in s.tasks && s.tasks[id].ForLock? then Entered(s, id, s.tasks[id].call, tokenRead) else s
    case LoginReturns(id, ok) =>
      if !(id in s.tasks && s.tasks[id].ForLogin?) then s
      else if !ok then Refuse(s, id)
      else s.(loops := s.loops + [Live], task := Some(|s.loops|), tasks := s.tasks[id := ForYield])
    case YieldReturns(id) =>
      if id in s.tasks && s.tasks[id].ForYield? then Leave(s, id, Opened).(running := true) else s
    case BotCloseReturns(id, ok) =>
      if !(id in s.tasks && s.tasks[id].ForBotClose?) then s
      else if !ok then Leave(s, id, StopRaised)
      else if s.task.None? then Halt(s, id)
      else s.(tasks := s.tasks[id := ForLoop(s.task.value)])
    case LoopReturns(id) =>
      if !(id in s.tasks && s.tasks[id].ForLoop?) || IsLive(s, s.tasks[id].loop) then s
      else if s.tasks[id].loop < |s.loops| && s.loops[s.tasks[id].loop].Failed? then Leave(s, id, StopRaised)
      else Halt(s, id)
    case LoopEnds(loop, failed) =>
      if IsLive(s, loop) then s.(loops := s.loops[loop := if failed then Failed else Ended]) else s
    case Cancel(id) => if id in s.tasks then CancelledAt(s, id, s.tasks[id]) else s
  }

  /** A cancelled stop that awaits a live loop passes the cancellation on and goes on waiting; once the
      loop is done, failed or not, the cancellation itself is swallowed and the stop completes. */
  function CancelledAt(s: State, id: TaskId, at: Await): State {
    match at
    case ForLock(_) => s.(tasks := s.tasks - {id})
    case ForLoop(loop) => if IsLive(s, loop) then s else Halt(s, id)
    case _ => Leave(s, id, Cancelled)
  }

  function After(run: seq<Step>): State {
    if run == [] then START else Apply(After(run[..|run| - 1]), run[|run| - 1])
  }

  // ----- what every interleaving keeps -----

  /** The holder of the lock is the only task past it. */
  ghost predicate LockIsExclusive(s: State) {
    && (s.lock.Some? ==> s.lock.value in s.tasks && !s.tasks[s.lock.value].ForLock?)
    && (forall id | id in s.tasks && !s.tasks[id].ForLock? :: s.lock == Some(id))
  }

  /** A live loop is the one the adapter holds. */
  ghost predicate LoopIsHeld(s: State) {
    && (s.task.Some? ==> s.task.value < |s.loops|)
    && (forall i | IsLive(s, i) :: s.task == Some(i))
  }

  ghost predicate HolderIsSound(s: State) {
    s.lock.Some? && s.lock.value in s.tasks ==>
      match s.tasks[s.lock.value]
      case ForLogin => !s.running && !IsConnected(s)
      case ForYield => !s.running
      case ForLoop(loop) => s.task == Some(loop)
      case _ => true
  }

  function Changes(e: Event): bool { e.Opened? || e.Stopped? }

  /** The last call that changed the running state and left normally was a successful start. */
  ghost predicate LastChangeOpened(log: seq<Event>) {
    log != [] && if Changes(log[|log| - 1]) then log[|log| - 1].Opened? else LastChangeOpened(log[..|log| - 1])
  }

  ghost function Refusals(log: seq<Event>): nat {
    if log == [] then 0 else Refusals(log[..|log| - 1]) + if log[|log| - 1].Refused? then 1 else 0
  }

  ghost predicate BooksMatch(s: State) {
    (s.running <==> LastChangeOpened(s.log)) && s.errors == Refusals(s.log)
  }

  ghost predicate Inv(s: State) {
    LockIsExclusive(s) && LoopIsHeld(s) && HolderIsSound(s) && BooksMatch(s)
  }

  lemma LogOne(log: seq<Event>, e: Event)
    ensures LastChangeOpened(log + [e]) <==> if Changes(e) then e.Opened? else LastChangeOpened(log)
    ensures Refusals(log + [e]) == Refusals(log) + if e.Refused? then 1 else 0
  {
    assert (log + [e])[..|log + [e]| - 1] == log;
  }

  /** A call that leaves, whatever it changed on the way out, if the books say so. */
  lemma LeaveKeepsInv(s: State, s': State, id: TaskId, e: Event)
    requires Inv(s) && (s.lock == None || s.lock == Some(id))
    requires s'.tasks == s.tasks - {id} && s'.lock == None && s'.log == s.log + [e]
    requires s'.loops == s.loops && (s'.task == s.task || (s'.task == None && !IsConnected(s)))
    requires s'.running == if Changes(e) then e.Opened? else s.running
    requires s'.errors == s.errors + if e.Refused? then 1 else 0
    ensures Inv(s')
  {
    LogOne(s.log, e);
    assert forall i | IsLive(s', i) :: IsLive(s, i);
  }

  /** The holder of the lock moves from one await to another, or a new task takes the lock. */
  lemma MoveKeepsInv(s: State, id: TaskId, next: Await)
    requires Inv(s) && (s.lock == None || s.lock == Some(id))
    requires !next.ForLock? && !next.ForYield?
    requires next.ForLogin? ==> !s.running && !IsConnected(s)
    requires next.ForLoop? ==> s.task == Some(next.loop)
    ensures Inv(s.(lock := Some(id), tasks := s.tasks[id := next]))
  {
    var s' := s.(lock := Some(id), tasks := s.tasks[id := next]);
    assert forall i | IsLive(s', i) :: IsLive(s, i);
  }

  lemma EnterKeepsInv(s: State, id: TaskId, tokenRead: bool)
    requires Inv(s) && s.lock.None? && id in s.tasks && s.tasks[id].ForLock?
    ensures Inv(Entered(s, id, s.tasks[id].call, tokenRead))
  {
    var s' := Entered(s, id, s.tasks[id].call, tokenRead);
    if s'.lock.Some? {
      MoveKeepsInv(s, id, if s.tasks[id].call.Stop? then ForBotClose else ForLogin);
    } else {
      LeaveKeepsInv(s, s', id, if s.running then AlreadyRunning else Refused);
    }
  }

  /** No loop is live while a login is awaited, so the new one is the only one. */
  lemma LoginKeepsInv(s: State, id: TaskId, ok: bool)
    requires Inv(s) && id in s.tasks && s.tasks[id].ForLogin?
    ensures Inv(Apply(s, LoginReturns(id, ok)))
    ensures forall i :: IsLive(Apply(s, LoginReturns(id, ok)), i) <==> ok && i == |s.loops|
  {
    var s' := Apply(s, LoginReturns(id, ok));
    if ok {
      assert forall i | IsLive(s', i) :: IsLive(s, i) || i == |s.loops|;
    } else {
      LeaveKeepsInv(s, s', id, Refused);
    }
  }

  lemma BotCloseKeepsInv(s: State, id: TaskId, ok: bool)
    requires Inv(s) && id in s.tasks && s.tasks[id].ForBotClose?
    ensures Inv(Apply(s, BotCloseReturns(id, ok)))
  {
    var s' := Apply(s, BotCloseReturns(id, ok));
    if ok && s.task.Some? {
      MoveKeepsInv(s, id, ForLoop(s.task.value));
    } else {
      LeaveKeepsInv(s, s', id, if ok then Stopped else StopRaised);
    }
  }

  lemma LoopReturnsKeepsInv(s: State, id: TaskId)
    requires Inv(s) && id in s.tasks && s.tasks[id].ForLoop? && !IsLive(s, s.tasks[id].loop)
    ensures Inv(Apply(s, LoopReturns(id)))
  {
    LeaveKeepsInv(s, Apply(s, LoopReturns(id)), id, if s.loops[s.tasks[id].loop].Failed? then StopRaised else Stopped);
  }

  lemma CancelKeepsInv(s: State, id: TaskId)
    requires Inv(s) && id in s.tasks
    ensures Inv(Apply(s, Cancel(id)))
  {
    var s' := Apply(s, Cancel(id));
    if s.tasks[id].ForLoop? {
      if !IsLive(s, s.tasks[id].loop) {
        LeaveKeepsInv(s, s', id, Stopped);
      }
    } else if !s.tasks[id].ForLock? {
      LeaveKeepsInv(s, s', id, Cancelled);
    }
  }

  lemma LoopEndsKeepsInv(s: State, loop: nat, failed: bool)
    requires Inv(s) && IsLive(s, loop)
    ensures Inv(Apply(s, LoopEnds(loop, failed)))
  {
    var s' := Apply(s, LoopEnds(loop, failed));
    assert forall i | IsLive(s', i) :: IsLive(s, i);
  }

  lemma ApplyKeepsInv(s: State, step: Step)
    requires Inv(s)
    ensures Inv(Apply(s, step))
  {
    if Apply(s, step) != s {
      match step
      case Arrive(_, _) =>
      case Enter(id, tokenRead) => EnterKeepsInv(s, id, tokenRead);
      case LoginReturns(id, ok) => LoginKeepsInv(s, id, ok);
      case YieldReturns(id) => LeaveKeepsInv(s, Apply(s, step), id, Opened);
      case BotCloseReturns(id, ok) => BotCloseKeepsInv(s, id, ok);
      case LoopReturns(id) => LoopReturnsKeepsInv(s, id);
      case LoopEnds(loop, failed) => LoopEndsKeepsInv(s, loop, failed);
      case Cancel(id) => CancelKeepsInv(s, id);
    }
  }

  lemma {:induction false} RunKeepsInv(run: seq<Step>)
    ensures Inv(After(run))
  {
    if run != [] {
      RunKeepsInv(run[..|run| - 1]);
      ApplyKeepsInv(After(run[..|run| - 1]), run[|run| - 1]);
    }
  }

  predicate IsConnecting(a: Await) { a.ForLogin? || a.ForYield? }

  /** In every interleaving: at most one gateway loop is live, two connects never overlap, `running`
      tells whether the last completed change was a successful start, and the error count is the
      number of starts that were answered false. */
  lemma OneLoop(run: seq<Step>)
    ensures
      var s := After(run);
      && (forall i, j | IsLive(s, i) && IsLive(s, j) :: i == j)
      && (forall id, id' | id in s.tasks && id' in s.tasks ::
            IsConnecting(s.tasks[id]) && IsConnecting(s.tasks[id']) ==> id == id')
      && (s.running <==> LastChangeOpened(s.log))
      && s.errors == Refusals(s.log)
  {
    RunKeepsInv(run);
  }

  /** In every interleaving, a stop that returns normally leaves no live loop behind and lets the next start
      connect; one that raises leaves the adapter as it was. */
  lemma StopIsComplete(run: seq<Step>, step: Step)
    ensures
      var s, s' := After(run), Apply(After(run), step);
      && (s'.log == s.log + [Stopped] ==> !s'.running && !IsConnected(s') && forall i :: !IsLive(s', i))
      && (s'.log == s.log + [StopRaised] ==> s'.running == s.running && s'.task == s.task && s'.loops == s.loops)
  {
    RunKeepsInv(run);
    ApplyKeepsInv(After(run), step);
    StoppedForgets(After(run), step);
  }

  /** In every interleaving, a stop that waits, waits for the loop the adapter holds. Resumed or cancelled, it
      goes on waiting while that loop is live. Once the loop has ended it returns normally; if the loop
      failed, it raises when resumed, but returns normally when cancelled. */
  lemma WaitingStopEnds(run: seq<Step>, id: TaskId)
    requires id in After(run).tasks && After(run).tasks[id].ForLoop?
    ensures
      var s, loop := After(run), After(run).tasks[id].loop;
      var resumed, cancelled := Apply(s, LoopReturns(id)), Apply(s, Cancel(id));
      && s.task == Some(loop) && loop < |s.loops|
      && (s.loops[loop].Live? ==> resumed == s && cancelled == s)
      && (!s.loops[loop].Live? ==>
            && resumed.log == s.log + [if s.loops[loop].Failed? then StopRaised else Stopped]
            && cancelled.log == s.log + [Stopped])
  {
    RunKeepsInv(run);
  }

  /** Right after a stop returned normally, and until the next call takes the lock, no loop is held. */
  ghost predicate NothingHeld(s: State) {
    s.log != [] && s.log[|s.log| - 1] == Stopped && s.lock.None? ==> s.task.None?
  }

  lemma {:induction false} RunKeepsNothingHeld(run: seq<Step>)
    ensures NothingHeld(After(run))
  {
    if run != [] {
      var before, step := run[..|run| - 1], run[|run| - 1];
      RunKeepsNothingHeld(before);
      RunKeepsInv(before);
      StepKeepsNothingHeld(After(before), step);
    }
  }

  lemma StepKeepsNothingHeld(s: State, step: Step)
    requires NothingHeld(s) && LockIsExclusive(s)
    ensures NothingHeld(Apply(s, step))
  {
  }

  /** In every interleaving, a start that takes the lock right after a stop returned normally, with a token to
      read, reaches the login; and if the login succeeds and nothing disturbs it, it opens: the adapter is
      running on exactly one live loop. */
  lemma StartAfterStop(run: seq<Step>, id: TaskId)
    requires After(run).log != [] && After(run).log[|After(run).log| - 1] == Stopped && After(run).lock.None?
    requires id in After(run).tasks && After(run).tasks[id] == ForLock(Start)
    ensures
      var s := Apply(After(run), Enter(id, true));
      && s.lock == Some(id) && s.tasks[id] == ForLogin
      && var done := Apply(Apply(s, LoginReturns(id, true)), YieldReturns(id));
         && done.running && IsConnected(done) && done.lock.None? && id !in done.tasks
         && done.log == s.log + [Opened]
  {
    RunKeepsInv(run);
    RunKeepsNothingHeld(run);
    LogOne(After(run).log[..|After(run).log| - 1], Stopped);
    assert After(run).log == After(run).log[..|After(run).log| - 1] + [Stopped];
  }

  /** In every interleaving, a start that takes the lock while the adapter is running is answered true and
      changes nothing. While it is not running, the start is refused, and counted, exactly when it cannot read
      its token or any loop at all is still live; otherwise it goes to the login. */
  lemma StartIsDecided(run: seq<Step>, id: TaskId, tokenRead: bool)
    requires After(run).lock.None? && id in After(run).tasks && After(run).tasks[id] == ForLock(Start)
    ensures
      var s, s' := After(run), Apply(After(run), Enter(id, tokenRead));
      && (LastChangeOpened(s.log) ==> s' == s.(tasks := s.tasks - {id}, log := s.log + [AlreadyRunning]))
      && (!LastChangeOpened(s.log) ==>
            if !tokenRead || exists i :: IsLive(s, i)
            then s' == s.(tasks := s.tasks - {id}, log := s.log + [Refused], errors := s.errors + 1)
            else id in s'.tasks && s'.tasks[id] == ForLogin && s'.lock == Some(id) && s'.log == s.log)
  {
    RunKeepsInv(run);
  }

  /** In every interleaving, a stop that takes the lock closes the bot; with no loop to wait for, or once the
      loop it waits for has ended, it returns normally. */
  lemma StopGoesThrough(run: seq<Step>, id: TaskId, tokenRead: bool)
    requires After(run).lock.None? && id in After(run).tasks && After(run).tasks[id] == ForLock(Stop)
    ensures
      var entered := Apply(After(run), Enter(id, tokenRead));
      var closed := Apply(entered, BotCloseReturns(id, true));
      && entered.lock == Some(id) && entered.tasks[id] == ForBotClose
      && (After(run).task.None? ==> closed.log == After(run).log + [Stopped])
      && (After(run).task.Some? ==>
            var loop := After(run).task.value;
            var ended := Apply(closed, LoopEnds(loop, false));
            && closed.tasks[id] == ForLoop(loop)
            && loop < |After(run).loops|
            && (After(run).loops[loop] != Failed ==> Apply(ended, LoopReturns(id)).log == After(run).log + [Stopped]))
  {
    RunKeepsInv(run);
  }

  /** A login that fails is answered false and counted; a bot that cannot be closed makes the stop raise. Both
      release the lock and leave loops and running state alone. */
  lemma FailuresAreReported(s: State, id: TaskId)
    requires id in s.tasks
    ensures
      var refused, raised := Apply(s, LoginReturns(id, false)), Apply(s, BotCloseReturns(id, false));
      && (s.tasks[id] == ForLogin ==>
            refused == s.(tasks := s.tasks - {id}, lock := None, errors := s.errors + 1, log := s.log + [Refused]))
      && (s.tasks[id] == ForBotClose ==>
            raised == s.(tasks := s.tasks - {id}, lock := None, log := s.log + [StopRaised]))
  {
  }

  lemma StoppedForgets(s: State, step: Step)
    ensures Apply(s, step).log == s.log + [Stopped] ==> Apply(s, step).task.None? && !Apply(s, step).running
    ensures Apply(s, step).log == s.log + [StopRaised] ==>
              Apply(s, step).running == s.running && Apply(s, step).task == s.task && Apply(s, step).loops == s.loops
  {
    var log' := Apply(s, step).log;
    if |log'| > |s.log| {
      var e := log'[|log'| - 1];
      assert log' == s.log + [Stopped] ==> e == Stopped;
      assert log' == s.log + [StopRaised] ==> e == StopRaised;
    }
  }

  /** The adapter's own check would not do: if `Enter` did not wait for the lock, two starts would both pass
      the check before either created its loop, and end with two live loops. */
  lemma LockIsNeeded(a: TaskId, b: TaskId)
    requires a != b
    ensures
      var arrived := Apply(Apply(START, Arrive(a, Start)), Arrive(b, Start));
      var entered := Entered(Entered(arrived, a, Start, true), b, Start, true);
      var s := Apply(Apply(entered, LoginReturns(a, true)), LoginReturns(b, true));
      exists i, j :: i != j && IsLive(s, i) && IsLive(s, j)
  {
    var arrived := Apply(Apply(START, Arrive(a, Start)), Arrive(b, Start));
    var entered := Entered(Entered(arrived, a, Start, true), b, Start, true);
    var s := Apply(Apply(entered, LoginReturns(a, true)), LoginReturns(b, true));
    assert IsLive(s, 0) && IsLive(s, 1);
  }
}
