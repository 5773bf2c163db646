/**
 Whole runs of the emulator's main loop as sequences of steps. While a thread runs it performs
 operations one by one; when it yields or ends, the loop schedules and switches.
 */
module Runs {
  import opened Wrappers
  import opened Threads

  datatype Event =
    | Slice(cpu: Cpu, memory: map<Address, Address>)
    | Init(kind: MutexType)
    | LockM(mutex: MutexId)
    | UnlockM(mutex: MutexId)
    | DestroyM(mutex: MutexId)
    | SemInit(semaphore: Address, initial: int)
    | SemDec(semaphore: Address, waitOnLock: bool)
    | SemInc(semaphore: Address)
    | SemDestroy(semaphore: Address)
    | CondInit(condition: Address)
    | CondDestroy(condition: Address)
    | Wait(condition: Address, mutex: MutexId, deadline: Option<int>)
    | Return(condition: Address)
    | Signal(condition: Address)
    | Broadcast(condition: Address)
    | Suspend(thread: ThreadId)
    | Resume(thread: ThreadId)
    | Join(joinee: ThreadId, result: Address)
    | Sleep(until: int)
    | Timeslice
    | Spawn(stack: Address, stackSize: nat, routine: Coroutine)
    | Exit(returnValue: Address)
    | Schedule(now: int, wallClock: int, chosen: ThreadId)

  datatype Phase = Running | Yielded

  /** `host` is the coroutine the main loop holds: that of the current thread. */
  datatype Machine = Machine(state: State, phase: Phase, host: Option<Coroutine>)

  function Perform(s: State, e: Event): (Reply, State)
    requires s.current < |s.threads|
  {
    match e
    case Slice(cpu, memory) => (Ok(0), s.(cpu := cpu, memory := memory))
    case Init(kind) => InitMutex(s, kind)
    case LockM(m) => LockMutex(s, m)
    case UnlockM(m) => UnlockMutex(s, m)
    case DestroyM(m) => DestroyMutex(s, m)
    case SemInit(a, value) =>
      (Ok(0), if a in s.semaphores then s else s.(semaphores := s.semaphores[a := Semaphore(value, {})]))
    case SemDec(a, waitOnLock) => SemDecrement(s, a, waitOnLock)
    case SemInc(a) => SemIncrement(s, a)
    case SemDestroy(a) => Threads.SemDestroy(s, a)
    case CondDestroy(c) => Threads.CondDestroy(s, c)
    case CondInit(c) =>
      if c in s.conditions then (Panics, s)
      else (Ok(0), s.(conditions := s.conditions[c := Condition([], [], None, {})]))
    case Wait(c, m, deadline) => CondWait(s, c, m, deadline)
    case Return(c) => CondReturn(s, c)
    case Signal(c) => CondSignal(s, c)
    case Broadcast(c) => CondBroadcast(s, c)
    case Suspend(t) => SuspendThread(s, t)
    case Resume(t) => ResumeThread(s, t)
    case Join(joinee, result) => YieldThread(s, Joining(joinee, result))
    case Sleep(until) => YieldThread(s, Sleeping(until))
    case Timeslice => YieldThread(s, NotBlocked)
    case Spawn(stack, stackSize, routine) => NewThread(s, stack, stackSize, routine)
    case Exit(_) => (Panics, s)
    case Schedule(_, _, _) => (Panics, s)
  }

  /** `switch_thread` does not panic for `t`. */
  ghost predicate CanSwitch(s: State, t: ThreadId) {
    t < |s.threads| && s.threads[t].active && s.threads[t].guestContext.Some? && s.threads[t].hostContext.Some?
  }

  /** Grants `t` what it waits for and switches to it, unless it is already the current thread. */
  function Dispatch(mc: Machine, t: ThreadId, now: int, wallClock: int): Machine
    requires mc.state.current < |mc.state.threads| && t < |mc.state.threads|
    requires Examine(mc.state, t, now, wallClock).Resumes?
    requires t != mc.state.current ==> CanSwitch(mc.state, t)
  {
    var granted := Grant(mc.state, t, now, wallClock);
    if t == mc.state.current then Machine(granted, Running, mc.host)
    else
      var (s, host) := SwitchThread(granted, mc.host, t);
      Machine(s, Running, host)
  }

  /** One step that does not panic. */
  ghost predicate Step(mc: Machine, e: Event, mc': Machine) {
    && Valid(mc.state)
    && match e
       case Schedule(now, wallClock, chosen) =>
         && mc.phase.Yielded?
         && Selects(mc.state, chosen, now, wallClock)
         && (chosen != mc.state.current ==> CanSwitch(mc.state, chosen))
         && mc' == Dispatch(mc, chosen, now, wallClock)
       case Exit(value) =>
         // The routine of the main thread panics instead of ending.
         && mc.phase.Running?
         && mc.state.current != 0
         && mc' == Machine(ExitThread(mc.state, value), Yielded, None)
       case _ =>
         && mc.phase.Running?
         && var (reply, s) := Perform(mc.state, e);
         && !reply.Panics?
         && mc' == Machine(s, if reply.Blocks? then Yielded else Running, mc.host)
  }

  /** `run` has just taken the coroutine of the main thread. */
  ghost predicate Initial(mc: Machine) {
    && mc.phase.Running?
    && mc.host.Some?
    && |mc.state.threads| == 1
    && mc.state.current == 0
    && mc.state.threads[0] == Thread(true, NotBlocked, None, None, None, mc.state.threads[0].stack)
    && mc.state.threads[0].stack.Some?
    && mc.state.mutexes == map[] && mc.state.mutexCount == 0
    && mc.state.semaphores == map[] && mc.state.conditions == map[]
  }

  ghost predicate IsRun(ms: seq<Machine>, es: seq<Event>) {
    && |ms| == |es| + 1
    && Initial(ms[0])
    && forall i | 0 <= i < |es| :: Step(ms[i], es[i], ms[i + 1])
  }

  // ---------------------------------------------------------------- what steps leave alone

  /** Apart from new threads, only the reason a thread is blocked and shared resources change. */
  ghost predicate KeepsContexts(s: State, s': State) {
    && s'.current == s.current
    && |s.threads| <= |s'.threads|
    && (forall t | 0 <= t < |s.threads| ::
          s'.threads[t].(blockedBy := NotBlocked) == s.threads[t].(blockedBy := NotBlocked))
    && (forall t | |s.threads| <= t < |s'.threads| ::
          && s'.threads[t].active
          && s'.threads[t].guestContext.Some? && s'.threads[t].hostContext.Some? && s'.threads[t].stack.Some?)
  }

  lemma SelectsResumes(s: State, t: ThreadId, now: int, wallClock: int)
    requires Valid(s) && Selects(s, t, now, wallClock)
    ensures t < |s.threads| && Examine(s, t, now, wallClock).Resumes?
  {
  }

  /** What the current thread waits for when the operation blocks it. */
  function BlockFor(e: Event): ThreadBlock {
    match e
    case LockM(m) => OnMutex(m)
    case SemDec(a, _) => OnSemaphore(a)
    case Wait(c, _, deadline) => OnCondition(c, deadline)
    case Join(joinee, result) => Joining(joinee, result)
    case Sleep(until) => Sleeping(until)
    case _ => NotBlocked
  }

  /** An operation blocks its own thread, suspends or resumes one, adds one, or leaves all alone. */
  lemma ThreadsAfter(s: State, e: Event)
    requires Valid(s) && !Perform(s, e).0.Panics?
    ensures Perform(s, e).1.current == s.current
    ensures
      var (reply, s') := Perform(s, e);
      match e
      case Spawn(stack, _, routine) =>
        s'.threads == s.threads + [Thread(true, NotBlocked, None, Some(FRESH_CPU), Some(routine), Some(stack))]
      case Suspend(t) =>
        t < |s.threads| && s' == SetBlock(s, t, s'.threads[t].blockedBy) && s'.threads[t].blockedBy.Suspended? &&
        (if s.threads[t].blockedBy.Suspended? then s'.threads[t].blockedBy.previous == s.threads[t].blockedBy.previous
         else s'.threads[t].blockedBy.previous == s.threads[t].blockedBy)
      case Resume(t) =>
        t < |s.threads| && s' == SetBlock(s, t, s'.threads[t].blockedBy) && s.threads[t].blockedBy.Suspended? &&
        (s'.threads[t].blockedBy == s.threads[t].blockedBy.previous ||
         (s'.threads[t].blockedBy.Suspended? && s'.threads[t].blockedBy.previous == s.threads[t].blockedBy.previous))
      case _ =>
        if reply.Blocks? then
          && s.threads[s.current].blockedBy.NotBlocked?
          && s'.threads == s.threads[s.current := s.threads[s.current].(blockedBy := BlockFor(e))]
        else s'.threads == s.threads
  {
    if e.Wait? {
      UnlockFrame(s, e.mutex);
    }
    hide UnlockMutex;
  }

  lemma PerformFrame(s: State, e: Event)
    requires Valid(s) && !Perform(s, e).0.Panics?
    ensures KeepsContexts(s, Perform(s, e).1)
    ensures !e.Spawn? ==> |Perform(s, e).1.threads| == |s.threads|
    ensures
      var s' := Perform(s, e).1;
      forall t | 0 <= t < |s.threads| && t != s.current && e != Suspend(t) && !s.threads[t].blockedBy.Suspended? ::
        s'.threads[t] == s.threads[t]
  {
    hide Perform;
    ThreadsAfter(s, e);
  }

  lemma GrantFrame(s: State, t: ThreadId, now: int, wallClock: int)
    requires t < |s.threads| && Examine(s, t, now, wallClock).Resumes?
    ensures KeepsContexts(s, Grant(s, t, now, wallClock))
    ensures Grant(s, t, now, wallClock).threads == s.threads[t := s.threads[t].(blockedBy := NotBlocked)]
    ensures Grant(s, t, now, wallClock).cpu == s.cpu && s.threads[t].active
  {
    assert s.threads[t].blockedBy.NotBlocked? ==> s.threads[t] == s.threads[t].(blockedBy := NotBlocked);
  }

  /** One unit of its own semaphore, its own place in the waking queue, or its own join value. */
  lemma GrantTakesOwnResource(s: State, t: ThreadId, now: int, wallClock: int)
    requires t < |s.threads| && Examine(s, t, now, wallClock).Resumes?
    ensures
      var s' := Grant(s, t, now, wallClock);
      var block := s.threads[t].blockedBy;
      && s'.semaphores.Keys == s.semaphores.Keys
      && (forall a <- s.semaphores ::
            s'.semaphores[a].value == s.semaphores[a].value - (if block == OnSemaphore(a) then 1 else 0))
      && (block.OnSemaphore? ==> s.semaphores[block.semaphore].value > 0)
      && s'.conditions.Keys == s.conditions.Keys
      && (forall c <- s.conditions :: (block.OnCondition? && block.condition == c) || s'.conditions[c] == s.conditions[c])
      && (block.OnCondition? ==>
            var c, c' := s.conditions[block.condition], s'.conditions[block.condition];
            && c'.currMutex == c.currMutex
            && if t in c'.timedOut && t !in c.timedOut
               then c'.waking == c.waking && t !in c'.waiting
               else c.waking == [t] + c'.waking && c'.waiting == c.waiting && c'.timedOut == c.timedOut)
      && s'.memory ==
           (if block.Joining? && block.result != NULL
            then s.memory[block.result := s.threads[block.joinee].returnValue.value] else s.memory)
      && (block.Joining? ==> !s.threads[block.joinee].active)
  {
    var block := s.threads[t].blockedBy;
    if block.OnMutex? {
      RelockFrame(SetBlock(s, t, NotBlocked), t, block.mutex);
    }
    hide Relock, Without;
  }

  // ---------------------------------------------------------------- contexts

  /** Who holds a guest context, a coroutine and a stack. */
  ghost predicate Conserved(mc: Machine) {
    var s := mc.state;
    && Valid(s)
    && (mc.host.Some? <==> s.threads[s.current].active)
    && (mc.phase.Running? ==> s.threads[s.current].active)
    && forall t | 0 <= t < |s.threads| ::
         && (s.threads[t].guestContext.None? <==> t == s.current)
         && (s.threads[t].hostContext.Some? <==> s.threads[t].active && t != s.current)
         && (s.threads[t].stack.Some? <==> s.threads[t].active)
  }

  lemma StepConserves(mc: Machine, e: Event, mc': Machine)
    requires Conserved(mc) && Step(mc, e, mc')
    ensures Conserved(mc')
  {
    hide Perform, Grant, Examine, Selects;
    match e
    case Schedule(now, wallClock, chosen) =>
      SelectsResumes(mc.state, chosen, now, wallClock);
      GrantFrame(mc.state, chosen, now, wallClock);
    case Exit(_) =>
    case _ => PerformFrame(mc.state, e);
  }

  /** In every state of every run the contexts are where they should be. */
  lemma {:induction false} ContextsConserved(ms: seq<Machine>, es: seq<Event>, i: nat)
    requires IsRun(ms, es) && i < |ms|
    ensures Conserved(ms[i])
  {
    hide Step;
    if i > 0 {
      hide Initial, Conserved;
      ContextsConserved(ms, es, i - 1);
      StepConserves(ms[i - 1], es[i - 1], ms[i]);
    }
  }

  /**
   So switching threads never panics: once a selected thread has been granted what it waits for,
   every assertion and every unwrap of the switch is about something that is there, and the loop
   goes on with a coroutine.
   */
  lemma SwitchNeverPanics(ms: seq<Machine>, es: seq<Event>, i: nat, t: ThreadId, now: int, wallClock: int)
    requires IsRun(ms, es) && i < |ms| && ms[i].phase.Yielded?
    requires Valid(ms[i].state) && Selects(ms[i].state, t, now, wallClock)
    ensures
      var s := Grant(ms[i].state, t, now, wallClock);
      && Valid(s)
      && (t != s.current ==>
            && CanSwitch(ms[i].state, t)
            && CanSwitch(s, t)
            && s.threads[s.current].guestContext.None?
            && (ms[i].host.Some? || !s.threads[s.current].active))
      && Dispatch(ms[i], t, now, wallClock).host.Some?
  {
    ContextsConserved(ms, es, i);
    GrantFrame(ms[i].state, t, now, wallClock);
    hide Grant;
  }

  /** A step between two other threads leaves what is stored for `t` alone. */
  lemma StepKeepsContexts(mc: Machine, e: Event, mc': Machine, t: ThreadId)
    requires Step(mc, e, mc') && t < |mc.state.threads|
    requires t != mc.state.current && t != mc'.state.current
    ensures t < |mc'.state.threads|
    ensures mc'.state.threads[t].guestContext == mc.state.threads[t].guestContext
    ensures mc'.state.threads[t].hostContext == mc.state.threads[t].hostContext
  {
    hide Perform, Grant, Examine, Selects;
    match e
    case Schedule(now, wallClock, chosen) =>
      SelectsResumes(mc.state, chosen, now, wallClock);
      GrantFrame(mc.state, chosen, now, wallClock);
    case Exit(_) =>
    case _ => PerformFrame(mc.state, e);
  }

  /** Leaving the current thread stores its CPU state and coroutine with it. */
  lemma LeavingStores(mc: Machine, e: Event, mc': Machine)
    requires Step(mc, e, mc') && mc'.state.current != mc.state.current
    ensures mc.state.current < |mc'.state.threads|
    ensures mc'.state.threads[mc.state.current].guestContext == Some(mc.state.cpu)
    ensures mc'.state.threads[mc.state.current].hostContext == mc.host
  {
    hide Perform, Grant, Examine, Selects;
    match e
    case Schedule(now, wallClock, chosen) =>
      SelectsResumes(mc.state, chosen, now, wallClock);
      GrantFrame(mc.state, chosen, now, wallClock);
    case Exit(_) =>
    case _ => PerformFrame(mc.state, e);
  }

  /** Coming to another thread loads what was stored with it. */
  lemma EnteringLoads(mc: Machine, e: Event, mc': Machine)
    requires Step(mc, e, mc') && mc'.state.current != mc.state.current
    ensures Valid(mc'.state) && mc'.phase.Running?
    ensures mc'.state.current < |mc.state.threads| && mc'.host.Some?
    ensures mc.state.threads[mc'.state.current].guestContext == Some(mc'.state.cpu)
    ensures mc.state.threads[mc'.state.current].hostContext == mc'.host
    ensures mc'.state.threads[mc'.state.current].blockedBy.NotBlocked?
  {
    hide Perform, Grant, Examine, Selects;
    match e
    case Schedule(now, wallClock, chosen) =>
      SelectsResumes(mc.state, chosen, now, wallClock);
      GrantFrame(mc.state, chosen, now, wallClock);
    case Exit(_) =>
    case _ => PerformFrame(mc.state, e);
  }

  /** While other threads run, a thread's CPU state and coroutine are stored with it. */
  lemma {:induction false} StoredWhileAway(ms: seq<Machine>, es: seq<Event>, i: nat, k: nat)
    requires IsRun(ms, es) && i < k < |ms|
    requires forall j | i < j <= k :: ms[j].state.current != ms[i].state.current
    ensures Valid(ms[i].state)
    ensures
      var t := ms[i].state.current;
      && t < |ms[k].state.threads|
      && ms[k].state.threads[t].guestContext == Some(ms[i].state.cpu)
      && ms[k].state.threads[t].hostContext == ms[i].host
  {
    hide Step, Initial;
    ContextsConserved(ms, es, i);
    if k == i + 1 {
      LeavingStores(ms[i], es[i], ms[k]);
    } else {
      StoredWhileAway(ms, es, i, k - 1);
      StepKeepsContexts(ms[k - 1], es[k - 1], ms[k], ms[i].state.current);
    }
  }

  /**
   A thread resumes with the CPU state and the coroutine it was switched out with. The run leaves
   the thread at step `i` and comes back to it at step `j`.
   */
  lemma ResumedUnchanged(ms: seq<Machine>, es: seq<Event>, i: nat, j: nat)
    requires IsRun(ms, es) && i + 1 < j < |ms|
    requires forall k | i < k < j :: ms[k].state.current != ms[i].state.current
    requires ms[j].state.current == ms[i].state.current
    ensures ms[j].state.cpu == ms[i].state.cpu && ms[j].host == ms[i].host && ms[j].host.Some?
    ensures Valid(ms[j].state) && ms[j].phase.Running?
    ensures ms[j].state.threads[ms[j].state.current].blockedBy.NotBlocked?
  {
    hide Step, Initial;
    StoredWhileAway(ms, es, i, j - 1);
    EnteringLoads(ms[j - 1], es[j - 1], ms[j]);
  }

  // ---------------------------------------------------------------- fairness

  /** How many of the first `hi` events, from `lo` on, select a thread. */
  ghost function Selections(es: seq<Event>, lo: nat, hi: nat): nat
    requires lo <= hi <= |es|
  {
    if lo == hi then 0 else Selections(es, lo, hi - 1) + if es[hi - 1].Schedule? then 1 else 0
  }

  /** The thread is ready to run and somebody else's turn is on or the scheduler's. */
  ghost predicate Ready(mc: Machine, t: ThreadId) {
    && t < |mc.state.threads|
    && mc.state.threads[t].active
    && mc.state.threads[t].blockedBy.NotBlocked?
    && (mc.phase.Yielded? || mc.state.current != t)
  }

  /** Passing over a ready thread brings the scan strictly closer to it. */
  lemma PassingAdvances(mc: Machine, e: Event, mc': Machine, t: ThreadId)
    requires Step(mc, e, mc') && Ready(mc, t)
    requires e != Suspend(t) && !e.Spawn? && (e.Schedule? ==> e.chosen != t)
    ensures Ready(mc', t) && |mc'.state.threads| == |mc.state.threads|
    ensures Valid(mc'.state)
    ensures e.Schedule? ==> Position(mc'.state, t) < Position(mc.state, t)
    ensures !e.Schedule? ==> mc'.state.current == mc.state.current
  {
    hide Perform, Grant;
    match e
    case Schedule(now, wallClock, chosen) =>
      GrantFrame(mc.state, chosen, now, wallClock);
      assert Examine(mc.state, t, now, wallClock).Resumes?;
      assert !PassesOver(mc.state, t, now, wallClock);
      assert Position(mc.state, t) >= Position(mc.state, chosen);
    case Exit(_) =>
    case _ => PerformFrame(mc.state, e);
  }

  /**
   With a fixed number of threads, a ready thread nobody suspends is bypassed at most as often as
   there are other threads between it and the current one, which is fewer times than there are
   threads.
   */
  lemma {:induction false} BoundedBypass(ms: seq<Machine>, es: seq<Event>, t: ThreadId, lo: nat, hi: nat)
    requires IsRun(ms, es) && lo <= hi <= |es|
    requires Valid(ms[lo].state) && Ready(ms[lo], t)
    requires forall i | lo <= i < hi :: es[i] != Suspend(t) && !es[i].Spawn?
    requires forall i | lo <= i < hi && es[i].Schedule? :: es[i].chosen != t
    ensures Ready(ms[hi], t) && |ms[hi].state.threads| == |ms[lo].state.threads| && Valid(ms[hi].state)
    ensures Selections(es, lo, hi) + Position(ms[hi].state, t) <= Position(ms[lo].state, t)
    ensures Selections(es, lo, hi) <= |ms[lo].state.threads| - 1
  {
    hide Step, Initial, Ready;
    if lo < hi {
      BoundedBypass(ms, es, t, lo, hi - 1);
      PassingAdvances(ms[hi - 1], es[hi - 1], ms[hi], t);
    }
  }
}
