/**
 A run in which a condition wake-up takes a waiting thread off the count of a mutex, the mutex
 is then destroyed, and the scheduler fails on the thread that still waits for it. So the
 condition of `MutexRuns.DestroySparesWaiters` cannot be dropped.
 */
module OrphanedWaiter {
  import opened Wrappers
  import opened Threads
  import opened Runs
  import opened MutexRuns

  function ThreadAt(i: nat, current: nat, block: ThreadBlock): Thread {
    var context := if i == current then None else Some(FRESH_CPU);
    var host := if i == current then None else Some(Coroutine(i));
    Thread(true, block, None, context, host, Some(8 * i + 8))
  }

  function Threads3(current: nat, b0: ThreadBlock, b1: ThreadBlock, b2: ThreadBlock): seq<Thread> {
    [ThreadAt(0, current, b0), ThreadAt(1, current, b1), ThreadAt(2, current, b2)]
  }

  function System(
    phase: Phase, current: nat, threads: seq<Thread>, mutexes: map<MutexId, Mutex>, count: nat,
    conditions: map<Address, Condition>): Machine
  {
    Machine(State(threads, current, mutexes, count, map[], conditions, map[], FRESH_CPU), phase, Some(Coroutine(current)))
  }

  const IDLE := NotBlocked
  const ON_COND := OnCondition(1, None)

  function M(waiting: nat, owner: Option<ThreadId>): map<MutexId, Mutex> {
    map[0 := Mutex(Normal, waiting, if owner.Some? then Some(Lock(owner.value, 1)) else None)]
  }

  function C(waiting: seq<ThreadId>, waking: seq<ThreadId>, mutex: Option<MutexId>): map<Address, Condition> {
    map[1 := Condition(waiting, waking, mutex, {})]
  }

  function EventAt(i: nat): Event
    requires i < 20
  {
    match i
    case 0 => Init(Normal)
    case 1 => CondInit(1)
    case 2 => Spawn(16, 8, Coroutine(1))
    case 3 => Spawn(24, 8, Coroutine(2))
    case 4 => LockM(0)
    case 5 => Wait(1, 0, None)
    case 6 => Schedule(0, 0, 1)
    case 7 => Timeslice
    case 8 => Schedule(0, 0, 2)
    case 9 => LockM(0)
    case 10 => Signal(1)
    case 11 => Timeslice
    case 12 => Schedule(0, 0, 1)
    case 13 => LockM(0)
    case 14 => Schedule(0, 0, 2)
    case 15 => UnlockM(0)
    case 16 => Timeslice
    case 17 => Schedule(0, 0, 0)
    case 18 => UnlockM(0)
    case _ => DestroyM(0)
  }

  function MachineAt(i: nat): Machine
    requires i <= 20
  {
    var alone := [ThreadAt(0, 0, IDLE)];
    var ready := Threads3(0, IDLE, IDLE, IDLE);
    match i
    case 0 => System(Running, 0, alone, map[], 0, map[])
    case 1 => System(Running, 0, alone, M(0, None), 1, map[])
    case 2 => System(Running, 0, alone, M(0, None), 1, C([], [], None))
    case 3 => System(Running, 0, alone + [ThreadAt(1, 0, IDLE)], M(0, None), 1, C([], [], None))
    case 4 => System(Running, 0, ready, M(0, None), 1, C([], [], None))
    case 5 => System(Running, 0, ready, M(0, Some(0)), 1, C([], [], None))
    case 6 => System(Yielded, 0, Threads3(0, ON_COND, IDLE, IDLE), M(0, None), 1, C([0], [], Some(0)))
    case 7 => System(Running, 1, Threads3(1, ON_COND, IDLE, IDLE), M(0, None), 1, C([0], [], Some(0)))
    case 8 => System(Yielded, 1, Threads3(1, ON_COND, IDLE, IDLE), M(0, None), 1, C([0], [], Some(0)))
    case 9 => System(Running, 2, Threads3(2, ON_COND, IDLE, IDLE), M(0, None), 1, C([0], [], Some(0)))
    case 10 => System(Running, 2, Threads3(2, ON_COND, IDLE, IDLE), M(0, Some(2)), 1, C([0], [], Some(0)))
    case 11 => System(Running, 2, Threads3(2, ON_COND, IDLE, IDLE), M(0, Some(2)), 1, C([], [0], Some(0)))
    case 12 => System(Yielded, 2, Threads3(2, ON_COND, IDLE, IDLE), M(0, Some(2)), 1, C([], [0], Some(0)))
    case 13 => System(Running, 1, Threads3(1, ON_COND, IDLE, IDLE), M(0, Some(2)), 1, C([], [0], Some(0)))
    case 14 => System(Yielded, 1, Threads3(1, ON_COND, OnMutex(0), IDLE), M(1, Some(2)), 1, C([], [0], Some(0)))
    case 15 => System(Running, 2, Threads3(2, ON_COND, OnMutex(0), IDLE), M(1, Some(2)), 1, C([], [0], Some(0)))
    case 16 => System(Running, 2, Threads3(2, ON_COND, OnMutex(0), IDLE), M(1, None), 1, C([], [0], Some(0)))
    case 17 => System(Yielded, 2, Threads3(2, ON_COND, OnMutex(0), IDLE), M(1, None), 1, C([], [0], Some(0)))
    case 18 => System(Running, 0, Threads3(0, IDLE, OnMutex(0), IDLE), M(0, Some(0)), 1, C([], [], Some(0)))
    case 19 => System(Running, 0, Threads3(0, IDLE, OnMutex(0), IDLE), M(0, None), 1, C([], [], Some(0)))
    case _ => System(Running, 0, Threads3(0, IDLE, OnMutex(0), IDLE), map[], 1, C([], [], Some(0)))
  }

  function Machines(): (ms: seq<Machine>)
    ensures |ms| == 21 && forall i | 0 <= i < 21 :: ms[i] == MachineAt(i)
  {
    seq(21, i requires 0 <= i < 21 => MachineAt(i))
  }

  function Events(): (es: seq<Event>)
    ensures |es| == 20 && forall i | 0 <= i < 20 :: es[i] == EventAt(i)
  {
    seq(20, i requires 0 <= i < 20 => EventAt(i))
  }

  /** The steps of the running threads. */
  lemma OperationSteps(i: nat)
    requires i < 20 && !EventAt(i).Schedule?
    ensures Step(MachineAt(i), EventAt(i), MachineAt(i + 1))
  {
    if i < 5 { FirstOperations(i); } else if i < 12 { MiddleOperations(i); } else { LastOperations(i); }
  }

  lemma FirstOperations(i: nat)
    requires i < 5
    ensures Step(MachineAt(i), EventAt(i), MachineAt(i + 1))
  {
    var expected, s := MachineAt(i + 1).state, Perform(MachineAt(i).state, EventAt(i)).1;
    assert s.threads == expected.threads;
    assert s.mutexes == expected.mutexes;
    assert s.conditions == expected.conditions;
  }

  lemma MiddleOperations(i: nat)
    requires 5 <= i < 12 && i != 6 && i != 8
    ensures Step(MachineAt(i), EventAt(i), MachineAt(i + 1))
  {
    var queue: seq<ThreadId> := [0];
    assert queue[1..] == [] && [] + queue == queue;
    var expected, s := MachineAt(i + 1).state, Perform(MachineAt(i).state, EventAt(i)).1;
    assert s.threads == expected.threads;
    assert s.mutexes == expected.mutexes;
    assert s.conditions == expected.conditions;
  }

  lemma LastOperations(i: nat)
    requires 12 <= i < 20 && i != 12 && i != 14 && i != 17
    ensures Step(MachineAt(i), EventAt(i), MachineAt(i + 1))
  {
    var expected, s := MachineAt(i + 1).state, Perform(MachineAt(i).state, EventAt(i)).1;
    assert s.threads == expected.threads;
    assert s.mutexes == expected.mutexes;
    assert s.conditions == expected.conditions;
  }

  /** Selecting a ready thread only moves the contexts. */
  lemma ReadyGrant(s: State, t: ThreadId)
    requires t < |s.threads| && s.threads[t].active && s.threads[t].blockedBy == IDLE
    ensures Examine(s, t, 0, 0).Resumes? && Grant(s, t, 0, 0) == SetBlock(s, t, NotBlocked)
  {
  }

  lemma ReadySelected(s: State, from: nat, to: nat)
    requires |s.threads| == 3 && s.current == from < 3 && to < 3 && from != to && Examine(s, to, 0, 0).Resumes?
    requires Position(s, to) == 0 || (Position(s, to) == 1 && PassesOver(s, (from + 1) % 3, 0, 0))
    ensures Selects(s, to, 0, 0)
  {
    hide Examine, PassesOver;
    forall u | 0 <= u < 3 && Position(s, u) < Position(s, to) ensures PassesOver(s, u, 0, 0) {
      assert u == (from + 1) % 3;
    }
  }

  lemma ReadyStep(
    from: nat, to: nat, b0: ThreadBlock, b1: ThreadBlock, b2: ThreadBlock, mutexes: map<MutexId, Mutex>,
    conditions: map<Address, Condition>)
    requires from < 3 && to < 3 && from != to && (if to == 0 then b0 else if to == 1 then b1 else b2) == IDLE
    requires
      var mc := System(Yielded, from, Threads3(from, b0, b1, b2), mutexes, 1, conditions);
      Position(mc.state, to) == 0 || (Position(mc.state, to) == 1 && PassesOver(mc.state, (from + 1) % 3, 0, 0))
    ensures Step(System(Yielded, from, Threads3(from, b0, b1, b2), mutexes, 1, conditions), Schedule(0, 0, to),
                 System(Running, to, Threads3(to, b0, b1, b2), mutexes, 1, conditions))
  {
    var mc := System(Yielded, from, Threads3(from, b0, b1, b2), mutexes, 1, conditions);
    var mc' := System(Running, to, Threads3(to, b0, b1, b2), mutexes, 1, conditions);
    ReadyGrant(mc.state, to);
    ReadySelected(mc.state, from, to);
    hide Examine, Grant, PassesOver, MutexIsLocked, Selects, Position;
    assert Dispatch(mc, to, 0, 0).state.threads == mc'.state.threads;
  }

  /** Each selection but the last is of a ready thread. */
  lemma ScheduleSteps(i: nat)
    requires i == 6 || i == 8 || i == 12 || i == 14
    ensures Step(MachineAt(i), EventAt(i), MachineAt(i + 1))
  {
    hide Step;
    match i
    case 6 => ReadyStep(0, 1, ON_COND, IDLE, IDLE, M(0, None), C([0], [], Some(0)));
    case 8 => ReadyStep(1, 2, ON_COND, IDLE, IDLE, M(0, None), C([0], [], Some(0)));
    case 12 => ReadyStep(2, 1, ON_COND, IDLE, IDLE, M(0, Some(2)), C([], [0], Some(0)));
    case _ => ReadyStep(1, 2, ON_COND, OnMutex(0), IDLE, M(1, Some(2)), C([], [0], Some(0)));
  }

  /** The condition wake-up. */
  lemma WakeUpSteps()
    ensures Step(MachineAt(17), EventAt(17), MachineAt(18))
  {
    var s := MachineAt(17).state;
    var granted := Grant(s, 0, 0, 0);
    WokenGrant();
    assert Position(s, 0) == 0 && Selects(s, 0, 0, 0);
    hide Examine, Grant, Selects, Position;
    var expected, dispatched := MachineAt(18), Dispatch(MachineAt(17), 0, 0, 0);
    assert dispatched.state.threads == expected.state.threads;
  }

  lemma WokenGrant()
    ensures
      var s := MachineAt(17).state;
      && Examine(s, 0, 0, 0).Resumes?
      && Grant(s, 0, 0, 0) ==
           SetBlock(s, 0, NotBlocked).(mutexes := M(0, Some(0)), conditions := C([], [], Some(0)))
  {
    var s := MachineAt(17).state;
    var queue: seq<ThreadId> := [0];
    assert queue[1..] == [];
    var granted := Grant(s, 0, 0, 0);
    assert granted.mutexes == M(0, Some(0));
    assert granted.conditions == C([], [], Some(0));
  }

  /** The run ends with thread 1 waiting for a mutex that no longer exists. */
  lemma DestroyCanOrphan()
    ensures
      var ms, es := Machines(), Events();
      && IsRun(ms, es)
      && Uncounts(ms[17], es[17], 0)
      && es[19] == DestroyM(0) && DestroyMutex(ms[19].state, 0).0.Ok?
      && ms[20].state.threads[1].blockedBy == OnMutex(0)
      && Examine(ms[20].state, 1, 0, 0).Fails?
  {
    var ms, es := Machines(), Events();
    assert Initial(ms[0]);
    forall i | 0 <= i < |es| ensures Step(ms[i], es[i], ms[i + 1]) {
      hide Step;
      if i == 17 { WakeUpSteps(); } else if EventAt(i).Schedule? { ScheduleSteps(i); } else { OperationSteps(i); }
    }
  }
}
