/**
 A run in which a thread that waits on a condition with a time limit is reported as deadlocked,
 although a scan after the limit would let it go on.
 */
module PrematureDeadlock {
  import opened Wrappers
  import opened Threads
  import opened Runs
  import opened Emulator

  const LIMIT: int := 5

  function Events(): seq<Event> {
    [Init(Normal), CondInit(1), LockM(0), Wait(1, 0, Some(LIMIT))]
  }

  function System(phase: Phase, block: ThreadBlock, mutexes: map<MutexId, Mutex>, conditions: map<Address, Condition>): Machine {
    var thread := Thread(true, block, None, None, None, Some(8));
    Machine(State([thread], 0, mutexes, |mutexes|, map[], conditions, map[], FRESH_CPU), phase, Some(Coroutine(0)))
  }

  function Machines(): seq<Machine> {
    var free, held := map[0 := Mutex(Normal, 0, None)], map[0 := Mutex(Normal, 0, Some(Lock(0, 1)))];
    [ System(Running, NotBlocked, map[], map[]),
      System(Running, NotBlocked, free, map[]),
      System(Running, NotBlocked, free, map[1 := Condition([], [], None, {})]),
      System(Running, NotBlocked, held, map[1 := Condition([], [], None, {})]),
      System(Yielded, OnCondition(1, Some(LIMIT)), free, map[1 := Condition([0], [], Some(0), {})])]
  }

  lemma EarlySteps(i: nat)
    requires i < 3
    ensures Step(Machines()[i], Events()[i], Machines()[i + 1])
  {
    var expected, s := Machines()[i + 1].state, Perform(Machines()[i].state, Events()[i]).1;
    assert s.threads == expected.threads;
    assert s.mutexes == expected.mutexes;
    assert s.conditions == expected.conditions;
  }

  lemma WaitStep()
    ensures Step(Machines()[3], Events()[3], Machines()[4])
  {
    var queue: seq<ThreadId> := [0];
    assert [] + queue == queue;
    var expected, s := Machines()[4].state, Perform(Machines()[3].state, Events()[3]).1;
    assert s.threads == expected.threads;
    assert s.mutexes == expected.mutexes;
    assert s.conditions == expected.conditions;
  }

  /** The scheduler panics at the end of the run, and would not have panicked at the limit. */
  lemma WaiterReported()
    ensures
      var ms, es := Machines(), Events();
      && IsRun(ms, es)
      && ms[4].phase.Yielded?
      && ReportsDeadlock(ms[4].state, 0, 0)
      && Selects(ms[4].state, 0, 0, LIMIT)
  {
    var ms, es := Machines(), Events();
    assert Initial(ms[0]);
    forall i | 0 <= i < |es| ensures Step(ms[i], es[i], ms[i + 1]) {
      hide Step;
      if i < 3 { EarlySteps(i); } else { WaitStep(); }
    }
    assert Examine(ms[4].state, 0, 0, 0).StaysBlocked? && Examine(ms[4].state, 0, 0, LIMIT).Resumes?;
  }
}
