/**
 Which threads the scheduler's scan fails on, in the states that runs reach; and a run of an
 ordinary program in which it does, because a time limit passes while the mutex is held.
 */
module ScanFailures {
  import opened Wrappers
  import opened Threads
  import opened Runs

  // ---------------------------------------------------------------- what blocked threads rely on

  /** A condition a thread waits on has a mutex and lists the thread; suspensions are counted and not nested. */
  ghost predicate WellBlocked(s: State, t: ThreadId, block: ThreadBlock) {
    match block
    case OnCondition(c, _) => ListedFor(s, t, c)
    case Suspended(count, previous) => count >= 1 && !previous.Suspended? && WellBlocked(s, t, previous)
    case _ => true
  }

  ghost predicate ListedFor(s: State, t: ThreadId, c: Address) {
    c in s.conditions && s.conditions[c].currMutex.Some? && (t in s.conditions[c].waiting || t in s.conditions[c].waking)
  }

  /** Threads that have ended leave a value. */
  ghost predicate Consistent(s: State) {
    forall t | 0 <= t < |s.threads| ::
      && WellBlocked(s, t, s.threads[t].blockedBy)
      && (!s.threads[t].active ==> s.threads[t].returnValue.Some?)
  }

  /** From `s` to `s'` every thread but `except` stays listed. */
  ghost predicate KeepsListed(s: State, s': State, t: ThreadId) {
    forall c :: ListedFor(s, t, c) ==> ListedFor(s', t, c)
  }

  lemma {:induction false} StaysWellBlocked(s: State, s': State, t: ThreadId, block: ThreadBlock)
    requires WellBlocked(s, t, block) && KeepsListed(s, s', t)
    ensures WellBlocked(s', t, block)
  {
    hide ListedFor;
    if block.Suspended? {
      StaysWellBlocked(s, s', t, block.previous);
    }
  }

  lemma PerformKeepsListed(s: State, e: Event, t: ThreadId)
    requires Valid(s) && !Perform(s, e).0.Panics?
    ensures KeepsListed(s, Perform(s, e).1, t)
    ensures Perform(s, e).0.Blocks? && e.Wait? ==> ListedFor(Perform(s, e).1, s.current, e.condition)
  {
    if !ChangesConditions(e) {
      OthersKeepConditions(s, e);
      hide Perform;
    }
  }

  ghost predicate ChangesConditions(e: Event) {
    e.CondInit? || e.CondDestroy? || e.Wait? || e.Return? || e.Signal? || e.Broadcast?
  }

  lemma OthersKeepConditions(s: State, e: Event)
    requires Valid(s) && !Perform(s, e).0.Panics? && !ChangesConditions(e)
    ensures Perform(s, e).1.conditions == s.conditions
  {
  }

  /** How an operation changes why a thread is blocked. */
  lemma SuspensionsNest(s: State, e: Event)
    requires Valid(s) && !Perform(s, e).0.Panics? && (e.Suspend? || e.Resume?)
    ensures e.thread < |s.threads| && |Perform(s, e).1.threads| == |s.threads|
    ensures
      var before, after := s.threads[e.thread].blockedBy, Perform(s, e).1.threads[e.thread].blockedBy;
      if e.Suspend? then
        after == if before.Suspended? then Suspended(before.count + 1, before.previous) else Suspended(1, before)
      else
        && before.Suspended? && before.count >= 1
        && after == if before.count > 1 then Suspended(before.count - 1, before.previous) else before.previous
  {
  }

  lemma PerformConsistent(s: State, e: Event)
    requires Valid(s) && !Perform(s, e).0.Panics? && Consistent(s)
    ensures Consistent(Perform(s, e).1)
  {
    var s' := Perform(s, e).1;
    ThreadsAfter(s, e);
    if e.Suspend? || e.Resume? {
      SuspensionsNest(s, e);
    }
    forall t | 0 <= t < |s'.threads|
      ensures WellBlocked(s', t, s'.threads[t].blockedBy)
      ensures !s'.threads[t].active ==> s'.threads[t].returnValue.Some?
    {
      PerformKeepsListed(s, e, t);
      if t < |s.threads| {
        hide Perform, KeepsListed, ListedFor;
        StaysWellBlocked(s, s', t, s.threads[t].blockedBy);
      }
    }
  }

  lemma GrantKeepsListed(s: State, t: ThreadId, now: int, wallClock: int, u: ThreadId)
    requires t < |s.threads| && Examine(s, t, now, wallClock).Resumes? && u != t
    ensures KeepsListed(s, Grant(s, t, now, wallClock), u)
  {
    if s.threads[t].blockedBy.OnCondition? {
      var cond := s.conditions[s.threads[t].blockedBy.condition];
      StillInRest(cond.waiting, t, u);
      if HeadOfWaking(cond, t) {
        assert cond.waking == [t] + cond.waking[1..];
      }
    }
  }

  lemma StillInRest(queue: seq<ThreadId>, t: ThreadId, u: ThreadId)
    requires u != t
    ensures u in queue ==> u in Without(queue, t)
  {
    assert multiset(Without(queue, t))[u] == multiset(queue)[u];
  }

  lemma StepConsistent(mc: Machine, e: Event, mc': Machine)
    requires Step(mc, e, mc') && Consistent(mc.state)
    ensures Consistent(mc'.state)
  {
    match e
    case Schedule(now, wallClock, chosen) =>
      var granted := Grant(mc.state, chosen, now, wallClock);
      GrantFrame(mc.state, chosen, now, wallClock);
      forall t | 0 <= t < |granted.threads| ensures WellBlocked(granted, t, granted.threads[t].blockedBy) {
        if t != chosen {
          GrantKeepsListed(mc.state, chosen, now, wallClock, t);
          hide Grant, Examine, KeepsListed;
          StaysWellBlocked(mc.state, granted, t, mc.state.threads[t].blockedBy);
        }
      }
      hide Grant, Examine, Selects, ListedFor;
      SwitchKeeps(granted, mc'.state);
    case Exit(_) =>
      SwitchKeeps(mc.state, mc'.state);
    case _ => PerformConsistent(mc.state, e);
  }

  /** Moving contexts around, and ending with a value, change nothing of this. */
  lemma SwitchKeeps(s: State, s': State)
    requires Consistent(s) && s'.conditions == s.conditions && |s'.threads| == |s.threads|
    requires forall t | 0 <= t < |s.threads| ::
      && s'.threads[t].blockedBy == s.threads[t].blockedBy
      && (s'.threads[t].active || s'.threads[t].returnValue.Some? || s'.threads[t].returnValue == s.threads[t].returnValue)
      && (!s'.threads[t].active && s'.threads[t].returnValue.None? ==> !s.threads[t].active)
    ensures Consistent(s')
  {
    forall t | 0 <= t < |s.threads| ensures WellBlocked(s', t, s'.threads[t].blockedBy) {
      StaysWellBlocked(s, s', t, s.threads[t].blockedBy);
    }
  }

  lemma {:induction false} RunConsistent(ms: seq<Machine>, es: seq<Event>, i: nat)
    requires IsRun(ms, es) && i < |ms|
    ensures Consistent(ms[i].state)
  {
    if i > 0 {
      hide Step, Initial, Consistent;
      RunConsistent(ms, es, i - 1);
      StepConsistent(ms[i - 1], es[i - 1], ms[i]);
    }
  }

  // ---------------------------------------------------------------- the failing scans

  /** Woken, with its mutex destroyed. */
  ghost predicate WokenWithoutMutex(s: State, t: ThreadId, c: Address)
    requires c in s.conditions && s.conditions[c].currMutex.Some?
  {
    HeadOfWaking(s.conditions[c], t) && s.conditions[c].currMutex.value !in s.mutexes
  }

  /** Its time limit has passed, but it cannot have the mutex back, or others are being woken. */
  ghost predicate TimesOutBadly(s: State, t: ThreadId, c: Address, deadline: Option<int>, wallClock: int)
    requires c in s.conditions && s.conditions[c].currMutex.Some?
  {
    var cond, m := s.conditions[c], s.conditions[c].currMutex.value;
    && deadline.Some? && deadline.value <= wallClock
    && !(HeadOfWaking(cond, t) && m in s.mutexes && s.mutexes[m].locked.None?)
    && (cond.waking != [] || m !in s.mutexes || s.mutexes[m].locked.Some? || t in cond.timedOut)
  }

  /**
   In every run the scan fails on a thread exactly when it waits for a mutex or a semaphore that
   has been destroyed, joins a thread that does not exist, or waits on a condition and either has
   been woken without a mutex or times out badly.
   */
  lemma FailsExactly(ms: seq<Machine>, es: seq<Event>, i: nat, t: ThreadId, now: int, wallClock: int)
    requires IsRun(ms, es) && i < |ms| && t < |ms[i].state.threads|
    ensures
      var s := ms[i].state;
      var block := s.threads[t].blockedBy;
      && (block.OnCondition? ==> block.condition in s.conditions && s.conditions[block.condition].currMutex.Some?)
      && (Examine(s, t, now, wallClock).Fails? <==>
            && s.threads[t].active
            && match block
               case OnMutex(m) => m !in s.mutexes
               case OnSemaphore(a) => a !in s.semaphores
               case Joining(joinee, _) => joinee >= |s.threads|
               case OnCondition(c, deadline) => WokenWithoutMutex(s, t, c) || TimesOutBadly(s, t, c, deadline, wallClock)
               case _ => false)
  {
    RunConsistent(ms, es, i);
    hide IsRun;
    assert WellBlocked(ms[i].state, t, ms[i].state.threads[t].blockedBy);
  }

  // ---------------------------------------------------------------- a limit passing while the mutex is held

  const LIMIT: int := 5

  function ThreadAt(i: nat, current: nat, block: ThreadBlock): Thread {
    var context := if i == current then None else Some(FRESH_CPU);
    Thread(true, block, None, context, if i == current then None else Some(Coroutine(i)), Some(8 * i + 8))
  }

  function System(
    phase: Phase, current: nat, threads: seq<Thread>, mutexes: map<MutexId, Mutex>, conditions: map<Address, Condition>): Machine
  {
    Machine(State(threads, current, mutexes, |mutexes|, map[], conditions, map[], FRESH_CPU), phase, Some(Coroutine(current)))
  }

  function Events(): seq<Event> {
    [ Init(Normal), CondInit(1), Spawn(16, 8, Coroutine(1)), LockM(0), Wait(1, 0, Some(LIMIT)), Schedule(0, 0, 1), LockM(0),
      Timeslice]
  }

  function Machines(): seq<Machine> {
    var idle, waits := NotBlocked, OnCondition(1, Some(LIMIT));
    var free, held := map[0 := Mutex(Normal, 0, None)], map[0 := Mutex(Normal, 0, Some(Lock(0, 1)))];
    var taken := map[0 := Mutex(Normal, 0, Some(Lock(1, 1)))];
    var unused, queued := map[1 := Condition([], [], None, {})], map[1 := Condition([0], [], Some(0), {})];
    [ System(Running, 0, [ThreadAt(0, 0, idle)], map[], map[]),
      System(Running, 0, [ThreadAt(0, 0, idle)], free, map[]),
      System(Running, 0, [ThreadAt(0, 0, idle)], free, unused),
      System(Running, 0, [ThreadAt(0, 0, idle), ThreadAt(1, 0, idle)], free, unused),
      System(Running, 0, [ThreadAt(0, 0, idle), ThreadAt(1, 0, idle)], held, unused),
      System(Yielded, 0, [ThreadAt(0, 0, waits), ThreadAt(1, 0, idle)], free, queued),
      System(Running, 1, [ThreadAt(0, 1, waits), ThreadAt(1, 1, idle)], free, queued),
      System(Running, 1, [ThreadAt(0, 1, waits), ThreadAt(1, 1, idle)], taken, queued),
      System(Yielded, 1, [ThreadAt(0, 1, waits), ThreadAt(1, 1, idle)], taken, queued)]
  }

  lemma EarlySteps(i: nat)
    requires i < 4
    ensures Step(Machines()[i], Events()[i], Machines()[i + 1])
  {
    var expected, s := Machines()[i + 1].state, Perform(Machines()[i].state, Events()[i]).1;
    assert s.threads == expected.threads;
    assert s.mutexes == expected.mutexes;
    assert s.conditions == expected.conditions;
  }

  lemma LateSteps(i: nat)
    requires i == 4 || i == 6 || i == 7
    ensures Step(Machines()[i], Events()[i], Machines()[i + 1])
  {
    var queue: seq<ThreadId> := [0];
    assert [] + queue == queue;
    var expected, s := Machines()[i + 1].state, Perform(Machines()[i].state, Events()[i]).1;
    assert s.threads == expected.threads;
    assert s.mutexes == expected.mutexes;
    assert s.conditions == expected.conditions;
  }

  lemma SelectionStep()
    ensures Step(Machines()[5], Events()[5], Machines()[6])
  {
    var mc, expected := Machines()[5], Machines()[6];
    assert Examine(mc.state, 1, 0, 0).Resumes? && Position(mc.state, 1) == 0;
    assert Dispatch(mc, 1, 0, 0).state.threads == expected.state.threads;
  }

  /**
   One thread waits with a limit, the other holds the mutex when the limit passes: the scan, which
   visits the waiting thread first, fails on it.
   */
  lemma LimitPassesWhileHeld()
    ensures
      var ms, es := Machines(), Events();
      && IsRun(ms, es)
      && ms[8].phase.Yielded?
      && Position(ms[8].state, 0) == 0
      && Examine(ms[8].state, 0, 0, LIMIT).Fails?
  {
    var ms, es := Machines(), Events();
    assert Initial(ms[0]);
    forall i | 0 <= i < |es| ensures Step(ms[i], es[i], ms[i + 1]) {
      if i < 4 { EarlySteps(i); } else if i == 5 { SelectionStep(); } else { LateSteps(i); }
    }
  }
}
