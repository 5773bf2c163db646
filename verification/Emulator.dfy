/**
 The part of the emulator's environment that manages threads: an object whose methods update
 its fields, each proved to do what the functions of module `Threads` say.
 */
module Emulator {
  import opened Wrappers
  import opened Threads
  import Runs

  /** What a call of the scheduler ends with; a panic names its reason. */
  datatype Scheduled =
    | Resumed(thread: ThreadId)
    | Deadlocked
    | Failed(thread: ThreadId)

  /** No thread can go on, and the scan meets none it fails on. */
  ghost predicate NobodyResumes(s: State, now: int, wallClock: int) {
    forall t | 0 <= t < |s.threads| :: PassesOver(s, t, now, wallClock)
  }

  /** An active thread sleeps until `until`, which has not come yet. */
  ghost predicate SleeperUntil(s: State, now: int, wallClock: int, until: int) {
    exists t :: 0 <= t < |s.threads| && Examine(s, t, now, wallClock) == SleepsUntil(until)
  }

  /** The earliest time at which an active sleeper wakes up, if there is one. */
  ghost predicate NextAwakening(s: State, now: int, wallClock: int, next: Option<int>) {
    && (next.Some? ==> SleeperUntil(s, now, wallClock, next.value))
    && forall until | SleeperUntil(s, now, wallClock, until) :: next.Some? && next.value <= until
  }

  /** `NextAwakening` for the threads before a position of the scan. */
  ghost predicate NextAwakeningBefore(s: State, now: int, wallClock: int, next: Option<int>, position: nat)
    requires Valid(s)
  {
    && (next.Some? ==> SleeperUntil(s, now, wallClock, next.value))
    && forall t | 0 <= t < |s.threads| && Position(s, t) < position && Examine(s, t, now, wallClock).SleepsUntil? ::
         next.Some? && next.value <= Examine(s, t, now, wallClock).until
  }

  lemma CandidatePosition(s: State, i: nat)
    requires Valid(s) && i < |s.threads|
    ensures
      var t := (s.current + 1 + i) % |s.threads|;
      && Position(s, t) == i
      && forall u | 0 <= u < |s.threads| && u != t :: Position(s, u) != i
  {
    var t := (s.current + 1 + i) % |s.threads|;
    assert t == if s.current + 1 + i < |s.threads| then s.current + 1 + i else s.current + 1 + i - |s.threads|;
  }

  // ---------------------------------------------------------------- the deadlock report

  /** Every thread is passed over and none sleeps: the scheduler panics with "deadlocked". */
  ghost predicate ReportsDeadlock(s: State, now: int, wallClock: int) {
    Valid(s) && NobodyResumes(s, now, wallClock) && NextAwakening(s, now, wallClock, None)
  }

  /** An active thread waits on a condition with a time limit. */
  predicate TimedWait(s: State, t: ThreadId) {
    t < |s.threads| && s.threads[t].active && s.threads[t].blockedBy.OnCondition? && s.threads[t].blockedBy.deadline.Some?
  }

  /** Neither assertion of the time-out trips, and the mutex can be taken again. */
  predicate CanTimeOut(s: State, t: ThreadId)
    requires TimedWait(s, t)
  {
    var c := s.threads[t].blockedBy.condition;
    && c in s.conditions && s.conditions[c].currMutex.Some?
    && var m := s.conditions[c].currMutex.value;
    && t !in s.conditions[c].timedOut && s.conditions[c].waking == []
    && m in s.mutexes && s.mutexes[m].locked.None?
  }

  /**
   What a later scan finds of each thread where a deadlock is reported: one that waits with a
   time limit goes on once the limit has passed, or trips an assertion; all others are stuck.
   */
  lemma AfterTheReport(s: State, now: int, wallClock: int, later: int, laterWall: int, t: ThreadId)
    requires ReportsDeadlock(s, now, wallClock) && later >= now && laterWall >= wallClock && t < |s.threads|
    ensures Examine(s, t, later, laterWall) ==
      if !TimedWait(s, t) || laterWall < s.threads[t].blockedBy.deadline.value then StaysBlocked
      else if CanTimeOut(s, t) then Resumes
      else Fails
  {
    assert PassesOver(s, t, now, wallClock);
    if Examine(s, t, now, wallClock).SleepsUntil? {
      assert SleeperUntil(s, now, wallClock, Examine(s, t, now, wallClock).until);
    }
  }

  /**
   The deadlock report does not look at deadlines of condition waits: it is premature, in that
   waiting would make a later scan stop at some thread, exactly when a thread waits on a
   condition with a time limit.
   */
  lemma DeadlockIgnoresTimedWaits(s: State, now: int, wallClock: int)
    requires ReportsDeadlock(s, now, wallClock)
    ensures
      (exists later, laterWall :: later >= now && laterWall >= wallClock && !NobodyResumes(s, later, laterWall)) <==>
      (exists t: ThreadId :: TimedWait(s, t))
  {
    if later, laterWall :| later >= now && laterWall >= wallClock && !NobodyResumes(s, later, laterWall) {
      var t: ThreadId :| t < |s.threads| && !PassesOver(s, t, later, laterWall);
      AfterTheReport(s, now, wallClock, later, laterWall, t);
      assert TimedWait(s, t);
    }
    if t: ThreadId :| TimedWait(s, t) {
      var deadline := s.threads[t].blockedBy.deadline.value;
      var laterWall := if wallClock < deadline then deadline else wallClock;
      AfterTheReport(s, now, wallClock, now, laterWall, t);
      assert !PassesOver(s, t, now, laterWall);
      assert !NobodyResumes(s, now, laterWall);
    }
  }

  /**
   Waiting would let the program go on exactly when some thread can time out, and no thread that
   the scan visits before it has a limit that passes as early.
   */
  lemma WaitingWouldHelp(s: State, now: int, wallClock: int)
    requires ReportsDeadlock(s, now, wallClock)
    ensures
      (exists t: ThreadId, later, laterWall :: later >= now && laterWall >= wallClock && Selects(s, t, later, laterWall)) <==>
      (exists t: ThreadId :: TimedWait(s, t) && CanTimeOut(s, t) && TimesOutFirst(s, t))
  {
    if t: ThreadId, later, laterWall :| later >= now && laterWall >= wallClock && Selects(s, t, later, laterWall) {
      SelectedTimesOut(s, now, wallClock, t, later, laterWall);
    }
    if t: ThreadId :| TimedWait(s, t) && CanTimeOut(s, t) && TimesOutFirst(s, t) {
      TimesOutSelected(s, now, wallClock, t);
    }
  }

  /** Threads before `t` in the order of the scan have later limits, if any. */
  ghost predicate TimesOutFirst(s: State, t: ThreadId)
    requires Valid(s) && TimedWait(s, t)
  {
    forall u: ThreadId | TimedWait(s, u) && Position(s, u) < Position(s, t) ::
      s.threads[t].blockedBy.deadline.value < s.threads[u].blockedBy.deadline.value
  }

  lemma SelectedTimesOut(s: State, now: int, wallClock: int, t: ThreadId, later: int, laterWall: int)
    requires ReportsDeadlock(s, now, wallClock) && later >= now && laterWall >= wallClock
    requires Selects(s, t, later, laterWall)
    ensures TimedWait(s, t) && CanTimeOut(s, t) && TimesOutFirst(s, t)
  {
    hide Examine, CanTimeOut;
    AfterTheReport(s, now, wallClock, later, laterWall, t);
    forall u: ThreadId | TimedWait(s, u) && Position(s, u) < Position(s, t)
      ensures s.threads[t].blockedBy.deadline.value < s.threads[u].blockedBy.deadline.value
    {
      AfterTheReport(s, now, wallClock, later, laterWall, u);
      assert PassesOver(s, u, later, laterWall);
    }
  }

  lemma TimesOutSelected(s: State, now: int, wallClock: int, t: ThreadId)
    requires ReportsDeadlock(s, now, wallClock) && TimedWait(s, t) && CanTimeOut(s, t) && TimesOutFirst(s, t)
    ensures s.threads[t].blockedBy.deadline.value > wallClock
    ensures Selects(s, t, now, s.threads[t].blockedBy.deadline.value)
  {
    hide Examine, CanTimeOut;
    var deadline := s.threads[t].blockedBy.deadline.value;
    AfterTheReport(s, now, wallClock, now, wallClock, t);
    assert PassesOver(s, t, now, wallClock);
    AfterTheReport(s, now, wallClock, now, deadline, t);
    forall u | 0 <= u < |s.threads| && Position(s, u) < Position(s, t) ensures PassesOver(s, u, now, deadline) {
      AfterTheReport(s, now, wallClock, now, deadline, u);
    }
  }

  class Environment {
    var threads: seq<Thread>
    var currentThread: ThreadId
    var mutexes: map<MutexId, Mutex>
    var mutexCount: nat
    var openSemaphores: map<Address, Semaphore>
    var conditionVariables: map<Address, Condition>
    var mem: map<Address, Address>
    var cpu: Cpu

    ghost function View(): State
      reads this
    {
      State(threads, currentThread, mutexes, mutexCount, openSemaphores, conditionVariables, mem, cpu)
    }

    constructor (mainRoutine: Coroutine, mainStack: Address, start: Cpu)
      ensures
        var main := Thread(true, NotBlocked, None, None, Some(mainRoutine), Some(mainStack));
        View() == State([main], 0, map[], 0, map[], map[], map[], start)
    {
      threads := [Thread(true, NotBlocked, None, None, Some(mainRoutine), Some(mainStack))];
      currentThread, mutexes, mutexCount := 0, map[], 0;
      openSemaphores, conditionVariables, mem, cpu := map[], map[], map[], start;
    }

    // -------------------------------------------------------------- mutexes

    method InitMutex(kind: MutexType) returns (reply: Reply)
      modifies this`mutexes, this`mutexCount
      ensures (reply, View()) == Threads.InitMutex(old(View()), kind)
    {
      var mutexId := mutexCount;
      if mutexCount == MAX_U64 {
        return Panics;
      }
      mutexCount := mutexCount + 1;
      mutexes := mutexes[mutexId := Mutex(kind, 0, None)];
      return Ok(mutexId);
    }

    method DestroyMutex(mutexId: MutexId) returns (reply: Reply)
      modifies this`mutexes
      ensures (reply, View()) == Threads.DestroyMutex(old(View()), mutexId)
    {
      if mutexId !in mutexes {
        return Panics;
      }
      var mutex := mutexes[mutexId];
      if mutex.locked.Some? {
        return Err(EBUSY);
      } else if mutex.waitingCount != 0 {
        return Err(EBUSY);
      }
      mutexes := mutexes - {mutexId};
      return Ok(0);
    }

    /** Panics, by returning false, when the mutex is gone or locked. */
    method RelockUnblockedMutexForThread(threadId: ThreadId, mutexId: MutexId) returns (done: bool)
      modifies this`mutexes
      ensures done <==> mutexId in old(mutexes) && old(mutexes)[mutexId].locked.None?
      ensures View() == if done then Relock(old(View()), threadId, mutexId) else old(View())
    {
      if mutexId !in mutexes || mutexes[mutexId].locked.Some? {
        return false;
      }
      mutexes := mutexes[mutexId := mutexes[mutexId].(locked := Some(Lock(threadId, 1)))];
      if mutexes[mutexId].waitingCount > 0 {
        mutexes := mutexes[mutexId := mutexes[mutexId].(waitingCount := mutexes[mutexId].waitingCount - 1)];
      }
      return true;
    }

    method LockMutex(mutexId: MutexId) returns (reply: Reply)
      requires Valid(View())
      modifies this`mutexes, this`threads
      ensures (reply, View()) == Threads.LockMutex(old(View()), mutexId)
    {
      if mutexId !in mutexes {
        return Panics;
      }
      var mutex := mutexes[mutexId];
      if mutex.locked.None? {
        mutexes := mutexes[mutexId := mutex.(locked := Some(Lock(currentThread, 1)))];
        return Ok(1);
      }
      var Lock(lockingThread, lockCount) := mutex.locked.value;
      if lockingThread == currentThread {
        match mutex.kind
        case Normal => return Panics;
        case ErrorCheck => return Err(EDEADLK);
        case Recursive =>
          if lockCount == MAX_U32 {
            return Panics;
          }
          mutexes := mutexes[mutexId := mutex.(locked := Some(Lock(lockingThread, lockCount + 1)))];
          return Ok(lockCount + 1);
      }
      mutexes := mutexes[mutexId := mutex.(waitingCount := mutex.waitingCount + 1)];
      reply := YieldThread(OnMutex(mutexId));
    }

    method UnlockMutex(mutexId: MutexId) returns (reply: Reply)
      modifies this`mutexes
      ensures (reply, View()) == Threads.UnlockMutex(old(View()), mutexId)
    {
      if mutexId !in mutexes {
        return Panics;
      }
      var mutex := mutexes[mutexId];
      if mutex.locked.None? {
        return if mutex.kind.Normal? then Panics else Err(EPERM);
      }
      var Lock(lockingThread, lockCount) := mutex.locked.value;
      if lockingThread != currentThread {
        match mutex.kind
        case Normal => // POSIX leaves this undefined; the code allows it.
        case _ => return Err(EPERM);
      }
      if lockCount == 1 {
        mutexes := mutexes[mutexId := mutex.(locked := None)];
        return Ok(0);
      } else if !mutex.kind.Recursive? || lockCount < 2 {
        return Panics;
      } else {
        mutexes := mutexes[mutexId := mutex.(locked := Some(Lock(lockingThread, lockCount - 1)))];
        return Ok(lockCount - 1);
      }
    }

    // -------------------------------------------------------------- threads

    /** Gives control back to the main loop; `Blocks` stands for that. */
    method YieldThread(threadBlock: ThreadBlock) returns (reply: Reply)
      requires Valid(View())
      modifies this`threads
      ensures (reply, View()) == Threads.YieldThread(old(View()), threadBlock)
    {
      if !threads[currentThread].blockedBy.NotBlocked? {
        return Panics;
      }
      threads := threads[currentThread := threads[currentThread].(blockedBy := threadBlock)];
      return Blocks;
    }

    method SuspendThread(thread: ThreadId) returns (reply: Reply)
      modifies this`threads
      ensures (reply, View()) == Threads.SuspendThread(old(View()), thread)
    {
      if thread >= |threads| {
        return Panics;
      }
      match threads[thread].blockedBy {
        case Suspended(count, previous) =>
          threads := threads[thread := threads[thread].(blockedBy := Suspended(count + 1, previous))];
        case previous =>
          threads := threads[thread := threads[thread].(blockedBy := Suspended(1, previous))];
      }
      return Ok(0);
    }

    method ResumeThread(thread: ThreadId) returns (reply: Reply)
      modifies this`threads
      ensures (reply, View()) == Threads.ResumeThread(old(View()), thread)
    {
      if thread >= |threads| || !threads[thread].blockedBy.Suspended? {
        return Panics;
      }
      var Suspended(count, previous) := threads[thread].blockedBy;
      if count == 0 {
        return Panics;
      }
      if count > 1 {
        threads := threads[thread := threads[thread].(blockedBy := Suspended(count - 1, previous))];
      } else {
        threads := threads[thread := threads[thread].(blockedBy := previous)];
      }
      return Ok(0);
    }

    method NewThread(stackAlloc: Address, stackSize: nat, routine: Coroutine) returns (reply: Reply)
      modifies this`threads
      ensures (reply, View()) == Threads.NewThread(old(View()), stackAlloc, stackSize, routine)
    {
      var stackHighAddr := stackAlloc + stackSize;
      if stackHighAddr % 4 != 0 {
        return Panics;
      }
      threads := threads + [Thread(true, NotBlocked, None, Some(FRESH_CPU), Some(routine), Some(stackAlloc))];
      return Ok(|threads| - 1);
    }

    // -------------------------------------------------------------- semaphores

    method SemDecrement(sem: Address, waitOnLock: bool) returns (reply: Reply)
      requires Valid(View())
      modifies this`openSemaphores, this`threads
      ensures (reply, View()) == Threads.SemDecrement(old(View()), sem, waitOnLock)
    {
      if sem !in openSemaphores {
        return Panics;
      }
      var hostSem := openSemaphores[sem];
      if hostSem.value > 0 {
        openSemaphores := openSemaphores[sem := hostSem.(value := hostSem.value - 1)];
        return Ok(1);
      }
      if !waitOnLock {
        return Ok(0);
      }
      openSemaphores := openSemaphores[sem := hostSem.(waiting := hostSem.waiting + {currentThread})];
      reply := YieldThread(OnSemaphore(sem));
    }

    method SemIncrement(sem: Address) returns (reply: Reply)
      modifies this`openSemaphores
      ensures (reply, View()) == Threads.SemIncrement(old(View()), sem)
    {
      if sem !in openSemaphores {
        return Panics;
      }
      var hostSem := openSemaphores[sem];
      openSemaphores := openSemaphores[sem := hostSem.(value := hostSem.value + 1)];
      return Ok(0);
    }

    // -------------------------------------------------------------- the scheduler

    /**
     Gives candidate `t` what it waits for, if it is there. Nothing changes otherwise.
     */
    method TryResume(t: ThreadId, now: int, wallClock: int) returns (verdict: Verdict)
      requires Valid(View()) && t < |threads|
      modifies this`threads, this`mutexes, this`openSemaphores, this`conditionVariables, this`mem
      ensures verdict == Examine(old(View()), t, now, wallClock)
      ensures verdict.Resumes? ==> View() == Grant(old(View()), t, now, wallClock)
      ensures verdict.StaysBlocked? || verdict.SleepsUntil? ==> View() == old(View())
    {
      var candidate := threads[t];
      if !candidate.active {
        return StaysBlocked;
      }
      match candidate.blockedBy
      case Sleeping(sleepingUntil) =>
        if sleepingUntil <= now {
          threads := threads[t := candidate.(blockedBy := NotBlocked)];
          return Resumes;
        }
        return SleepsUntil(sleepingUntil);
      case OnMutex(mutexId) =>
        if mutexId in mutexes && mutexes[mutexId].locked.Some? {
          return StaysBlocked;
        }
        threads := threads[t := candidate.(blockedBy := NotBlocked)];
        var done := RelockUnblockedMutexForThread(t, mutexId);
        return if done then Resumes else Fails;
      case OnSemaphore(sem) =>
        if sem !in openSemaphores {
          return Fails;
        }
        var hostSem := openSemaphores[sem];
        if hostSem.value > 0 {
          // The waiting set loses the current thread, not the thread that resumes.
          openSemaphores := openSemaphores[sem := Semaphore(hostSem.value - 1, hostSem.waiting - {currentThread})];
          threads := threads[t := candidate.(blockedBy := NotBlocked)];
          return Resumes;
        }
        return StaysBlocked;
      case OnCondition(condition, deadline) =>
        verdict := TryResumeOnCondition(t, condition, deadline, now, wallClock);
      case Joining(joinee, result) =>
        if joinee >= |threads| {
          return Fails;
        }
        if threads[joinee].active {
          return StaysBlocked;
        }
        if result != NULL {
          if threads[joinee].returnValue.None? {
            return Fails;
          }
          mem := mem[result := threads[joinee].returnValue.value];
        }
        threads := threads[t := candidate.(blockedBy := NotBlocked)];
        return Resumes;
      case NotBlocked =>
        assert threads == threads[t := candidate.(blockedBy := NotBlocked)];
        return Resumes;
      case Suspended(count, _) =>
        return if count > 0 then StaysBlocked else Fails;
    }

    method TryResumeOnCondition(t: ThreadId, condition: Address, deadline: Option<int>, now: int, wallClock: int)
      returns (verdict: Verdict)
      requires Valid(View()) && t < |threads| && threads[t].active
      requires threads[t].blockedBy == OnCondition(condition, deadline)
      modifies this`threads, this`mutexes, this`conditionVariables
      ensures verdict == Examine(old(View()), t, now, wallClock)
      ensures verdict.Resumes? ==> View() == Grant(old(View()), t, now, wallClock)
      ensures verdict.StaysBlocked? || verdict.SleepsUntil? ==> View() == old(View())
    {
      if condition !in conditionVariables || conditionVariables[condition].currMutex.None? {
        return Fails;
      }
      var hostCond := conditionVariables[condition];
      var mutex := hostCond.currMutex.value;
      if hostCond.waking != [] && hostCond.waking[0] == t && !(mutex in mutexes && mutexes[mutex].locked.Some?) {
        conditionVariables := conditionVariables[condition := hostCond.(waking := hostCond.waking[1..])];
        threads := threads[t := threads[t].(blockedBy := NotBlocked)];
        var done := RelockUnblockedMutexForThread(t, mutex);
        return if done then Resumes else Fails;
      } else if deadline.Some? && deadline.value <= wallClock {
        if t in hostCond.timedOut || hostCond.waking != [] || (mutex in mutexes && mutexes[mutex].locked.Some?) {
          return Fails;
        }
        conditionVariables := conditionVariables[condition :=
          hostCond.(timedOut := hostCond.timedOut + {t}, waiting := Without(hostCond.waiting, t))];
        threads := threads[t := threads[t].(blockedBy := NotBlocked)];
        var done := RelockUnblockedMutexForThread(t, mutex);
        return if done then Resumes else Fails;
      }
      return StaysBlocked;
    }

    /**
     One scan of the threads in cyclic order, starting after the current one. It stops at the
     first thread that can go on, which alone is given what it waits for; otherwise it changes
     nothing and finds the earliest time at which an active sleeper wakes up.
     */
    method Scan(now: int, wallClock: int) returns (outcome: Option<Scheduled>, nextAwakening: Option<int>)
      requires Valid(View())
      modifies this`threads, this`mutexes, this`openSemaphores, this`conditionVariables, this`mem
      ensures outcome.Some? ==> !outcome.value.Deadlocked?
      ensures outcome.Some? && outcome.value.Resumed? ==>
        && Selects(old(View()), outcome.value.thread, now, wallClock)
        && View() == Grant(old(View()), outcome.value.thread, now, wallClock)
      ensures outcome.Some? && outcome.value.Failed? ==>
        && outcome.value.thread < |old(threads)|
        && Examine(old(View()), outcome.value.thread, now, wallClock).Fails?
        && PassesAllBefore(old(View()), Position(old(View()), outcome.value.thread), now, wallClock)
      ensures outcome.None? ==>
        && View() == old(View())
        && NobodyResumes(View(), now, wallClock)
        && NextAwakening(View(), now, wallClock, nextAwakening)
    {
      nextAwakening := None;
      for i := 0 to |threads|
        invariant View() == old(View())
        invariant PassesAllBefore(View(), i, now, wallClock)
        invariant NextAwakeningBefore(View(), now, wallClock, nextAwakening, i)
      {
        var threadId := (currentThread + 1 + i) % |threads|;
        CandidatePosition(View(), i);
        var verdict := TryResume(threadId, now, wallClock);
        match verdict {
          case Resumes => return Some(Resumed(threadId)), None;
          case Fails => return Some(Failed(threadId)), None;
          case SleepsUntil(until) =>
            nextAwakening :=
              if nextAwakening.None? || until < nextAwakening.value then Some(until) else nextAwakening;
          case StaysBlocked =>
        }
      }
      return None, nextAwakening;
    }

    /**
     Scans until a thread can go on, sleeping in between until the earliest awakening. The
     clocks are read once per scan, and sleeping lasts at least as long as asked; then one
     sleep is enough. The deadlock panic is exact: no thread can go on and none sleeps.
     */
    method ScheduleNextThread(start: int, startWall: int)
      returns (outcome: Scheduled, now: int, wallClock: int, slept: bool)
      requires Valid(View())
      modifies this`threads, this`mutexes, this`openSemaphores, this`conditionVariables, this`mem
      ensures outcome.Resumed? ==>
        && Selects(old(View()), outcome.thread, now, wallClock)
        && View() == Grant(old(View()), outcome.thread, now, wallClock)
      ensures outcome.Failed? ==>
        outcome.thread < |old(threads)| && Examine(old(View()), outcome.thread, now, wallClock).Fails?
      ensures outcome.Deadlocked? ==> !slept && View() == old(View())
      ensures outcome.Deadlocked? <==> ReportsDeadlock(old(View()), start, startWall)
      ensures !slept ==> now == start && wallClock == startWall
      ensures slept ==>
        && NobodyResumes(old(View()), start, startWall)
        && exists next :: NextAwakening(old(View()), start, startWall, Some(next)) && next <= now
    {
      now, wallClock, slept := start, startWall, false;
      while true
        invariant View() == old(View())
        invariant !slept ==> now == start && wallClock == startWall
        invariant slept ==>
          && NobodyResumes(View(), start, startWall)
          && (exists next :: NextAwakening(View(), start, startWall, Some(next)) && next <= now)
          && !NobodyResumes(View(), now, wallClock)
        decreases !slept
      {
        var found, nextAwakening := Scan(now, wallClock);
        if found.Some? {
          assert !PassesOver(old(View()), found.value.thread, now, wallClock);
          assert slept ==> !NextAwakening(old(View()), start, startWall, None);
          return found.value, now, wallClock, slept;
        }
        if nextAwakening.None? {
          return Deadlocked, now, wallClock, slept;
        }
        var later, laterWall :| later >= nextAwakening.value && laterWall >= wallClock;
        ghost var sleeper :| 0 <= sleeper < |threads|
          && Examine(View(), sleeper, now, wallClock) == SleepsUntil(nextAwakening.value);
        assert !PassesOver(View(), sleeper, later, laterWall);
        assert NextAwakening(View(), now, wallClock, Some(nextAwakening.value));
        now, wallClock, slept := later, laterWall, true;
      }
    }

    /** Puts the old coroutine and CPU state back into their thread and takes those of the new one. */
    method SwitchThread(oldContext: Option<Coroutine>, newThread: ThreadId) returns (newContext: Option<Coroutine>)
      requires Valid(View()) && newThread < |threads| && newThread != currentThread
      requires threads[newThread].guestContext.Some? && threads[newThread].hostContext.Some?
      modifies this`threads, this`cpu, this`currentThread
      ensures (View(), newContext) == Threads.SwitchThread(old(View()), oldContext, newThread)
    {
      var guestCtx := threads[newThread].guestContext.value;
      threads := threads[newThread := threads[newThread].(guestContext := None)];
      var swapped := cpu;
      cpu := guestCtx;
      threads := threads[currentThread := threads[currentThread].(guestContext := Some(swapped))];
      newContext := threads[newThread].hostContext;
      threads := threads[newThread := threads[newThread].(hostContext := None)];
      threads := threads[currentThread := threads[currentThread].(hostContext := oldContext)];
      assert threads == Threads.SwitchThread(old(View()), oldContext, newThread).0.threads;
      currentThread := newThread;
    }

    /**
     The rest of one turn of the main loop, after the coroutine of the current thread has yielded
     or returned. When contexts are where they should be nothing in it panics but the scheduler,
     and it is the step `Schedule` of the runs of module `Runs`.
     */
    method EndTurn(currHostContext: Coroutine, returned: Option<Address>, start: int, startWall: int)
      returns (outcome: Scheduled, hostContext: Option<Coroutine>, now: int, wallClock: int, slept: bool)
      requires Runs.Conserved(Runs.Machine(View(), Runs.Running, Some(currHostContext)))
      modifies this
      ensures
        var ended := if returned.None? then old(View()) else ExitThread(old(View()), returned.value);
        var yielded := Runs.Machine(ended, Runs.Yielded, if returned.None? then Some(currHostContext) else None);
        outcome.Resumed? ==>
          && hostContext.Some?
          && Runs.Step(yielded, Runs.Schedule(now, wallClock, outcome.thread), Runs.Machine(View(), Runs.Running, hostContext))
          && Runs.Conserved(Runs.Machine(View(), Runs.Running, hostContext))
      ensures
        var ended := if returned.None? then old(View()) else ExitThread(old(View()), returned.value);
        && (outcome.Deadlocked? <==> ReportsDeadlock(ended, start, startWall))
        && (outcome.Deadlocked? ==> View() == ended)
        && (outcome.Failed? ==>
              outcome.thread < |ended.threads| && Examine(ended, outcome.thread, now, wallClock).Fails?)
    {
      hide Examine, Grant, PassesOver, MutexIsLocked, Relock;
      hostContext := Some(currHostContext);
      if returned.Some? {
        threads := threads[currentThread :=
          threads[currentThread].(active := false, returnValue := returned, stack := None)];
        hostContext := None;
      }
      ghost var yielded := Runs.Machine(View(), Runs.Yielded, hostContext);
      assert Runs.Conserved(yielded);
      outcome, now, wallClock, slept := ScheduleNextThread(start, startWall);
      if outcome.Resumed? {
        Runs.GrantFrame(yielded.state, outcome.thread, now, wallClock);
        if outcome.thread != currentThread {
          hostContext := SwitchThread(hostContext, outcome.thread);
        }
        Runs.StepConserves(yielded, Runs.Schedule(now, wallClock, outcome.thread),
                           Runs.Machine(View(), Runs.Running, hostContext));
      }
    }
  }
}
