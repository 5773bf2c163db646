/**
 When a thread goes on, said without the scheduler's own examination of it: what it waits for is
 there. The scan and the deadlock report in those terms.
 */
module Readiness {
  import opened Wrappers
  import opened Threads
  import opened Emulator

  /** A mutex that can be taken. */
  predicate IsFree(s: State, m: MutexId) {
    m in s.mutexes && s.mutexes[m].locked.None?
  }

  predicate IsTaken(s: State, m: MutexId) {
    m in s.mutexes && s.mutexes[m].locked.Some?
  }

  /** First of the threads being woken on a condition. */
  predicate IsNextWoken(cond: Condition, t: ThreadId) {
    |cond.waking| > 0 && cond.waking[0] == t
  }

  /** What the thread waits for is there. */
  predicate IsServed(s: State, t: ThreadId, now: int, wallClock: int)
    requires t < |s.threads|
  {
    match s.threads[t].blockedBy
    case NotBlocked => true
    case Sleeping(until) => until <= now
    case OnMutex(m) => IsFree(s, m)
    case OnSemaphore(a) => a in s.semaphores && s.semaphores[a].value >= 1
    case OnCondition(c, deadline) =>
      && c in s.conditions && s.conditions[c].currMutex.Some?
      && IsFree(s, s.conditions[c].currMutex.value)
      && (IsNextWoken(s.conditions[c], t) ||
          (deadline.Some? && deadline.value <= wallClock && s.conditions[c].waking == [] && t !in s.conditions[c].timedOut))
    case Joining(joinee, result) =>
      && joinee < |s.threads| && !s.threads[joinee].active
      && (result != NULL ==> s.threads[joinee].returnValue.Some?)
    case Suspended(_, _) => false
  }

  /** What the thread waits for is not there, but may come. */
  predicate IsUnserved(s: State, t: ThreadId, wallClock: int)
    requires t < |s.threads|
  {
    match s.threads[t].blockedBy
    case NotBlocked => false
    case Sleeping(_) => false
    case OnMutex(m) => IsTaken(s, m)
    case OnSemaphore(a) => a in s.semaphores && s.semaphores[a].value <= 0
    case OnCondition(c, deadline) =>
      && c in s.conditions && s.conditions[c].currMutex.Some?
      && (deadline.None? || wallClock < deadline.value)
      && (IsNextWoken(s.conditions[c], t) ==> IsTaken(s, s.conditions[c].currMutex.value))
    case Joining(joinee, _) => joinee < |s.threads| && s.threads[joinee].active
    case Suspended(count, _) => count >= 1
  }

  /** Exactly an active thread that is served goes on, and exactly a sleeper before its time sleeps. */
  lemma ResumesExactly(s: State, t: ThreadId, now: int, wallClock: int)
    requires t < |s.threads|
    ensures Examine(s, t, now, wallClock).Resumes? <==> s.threads[t].active && IsServed(s, t, now, wallClock)
    ensures forall until :: Examine(s, t, now, wallClock) == SleepsUntil(until) <==>
      s.threads[t].active && s.threads[t].blockedBy == Sleeping(until) && now < until
    ensures Examine(s, t, now, wallClock).StaysBlocked? <==> !s.threads[t].active || IsUnserved(s, t, wallClock)
  {
    if s.threads[t].blockedBy.OnCondition? {
      var c := s.threads[t].blockedBy.condition;
      assert c in s.conditions ==> (HeadOfWaking(s.conditions[c], t) <==> IsNextWoken(s.conditions[c], t));
      assert c in s.conditions && IsNextWoken(s.conditions[c], t) ==> s.conditions[c].waking != [];
    }
  }

  /** The thread `k` places after the current one, in cyclic order. */
  function InOrder(s: State, k: nat): ThreadId
    requires s.current < |s.threads|
  {
    (s.current + 1 + k) % |s.threads|
  }

  lemma PassedOver(s: State, t: ThreadId, now: int, wallClock: int)
    requires t < |s.threads|
    ensures PassesOver(s, t, now, wallClock) <==>
      !s.threads[t].active || IsUnserved(s, t, wallClock) || (s.threads[t].blockedBy.Sleeping? && now < s.threads[t].blockedBy.until)
  {
    hide IsServed, IsUnserved;
    ResumesExactly(s, t, now, wallClock);
    if Examine(s, t, now, wallClock).SleepsUntil? {
      assert Examine(s, t, now, wallClock) == SleepsUntil(Examine(s, t, now, wallClock).until);
    }
    if s.threads[t].active && s.threads[t].blockedBy.Sleeping? && now < s.threads[t].blockedBy.until {
      assert Examine(s, t, now, wallClock) == SleepsUntil(s.threads[t].blockedBy.until);
    }
    hide Examine;
  }

  /** The scan selects the first thread after the current one that is active and served, if it reaches it. */
  lemma SelectsExactly(s: State, k: nat, now: int, wallClock: int)
    requires Valid(s) && k < |s.threads|
    ensures
      var t := InOrder(s, k);
      Selects(s, t, now, wallClock) <==>
        && s.threads[t].active && IsServed(s, t, now, wallClock)
        && forall i | 0 <= i < k ::
             var u := InOrder(s, i);
             !s.threads[u].active || IsUnserved(s, u, wallClock) || (s.threads[u].blockedBy.Sleeping? && now < s.threads[u].blockedBy.until)
  {
    var t := InOrder(s, k);
    CandidatePosition(s, k);
    ResumesExactly(s, t, now, wallClock);
    forall i | 0 <= i < k
      ensures Position(s, InOrder(s, i)) == i < Position(s, t) && InOrder(s, i) < |s.threads|
      ensures PassesOver(s, InOrder(s, i), now, wallClock) <==>
        var u := InOrder(s, i);
        !s.threads[u].active || IsUnserved(s, u, wallClock) || (s.threads[u].blockedBy.Sleeping? && now < s.threads[u].blockedBy.until)
    {
      CandidatePosition(s, i);
      PassedOver(s, InOrder(s, i), now, wallClock);
    }
    forall u | 0 <= u < |s.threads| && Position(s, u) < k ensures u == InOrder(s, Position(s, u)) {
      CandidatePosition(s, Position(s, u));
    }
    hide Examine, IsServed, IsUnserved, PassesOver, Position, InOrder;
  }

  /** A deadlock is reported exactly when every active thread waits for something that is not there, and none sleeps. */
  lemma ReportsDeadlockExactly(s: State, now: int, wallClock: int)
    requires Valid(s)
    ensures ReportsDeadlock(s, now, wallClock) <==>
      forall t | 0 <= t < |s.threads| && s.threads[t].active :: IsUnserved(s, t, wallClock)
  {
    forall t: ThreadId | t < |s.threads|
      ensures PassesOver(s, t, now, wallClock) && !Examine(s, t, now, wallClock).SleepsUntil? <==>
              !s.threads[t].active || IsUnserved(s, t, wallClock)
    {
      ResumesExactly(s, t, now, wallClock);
    }
    hide IsServed, IsUnserved, Examine;
    assert forall t | 0 <= t < |s.threads| && Examine(s, t, now, wallClock).SleepsUntil? ::
      SleeperUntil(s, now, wallClock, Examine(s, t, now, wallClock).until);
  }

  /** Thread `t` sleeps until then, and that is still to come. */
  predicate IsAsleep(s: State, t: ThreadId, now: int, until: int)
    requires t < |s.threads|
  {
    s.threads[t].active && s.threads[t].blockedBy == Sleeping(until) && now < until
  }

  ghost predicate SomebodyAsleep(s: State, now: int, until: int) {
    exists t: ThreadId :: t < |s.threads| && IsAsleep(s, t, now, until)
  }

  lemma SleepersExactly(s: State, now: int, wallClock: int, until: int)
    ensures SleeperUntil(s, now, wallClock, until) <==> SomebodyAsleep(s, now, until)
  {
    forall t: ThreadId | t < |s.threads|
      ensures Examine(s, t, now, wallClock) == SleepsUntil(until) <==> IsAsleep(s, t, now, until)
    {
      ResumesExactly(s, t, now, wallClock);
    }
    hide Examine, IsAsleep;
    if SleeperUntil(s, now, wallClock, until) {
      var t :| 0 <= t < |s.threads| && Examine(s, t, now, wallClock) == SleepsUntil(until);
      assert IsAsleep(s, t, now, until);
    }
  }

  /** The time the scheduler sleeps until is the earliest at which a sleeping thread is to go on. */
  lemma NextAwakeningExactly(s: State, now: int, wallClock: int, next: Option<int>)
    ensures NextAwakening(s, now, wallClock, next) <==>
      && (next.Some? ==> SomebodyAsleep(s, now, next.value))
      && forall until | SomebodyAsleep(s, now, until) :: next.Some? && next.value <= until
  {
    forall until: int ensures SleeperUntil(s, now, wallClock, until) <==> SomebodyAsleep(s, now, until) {
      SleepersExactly(s, now, wallClock, until);
    }
    hide SleeperUntil, SomebodyAsleep;
  }
}
