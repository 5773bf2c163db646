/**
 Semaphores over whole runs: the units given out, and the set of waiting threads kept with a
 semaphore, from which the scheduler takes the wrong thread.
 */
module SemaphoreRuns {
  import opened Wrappers
  import opened Threads
  import opened Runs

  // ---------------------------------------------------------------- units

  /** A unit is taken at once if there is one; without one the call refuses or blocks its thread. */
  lemma DecrementReplies(s: State, a: Address, waitOnLock: bool)
    requires Valid(s)
    ensures
      var (reply, s') := SemDecrement(s, a, waitOnLock);
      var available := a in s.semaphores && s.semaphores[a].value > 0;
      var unavailable := a in s.semaphores && s.semaphores[a].value <= 0;
      && (reply == Ok(1) <==> available)
      && (reply == Ok(0) <==> unavailable && !waitOnLock)
      && (reply == Blocks <==> unavailable && waitOnLock && s.threads[s.current].blockedBy.NotBlocked?)
      && (reply.Ok? || reply.Blocks? || reply.Panics?)
      && (reply.Ok? ==> s'.threads == s.threads)
      && (reply == Blocks ==> s'.threads == s.threads[s.current := s.threads[s.current].(blockedBy := OnSemaphore(a))])
      && (reply == Ok(0) ==> s' == s)
  {
  }

  /** What a step adds to the units of the semaphore, or takes. */
  ghost function Units(mc: Machine, e: Event, a: Address): int {
    match e
    case SemInc(b) => if b == a then 1 else 0
    case SemDec(b, _) => if b == a && a in mc.state.semaphores && mc.state.semaphores[a].value > 0 then -1 else 0
    case Schedule(_, _, chosen) =>
      if chosen < |mc.state.threads| && mc.state.threads[chosen].blockedBy == OnSemaphore(a) then -1 else 0
    case _ => 0
  }

  ghost function UnitsBetween(ms: seq<Machine>, es: seq<Event>, a: Address, lo: nat, hi: nat): int
    requires |ms| == |es| + 1 && lo <= hi <= |es|
    decreases hi
  {
    if lo == hi then 0 else UnitsBetween(ms, es, a, lo, hi - 1) + Units(ms[hi - 1], es[hi - 1], a)
  }

  ghost predicate HasValue(s: State, a: Address, value: int) {
    a in s.semaphores && s.semaphores[a].value == value
  }

  lemma UnitsPerformed(s: State, e: Event, a: Address)
    requires Valid(s) && !Perform(s, e).0.Panics? && a in s.semaphores && a in Perform(s, e).1.semaphores
    ensures Perform(s, e).1.semaphores[a].value == s.semaphores[a].value + Units(Machine(s, Running, None), e, a)
  {
    if !ChangesSemaphores(e) {
      OthersKeepSemaphores(s, e);
      hide Perform;
    }
  }

  lemma UnitsGranted(s: State, t: ThreadId, now: int, wallClock: int, a: Address)
    requires t < |s.threads| && Examine(s, t, now, wallClock).Resumes? && a in s.semaphores
    ensures
      var s' := Grant(s, t, now, wallClock);
      && a in s'.semaphores
      && s'.semaphores[a].value == s.semaphores[a].value - (if s.threads[t].blockedBy == OnSemaphore(a) then 1 else 0)
      && (s.semaphores[a].value >= 0 ==> s'.semaphores[a].value >= 0)
  {
    GrantTakesOwnResource(s, t, now, wallClock);
    hide Grant, Examine;
  }

  lemma StepUnits(mc: Machine, e: Event, mc': Machine, a: Address)
    requires Step(mc, e, mc') && a in mc.state.semaphores && a in mc'.state.semaphores
    ensures mc'.state.semaphores[a].value == mc.state.semaphores[a].value + Units(mc, e, a)
    ensures mc.state.semaphores[a].value >= 0 ==> mc'.state.semaphores[a].value >= 0
  {
    hide Perform, Grant, Examine, Selects;
    if e.Schedule? {
      SelectsResumes(mc.state, e.chosen, e.now, e.wallClock);
      UnitsGranted(mc.state, e.chosen, e.now, e.wallClock, a);
    } else if !e.Exit? {
      UnitsPerformed(mc.state, e, a);
    }
  }

  /**
   A semaphore made with `initial` units has, as long as it exists, these and one for each
   increment, less one for each decrement that found a unit and each grant by the scheduler. From
   a count that is not negative no more is ever given out than there was.
   */
  lemma {:induction false} UnitsConserved(ms: seq<Machine>, es: seq<Event>, a: Address, initial: int, j: nat, k: nat)
    requires IsRun(ms, es) && j < k <= |es|
    requires es[j] == SemInit(a, initial) && a !in ms[j].state.semaphores
    requires forall i | j < i <= k :: a in ms[i].state.semaphores
    ensures HasValue(ms[k].state, a, initial + UnitsBetween(ms, es, a, j + 1, k))
    ensures initial >= 0 ==> initial + UnitsBetween(ms, es, a, j + 1, k) >= 0
    decreases k
  {
    hide Step, Initial;
    assert Step(ms[k - 1], es[k - 1], ms[k]);
    if k == j + 1 {
      MadeWith(ms[j], ms[k], a, initial);
    } else {
      UnitsConserved(ms, es, a, initial, j, k - 1);
      StepUnits(ms[k - 1], es[k - 1], ms[k], a);
    }
  }

  lemma MadeWith(mc: Machine, mc': Machine, a: Address, initial: int)
    requires Step(mc, SemInit(a, initial), mc') && a !in mc.state.semaphores
    ensures HasValue(mc'.state, a, initial)
  {
  }

  // ---------------------------------------------------------------- the waiting set

  /** Blocked on the semaphore, or suspended while blocked on it. */
  predicate WaitsFor(block: ThreadBlock, a: Address) {
    match block
    case OnSemaphore(semaphore) => semaphore == a
    case Suspended(_, previous) => WaitsFor(previous, a)
    case _ => false
  }

  ghost function Waiting(s: State, a: Address): set<ThreadId> {
    set t: ThreadId | t < |s.threads| && WaitsFor(s.threads[t].blockedBy, a)
  }

  /** The set kept with the semaphore is that of the threads that wait for it. */
  ghost predicate SetExact(s: State, a: Address) {
    a in s.semaphores ==> s.semaphores[a].waiting == Waiting(s, a)
  }

  /** A thread other than the current one is given a unit. */
  ghost predicate GivesToAnother(mc: Machine, e: Event, a: Address) {
    && e.Schedule?
    && e.chosen < |mc.state.threads| && mc.state.threads[e.chosen].blockedBy == OnSemaphore(a)
    && e.chosen != mc.state.current
  }

  /** A semaphore is made where threads still wait for a destroyed one. */
  ghost predicate MadeForWaiters(mc: Machine, e: Event, a: Address) {
    e.SemInit? && e.semaphore == a && a !in mc.state.semaphores && Waiting(mc.state, a) != {}
  }

  ghost predicate Miscounts(mc: Machine, e: Event, a: Address) {
    GivesToAnother(mc, e, a) || MadeForWaiters(mc, e, a)
  }

  ghost predicate ChangesSemaphores(e: Event) {
    e.SemInit? || e.SemDec? || e.SemInc? || e.SemDestroy?
  }

  lemma OthersKeepSemaphores(s: State, e: Event)
    requires Valid(s) && !Perform(s, e).0.Panics? && !ChangesSemaphores(e)
    ensures Perform(s, e).1.semaphores == s.semaphores
  {
  }

  /** How an operation changes the set. */
  lemma SetAfter(s: State, e: Event, a: Address)
    requires Valid(s) && !Perform(s, e).0.Panics?
    ensures
      var (reply, s') := Perform(s, e);
      && (a in s'.semaphores ==>
            if a !in s.semaphores then e.SemInit? && e.semaphore == a && s'.semaphores[a].waiting == {}
            else
              s'.semaphores[a].waiting ==
              s.semaphores[a].waiting + if e.SemDec? && e.semaphore == a && reply.Blocks? then {s.current} else {})
      && (e.SemInit? && e.semaphore == a ==> a in s'.semaphores)
      && (e.SemInit? ==> s'.threads == s.threads)
  {
    if !ChangesSemaphores(e) {
      OthersKeepSemaphores(s, e);
      hide Perform;
    }
  }

  /** How an operation changes who waits. */
  lemma WaitingAfter(s: State, e: Event, a: Address)
    requires Valid(s) && !Perform(s, e).0.Panics?
    ensures
      var (reply, s') := Perform(s, e);
      Waiting(s', a) == Waiting(s, a) + if e.SemDec? && e.semaphore == a && reply.Blocks? then {s.current} else {}
  {
    ThreadsAfter(s, e);
    var (reply, s') := Perform(s, e);
    hide Perform;
    forall t: ThreadId | t < |s.threads|
      ensures WaitsFor(s'.threads[t].blockedBy, a) <==>
              WaitsFor(s.threads[t].blockedBy, a) || (e.SemDec? && e.semaphore == a && reply.Blocks? && t == s.current)
    {
    }
    assert |s.threads| <= |s'.threads| && forall t | |s.threads| <= t < |s'.threads| :: s'.threads[t].blockedBy.NotBlocked?;
    assert e.SemDec? && reply.Blocks? ==> s.current < |s.threads|;
  }

  /** What a grant does to the set: the current thread leaves it, not the one that goes on. */
  lemma SetGranted(s: State, t: ThreadId, now: int, wallClock: int, a: Address)
    requires t < |s.threads| && Examine(s, t, now, wallClock).Resumes?
    ensures
      var s' := Grant(s, t, now, wallClock);
      && (a in s'.semaphores <==> a in s.semaphores)
      && (a in s.semaphores ==>
            s'.semaphores[a].waiting ==
            if s.threads[t].blockedBy == OnSemaphore(a) then s.semaphores[a].waiting - {s.current} else s.semaphores[a].waiting)
      && (s.threads[t].blockedBy == OnSemaphore(a) ==> a in s.semaphores)
      && !s.threads[t].blockedBy.Suspended?
  {
  }

  lemma SameBlocksSameWaiting(s: State, s': State, a: Address)
    requires |s'.threads| == |s.threads|
    requires forall t | 0 <= t < |s.threads| :: s'.threads[t].blockedBy == s.threads[t].blockedBy
    ensures Waiting(s', a) == Waiting(s, a)
  {
  }

  lemma WaitingGranted(s: State, t: ThreadId, now: int, wallClock: int, a: Address)
    requires t < |s.threads| && Examine(s, t, now, wallClock).Resumes?
    ensures Waiting(Grant(s, t, now, wallClock), a) == Waiting(s, a) - {t}
    ensures t in Waiting(s, a) <==> s.threads[t].blockedBy == OnSemaphore(a)
  {
    GrantFrame(s, t, now, wallClock);
    SetGranted(s, t, now, wallClock, a);
    hide Grant, Examine;
  }

  /** After a grant the set still is that of the waiting threads exactly when the current thread was given the unit. */
  lemma GrantKeepsExact(mc: Machine, e: Event, mc': Machine, a: Address)
    requires Step(mc, e, mc') && e.Schedule? && SetExact(mc.state, a)
    ensures SetExact(mc'.state, a) <==> !GivesToAnother(mc, e, a)
  {
    var Schedule(now, wallClock, chosen) := e;
    SelectsResumes(mc.state, chosen, now, wallClock);
    SetGranted(mc.state, chosen, now, wallClock, a);
    WaitingGranted(mc.state, chosen, now, wallClock, a);
    GrantFrame(mc.state, chosen, now, wallClock);
    hide Grant, Examine, Selects, PassesAllBefore;
    SameBlocksSameWaiting(Grant(mc.state, chosen, now, wallClock), mc'.state, a);
    hide Waiting;
  }

  lemma StepKeepsExact(mc: Machine, e: Event, mc': Machine, a: Address)
    requires Step(mc, e, mc') && SetExact(mc.state, a)
    ensures SetExact(mc'.state, a) <==> !Miscounts(mc, e, a)
  {
    if e.Schedule? {
      hide Step, SetExact;
      GrantKeepsExact(mc, e, mc', a);
    } else if e.Exit? {
      SameBlocksSameWaiting(mc.state, mc'.state, a);
    } else {
      SetAfter(mc.state, e, a);
      WaitingAfter(mc.state, e, a);
      hide Perform, Waiting;
    }
  }

  lemma {:induction false} StaysExact(ms: seq<Machine>, es: seq<Event>, a: Address, i: nat)
    requires IsRun(ms, es) && i < |ms|
    requires forall j | 0 <= j < i :: !Miscounts(ms[j], es[j], a)
    ensures SetExact(ms[i].state, a)
  {
    hide Step, Miscounts;
    if i > 0 {
      hide Initial, SetExact;
      StaysExact(ms, es, a, i - 1);
      StepKeepsExact(ms[i - 1], es[i - 1], ms[i], a);
    }
  }

  /**
   Through a run the set is that of the waiting threads exactly while units are only given to the
   current thread, and no semaphore is made where threads still wait for a destroyed one.
   */
  lemma WaitingSetExact(ms: seq<Machine>, es: seq<Event>, a: Address, k: nat)
    requires IsRun(ms, es) && k < |ms|
    ensures (forall i | 0 <= i <= k :: SetExact(ms[i].state, a)) <==> (forall j | 0 <= j < k :: !Miscounts(ms[j], es[j], a))
  {
    hide Step, Initial, SetExact, Miscounts;
    if forall j | 0 <= j < k :: !Miscounts(ms[j], es[j], a) {
      forall i | 0 <= i <= k ensures SetExact(ms[i].state, a) {
        StaysExact(ms, es, a, i);
      }
    }
    if forall i | 0 <= i <= k :: SetExact(ms[i].state, a) {
      forall j | 0 <= j < k ensures !Miscounts(ms[j], es[j], a) {
        StepKeepsExact(ms[j], es[j], ms[j + 1], a);
      }
    }
  }
}
