/**
 Suspending and resuming, and ending and joining threads, over whole runs.
 */
module ThreadRuns {
  import opened Wrappers
  import opened Threads
  import opened Runs

  // ---------------------------------------------------------------- suspending

  /** Resuming takes back the last suspension, whatever the thread was doing. */
  lemma ResumeTakesBack(s: State, t: ThreadId)
    requires t < |s.threads|
    requires s.threads[t].blockedBy.Suspended? ==> s.threads[t].blockedBy.count > 0
    ensures SuspendThread(s, t).0 == Ok(0) && ResumeThread(SuspendThread(s, t).1, t) == (Ok(0), s)
  {
    var block := s.threads[t].blockedBy;
    var s' := SuspendThread(s, t).1;
    assert s'.threads[t := s.threads[t]] == s.threads;
    assert s.threads[t] == s.threads[t].(blockedBy := block);
  }

  /** A suspended thread never goes on, and stays suspended for as long as it takes to resume it. */
  lemma SuspendedUntilResumed(s: State, t: ThreadId, n: nat, now: int, wallClock: int)
    requires t < |s.threads| && n > 0 && !s.threads[t].blockedBy.Suspended?
    ensures
      var s' := SuspendedTimes(s, t, n);
      && |s'.threads| == |s.threads|
      && s'.threads[t].blockedBy == Suspended(n, s.threads[t].blockedBy)
      && Examine(s', t, now, wallClock).StaysBlocked?
  {
    SuspendedCount(s, t, n);
  }

  ghost function SuspendedTimes(s: State, t: ThreadId, n: nat): State {
    if n == 0 then s else SuspendThread(SuspendedTimes(s, t, n - 1), t).1
  }

  lemma {:induction false} SuspendedCount(s: State, t: ThreadId, n: nat)
    requires t < |s.threads| && !s.threads[t].blockedBy.Suspended?
    ensures |SuspendedTimes(s, t, n).threads| == |s.threads|
    ensures SuspendedTimes(s, t, n).threads[t].blockedBy ==
      if n == 0 then s.threads[t].blockedBy else Suspended(n, s.threads[t].blockedBy)
  {
    if n > 0 {
      SuspendedCount(s, t, n - 1);
      SuspendOnce(SuspendedTimes(s, t, n - 1), t);
      hide SuspendThread;
    }
  }

  lemma SuspendOnce(s: State, t: ThreadId)
    requires t < |s.threads|
    ensures
      var block, s' := s.threads[t].blockedBy, SuspendThread(s, t).1;
      && |s'.threads| == |s.threads|
      && s'.threads[t].blockedBy ==
           if block.Suspended? then Suspended(block.count + 1, block.previous) else Suspended(1, block)
  {
  }

  /** When the calls about other threads go through. */
  lemma ThreadReplies(s: State, t: ThreadId, stack: Address, stackSize: nat, routine: Coroutine)
    ensures SuspendThread(s, t).0 == if t < |s.threads| then Ok(0) else Panics
    ensures ResumeThread(s, t).0 ==
      if t < |s.threads| && s.threads[t].blockedBy.Suspended? && s.threads[t].blockedBy.count > 0 then Ok(0) else Panics
    ensures NewThread(s, stack, stackSize, routine).0 == if (stack + stackSize) % 4 == 0 then Ok(|s.threads|) else Panics
  {
  }

  // ---------------------------------------------------------------- joining

  /** The thread ended by step `k`, leaving `value`. */
  ghost predicate EndedWith(ms: seq<Machine>, es: seq<Event>, t: ThreadId, value: Address, k: nat)
    requires |ms| == |es| + 1
  {
    exists i :: 0 <= i < k && i < |es| && es[i] == Exit(value) && ms[i].state.current == t
  }

  /** What the thread left, if it has ended. */
  ghost predicate Left(s: State, t: ThreadId, value: Address) {
    t < |s.threads| && !s.threads[t].active && s.threads[t].returnValue == Some(value)
  }

  ghost predicate IsEnded(s: State, t: ThreadId) {
    t < |s.threads| && !s.threads[t].active
  }

  /** Only ending changes whether a thread is active and what it leaves, and it does so for good. */
  lemma EndStep(mc: Machine, e: Event, mc': Machine, t: ThreadId)
    requires Conserved(mc) && Step(mc, e, mc')
    ensures IsEnded(mc'.state, t) <==> IsEnded(mc.state, t) || (e.Exit? && mc.state.current == t)
    ensures forall value :: Left(mc'.state, t, value) <==>
      if e.Exit? && mc.state.current == t then value == e.returnValue else Left(mc.state, t, value)
    ensures e.Exit? && mc.state.current == t ==> !IsEnded(mc.state, t)
  {
    hide Perform, Grant, Examine, Selects;
    match e
    case Schedule(now, wallClock, chosen) =>
      SelectsResumes(mc.state, chosen, now, wallClock);
      GrantFrame(mc.state, chosen, now, wallClock);
    case Exit(_) =>
    case _ => PerformFrame(mc.state, e);
  }

  lemma EndedLonger(ms: seq<Machine>, es: seq<Event>, t: ThreadId, value: Address, k: nat)
    requires |ms| == |es| + 1 && k < |es|
    ensures EndedWith(ms, es, t, value, k + 1) <==>
      EndedWith(ms, es, t, value, k) || (es[k] == Exit(value) && ms[k].state.current == t)
  {
    if EndedWith(ms, es, t, value, k) {
      var i :| 0 <= i < k && i < |es| && es[i] == Exit(value) && ms[i].state.current == t;
      assert i < k + 1;
    }
  }

  /** A thread has left a value exactly when it ended with that value, and it ends once at most. */
  lemma {:induction false} LeftExactly(ms: seq<Machine>, es: seq<Event>, t: ThreadId, k: nat)
    requires IsRun(ms, es) && k < |ms|
    ensures IsEnded(ms[k].state, t) <==> exists value :: EndedWith(ms, es, t, value, k)
    ensures forall value :: Left(ms[k].state, t, value) <==> EndedWith(ms, es, t, value, k)
  {
    hide Step;
    if k > 0 {
      hide Initial, Left, IsEnded;
      LeftExactly(ms, es, t, k - 1);
      ContextsConserved(ms, es, k - 1);
      hide Conserved;
      EndStep(ms[k - 1], es[k - 1], ms[k], t);
      forall value: Address
        ensures EndedWith(ms, es, t, value, k) <==>
          EndedWith(ms, es, t, value, k - 1) || (es[k - 1] == Exit(value) && ms[k - 1].state.current == t)
      {
        EndedLonger(ms, es, t, value, k - 1);
      }
      hide EndedWith;
      if es[k - 1].Exit? && ms[k - 1].state.current == t {
        assert EndedWith(ms, es, t, es[k - 1].returnValue, k);
      }
    }
  }

  /** The scheduler lets a thread that joins `joinee` go on, and it wants the value. */
  ghost predicate Joins(mc: Machine, e: Event, joinee: ThreadId, result: Address) {
    && e.Schedule? && e.chosen < |mc.state.threads|
    && mc.state.threads[e.chosen].blockedBy == Joining(joinee, result) && result != NULL
  }

  lemma GrantDelivers(mc: Machine, e: Event, mc': Machine, joinee: ThreadId, result: Address)
    requires Step(mc, e, mc') && Joins(mc, e, joinee, result)
    ensures joinee < |mc.state.threads| && mc.state.threads[joinee].returnValue.Some?
    ensures Left(mc.state, joinee, mc.state.threads[joinee].returnValue.value)
    ensures mc'.state.memory == mc.state.memory[result := mc.state.threads[joinee].returnValue.value]
  {
    SelectsResumes(mc.state, e.chosen, e.now, e.wallClock);
    GrantTakesOwnResource(mc.state, e.chosen, e.now, e.wallClock);
    hide Grant, Selects;
  }

  /** A joining thread finds in memory the value its joinee ended with earlier in the run. */
  lemma JoinDelivers(ms: seq<Machine>, es: seq<Event>, k: nat, joinee: ThreadId, result: Address)
    requires IsRun(ms, es) && k < |es| && Joins(ms[k], es[k], joinee, result)
    ensures exists value ::
      && EndedWith(ms, es, joinee, value, k)
      && ms[k + 1].state.memory == ms[k].state.memory[result := value]
  {
    assert Step(ms[k], es[k], ms[k + 1]);
    GrantDelivers(ms[k], es[k], ms[k + 1], joinee, result);
    LeftExactly(ms, es, joinee, k);
    hide Step, Initial, Left;
  }
}
