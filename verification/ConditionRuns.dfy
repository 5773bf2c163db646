/**
 Condition variables over whole runs: each keeps one queue of threads, those being woken before
 those that wait, and threads leave it in the order they came in, except by running out of time.
 */
module ConditionRuns {
  import opened Wrappers
  import opened Threads
  import opened Runs
  import opened Readiness

  /** The threads on the condition, in the order in which they are to go on. */
  ghost function Queue(s: State, c: Address): seq<ThreadId> {
    if c in s.conditions then s.conditions[c].waking + s.conditions[c].waiting else []
  }

  ghost predicate OthersSame(s: State, s': State, c: Address) {
    && s'.conditions.Keys == s.conditions.Keys
    && forall d <- s.conditions :: d != c ==> s'.conditions[d] == s.conditions[d]
  }

  // ---------------------------------------------------------------- replies

  /** A wait goes through if the mutex can be unlocked and is that of the threads in the queue, if any. */
  lemma WaitReplies(s: State, c: Address, m: MutexId, deadline: Option<int>)
    requires Valid(s)
    ensures
      var (reply, s') := CondWait(s, c, m, deadline);
      && (reply == Blocks <==>
            && UnlockMutex(s, m).0.Ok? && s.threads[s.current].blockedBy.NotBlocked?
            && c in s.conditions && (s.conditions[c].currMutex == Some(m) || Queue(s, c) == []))
      && (reply == Blocks || reply == Panics)
      && (reply == Blocks ==>
        && s'.mutexes == UnlockMutex(s, m).1.mutexes
        && s'.threads == s.threads[s.current := s.threads[s.current].(blockedBy := OnCondition(c, deadline))]
        && OthersSame(s, s', c)
        && var cond, cond' := s.conditions[c], s'.conditions[c];
           && cond'.currMutex == Some(m) && cond'.timedOut == cond.timedOut
           && cond'.waking == cond.waking && cond'.waiting == cond.waiting + [s.current])
  {
    UnlockFrame(s, m);
    hide UnlockMutex;
  }

  /** A signal moves the longest waiting thread behind those being woken; a broadcast moves all, in order. */
  lemma SignalReplies(s: State, c: Address)
    ensures
      var (reply, s') := CondSignal(s, c);
      if c !in s.conditions then reply == Panics
      else
        && reply == Ok(0) && s' == s.(conditions := s'.conditions) && OthersSame(s, s', c)
        && var cond, cond' := s.conditions[c], s'.conditions[c];
           && cond'.currMutex == cond.currMutex && cond'.timedOut == cond.timedOut
           && Queue(s', c) == Queue(s, c)
           && |cond'.waking| == |cond.waking| + if cond.waiting == [] then 0 else 1
    ensures
      var (reply, s') := CondBroadcast(s, c);
      if c !in s.conditions then reply == Panics
      else
        && reply == Ok(0) && s' == s.(conditions := s'.conditions) && OthersSame(s, s', c)
        && var cond, cond' := s.conditions[c], s'.conditions[c];
           && cond'.currMutex == cond.currMutex && cond'.timedOut == cond.timedOut
           && cond'.waking == Queue(s, c) && cond'.waiting == []
  {
    if c in s.conditions && s.conditions[c].waiting != [] {
      var cond := s.conditions[c];
      assert cond.waking + [cond.waiting[0]] + cond.waiting[1..] == cond.waking + cond.waiting;
    }
  }

  /** A thread that went on is no longer remembered as timed out; only an empty queue can be destroyed. */
  lemma EndReplies(s: State, c: Address)
    requires Valid(s)
    ensures
      var (reply, s') := CondReturn(s, c);
      if c !in s.conditions then reply == Panics
      else
        && reply == Ok(0) && s' == s.(conditions := s'.conditions) && OthersSame(s, s', c) && Queue(s', c) == Queue(s, c)
        && s'.conditions[c].currMutex == s.conditions[c].currMutex
        && forall t :: t in s'.conditions[c].timedOut <==> t in s.conditions[c].timedOut && t != s.current
    ensures
      var (reply, s') := Threads.CondDestroy(s, c);
      && (reply == Ok(0) <==> c in s.conditions && Queue(s, c) == [])
      && (reply == Ok(0) || reply == Panics)
      && (reply == Ok(0) ==> s' == s.(conditions := s.conditions - {c}))
  {
  }

  // ---------------------------------------------------------------- how the queue changes

  /** Blocked on the condition, or suspended while blocked on it. */
  predicate WaitsOn(block: ThreadBlock, c: Address) {
    match block
    case OnCondition(condition, _) => condition == c
    case Suspended(_, previous) => WaitsOn(previous, c)
    case _ => false
  }

  /** The scheduler gives the mutex to the thread that is to be woken next. */
  ghost predicate Wakes(mc: Machine, e: Event, c: Address) {
    && e.Schedule? && LeavesAt(mc, e, c)
    && c in mc.state.conditions && IsNextWoken(mc.state.conditions[c], e.chosen)
  }

  /** The scheduler lets a thread on the condition go on, for whatever reason. */
  ghost predicate LeavesAt(mc: Machine, e: Event, c: Address)
    requires e.Schedule?
  {
    && e.chosen < |mc.state.threads|
    && mc.state.threads[e.chosen].blockedBy.OnCondition? && mc.state.threads[e.chosen].blockedBy.condition == c
  }

  ghost predicate TimesOut(mc: Machine, e: Event, c: Address) {
    e.Schedule? && LeavesAt(mc, e, c) && !Wakes(mc, e, c)
  }

  /** Everybody in the queue waits on the condition, and nobody is in it twice. */
  ghost predicate QueueSound(s: State, c: Address) {
    Distinct(Queue(s, c)) && AllWait(s, Queue(s, c), c)
  }

  ghost predicate Distinct(q: seq<ThreadId>) {
    forall i, j | 0 <= i < j < |q| :: q[i] != q[j]
  }

  ghost predicate AllWait(s: State, q: seq<ThreadId>, c: Address) {
    forall t <- q :: t < |s.threads| && WaitsOn(s.threads[t].blockedBy, c)
  }

  ghost predicate ChangesConditions(e: Event) {
    e.CondInit? || e.CondDestroy? || e.Wait? || e.Return? || e.Signal? || e.Broadcast?
  }

  lemma OthersKeepConditions(s: State, e: Event)
    requires Valid(s) && !Perform(s, e).0.Panics? && !ChangesConditions(e)
    ensures Perform(s, e).1.conditions == s.conditions
  {
    if e.UnlockM? { UnlockFrame(s, e.mutex); }
    hide UnlockMutex;
  }

  /** Of the operations only a wait changes the queue: it puts the current thread at the end. */
  lemma QueueAfter(s: State, e: Event, c: Address)
    requires Valid(s) && !Perform(s, e).0.Panics?
    ensures Queue(Perform(s, e).1, c) == Queue(s, c) + if e.Wait? && e.condition == c then [s.current] else []
    ensures e.Wait? ==> Perform(s, e).0.Blocks?
  {
    if !ChangesConditions(e) {
      OthersKeepConditions(s, e);
      hide Perform;
    } else if e.Wait? {
      WaitReplies(s, e.condition, e.mutex, e.deadline);
      hide CondWait;
      if e.condition == c {
        var cond := s.conditions[c];
        assert cond.waking + (cond.waiting + [s.current]) == cond.waking + cond.waiting + [s.current];
      }
    } else if e.Signal? || e.Broadcast? {
      SignalReplies(s, e.condition);
      hide CondSignal, CondBroadcast;
    } else if !e.CondInit? {
      EndReplies(s, e.condition);
      hide CondReturn, Threads.CondDestroy;
    }
  }

  lemma FrontTaken(cond: Condition, t: ThreadId)
    requires IsNextWoken(cond, t)
    ensures cond.waking + cond.waiting == [t] + (cond.waking[1..] + cond.waiting)
  {
  }

  /** What a grant does to the condition of the thread. */
  lemma ConditionGranted(s: State, t: ThreadId, now: int, wallClock: int)
    requires t < |s.threads| && Examine(s, t, now, wallClock).Resumes? && s.threads[t].blockedBy.OnCondition?
    ensures
      var c, s' := s.threads[t].blockedBy.condition, Grant(s, t, now, wallClock);
      && c in s.conditions && c in s'.conditions
      && var cond, cond' := s.conditions[c], s'.conditions[c];
         if IsNextWoken(cond, t) then cond'.waking == cond.waking[1..] && cond'.waiting == cond.waiting
         else cond.waking == [] && cond'.waking == [] && cond'.waiting == Without(cond.waiting, t)
  {
    hide Without;
  }

  /** A grant takes the thread out of its own queue: from the front, or from wherever it waits. */
  lemma QueueGranted(s: State, t: ThreadId, now: int, wallClock: int, c: Address)
    requires t < |s.threads| && Examine(s, t, now, wallClock).Resumes?
    ensures
      var s' := Grant(s, t, now, wallClock);
      var block := s.threads[t].blockedBy;
      if block.OnCondition? && block.condition == c then
        && c in s.conditions
        && if IsNextWoken(s.conditions[c], t) then Queue(s, c) == [t] + Queue(s', c)
           else s.conditions[c].waking == [] && Queue(s', c) == Without(Queue(s, c), t)
      else Queue(s', c) == Queue(s, c)
  {
    GrantTakesOwnResource(s, t, now, wallClock);
    hide Grant, Examine, Without;
    var block := s.threads[t].blockedBy;
    if block.OnCondition? && block.condition == c {
      ConditionGranted(s, t, now, wallClock);
      var cond := s.conditions[c];
      if IsNextWoken(cond, t) {
        FrontTaken(cond, t);
      } else {
        assert [] + cond.waiting == cond.waiting && [] + Without(cond.waiting, t) == Without(cond.waiting, t);
      }
    }
  }

  /** Taking out a thread that is there once closes the gap. */
  lemma {:induction false} WithoutOne(queue: seq<ThreadId>, k: nat)
    requires k < |queue| && forall i | 0 <= i < |queue| && i != k :: queue[i] != queue[k]
    ensures Without(queue, queue[k]) == queue[..k] + queue[k + 1..]
  {
    if k > 0 {
      WithoutOne(queue[1..], k - 1);
    } else {
      WithoutNone(queue[1..], queue[0]);
    }
  }

  lemma {:induction false} WithoutNone(queue: seq<ThreadId>, t: ThreadId)
    requires t !in queue
    ensures Without(queue, t) == queue
  {
    if queue != [] {
      WithoutNone(queue[1..], t);
    }
  }

  /** `q'` is `q` without `t`, in the same order. */
  ghost predicate Drops(q: seq<ThreadId>, q': seq<ThreadId>, t: ThreadId) {
    if t !in q then q' == q
    else exists k :: 0 <= k < |q| && q[k] == t && q' == q[..k] + q[k + 1..]
  }

  lemma WithoutDrops(q: seq<ThreadId>, t: ThreadId)
    requires Distinct(q)
    ensures Drops(q, Without(q, t), t)
  {
    if t in q {
      var k :| 0 <= k < |q| && q[k] == t;
      WithoutOne(q, k);
    } else {
      WithoutNone(q, t);
    }
  }

  lemma WaitersAfter(s: State, e: Event, c: Address)
    requires Valid(s) && !Perform(s, e).0.Panics?
    ensures
      var s' := Perform(s, e).1;
      && |s.threads| <= |s'.threads|
      && forall t | 0 <= t < |s.threads| ::
           WaitsOn(s'.threads[t].blockedBy, c) <==>
           WaitsOn(s.threads[t].blockedBy, c) || (e.Wait? && e.condition == c && t == s.current)
    ensures e.Wait? ==> !WaitsOn(s.threads[s.current].blockedBy, c)
  {
    ThreadsAfter(s, e);
    if e.Wait? { WaitReplies(s, e.condition, e.mutex, e.deadline); }
    hide Perform, CondWait;
  }

  lemma PerformKeepsQueue(s: State, e: Event, c: Address)
    requires Valid(s) && !Perform(s, e).0.Panics? && QueueSound(s, c)
    ensures QueueSound(Perform(s, e).1, c)
  {
    QueueAfter(s, e, c);
    WaitersAfter(s, e, c);
    hide Perform, Queue, WaitsOn;
    assert e.Wait? ==> s.current !in Queue(s, c);
  }

  lemma FrontGone(q: seq<ThreadId>, q': seq<ThreadId>, t: ThreadId)
    requires Distinct(q) && q == [t] + q'
    ensures Distinct(q') && t !in q' && forall u <- q' :: u in q
  {
    assert forall i | 0 <= i < |q'| :: q'[i] == q[i + 1];
    assert q[0] == t;
  }

  lemma GapAt(q: seq<ThreadId>, k: nat, i: nat)
    requires k < |q| && i < |q| - 1
    ensures (q[..k] + q[k + 1..])[i] == q[if i < k then i else i + 1]
  {
  }

  lemma DroppedGone(q: seq<ThreadId>, q': seq<ThreadId>, t: ThreadId)
    requires Distinct(q) && Drops(q, q', t)
    ensures Distinct(q') && t !in q' && forall u <- q' :: u in q
  {
    if t in q {
      var k :| 0 <= k < |q| && q[k] == t && q' == q[..k] + q[k + 1..];
      assert |q'| == |q| - 1;
      forall i: nat | i < |q'| ensures q'[i] == q[if i < k then i else i + 1] {
        GapAt(q, k, i);
      }
      assert forall i, j | 0 <= i < j < |q'| :: q'[i] != q'[j] by {
        forall i, j | 0 <= i < j < |q'| ensures q'[i] != q'[j] {
          assert q'[i] == q[if i < k then i else i + 1] && q'[j] == q[if j < k then j else j + 1];
        }
      }
      forall u <- q' ensures u in q && u != t {
        var i: nat :| i < |q'| && q'[i] == u;
        assert u == q[if i < k then i else i + 1];
      }
    }
  }

  lemma GrantKeepsQueue(s: State, t: ThreadId, now: int, wallClock: int, c: Address)
    requires t < |s.threads| && Examine(s, t, now, wallClock).Resumes? && QueueSound(s, c)
    ensures
      var s' := Grant(s, t, now, wallClock);
      && Distinct(Queue(s', c)) && t !in Queue(s', c) && forall u <- Queue(s', c) :: u in Queue(s, c)
  {
    QueueGranted(s, t, now, wallClock, c);
    assert t in Queue(s, c) ==> WaitsOn(s.threads[t].blockedBy, c) && !s.threads[t].blockedBy.Suspended?;
    var q, q' := Queue(s, c), Queue(Grant(s, t, now, wallClock), c);
    WithoutDrops(q, t);
    hide *;
    if q == [t] + q' {
      FrontGone(q, q', t);
    } else if q' == Without(q, t) {
      DroppedGone(q, q', t);
    }
  }

  /** The switch after a grant leaves the conditions, and what each thread waits for, as they are. */
  lemma DispatchKeeps(mc: Machine, t: ThreadId, now: int, wallClock: int)
    requires Valid(mc.state) && t < |mc.state.threads| && Examine(mc.state, t, now, wallClock).Resumes?
    requires t != mc.state.current ==> CanSwitch(mc.state, t)
    ensures
      var s', granted := Dispatch(mc, t, now, wallClock).state, Grant(mc.state, t, now, wallClock);
      && s'.conditions == granted.conditions && |s'.threads| == |mc.state.threads|
      && forall u | 0 <= u < |mc.state.threads| ::
           s'.threads[u].blockedBy == if u == t then NotBlocked else mc.state.threads[u].blockedBy
  {
    GrantFrame(mc.state, t, now, wallClock);
    hide Grant, Examine;
  }

  lemma ScheduledQueue(mc: Machine, e: Event, mc': Machine, c: Address)
    requires Step(mc, e, mc') && e.Schedule? && QueueSound(mc.state, c)
    ensures
      var t := e.chosen;
      && t < |mc.state.threads| && Examine(mc.state, t, e.now, e.wallClock).Resumes?
      && Queue(mc'.state, c) == Queue(Grant(mc.state, t, e.now, e.wallClock), c)
      && QueueSound(mc'.state, c)
  {
    var (s, t) := (mc.state, e.chosen);
    SelectsResumes(s, t, e.now, e.wallClock);
    GrantKeepsQueue(s, t, e.now, e.wallClock, c);
    DispatchKeeps(mc, t, e.now, e.wallClock);
    assert Queue(mc'.state, c) == Queue(Grant(s, t, e.now, e.wallClock), c);
    hide Step, Dispatch, Grant, Examine, Selects, Queue, WaitsOn, Distinct;
  }

  lemma WakesOrTimesOut(mc: Machine, e: Event, c: Address)
    requires e.Schedule? && e.chosen < |mc.state.threads|
    ensures Wakes(mc, e, c) <==>
      LeavesAt(mc, e, c) && c in mc.state.conditions && IsNextWoken(mc.state.conditions[c], e.chosen)
    ensures TimesOut(mc, e, c) <==> LeavesAt(mc, e, c) && !Wakes(mc, e, c)
  {
  }

  lemma ScheduleKeepsQueue(mc: Machine, e: Event, mc': Machine, c: Address)
    requires Step(mc, e, mc') && e.Schedule? && QueueSound(mc.state, c)
    ensures
      var q, q' := Queue(mc.state, c), Queue(mc'.state, c);
      if Wakes(mc, e, c) then q == [e.chosen] + q'
      else if TimesOut(mc, e, c) then mc.state.conditions[c].waking == [] && Drops(q, q', e.chosen)
      else q' == q
    ensures TimesOut(mc, e, c) ==> c in mc.state.conditions
    ensures QueueSound(mc'.state, c)
  {
    var (s, t) := (mc.state, e.chosen);
    assert Distinct(Queue(s, c));
    ScheduledQueue(mc, e, mc', c);
    hide Step, Queue, QueueSound, Grant, Examine, Without, IsNextWoken, Drops, Distinct, Wakes, TimesOut;
    QueueGranted(s, t, e.now, e.wallClock, c);
    WithoutDrops(Queue(s, c), t);
    WakesOrTimesOut(mc, e, c);
  }

  /** The only ways a step changes the queue: at the end, at the front, or by running out of time. */
  lemma QueueStep(mc: Machine, e: Event, mc': Machine, c: Address)
    requires Step(mc, e, mc') && QueueSound(mc.state, c)
    ensures
      var q, q' := Queue(mc.state, c), Queue(mc'.state, c);
      if e.Wait? && e.condition == c then q' == q + [mc.state.current]
      else if Wakes(mc, e, c) then q == [e.chosen] + q'
      else if TimesOut(mc, e, c) then c in mc.state.conditions && mc.state.conditions[c].waking == [] && Drops(q, q', e.chosen)
      else q' == q
    ensures QueueSound(mc'.state, c)
  {
    if e.Schedule? {
      ScheduleKeepsQueue(mc, e, mc', c);
      hide *;
    } else if e.Exit? {
      hide WaitsOn;
    } else {
      QueueAfter(mc.state, e, c);
      PerformKeepsQueue(mc.state, e, c);
      hide Perform, Queue, QueueSound;
      assert Queue(mc.state, c) + [] == Queue(mc.state, c);
    }
  }

  // ---------------------------------------------------------------- order over runs

  /** In every state of every run the queue holds threads that wait on the condition, each once. */
  lemma {:induction false} QueueIsSound(ms: seq<Machine>, es: seq<Event>, c: Address, i: nat)
    requires IsRun(ms, es) && i < |ms|
    ensures QueueSound(ms[i].state, c)
  {
    hide Step;
    if i > 0 {
      hide Initial, QueueSound;
      QueueIsSound(ms, es, c, i - 1);
      QueueStep(ms[i - 1], es[i - 1], ms[i], c);
    }
  }

  ghost predicate Ahead(q: seq<ThreadId>, t: ThreadId, u: ThreadId) {
    exists i, j :: 0 <= i < j < |q| && q[i] == t && q[j] == u
  }

  lemma AheadAfter(q: seq<ThreadId>, q': seq<ThreadId>, t: ThreadId, u: ThreadId, v: ThreadId)
    requires Ahead(q, t, u) && v != t && v != u
    requires q' == q + [v] || q == [v] + q' || Drops(q, q', v)
    ensures Ahead(q', t, u)
  {
    var i, j :| 0 <= i < j < |q| && q[i] == t && q[j] == u;
    if q' == q + [v] {
      assert q'[i] == t && q'[j] == u;
    } else if q == [v] + q' {
      assert q'[i - 1] == t && q'[j - 1] == u;
    } else if v in q {
      var k :| 0 <= k < |q| && q[k] == v && q' == q[..k] + q[k + 1..];
      var i', j' := if i < k then i else i - 1, if j < k then j else j - 1;
      assert q'[i'] == t && q'[j'] == u;
    }
  }

  lemma WaiterIsNotIn(mc: Machine, e: Event, mc': Machine, c: Address)
    requires Step(mc, e, mc') && QueueSound(mc.state, c) && e.Wait?
    ensures Valid(mc.state) && mc.state.current !in Queue(mc.state, c)
  {
    WaitersAfter(mc.state, e, c);
    WaitReplies(mc.state, e.condition, e.mutex, e.deadline);
    hide Perform, CondWait, Queue;
  }

  /** A step that lets neither of two threads go on keeps the one ahead of the other. */
  lemma StaysAhead(mc: Machine, e: Event, mc': Machine, c: Address, t: ThreadId, u: ThreadId)
    requires Step(mc, e, mc') && QueueSound(mc.state, c)
    requires Ahead(Queue(mc.state, c), t, u) && (e.Schedule? ==> e.chosen != t && e.chosen != u)
    ensures Ahead(Queue(mc'.state, c), t, u)
  {
    QueueStep(mc, e, mc', c);
    var q, q' := Queue(mc.state, c), Queue(mc'.state, c);
    hide Queue, QueueSound, Step, Drops;
    if e.Wait? {
      WaiterIsNotIn(mc, e, mc', c);
      assert t in q && u in q;
      if e.condition == c { AheadAfter(q, q', t, u, mc.state.current); }
    } else if e.Schedule? && q' != q {
      AheadAfter(q, q', t, u, e.chosen);
    }
  }

  /** The scheduler lets `t` go on at some step from `i` on, before `j`. */
  ghost predicate GoesOnBetween(es: seq<Event>, t: ThreadId, i: nat, j: nat) {
    exists k :: i <= k < j && k < |es| && es[k].Schedule? && es[k].chosen == t
  }

  lemma {:induction false} AheadThroughout(ms: seq<Machine>, es: seq<Event>, c: Address, t: ThreadId, u: ThreadId, i: nat, j: nat)
    requires IsRun(ms, es) && i <= j < |ms|
    requires Ahead(Queue(ms[i].state, c), t, u)
    requires !GoesOnBetween(es, t, i, j) && !GoesOnBetween(es, u, i, j)
    ensures Ahead(Queue(ms[j].state, c), t, u)
    decreases j
  {
    hide Step, Initial, Queue, Ahead;
    if i < j {
      AheadThroughout(ms, es, c, t, u, i, j - 1);
      QueueIsSound(ms, es, c, j - 1);
      hide QueueSound;
      StaysAhead(ms[j - 1], es[j - 1], ms[j], c, t, u);
    }
  }

  lemma FrontHasNoneAhead(q: seq<ThreadId>, t: ThreadId, u: ThreadId)
    requires Distinct(q) && q != [] && q[0] == u
    ensures !Ahead(q, t, u)
  {
  }

  /**
   First come, first woken: if `t` is ahead of `u` in the queue and `u` is later the one woken, with
   no turn of its own in between, then `t` has gone on before it.
   */
  lemma FirstComeFirstWoken(ms: seq<Machine>, es: seq<Event>, c: Address, t: ThreadId, u: ThreadId, i: nat, j: nat)
    requires IsRun(ms, es) && i <= j < |es|
    requires Ahead(Queue(ms[i].state, c), t, u) && !GoesOnBetween(es, u, i, j)
    requires Wakes(ms[j], es[j], c) && es[j].chosen == u
    ensures GoesOnBetween(es, t, i, j)
  {
    QueueIsSound(ms, es, c, j);
    assert Step(ms[j], es[j], ms[j + 1]);
    QueueStep(ms[j], es[j], ms[j + 1], c);
    hide Step, Initial, Queue, AllWait;
    FrontHasNoneAhead(Queue(ms[j].state, c), t, u);
    if !GoesOnBetween(es, t, i, j) {
      hide Ahead, QueueSound;
      AheadThroughout(ms, es, c, t, u, i, j);
    }
  }
}
