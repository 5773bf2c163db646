/**
 Mutexes over whole runs: who holds them, and whether the count of waiting threads kept with a
 mutex tells the truth.
 */
module MutexRuns {
  import opened Wrappers
  import opened Threads
  import opened Runs

  // ---------------------------------------------------------------- one mutex in one step

  /** A thread waiting on a condition wakes up and takes `m`. */
  ghost predicate CondWakes(mc: Machine, e: Event, m: MutexId) {
    && e.Schedule?
    && e.chosen < |mc.state.threads|
    && var block := mc.state.threads[e.chosen].blockedBy;
    && block.OnCondition?
    && block.condition in mc.state.conditions
    && mc.state.conditions[block.condition].currMutex == Some(m)
  }

  /** A thread waiting for `m` itself wakes up and takes it. */
  ghost predicate MutexWakes(mc: Machine, e: Event, m: MutexId) {
    && e.Schedule?
    && e.chosen < |mc.state.threads|
    && mc.state.threads[e.chosen].blockedBy == OnMutex(m)
  }

  /** Only the operations on mutexes, and waiting on a condition, change mutexes. */
  ghost predicate ChangesMutexes(e: Event) {
    e.Init? || e.LockM? || e.UnlockM? || e.DestroyM? || e.Wait?
  }

  lemma OthersKeepMutexes(s: State, e: Event)
    requires Valid(s) && !Perform(s, e).0.Panics? && !ChangesMutexes(e)
    ensures Perform(s, e).1.mutexes == s.mutexes && Perform(s, e).1.mutexCount == s.mutexCount
  {
  }

  /** An operation creates mutexes, destroys free ones nobody is counted for, and counts waiters. */
  lemma MutexAfter(s: State, e: Event, m: MutexId)
    requires Valid(s) && !Perform(s, e).0.Panics?
    ensures
      var (reply, s') := Perform(s, e);
      && (m in s'.mutexes <==>
            (m in s.mutexes && !(e == DestroyM(m) && reply.Ok?)) || (e.Init? && m == s.mutexCount))
      && (e.Init? && m == s.mutexCount ==> s'.mutexes[m] == Mutex(e.kind, 0, None))
      && (m in s.mutexes && m in s'.mutexes && !(e.Init? && m == s.mutexCount) ==>
            && s'.mutexes[m].kind == s.mutexes[m].kind
            && s'.mutexes[m].waitingCount == s.mutexes[m].waitingCount + (if e == LockM(m) && reply.Blocks? then 1 else 0))
      && (e == DestroyM(m) && reply.Ok? ==> s.mutexes[m].waitingCount == 0 && s.mutexes[m].locked.None?)
      && s'.mutexCount == s.mutexCount + (if e.Init? then 1 else 0)
      && (e == LockM(m) ==> m in s.mutexes)
  {
    if !ChangesMutexes(e) {
      OthersKeepMutexes(s, e);
      hide Perform;
    } else {
      if e.UnlockM? || e.Wait? {
        UnlockFrame(s, e.mutex);
      }
      hide UnlockMutex;
    }
  }

  lemma GrantMutex(s: State, t: ThreadId, now: int, wallClock: int, m: MutexId)
    requires t < |s.threads| && Examine(s, t, now, wallClock).Resumes?
    ensures
      var s' := Grant(s, t, now, wallClock);
      var block := s.threads[t].blockedBy;
      && s'.mutexCount == s.mutexCount
      && (m in s'.mutexes <==> m in s.mutexes)
      && if block == OnMutex(m) ||
            (block.OnCondition? && block.condition in s.conditions && s.conditions[block.condition].currMutex == Some(m))
         then
           && m in s.mutexes && s.mutexes[m].locked.None?
           && s'.mutexes[m] == Mutex(
                s.mutexes[m].kind,
                if s.mutexes[m].waitingCount > 0 then s.mutexes[m].waitingCount - 1 else 0,
                Some(Lock(t, 1)))
         else m in s.mutexes ==> s'.mutexes[m] == s.mutexes[m]
  {
  }

  /** The scheduler hands over a free mutex, and takes one waiter off its count if there is one. */
  lemma MutexGranted(mc: Machine, e: Event, mc': Machine, m: MutexId)
    requires Step(mc, e, mc') && e.Schedule?
    ensures mc'.state.mutexCount == mc.state.mutexCount
    ensures m in mc'.state.mutexes <==> m in mc.state.mutexes
    ensures
      if MutexWakes(mc, e, m) || CondWakes(mc, e, m) then
        && m in mc.state.mutexes && mc.state.mutexes[m].locked.None?
        && mc'.state.mutexes[m] == Mutex(
             mc.state.mutexes[m].kind,
             if mc.state.mutexes[m].waitingCount > 0 then mc.state.mutexes[m].waitingCount - 1 else 0,
             Some(Lock(e.chosen, 1)))
      else m in mc.state.mutexes ==> mc'.state.mutexes[m] == mc.state.mutexes[m]
  {
    hide Grant, Examine, Selects;
    SelectsResumes(mc.state, e.chosen, e.now, e.wallClock);
    GrantMutex(mc.state, e.chosen, e.now, e.wallClock, m);
  }

  // ---------------------------------------------------------------- replies

  /** How often thread `t` holds `m` according to the mutex. */
  function HeldCount(s: State, m: MutexId, t: ThreadId): nat {
    if m in s.mutexes && s.mutexes[m].locked.Some? && s.mutexes[m].locked.value.owner == t
    then s.mutexes[m].locked.value.count else 0
  }

  /** Locks are held at least once, and ids are handed out in order. */
  ghost predicate LocksSound(s: State, m: MutexId) {
    m in s.mutexes ==>
      && m < s.mutexCount
      && (s.mutexes[m].locked.Some? ==> s.mutexes[m].locked.value.count >= 1)
      && (s.mutexes[m].locked.Some? && !s.mutexes[m].kind.Recursive? ==> s.mutexes[m].locked.value.count == 1)
  }

  /** Locking a mutex by how often the caller holds it: the count replied is how often it does afterwards. */
  lemma LockReplies(s: State, m: MutexId)
    requires Valid(s) && LocksSound(s, m)
    ensures
      var (reply, s') := LockMutex(s, m);
      var held := HeldCount(s, m, s.current);
      && (m !in s.mutexes ==> reply == Panics)
      && (m in s.mutexes ==>
            reply ==
            if s.mutexes[m].locked.None? then Ok(1)
            else if held == 0 then if s.threads[s.current].blockedBy.NotBlocked? then Blocks else Panics
            else
              match s.mutexes[m].kind
              case Normal => Panics
              case ErrorCheck => Err(EDEADLK)
              case Recursive => if held == 0xFFFF_FFFF then Panics else Ok(held + 1))
      && (reply.Ok? ==> HeldCount(s', m, s.current) == reply.count && s' == s.(mutexes := s'.mutexes))
      && (reply.Blocks? ==> s'.threads[s.current].blockedBy == OnMutex(m) && forall t :: HeldCount(s', m, t) == HeldCount(s, m, t))
      && (forall k <- s.mutexes :: k != m && !reply.Panics? ==> k in s'.mutexes && s'.mutexes[k] == s.mutexes[k])
  {
  }

  /** Unlocking likewise; a NORMAL mutex lets go of whoever holds it. */
  lemma UnlockReplies(s: State, m: MutexId)
    requires LocksSound(s, m)
    ensures
      var (reply, s') := UnlockMutex(s, m);
      var held := HeldCount(s, m, s.current);
      && (m !in s.mutexes ==> reply == Panics)
      && (m in s.mutexes ==>
            reply ==
            if held > 0 then Ok(held - 1)
            else if !s.mutexes[m].kind.Normal? then Err(EPERM)
            else if s.mutexes[m].locked.Some? then Ok(0)
            else Panics)
      && (reply.Ok? ==>
            && m in s'.mutexes && s'.mutexes[m].kind == s.mutexes[m].kind
            && (forall t :: HeldCount(s', m, t) == if t == s.current then reply.count else 0)
            && (s'.mutexes[m].locked.None? <==> reply.count == 0))
      && (forall k <- s.mutexes :: k != m ==> k in s'.mutexes && s'.mutexes[k] == s.mutexes[k])
  {
  }

  // ---------------------------------------------------------------- waiter accounting

  /** Blocked on `m`, or suspended while blocked on it. */
  predicate WaitsOn(block: ThreadBlock, m: MutexId) {
    match block
    case OnMutex(mutex) => mutex == m
    case Suspended(_, previous) => WaitsOn(previous, m)
    case _ => false
  }

  function Waiters(threads: seq<Thread>, m: MutexId): nat {
    if threads == [] then 0
    else Waiters(threads[..|threads| - 1], m) + if WaitsOn(Last(threads).blockedBy, m) then 1 else 0
  }

  lemma {:induction false} WaitersUpdate(threads: seq<Thread>, t: nat, thread: Thread, m: MutexId)
    requires t < |threads|
    ensures Waiters(threads[t := thread], m) + (if WaitsOn(threads[t].blockedBy, m) then 1 else 0)
         == Waiters(threads, m) + (if WaitsOn(thread.blockedBy, m) then 1 else 0)
  {
    if t == |threads| - 1 {
      assert threads[t := thread][..t] == threads[..t];
    } else {
      assert threads[t := thread][..|threads| - 1] == threads[..|threads| - 1][t := thread];
      WaitersUpdate(threads[..|threads| - 1], t, thread, m);
    }
  }

  lemma {:induction false} WaiterCounts(threads: seq<Thread>, t: nat, m: MutexId)
    requires t < |threads| && WaitsOn(threads[t].blockedBy, m)
    ensures Waiters(threads, m) > 0
  {
    if t < |threads| - 1 {
      WaiterCounts(threads[..|threads| - 1], t, m);
    }
  }

  lemma WaitersSpawn(threads: seq<Thread>, more: seq<Thread>, m: MutexId)
    requires |more| == |threads| + 1 && threads <= more && Last(more).blockedBy.NotBlocked?
    ensures Waiters(more, m) == Waiters(threads, m)
  {
    assert more[..|more| - 1] == threads;
  }

  /** The waiters of `m` after an operation: one more exactly when it blocks on `m`. */
  lemma WaitersAfter(s: State, e: Event, m: MutexId)
    requires Valid(s) && !Perform(s, e).0.Panics?
    ensures
      var (reply, s') := Perform(s, e);
      Waiters(s'.threads, m) == Waiters(s.threads, m) + if e == LockM(m) && reply.Blocks? then 1 else 0
  {
    ThreadsAfter(s, e);
    hide Perform;
    var (reply, s') := Perform(s, e);
    if e.Spawn? {
      WaitersSpawn(s.threads, s'.threads, m);
    } else if e.Suspend? || e.Resume? {
      WaitersUpdate(s.threads, e.thread, s'.threads[e.thread], m);
    } else if reply.Blocks? {
      WaitersUpdate(s.threads, s.current, s'.threads[s.current], m);
    }
  }

  /** The waiters of `m` after a selection: one fewer exactly when the selected thread was one. */
  lemma WaitersGranted(mc: Machine, e: Event, mc': Machine, m: MutexId)
    requires Step(mc, e, mc') && e.Schedule?
    ensures Waiters(mc.state.threads, m) == Waiters(mc'.state.threads, m) + if MutexWakes(mc, e, m) then 1 else 0
  {
    var Schedule(now, wallClock, chosen) := e;
    var s := mc.state;
    SelectsResumes(s, chosen, now, wallClock);
    GrantFrame(s, chosen, now, wallClock);
    assert !s.threads[chosen].blockedBy.Suspended?;
    hide Grant, Examine, Selects;
    var granted := Grant(s, chosen, now, wallClock);
    WaitersUpdate(s.threads, chosen, granted.threads[chosen], m);
    if chosen != s.current {
      var entering := granted.threads[chosen].(guestContext := None, hostContext := None);
      var leaving := granted.threads[s.current].(guestContext := Some(s.cpu), hostContext := mc.host);
      WaitersUpdate(granted.threads, s.current, leaving, m);
      WaitersUpdate(granted.threads[s.current := leaving], chosen, entering, m);
    }
  }

  lemma WaitersExit(mc: Machine, e: Event, mc': Machine, m: MutexId)
    requires Step(mc, e, mc') && e.Exit?
    ensures Waiters(mc'.state.threads, m) == Waiters(mc.state.threads, m)
    ensures mc'.state.mutexes == mc.state.mutexes && mc'.state.mutexCount == mc.state.mutexCount
  {
    WaitersUpdate(mc.state.threads, mc.state.current, mc'.state.threads[mc.state.current], m);
  }

  /** The count kept with `m` is the number of threads that wait for it. */
  ghost predicate Accounted(s: State, m: MutexId) {
    && (m in s.mutexes ==> m < s.mutexCount && s.mutexes[m].waitingCount == Waiters(s.threads, m))
    && (m !in s.mutexes ==> Waiters(s.threads, m) == 0)
  }

  /** The count kept with `m` is at most the number of threads that wait for it. */
  ghost predicate AtMost(s: State, m: MutexId) {
    && (m in s.mutexes ==> m < s.mutexCount && s.mutexes[m].waitingCount <= Waiters(s.threads, m))
    && (m >= s.mutexCount ==> Waiters(s.threads, m) == 0)
  }

  /** A condition wake-up takes `m`, and takes a thread off its count that still waits. */
  ghost predicate Uncounts(mc: Machine, e: Event, m: MutexId) {
    CondWakes(mc, e, m) && m in mc.state.mutexes && mc.state.mutexes[m].waitingCount > 0
  }

  lemma StepAccounts(mc: Machine, e: Event, mc': Machine, m: MutexId)
    requires Step(mc, e, mc')
    ensures AtMost(mc.state, m) ==> AtMost(mc'.state, m)
    ensures Accounted(mc.state, m) ==> (Accounted(mc'.state, m) <==> !Uncounts(mc, e, m))
  {
    if e.Schedule? {
      hide Step;
      MutexGranted(mc, e, mc', m);
      WaitersGranted(mc, e, mc', m);
    } else if e.Exit? {
      hide Step;
      WaitersExit(mc, e, mc', m);
    } else {
      hide Perform;
      MutexAfter(mc.state, e, m);
      WaitersAfter(mc.state, e, m);
    }
  }

  /** How many waiting threads the count misses. */
  ghost function Uncounted(s: State, m: MutexId): int
    requires m in s.mutexes
  {
    Waiters(s.threads, m) - s.mutexes[m].waitingCount
  }

  /** It misses one more exactly when a condition wake-up takes `m` while some thread is counted. */
  lemma OnlyConditionsUncount(mc: Machine, e: Event, mc': Machine, m: MutexId)
    requires Step(mc, e, mc') && m in mc.state.mutexes && m in mc'.state.mutexes && AtMost(mc.state, m)
    ensures Uncounted(mc'.state, m) > Uncounted(mc.state, m) <==>
            CondWakes(mc, e, m) && mc.state.mutexes[m].waitingCount > 0
    ensures Uncounted(mc'.state, m) <= Uncounted(mc.state, m) + 1
  {
    if e.Schedule? {
      hide Step;
      MutexGranted(mc, e, mc', m);
      WaitersGranted(mc, e, mc', m);
    } else if e.Exit? {
      hide Step;
      WaitersExit(mc, e, mc', m);
    } else {
      hide Perform;
      MutexAfter(mc.state, e, m);
      WaitersAfter(mc.state, e, m);
    }
  }

  lemma InitialAccounts(mc: Machine, m: MutexId)
    requires Initial(mc)
    ensures Accounted(mc.state, m) && AtMost(mc.state, m)
  {
    assert mc.state.threads[..0] == [];
  }

  /** In every run the count is at most the number of waiting threads. */
  lemma {:induction false} WaitingCountAtMost(ms: seq<Machine>, es: seq<Event>, m: MutexId, i: nat)
    requires IsRun(ms, es) && i < |ms|
    ensures AtMost(ms[i].state, m)
  {
    hide Step, Initial;
    if i == 0 {
      InitialAccounts(ms[0], m);
    } else {
      WaitingCountAtMost(ms, es, m, i - 1);
      StepAccounts(ms[i - 1], es[i - 1], ms[i], m);
    }
  }

  /**
   The count stays exact through a run exactly when no condition wake-up takes `m` while a thread
   is counted as waiting for it. Wake-ups that take a mutex nobody waits for do no harm.
   */
  lemma WaitingCountExact(ms: seq<Machine>, es: seq<Event>, m: MutexId, k: nat)
    requires IsRun(ms, es) && k < |ms|
    ensures (forall i | 0 <= i <= k :: Accounted(ms[i].state, m)) <==>
            (forall j | 0 <= j < k :: !Uncounts(ms[j], es[j], m))
  {
    hide Step, Initial, Accounted, Uncounts;
    if forall j | 0 <= j < k :: !Uncounts(ms[j], es[j], m) {
      forall i | 0 <= i <= k ensures Accounted(ms[i].state, m) {
        StaysAccounted(ms, es, m, i);
      }
    }
    if forall i | 0 <= i <= k :: Accounted(ms[i].state, m) {
      forall j | 0 <= j < k ensures !Uncounts(ms[j], es[j], m) {
        StepAccounts(ms[j], es[j], ms[j + 1], m);
      }
    }
  }

  lemma {:induction false} StaysAccounted(ms: seq<Machine>, es: seq<Event>, m: MutexId, i: nat)
    requires IsRun(ms, es) && i < |ms|
    requires forall j | 0 <= j < i :: !Uncounts(ms[j], es[j], m)
    ensures Accounted(ms[i].state, m)
  {
    hide Step, Initial, Accounted, Uncounts;
    if i == 0 {
      InitialAccounts(ms[0], m);
    } else {
      StaysAccounted(ms, es, m, i - 1);
      StepAccounts(ms[i - 1], es[i - 1], ms[i], m);
    }
  }

  /**
   In such a run `destroy_mutex` succeeds exactly when `m` exists, is free and is waited for by
   nobody; so the scheduler never fails on a thread that waits for it.
   */
  lemma DestroySparesWaiters(ms: seq<Machine>, es: seq<Event>, m: MutexId, i: nat)
    requires IsRun(ms, es) && i < |ms| && Valid(ms[i].state)
    requires forall j | 0 <= j < i :: !Uncounts(ms[j], es[j], m)
    ensures
      var s := ms[i].state;
      && (DestroyMutex(s, m).0.Ok? <==>
            m in s.mutexes && s.mutexes[m].locked.None? && forall t | 0 <= t < |s.threads| :: !WaitsOn(s.threads[t].blockedBy, m))
      && (forall t, now, wallClock | 0 <= t < |s.threads| && s.threads[t].blockedBy == OnMutex(m) ::
            !Examine(s, t, now, wallClock).Fails?)
  {
    hide Step, Initial;
    StaysAccounted(ms, es, m, i);
    var s := ms[i].state;
    if Waiters(s.threads, m) > 0 {
      var t := FindWaiter(s.threads, m);
    }
    forall t | 0 <= t < |s.threads| && WaitsOn(s.threads[t].blockedBy, m) ensures Waiters(s.threads, m) > 0 {
      WaiterCounts(s.threads, t, m);
    }
  }

  lemma {:induction false} FindWaiter(threads: seq<Thread>, m: MutexId) returns (t: nat)
    requires Waiters(threads, m) > 0
    ensures t < |threads| && WaitsOn(threads[t].blockedBy, m)
  {
    t := |threads| - 1;
    if !WaitsOn(threads[t].blockedBy, m) {
      t := FindWaiter(threads[..t], m);
    }
  }

  // ---------------------------------------------------------------- mutual exclusion

  /** What a step adds, as seen by thread `t`: its successful locks of `m` less its unlocks. */
  ghost function Gained(mc: Machine, e: Event, m: MutexId, t: ThreadId): int
    requires Valid(mc.state)
  {
    match e
    case LockM(mutex) => if mutex == m && mc.state.current == t && LockMutex(mc.state, m).0.Ok? then 1 else 0
    case UnlockM(mutex) => if mutex == m && mc.state.current == t && UnlockMutex(mc.state, m).0.Ok? then -1 else 0
    case Wait(_, mutex, _) => if mutex == m && mc.state.current == t then -1 else 0
    case Schedule(_, _, chosen) => if chosen == t && (MutexWakes(mc, e, m) || CondWakes(mc, e, m)) then 1 else 0
    case _ => 0
  }

  /** Locks less unlocks of `m` by `t` in the first `k` steps. */
  ghost function Balance(ms: seq<Machine>, es: seq<Event>, m: MutexId, t: ThreadId, k: nat): int
    requires IsRun(ms, es) && k <= |es|
  {
    if k == 0 then 0
    else
      assert Step(ms[k - 1], es[k - 1], ms[k]);
      Balance(ms, es, m, t, k - 1) + Gained(ms[k - 1], es[k - 1], m, t)
  }

  /** The mutex is of a type for which only the owner's unlocks succeed. */
  ghost predicate OwnerChecked(s: State, m: MutexId) {
    m in s.mutexes ==> !s.mutexes[m].kind.Normal?
  }

  lemma PerformKeepsSound(s: State, e: Event, m: MutexId)
    requires Valid(s) && !Perform(s, e).0.Panics? && LocksSound(s, m)
    ensures LocksSound(Perform(s, e).1, m)
  {
    if !ChangesMutexes(e) {
      OthersKeepMutexes(s, e);
      hide Perform;
    }
  }

  lemma UnlockBalances(s: State, k: MutexId, m: MutexId, t: ThreadId)
    requires LocksSound(s, m) && OwnerChecked(s, m)
    ensures UnlockMutex(s, k).0.Ok? ==>
      HeldCount(UnlockMutex(s, k).1, m, t) == HeldCount(s, m, t) - if k == m && s.current == t then 1 else 0
    ensures UnlockMutex(s, k).0.Err? ==> UnlockMutex(s, k).1 == s
  {
  }

  lemma PerformBalances(s: State, e: Event, m: MutexId, t: ThreadId)
    requires Valid(s) && !Perform(s, e).0.Panics? && LocksSound(s, m)
    ensures OwnerChecked(s, m) ==>
      HeldCount(Perform(s, e).1, m, t) == HeldCount(s, m, t) + Gained(Machine(s, Running, None), e, m, t)
  {
    if !ChangesMutexes(e) {
      OthersKeepMutexes(s, e);
      hide Perform;
    } else if OwnerChecked(s, m) {
      if e.UnlockM? || e.Wait? {
        UnlockBalances(s, e.mutex, m, t);
      }
      hide UnlockMutex;
    }
  }

  lemma StepBalances(mc: Machine, e: Event, mc': Machine, m: MutexId, t: ThreadId)
    requires Step(mc, e, mc') && LocksSound(mc.state, m)
    ensures LocksSound(mc'.state, m)
    ensures OwnerChecked(mc.state, m) ==> HeldCount(mc'.state, m, t) == HeldCount(mc.state, m, t) + Gained(mc, e, m, t)
  {
    if e.Schedule? {
      hide Step;
      MutexGranted(mc, e, mc', m);
    } else if e.Exit? {
      hide Perform;
    } else {
      hide Perform;
      PerformKeepsSound(mc.state, e, m);
      PerformBalances(mc.state, e, m, t);
    }
  }

  /**
   The count stored for an ERRORCHECK or RECURSIVE mutex is, for the owner, its successful locks
   less its unlocks, and every other thread's balance is zero.
   */
  lemma {:induction false} HeldIsBalance(ms: seq<Machine>, es: seq<Event>, m: MutexId, t: ThreadId, k: nat)
    requires IsRun(ms, es) && k <= |es|
    requires forall i | 0 <= i <= k :: OwnerChecked(ms[i].state, m)
    ensures LocksSound(ms[k].state, m)
    ensures HeldCount(ms[k].state, m, t) == Balance(ms, es, m, t, k)
  {
    if k > 0 {
      HeldIsBalance(ms, es, m, t, k - 1);
      hide Step, Initial;
      StepBalances(ms[k - 1], es[k - 1], ms[k], m, t);
    }
  }

  /** Two threads never hold such a mutex at once. */
  lemma MutualExclusion(ms: seq<Machine>, es: seq<Event>, m: MutexId, t: ThreadId, u: ThreadId, k: nat)
    requires IsRun(ms, es) && k <= |es| && t != u
    requires forall i | 0 <= i <= k :: OwnerChecked(ms[i].state, m)
    ensures Balance(ms, es, m, t, k) >= 0 && Balance(ms, es, m, u, k) >= 0
    ensures Balance(ms, es, m, t, k) == 0 || Balance(ms, es, m, u, k) == 0
  {
    HeldIsBalance(ms, es, m, t, k);
    HeldIsBalance(ms, es, m, u, k);
  }

  /** Calls that return an error change nothing. */
  lemma ErrorsChangeNothing(s: State, e: Event)
    requires Valid(s) && Perform(s, e).0.Err?
    ensures Perform(s, e).1 == s
  {
  }

  /** A thread that resumes from a blocking lock owns the mutex, once. */
  lemma ResumedOwner(mc: Machine, e: Event, mc': Machine, m: MutexId)
    requires Step(mc, e, mc') && MutexWakes(mc, e, m)
    ensures m in mc'.state.mutexes && mc'.state.mutexes[m].locked == Some(Lock(mc'.state.current, 1))
    ensures mc'.phase.Running? && mc'.state.current == e.chosen
  {
    MutexGranted(mc, e, mc', m);
  }

  // ---------------------------------------------------------------- ids

  ghost predicate IdsBelow(s: State) {
    forall m <- s.mutexes :: m < s.mutexCount
  }

  lemma PerformIds(s: State, e: Event)
    requires Valid(s) && !Perform(s, e).0.Panics? && IdsBelow(s)
    ensures
      var (reply, s') := Perform(s, e);
      && IdsBelow(s') && s'.mutexCount == s.mutexCount + (if e.Init? then 1 else 0)
      && (e.Init? ==> reply == Ok(s.mutexCount) && s.mutexCount !in s.mutexes && s.mutexCount in s'.mutexes)
  {
    if e.UnlockM? || e.Wait? {
      UnlockFrame(s, e.mutex);
    }
    hide UnlockMutex;
  }

  lemma GrantIds(s: State, t: ThreadId, now: int, wallClock: int)
    requires t < |s.threads| && Examine(s, t, now, wallClock).Resumes?
    ensures
      var s' := Grant(s, t, now, wallClock);
      s'.mutexes.Keys == s.mutexes.Keys && s'.mutexCount == s.mutexCount
  {
    hide Without;
  }

  lemma StepIds(mc: Machine, e: Event, mc': Machine)
    requires Step(mc, e, mc') && IdsBelow(mc.state)
    ensures IdsBelow(mc'.state) && mc'.state.mutexCount == mc.state.mutexCount + if e.Init? then 1 else 0
  {
    hide Perform, Grant, Examine, Selects;
    match e
    case Schedule(now, wallClock, chosen) =>
      SelectsResumes(mc.state, chosen, now, wallClock);
      GrantIds(mc.state, chosen, now, wallClock);
    case Exit(_) =>
    case _ => PerformIds(mc.state, e);
  }

  lemma {:induction false} IdsStayBelow(ms: seq<Machine>, es: seq<Event>, i: nat, j: nat)
    requires IsRun(ms, es) && i <= j < |ms|
    ensures IdsBelow(ms[j].state) && ms[i].state.mutexCount <= ms[j].state.mutexCount
    ensures i < j && es[i].Init? ==> ms[i].state.mutexCount < ms[j].state.mutexCount
    decreases j
  {
    hide Step;
    if 0 < j {
      hide Initial;
      IdsStayBelow(ms, es, if i < j then i else i - 1, j - 1);
      StepIds(ms[j - 1], es[j - 1], ms[j]);
    }
  }

  /** In a run no mutex is given an id that another has or ever had. */
  lemma IdsNeverReused(ms: seq<Machine>, es: seq<Event>, i: nat, j: nat)
    requires IsRun(ms, es) && i < j < |es| && es[i].Init? && es[j].Init?
    ensures Valid(ms[i].state) && Valid(ms[j].state)
    ensures
      var (first, second) := (Perform(ms[i].state, es[i]).0, Perform(ms[j].state, es[j]).0);
      && first.Ok? && second.Ok? && first.count < second.count
      && second.count !in ms[j].state.mutexes && second.count in ms[j + 1].state.mutexes
  {
    assert Step(ms[i], es[i], ms[i + 1]) && Step(ms[j], es[j], ms[j + 1]);
    IdsStayBelow(ms, es, i, i);
    IdsStayBelow(ms, es, i, j);
    hide Perform, IdsBelow;
    PerformIds(ms[i].state, es[i]);
    PerformIds(ms[j].state, es[j]);
  }
}
