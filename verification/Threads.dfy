/**
 Threads, mutexes, semaphores and condition variables as values, and what each operation of
 the emulator does to them. The class `Emulator.Environment` implements these operations on
 its fields; the lemmas about whole runs are about the functions of this module.
 */
module Threads {
  import opened Wrappers

  type ThreadId = nat
  type MutexId = nat
  type Address = nat

  datatype Cpu = Cpu(registers: seq<int>, cpsr: int)

  /** The host call stack of a thread; only its identity matters. */
  datatype Coroutine = Coroutine(token: nat)

  datatype ThreadBlock =
    | NotBlocked
    | Sleeping(until: int)
    | OnMutex(mutex: MutexId)
    | OnSemaphore(semaphore: Address)
    | OnCondition(condition: Address, deadline: Option<int>)
    | Joining(joinee: ThreadId, result: Address)
    | Suspended(count: nat, previous: ThreadBlock)

  datatype Thread = Thread(
    active: bool,
    blockedBy: ThreadBlock,
    returnValue: Option<Address>,
    guestContext: Option<Cpu>,
    hostContext: Option<Coroutine>,
    stack: Option<Address>)

  datatype MutexType = Normal | ErrorCheck | Recursive

  datatype Lock = Lock(owner: ThreadId, count: nat)

  datatype Mutex = Mutex(kind: MutexType, waitingCount: nat, locked: Option<Lock>)

  datatype Semaphore = Semaphore(value: int, waiting: set<ThreadId>)

  datatype Condition = Condition(
    waiting: seq<ThreadId>, waking: seq<ThreadId>, currMutex: Option<MutexId>, timedOut: set<ThreadId>)

  datatype State = State(
    threads: seq<Thread>,
    current: ThreadId,
    mutexes: map<MutexId, Mutex>,
    mutexCount: nat,
    semaphores: map<Address, Semaphore>,
    conditions: map<Address, Condition>,
    memory: map<Address, Address>,
    cpu: Cpu)

  datatype Errno = EBUSY | EDEADLK | EINVAL | EPERM

  /** How a call ends: with a count, with an error, with the thread yielding, or not at all. */
  datatype Reply = Ok(count: nat) | Err(errno: Errno) | Blocks | Panics

  const MAX_U32: nat := 0xFFFF_FFFF
  const MAX_U64: nat := 0xFFFF_FFFF_FFFF_FFFF
  const NULL: Address := 0
  const FRESH_CPU := Cpu([0, 0, 0, 0, 0, 0, 0, 0, 0, 0, 0, 0, 0, 0, 0, 0], 0)

  ghost predicate Valid(s: State) {
    s.current < |s.threads|
  }

  function SetBlock(s: State, t: ThreadId, block: ThreadBlock): State
    requires t < |s.threads|
  {
    s.(threads := s.threads[t := s.threads[t].(blockedBy := block)])
  }

  function YieldThread(s: State, block: ThreadBlock): (Reply, State)
    requires s.current < |s.threads|
  {
    if s.threads[s.current].blockedBy.NotBlocked? then (Blocks, SetBlock(s, s.current, block))
    else (Panics, s)
  }

  // ---------------------------------------------------------------- mutexes

  function InitMutex(s: State, kind: MutexType): (Reply, State) {
    if s.mutexCount == MAX_U64 then (Panics, s)
    else (Ok(s.mutexCount), s.(mutexes := s.mutexes[s.mutexCount := Mutex(kind, 0, None)], mutexCount := s.mutexCount + 1))
  }

  function DestroyMutex(s: State, m: MutexId): (Reply, State) {
    if m !in s.mutexes then (Panics, s)
    else if s.mutexes[m].locked.Some? || s.mutexes[m].waitingCount != 0 then (Err(EBUSY), s)
    else (Ok(0), s.(mutexes := s.mutexes - {m}))
  }

  predicate MutexIsLocked(s: State, m: MutexId) {
    m in s.mutexes && s.mutexes[m].locked.Some?
  }

  function SetLock(s: State, m: MutexId, lock: Option<Lock>): State
    requires m in s.mutexes
  {
    s.(mutexes := s.mutexes[m := s.mutexes[m].(locked := lock)])
  }

  function LockMutex(s: State, m: MutexId): (Reply, State)
    requires s.current < |s.threads|
  {
    if m !in s.mutexes then (Panics, s)
    else match s.mutexes[m].locked
      case None => (Ok(1), SetLock(s, m, Some(Lock(s.current, 1))))
      case Some(lock) =>
        if lock.owner == s.current then
          match s.mutexes[m].kind
          case Normal => (Panics, s)
          case ErrorCheck => (Err(EDEADLK), s)
          case Recursive =>
            if lock.count == MAX_U32 then (Panics, s)
            else (Ok(lock.count + 1), SetLock(s, m, Some(lock.(count := lock.count + 1))))
        else
          var counted := s.mutexes[m].(waitingCount := s.mutexes[m].waitingCount + 1);
          YieldThread(s.(mutexes := s.mutexes[m := counted]), OnMutex(m))
  }

  function UnlockMutex(s: State, m: MutexId): (Reply, State) {
    if m !in s.mutexes then (Panics, s)
    else match s.mutexes[m].locked
      case None => if s.mutexes[m].kind.Normal? then (Panics, s) else (Err(EPERM), s)
      case Some(lock) =>
        if lock.owner != s.current && !s.mutexes[m].kind.Normal? then (Err(EPERM), s)
        else if lock.count == 1 then (Ok(0), SetLock(s, m, None))
        else if !s.mutexes[m].kind.Recursive? || lock.count < 2 then (Panics, s)
        else (Ok(lock.count - 1), SetLock(s, m, Some(lock.(count := lock.count - 1))))
  }

  /** Hands a free mutex to a thread the scheduler has just unblocked. */
  function Relock(s: State, t: ThreadId, m: MutexId): State
    requires m in s.mutexes
  {
    var mutex := s.mutexes[m];
    var waiting := if mutex.waitingCount > 0 then mutex.waitingCount - 1 else 0;
    s.(mutexes := s.mutexes[m := mutex.(locked := Some(Lock(t, 1)), waitingCount := waiting)])
  }

  lemma UnlockFrame(s: State, m: MutexId)
    ensures UnlockMutex(s, m).1 == s.(mutexes := UnlockMutex(s, m).1.mutexes)
    ensures UnlockMutex(s, m).1.mutexes.Keys == s.mutexes.Keys
    ensures forall k <- s.mutexes ::
      UnlockMutex(s, m).1.mutexes[k].(locked := None) == s.mutexes[k].(locked := None)
  {
  }

  lemma RelockFrame(s: State, t: ThreadId, m: MutexId)
    requires m in s.mutexes
    ensures Relock(s, t, m) == s.(mutexes := Relock(s, t, m).mutexes)
  {
  }

  // ---------------------------------------------------------------- semaphores and conditions

  /** `Ok(1)` when the semaphore was decremented, `Ok(0)` when it was not. */
  function SemDecrement(s: State, a: Address, waitOnLock: bool): (Reply, State)
    requires s.current < |s.threads|
  {
    if a !in s.semaphores then (Panics, s)
    else
      var sem := s.semaphores[a];
      if sem.value > 0 then (Ok(1), s.(semaphores := s.semaphores[a := sem.(value := sem.value - 1)]))
      else if !waitOnLock then (Ok(0), s)
      else
        YieldThread(s.(semaphores := s.semaphores[a := sem.(waiting := sem.waiting + {s.current})]), OnSemaphore(a))
  }

  function SemIncrement(s: State, a: Address): (Reply, State) {
    if a !in s.semaphores then (Panics, s)
    else
      var sem := s.semaphores[a];
      (Ok(0), s.(semaphores := s.semaphores[a := sem.(value := sem.value + 1)]))
  }

  /** Nobody looks at who still waits. */
  function SemDestroy(s: State, a: Address): (Reply, State) {
    if a !in s.semaphores then (Err(EINVAL), s) else (Ok(0), s.(semaphores := s.semaphores - {a}))
  }

  /** Releases the mutex and queues the current thread, which then yields. */
  function CondWait(s: State, c: Address, m: MutexId, deadline: Option<int>): (Reply, State)
    requires s.current < |s.threads|
  {
    var (reply, unlocked) := UnlockMutex(s, m);
    if !reply.Ok? || c !in s.conditions then (Panics, s)
    else
      var cond := s.conditions[c];
      if cond.currMutex != Some(m) && (cond.waking != [] || cond.waiting != []) then (Panics, s)
      else
        var queued := cond.(currMutex := Some(m), waiting := cond.waiting + [s.current]);
        YieldThread(unlocked.(conditions := s.conditions[c := queued]), OnCondition(c, deadline))
  }

  /** What a timed-out waiter does when it runs again. */
  function CondReturn(s: State, c: Address): (Reply, State) {
    if c !in s.conditions then (Panics, s)
    else
      var cond := s.conditions[c];
      (Ok(0), s.(conditions := s.conditions[c := cond.(timedOut := cond.timedOut - {s.current})]))
  }

  function CondSignal(s: State, c: Address): (Reply, State) {
    if c !in s.conditions then (Panics, s)
    else
      var cond := s.conditions[c];
      if cond.waiting == [] then (Ok(0), s)
      else
        (Ok(0), s.(conditions := s.conditions[c :=
          cond.(waiting := cond.waiting[1..], waking := cond.waking + [cond.waiting[0]])]))
  }

  function CondBroadcast(s: State, c: Address): (Reply, State) {
    if c !in s.conditions then (Panics, s)
    else
      var cond := s.conditions[c];
      (Ok(0), s.(conditions := s.conditions[c := cond.(waiting := [], waking := cond.waking + cond.waiting)]))
  }

  function CondDestroy(s: State, c: Address): (Reply, State) {
    if c !in s.conditions || s.conditions[c].waiting != [] || s.conditions[c].waking != [] then (Panics, s)
    else (Ok(0), s.(conditions := s.conditions - {c}))
  }

  // ---------------------------------------------------------------- threads

  function SuspendThread(s: State, t: ThreadId): (Reply, State) {
    if t >= |s.threads| then (Panics, s)
    else match s.threads[t].blockedBy
      case Suspended(count, previous) => (Ok(0), SetBlock(s, t, Suspended(count + 1, previous)))
      case previous => (Ok(0), SetBlock(s, t, Suspended(1, previous)))
  }

  function ResumeThread(s: State, t: ThreadId): (Reply, State) {
    if t >= |s.threads| || !s.threads[t].blockedBy.Suspended? || s.threads[t].blockedBy.count == 0 then (Panics, s)
    else
      var Suspended(count, previous) := s.threads[t].blockedBy;
      (Ok(0), SetBlock(s, t, if count > 1 then Suspended(count - 1, previous) else previous))
  }

  /** `stack` is the block the allocator returned. */
  function NewThread(s: State, stack: Address, stackSize: nat, routine: Coroutine): (Reply, State) {
    if (stack + stackSize) % 4 != 0 then (Panics, s)
    else
      var thread := Thread(true, NotBlocked, None, Some(FRESH_CPU), Some(routine), Some(stack));
      (Ok(|s.threads|), s.(threads := s.threads + [thread]))
  }

  /** The routine of a secondary thread ends: `run` then drops its coroutine and frees its stack. */
  function ExitThread(s: State, value: Address): State
    requires s.current < |s.threads|
  {
    s.(threads := s.threads[s.current :=
      s.threads[s.current].(active := false, returnValue := Some(value), stack := None)])
  }

  // ---------------------------------------------------------------- the scheduler

  /** What the scheduler finds out about one thread. */
  datatype Verdict = StaysBlocked | SleepsUntil(until: int) | Resumes | Fails

  predicate HeadOfWaking(cond: Condition, t: ThreadId) {
    cond.waking != [] && cond.waking[0] == t
  }

  function Examine(s: State, t: ThreadId, now: int, wallClock: int): Verdict
    requires t < |s.threads|
  {
    if !s.threads[t].active then StaysBlocked
    else match s.threads[t].blockedBy
      case NotBlocked => Resumes
      case Sleeping(until) => if until <= now then Resumes else SleepsUntil(until)
      case OnMutex(m) =>
        if MutexIsLocked(s, m) then StaysBlocked else if m in s.mutexes then Resumes else Fails
      case OnSemaphore(a) =>
        if a !in s.semaphores then Fails else if s.semaphores[a].value > 0 then Resumes else StaysBlocked
      case OnCondition(c, deadline) =>
        if c !in s.conditions || s.conditions[c].currMutex.None? then Fails
        else
          var cond := s.conditions[c];
          var m := cond.currMutex.value;
          if HeadOfWaking(cond, t) && !MutexIsLocked(s, m) then if m in s.mutexes then Resumes else Fails
          else if deadline.None? || wallClock < deadline.value then StaysBlocked
          else if t in cond.timedOut || cond.waking != [] || MutexIsLocked(s, m) || m !in s.mutexes then Fails
          else Resumes
      case Joining(joinee, result) =>
        if joinee >= |s.threads| then Fails
        else if s.threads[joinee].active then StaysBlocked
        else if result != NULL && s.threads[joinee].returnValue.None? then Fails
        else Resumes
      case Suspended(count, _) => if count > 0 then StaysBlocked else Fails
  }

  /** The state once thread `t` has been given what it was waiting for. */
  function Grant(s: State, t: ThreadId, now: int, wallClock: int): State
    requires t < |s.threads| && Examine(s, t, now, wallClock).Resumes?
  {
    var woken := SetBlock(s, t, NotBlocked);
    match s.threads[t].blockedBy
    case OnMutex(m) => Relock(woken, t, m)
    case OnSemaphore(a) =>
      var sem := s.semaphores[a];
      woken.(semaphores := s.semaphores[a := Semaphore(sem.value - 1, sem.waiting - {s.current})])
    case OnCondition(c, _) =>
      var cond := s.conditions[c];
      var cond' :=
        if HeadOfWaking(cond, t) && !MutexIsLocked(s, cond.currMutex.value) then cond.(waking := cond.waking[1..])
        else cond.(timedOut := cond.timedOut + {t}, waiting := Without(cond.waiting, t));
      Relock(woken.(conditions := s.conditions[c := cond']), t, cond.currMutex.value)
    case Joining(joinee, result) =>
      if result == NULL then woken else woken.(memory := s.memory[result := s.threads[joinee].returnValue.value])
    case _ => woken
  }

  function Without(queue: seq<ThreadId>, t: ThreadId): (rest: seq<ThreadId>)
    ensures t !in rest && forall u :: u != t ==> multiset(rest)[u] == multiset(queue)[u]
  {
    if queue == [] then []
    else
      assert queue == [queue[0]] + queue[1..];
      (if queue[0] == t then [] else [queue[0]]) + Without(queue[1..], t)
  }

  /** How many threads the scan visits before `t`, starting after the current thread. */
  function Position(s: State, t: ThreadId): nat
    requires s.current < |s.threads| && t < |s.threads|
  {
    if t > s.current then t - s.current - 1 else t + |s.threads| - s.current - 1
  }

  /** The scan passes over `t` without stopping. */
  ghost predicate PassesOver(s: State, t: ThreadId, now: int, wallClock: int)
    requires t < |s.threads|
  {
    Examine(s, t, now, wallClock).StaysBlocked? || Examine(s, t, now, wallClock).SleepsUntil?
  }

  ghost predicate PassesAllBefore(s: State, position: nat, now: int, wallClock: int)
    requires Valid(s)
  {
    forall u | 0 <= u < |s.threads| && Position(s, u) < position :: PassesOver(s, u, now, wallClock)
  }

  /** `t` is the first thread in cyclic order that can go on. */
  ghost predicate Selects(s: State, t: ThreadId, now: int, wallClock: int)
    requires Valid(s)
  {
    && t < |s.threads|
    && Examine(s, t, now, wallClock).Resumes?
    && PassesAllBefore(s, Position(s, t), now, wallClock)
  }

  /** Swaps the guest contexts of the current and the new thread, and their coroutines. */
  function SwitchThread(s: State, host: Option<Coroutine>, t: ThreadId): (State, Option<Coroutine>)
    requires s.current < |s.threads| && t < |s.threads| && t != s.current
    requires s.threads[t].guestContext.Some? && s.threads[t].hostContext.Some?
  {
    var leaving := s.threads[s.current].(guestContext := Some(s.cpu), hostContext := host);
    var entering := s.threads[t].(guestContext := None, hostContext := None);
    (s.(threads := s.threads[s.current := leaving][t := entering],
        cpu := s.threads[t].guestContext.value,
        current := t),
     s.threads[t].hostContext)
  }
}
