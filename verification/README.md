# Model of ChronaHLE's self-contained cores

ChronaHLE emulates early iPhone OS applications. Most of it implements system frameworks; this project models the
algorithms and state machines underneath and proves what they promise, for all inputs and over whole runs.

- `LoadOrder.dfy`: the order in which packaged dynamic libraries are initialised.
- `Threads.dfy`, `Emulator.dfy`: cooperative threads, mutexes, semaphores and the scheduler, as functions on values and
  as an object whose methods update its fields. `Readiness.dfy` says when a thread goes on. `Runs.dfy`, `MutexRuns.dfy`,
  `SemaphoreRuns.dfy`, `ConditionRuns.dfy` and `ThreadRuns.dfy` are about every run of the main loop, and
  `ScanFailures.dfy` about the threads the scheduler fails on. `OrphanedWaiter.dfy` is one run in which a waiter is lost,
  `PrematureDeadlock.dfy` one that is given up too early.
- `GuestPaths.dfy`, `FsTree.dfy`, `GuestFs.dfy`: guest paths, the tree of guest files with the host files behind it, and
  the object that updates both. `FsEffects.dfy` says what each operation does, `FsMirror.dfy` shows that the two stay in
  step, `InitialTree.dfy` that they are when an application starts, `FsEnumerate.dfy` that the recursive listing is right,
  `BundleBuilder.dfy` when the order of an archive's entries matters, and `PathNames.dfy` what their names mean.
- `A32.dfy`, `Dyld.dfy`: the instructions of symbol stubs, and the linker that rewrites them. `StubRuns.dfy` and
  `StubMeaning.dfy` show that over every run a stub keeps meaning what it was linked to, and `StubSymbols.dfy` which
  symbol that is.
- `LineBreaking.dfy`, `LineFit.dfy`: breaking text into lines of a given width.
- `StartStack.dfy`, `Abi.dfy`, `AbiWords.dfy`: the stack an application starts with, and passing arguments between host and
  guest.
- `WeakRefs.dfy`: zeroing weak references of the Objective-C runtime.
- `Gdb.dfy`, `GdbText.dfy`: packets and encodings of the debugger protocol.

An operation that the source performs by updating fields is a method of a class here; its contract ties the new state to
a function of the old one, and the lemmas are about that function. A panic of the emulator is a result (`Panics`,
`Panicked`, `None`, `false`), not a precondition. What comes from outside is a parameter: clocks, allocated blocks,
iteration orders of hash maps, the widths of strings, the chunks in which a connection delivers its bytes, and what guest
code does while it runs.

## Where the code is not what one would expect

Each of these is stated and proved in the project, with the exact condition where there is one.

- The load-order error says "cycle with" a node that need not be on the cycle (`LoadOrder.NamedNodeMayBeOffCycle`); it
  always is exactly when nothing outside the cycles depends directly on a node of one (`LoadOrder.NamedNodeOnCycle`).
- A condition wake-up takes a waiter off a mutex's count that it was never added to; the mutex can then be destroyed under
  a thread that waits for it (`OrphanedWaiter.DestroyCanOrphan`). The count stays exact through a run exactly when no
  such wake-up happens while a thread is counted (`MutexRuns.WaitingCountExact`).
- The deadlock report ignores time limits of condition waits: it is premature exactly when a thread waits with one
  (`Emulator.DeadlockIgnoresTimedWaits`, `Emulator.WaitingWouldHelp`, `PrematureDeadlock.WaiterReported`).
- A thread that waits on a condition with a time limit makes the scheduler panic when the limit passes while another thread
  holds the mutex, or is being woken (`ScanFailures.LimitPassesWhileHeld`, and for all failures `ScanFailures.FailsExactly`).
- A semaphore given to a waiting thread takes the current thread off the set of waiting threads instead of that one. The set
  is only logged about; it stays right exactly while the current thread is given the units
  (`SemaphoreRuns.GrantKeepsExact`, `SemaphoreRuns.WaitingSetExact`).
- Renaming a writable file onto itself removes it from the guest tree only, and nothing else makes the trees differ
  (`FsMirror.RenameKeepsMirror`, `FsMirror.RunKeepsMirror`).
- The host refuses opening without an access mode, and appending together with truncating, so the emulator panics
  (`FsMirror.OpenKeepsMirror`); creating directories up to an existing file succeeds (`FsMirror.CreateDirAllCreates`).
- An archive of well-formed entries can be read in every order exactly when no file lies above another entry
  (`BundleBuilder.EveryOrderReads`), and every order gives the same tree exactly when, besides, files with one path hold
  the same data (`BundleBuilder.OrderNeverMatters`).
- Host functions from number 0x7ffffd on decode to something else (`Dyld.NumbersDecode`), and one-word stubs use the
  pointer two entries after their own (`StubMeaning.OneWordSlot`), which for the last two of a section is beyond the
  pointers (`StubMeaning.LastSlotsOutside`). A distance that does not fit the instruction of a
  one-word stub changes it, unless its upper bits are set there anyway (`A32.OneWordStubDecodes`).
- An empty line disappears when words are wrapped to a width below that of the empty string (`LineBreaking.BreakLine`).
- The argument pointers on the start-up stack are followed by a null pointer only when there is no environment, although
  C programs may expect one (`StartStack.ProgramFindsArguments`).
- With a result in memory, four or more words of arguments reach into the result's buffer; host functions read their
  arguments first, so nothing is lost (`Abi.ArgumentsReachResult`, `Abi.ResultInMemory`).
- An application whose bundle shares files with its own directories starts with a guest tree in which one host file is both
  read-only and writable (`InitialTree.NewRoot`).
- Initialising, copying or moving onto a weak slot that is in use leaves a stale entry (`WeakRefs.InitializeKeeps`,
  `WeakRefs.StaleEntryClearsSlot`).
- A debugger packet that arrives in two parts is never read (`Gdb.ReadExactlyWhenAligned`). In replies to `qXfer` the
  comments on 'l' and 'm' are exchanged; the code follows the protocol for positive lengths.

## Model

| member | source | states |
|---|---|---|
| LoadOrder.GenerateBinaryLoadOrder | src/environment.rs:169-247 | For every graph and every iteration order of the hash maps: an error exactly when the dependencies among packaged libraries contain a cycle; otherwise each sorted node once, every packaged dependency before its dependents; the named node is a sorted one on or below a cycle |
| LoadOrder.DependsOnExactly | src/environment.rs:176-203 | One library has to be loaded before another exactly when a node with the other's name lists it, by its name below "/usr/lib/" or by its bare name; of nodes with one name the last counts |
| LoadOrder.BuildTables | src/environment.rs:176-203 | The two tables hold exactly the dependency edges among packaged libraries, a repeated one equally often in both |
| LoadOrder.LeafNodes | src/environment.rs:205-209 | Each node that waits for nothing is queued once, whatever the iteration order |
| LoadOrder.Sort | src/environment.rs:211-230 | Ends, with every in-degree equal to the edges from nodes not yet popped, no node queued twice and dependencies first |
| LoadOrder.WalkBack | src/environment.rs:232-237 | From a stuck state, going from predecessor to predecessor reaches some node twice: a cycle is extracted |
| LoadOrder.StuckExactlyBelowCycle | src/environment.rs:232-237 | The nodes left with a positive in-degree are exactly those on or below a cycle |
| LoadOrder.LoadOrderExcludesCycle | src/environment.rs:239-247 | A graph with a load order has no cycle, so a cycle always keeps an in-degree positive |
| LoadOrder.DistinctNamesSortAll | src/environment.rs:170-177 | With distinct names the result ranges over all indices (with equal names, over the last index of each name) |
| LoadOrder.NamedNodeMayBeOffCycle | src/environment.rs:232-237 | The message says 'cycle with' a node, but the sort can leave a positive in-degree on one that only depends on a cycle and is on none; a graph and its final in-degrees |
| LoadOrder.NamedNodeOnCycle | src/environment.rs:232-237 | Every node the error may name is on a cycle exactly when each direct dependent of a node on a cycle is on one itself |
| Emulator.Environment.InitMutex | src/environment/mutex.rs:67-80 | A new id, never handed out before, for a free mutex nobody waits for |
| Emulator.Environment.DestroyMutex | src/environment/mutex.rs:85-98 | EBUSY while locked or counted as waited for, and then nothing changes; otherwise the mutex is gone |
| Emulator.Environment.RelockUnblockedMutexForThread | src/environment/mutex.rs:126-154 | The thread owns the mutex once, and one waiter fewer is counted if any was |
| Emulator.Environment.LockMutex | src/environment/mutex.rs:158-200 | All cases of the three POSIX types: first lock, relock by the owner (panic, EDEADLK or one more), or counting the caller as waiting and blocking it |
| Emulator.Environment.UnlockMutex | src/environment/mutex.rs:204-267 | All cases: EPERM for the owner-checked types, release by others for NORMAL, one level fewer, or free |
| Emulator.Environment.YieldThread | src/environment.rs:1676-1708 | Only an unblocked thread yields, and it is then blocked as asked |
| Emulator.Environment.SuspendThread | src/environment.rs:1115-1130 | Suspensions nest around what the thread was blocked by |
| Emulator.Environment.ResumeThread | src/environment.rs:1132-1150 | Undoes one suspension; the last one gives back what the thread was blocked by |
| Emulator.Environment.NewThread | src/environment.rs:1042-1095 | Appends an active, unblocked thread with fresh contexts; the others keep their state |
| Emulator.Environment.SemDecrement | src/environment.rs:1172-1210 | Takes a unit, refuses, or registers the caller and blocks it |
| Emulator.Environment.SemIncrement | src/environment.rs:1212-1236 | Adds one unit |
| Emulator.Environment.TryResume | src/environment.rs:1727-1846 | A candidate goes on exactly when what it waits for is there; then it alone gets it, otherwise nothing changes |
| Emulator.Environment.TryResumeOnCondition | src/environment.rs:1775-1817 | The head of the waking queue gets a free mutex, or the deadline has passed |
| Emulator.Environment.Scan | src/environment.rs:1720-1849 | Selects the first thread in cyclic order that can go on and grants exactly its own resource; otherwise changes nothing and finds the earliest deadline of active sleepers |
| Emulator.Environment.ScheduleNextThread | src/environment.rs:1716-1873 | Reports deadlock exactly when no thread can go on and none sleeps; sleeps until the earliest awakening, after which one more scan is enough |
| Emulator.Environment.SwitchThread | src/environment.rs:1508-1531 | Exchanges CPU state and host context of the old and the new thread |
| Emulator.Environment.EndTurn | src/environment.rs:1368-1455 | The end of a turn of the main loop never trips the context assertions and is the scheduling step of the runs below; it reports deadlock exactly when no thread can go on and none sleeps, leaving the state as it was, and fails only on a thread the scan fails on |
| Emulator.DeadlockIgnoresTimedWaits | src/environment.rs:1863-1870 | Where a deadlock is reported, waiting would make a later scan stop at some thread exactly when an active thread waits on a condition with a time limit (a TODO in the source) |
| Emulator.AfterTheReport | src/environment.rs:1797-1817 | What every later scan finds of each thread: those with a limit go on or trip an assertion once it has passed, all others stay blocked for ever |
| Emulator.WaitingWouldHelp | src/environment.rs:1775-1870 | Some later scan would select a thread exactly when one can time out without tripping an assertion, and no thread visited before it has a limit that passes as early |
| Readiness.ResumesExactly | src/environment.rs:1727-1842 | When a thread goes on: it is active, and it is not blocked; or its time has come; or its mutex exists and is free; or its semaphore has a unit; or its joinee has ended; or it heads the waking queue of a condition whose mutex is free; or its limit has passed with the mutex free, nobody being woken and no earlier time-out of its own; and when it sleeps or stays blocked |
| Readiness.SelectsExactly | src/environment.rs:1720-1736 | The scan selects the first such thread after the current one in cyclic order, if it stops at none before |
| Readiness.ReportsDeadlockExactly | src/environment.rs:1850-1871 | A deadlock is reported exactly when each active thread waits for a taken mutex, a semaphore without units, an active joinee, a condition it is not yet to leave, or is suspended |
| Readiness.NextAwakeningExactly | src/environment.rs:1737-1743 | The time slept until is the earliest at which an active sleeping thread is to go on |
| PrematureDeadlock.WaiterReported | src/environment.rs:1863-1870 | A complete run that ends in such a report, although a scan at the limit would select the thread |
| Runs.GrantTakesOwnResource | src/environment.rs:1752-1836 | Resuming consumes one semaphore unit, the head of the waking queue, or the join value, and nothing of any other kind |
| Runs.GrantFrame | src/environment.rs:1727-1846 | Resuming a thread leaves every other thread and all contexts unchanged |
| Runs.ThreadsAfter | src/environment.rs:1042-1245 | Each operation blocks at most the current thread, and on what it asked for |
| Runs.StepConserves | src/environment.rs:1309-1491 | One step of the main loop keeps contexts where they belong |
| Runs.ContextsConserved | src/environment.rs:55-62 | At every loop head of every run: the guest context is absent exactly for the current thread, the host context is stored exactly for active other threads, a stack is held exactly by active threads |
| Runs.SwitchNeverPanics | src/environment.rs:1508-1531 | In no run can an assertion or an unwrap of a thread switch fail: the new thread is active with both contexts stored, the old one has no guest context stored, and a coroutine is held unless the old thread has ended |
| Runs.StoredWhileAway | src/environment.rs:1519-1527 | While other threads run, a thread's CPU state and host context stay stored with it |
| Runs.ResumedUnchanged | src/environment.rs:1508-1531 | A thread resumes with the CPU state and the host context it was switched out with |
| Runs.PassingAdvances | src/environment.rs:1724-1736 | Selecting another thread brings the cyclic scan strictly closer to a ready one |
| Runs.BoundedBypass | src/environment.rs:1716-1736 | With n threads a ready thread nobody suspends is selected after at most n-1 selections of others |
| ThreadRuns.ResumeTakesBack | src/environment.rs:1115-1150 | Resuming takes back the last suspension, whatever the thread was doing |
| ThreadRuns.SuspendedUntilResumed | src/environment.rs:1115-1130 | Suspended any number of times, a thread never goes on, and keeps what it was blocked by |
| ThreadRuns.ThreadReplies | src/environment.rs:1042-1150 | When suspending, resuming and making a thread go through |
| ThreadRuns.LeftExactly | src/environment.rs:1057-1075 | In every run a thread has left a value exactly when it ended with that value at some earlier step |
| ThreadRuns.JoinDelivers | src/environment.rs:1817-1836 | A joining thread finds in memory the value its joinee ended with earlier in the run |
| ScanFailures.RunConsistent | src/environment.rs:1775-1842 | In every run a thread waiting on a condition is in its waiting or waking queue and the condition has a mutex; suspensions are counted and not nested; threads that have ended leave a value |
| ScanFailures.FailsExactly | src/environment.rs:1744-1842 | In every run the scan fails on a thread exactly when it waits for a destroyed mutex or semaphore, joins a thread that does not exist, was woken on a condition whose mutex is gone, or has its time limit passed with others being woken, with the mutex held or gone, or having timed out before |
| ScanFailures.LimitPassesWhileHeld | src/environment.rs:1794-1817 | A complete run of two threads that ends so: the limit passes while the other thread holds the mutex |
| SemaphoreRuns.GrantKeepsExact | src/environment.rs:1752-1773 | After a grant the set of waiting threads kept with a semaphore is right, if it was before, exactly when the thread that goes on is the current one, or waits for something else |
| SemaphoreRuns.WaitingSetExact | src/environment.rs:1172-1210 | The set is right throughout a run exactly while no other thread is given a unit, and no semaphore is made where threads still wait for a destroyed one |
| SemaphoreRuns.DecrementReplies | src/environment.rs:1172-1210 | A unit is taken at once exactly when there is one; otherwise the call refuses or blocks its thread, as asked |
| SemaphoreRuns.UnitsConserved | src/environment.rs:1172-1221 | Through every run the units are those a semaphore was made with and one for each increment, less one for each decrement that found a unit and each grant by the scheduler; no more are given out than there were |
| ConditionRuns.WaitReplies | src/libc/pthread/cond.rs:256-298 | A wait goes through exactly if the mutex can be unlocked and is that of the threads already there; the caller is then last in the queue |
| ConditionRuns.SignalReplies | src/libc/pthread/cond.rs:300-347 | A signal moves the thread that waited longest behind those being woken, a broadcast all of them, in order |
| ConditionRuns.EndReplies | src/libc/pthread/cond.rs:243-254 | Returning from a wait forgets the thread's time-out; a condition is destroyed exactly with nobody in its queue |
| ConditionRuns.QueueStep | src/environment.rs:1775-1816 | In a run the queue of a condition, those being woken before those that wait, changes only at its end by a wait, at its front by a wake-up, and by a time-out |
| ConditionRuns.FirstComeFirstWoken | src/libc/pthread/cond.rs:300-347 | In every run a thread that is woken had nobody ahead of it who has not gone on before |
| MutexRuns.MutexAfter | src/environment/mutex.rs:67-200 | How each operation creates, destroys and counts, for every mutex at once |
| MutexRuns.MutexGranted | src/environment/mutex.rs:126-154 | The scheduler hands over only free mutexes and takes at most one waiter off the count |
| MutexRuns.WaitingCountAtMost | src/environment/mutex.rs:139-153 | In every run waiting_count is at most the number of threads blocked on the mutex, or suspended while blocked |
| MutexRuns.WaitingCountExact | src/environment/mutex.rs:192-197 | The count is exact throughout a run exactly when no condition wake-up in it takes the mutex while a waiter is counted |
| MutexRuns.OnlyConditionsUncount | src/environment.rs:1783-1793 | A step makes the count miss a thread exactly when a condition wake-up takes the mutex while a waiter is counted |
| MutexRuns.DestroySparesWaiters | src/environment/mutex.rs:85-98 | In such runs destroying succeeds exactly on a free mutex nobody waits for, and the scheduler never fails on a waiter |
| MutexRuns.HeldIsBalance | src/environment/mutex.rs:158-267 | For ERRORCHECK and RECURSIVE mutexes the stored count is the owner's successful locks less its unlocks over the whole run, and every other thread's balance is zero |
| MutexRuns.MutualExclusion | src/environment/mutex.rs:204-246 | Two threads never hold such a mutex at once |
| MutexRuns.ErrorsChangeNothing | src/environment/mutex.rs:158-246 | An operation that returns an error changes nothing at all |
| MutexRuns.ResumedOwner | src/environment.rs:1744-1751 | A thread resuming from a blocking lock owns the mutex, with count 1, and runs next |
| MutexRuns.LockReplies | src/environment/mutex.rs:158-200 | Which reply locking gives, by type and holder, and how often the caller holds the mutex afterwards |
| MutexRuns.UnlockReplies | src/environment/mutex.rs:204-267 | Which reply unlocking gives, by type and holder, and who holds the mutex how often afterwards |
| MutexRuns.IdsNeverReused | src/environment/mutex.rs:67-80 | In no run is a mutex given an id that another has or ever had |
| OrphanedWaiter.DestroyCanOrphan | src/environment/mutex.rs:139-153 | A complete run in which a condition wake-up uncounts a waiter, the mutex is destroyed under it, and the scheduler then fails on it |
| GuestPaths.ResolvePath | src/fs.rs:273-311 | Resolves exactly when the path or the base is absolute, applying the components of both in order |
| GuestPaths.ResolvedIsClean | src/fs.rs:273-289 | A resolved path has no empty, '.' or '..' component and no slash in one |
| GuestPaths.ResolvedAgainst | src/fs.rs:291-311 | Resolving a relative path is resolving the joined one |
| GuestPaths.ResolvedRender | src/fs.rs:1266-1281 | Joining components to a string and resolving it gives the components back |
| GuestPaths.ResolvedSteps | src/fs.rs:273-289 | What each further component does: an empty one or '.' nothing, '..' takes off the last component and at the root nothing, any other is added |
| GuestPaths.ResolvedBack | src/fs.rs:277-279 | Going into a directory and up again leads back |
| GuestFs.Fs.ChangeWorkingDirectory | src/fs.rs:754-775 | Succeeds exactly on directories; afterwards '.' resolves to that directory |
| GuestFs.Fs.LookupNodeInner | src/fs.rs:777-790 | Finds what is at a path, component by component |
| GuestFs.Fs.LookupParentNode | src/fs.rs:801-818 | Finds the parent and the final component, and nothing for the root |
| GuestFs.Fs.OpenWithOptions | src/fs.rs:1060-1183 | Changes both trees as `FsTree.Open` says, through resolution against the working directory |
| GuestFs.Fs.OpenExistingFile | src/fs.rs:1088-1137 | The cases of a file or directory that exists |
| GuestFs.Fs.WriteFile | src/fs.rs:979-985 | Truncates or creates the file, which then holds the data |
| GuestFs.Fs.CreateDirectory | src/fs.rs:1284-1331 | One directory more in both trees, or the reason why not |
| GuestFs.Fs.CreateAllDirectories | src/fs.rs:1266-1281 | Creates the prefixes one after the other, each passed on as a string |
| GuestFs.Fs.RemoveNode | src/fs.rs:1188-1263 | One leaf fewer in both trees, or the reason why not |
| GuestFs.Fs.RenameFile | src/fs.rs:1009-1057 | Moves the contents on the host and drops the source node |
| GuestFs.Fs.EnumerateRecursive | src/fs.rs:936-968 | Exactly on directories, lists everything below once, parents first, by its relative path |
| FsTree.InfoPut | src/fs.rs:1174-1180 | Inserting or removing a child changes what is found at its path and below, and nothing else |
| FsEffects.OpenFails | src/fs.rs:1060-1183 | Which error opening gives for what lies at the path and around it, and when the assertion on the options fails |
| FsEffects.OpenGives | src/fs.rs:1088-1183 | When opening succeeds, and what it then opens |
| FsEffects.OpenLeaves | src/fs.rs:1088-1137 | Opening what exists changes nothing but the contents of a host file opened to be truncated; a failure changes nothing |
| FsEffects.OpenCreates | src/fs.rs:1150-1183 | Opening what does not exist makes one empty file, in its place in both trees |
| FsEffects.WriteStores | src/fs.rs:979-985 | A write succeeds exactly on a writable file, or on nothing in a writable directory; then the host file of a writable guest file at the path holds exactly the data, and everything else is as before in both trees |
| FsEffects.WriteFails | src/fs.rs:979-985 | Which error a write gives |
| FsEffects.CreateDirMakes | src/fs.rs:1284-1331 | When creating a directory succeeds, each error, and the one new entry in both trees |
| FsEffects.CreateDirAllMakes | src/fs.rs:1266-1281 | By the last component that exists: below a writable directory all the rest is made in both trees, below a file or a read-only directory it fails |
| FsEffects.RemoveFails | src/fs.rs:1188-1263 | When removing succeeds, and each error |
| FsEffects.RemoveTakes | src/fs.rs:1188-1263 | One entry goes from both trees, and nothing else changes |
| FsEffects.RenameFails | src/fs.rs:1009-1057 | How a rename fails, by what source and target are |
| FsEffects.RenameMoves | src/fs.rs:1009-1057 | When a rename succeeds; the host file of the target then holds what that of the source held, the source is gone from both trees, and everything else is as before |
| FsMirror.FromHostDir | src/fs.rs:84-122 | Whatever order the host lists entries in, the tree holds exactly what is on the host |
| FsMirror.HostDirMirrors | src/fs.rs:84-122 | A writable directory read from the host mirrors it |
| FsMirror.MountKeepsMirror | src/fs.rs:575-730 | Mounting trees that share no writable host path keeps the mirror |
| InitialTree.MountedTreeMirrors | src/fs.rs:575-730 | Adding any number of nodes to read-only directories gives a tree that mirrors the host if they are apart there, and, when none replaces another, only then: below two host directories, of which one can be written to, lies no common file, and if both can, nothing |
| InitialTree.BuiltIsInert | src/fs/bundle.rs:154-175 | A bundle read from an archive never stands for a host path and is never writable |
| InitialTree.NewHome | src/fs.rs:693-701 | The home directory: the bundle and the directories read from the host, those last added winning; it mirrors the host under the same condition |
| InitialTree.NewRoot | src/fs.rs:693-729 | The tree an application starts with mirrors the host exactly when no host file lies both in the bundle's directory and in one of the application's own, or the bundle's name is one of theirs; it holds the bundle, and has the three directories at their host paths; the assertion at the end never fails |
| InitialTree.SubtreeMirrors | src/fs.rs:703-720 | What is below a directory of a tree that mirrors the host mirrors it by itself |
| FsMirror.OpenKeepsMirror | src/fs.rs:1060-1183 | Opening keeps the mirror; the host refuses exactly options without an access mode, or appending and truncating at once, on a path that reaches it |
| FsMirror.WriteKeepsMirror | src/fs.rs:979-985 | Writing keeps the mirror and is never refused |
| FsMirror.CreateDirKeepsMirror | src/fs.rs:1284-1331 | Creating a directory keeps the mirror and never panics; a failure changes nothing |
| FsMirror.CreateDirAllKeepsMirror | src/fs.rs:1266-1281 | So does creating all prefixes, and what existed stays as it was |
| FsMirror.CreateDirAllCreates | src/fs.rs:1266-1281 | After success the path exists, and is a directory exactly when it was one or was missing: an existing file counts as success |
| FsMirror.RemoveKeepsMirror | src/fs.rs:1188-1263 | Removing keeps the mirror and never panics |
| FsMirror.RenameKeepsMirror | src/fs.rs:1009-1057 | The host never refuses; the mirror is kept exactly when source and target differ or the source is not a writable file |
| FsMirror.RenameOntoItself | src/fs.rs:1048-1054 | Renaming a file onto itself succeeds on the host, yet the guest loses the node: the mirror breaks |
| FsMirror.RunKeepsMirror | src/fs.rs:1009-1332 | Through any sequence of operations the trees mirror each other, and no two writable nodes share a host path, exactly when no writable file is renamed onto itself; the host refuses exactly options no host accepts |
| FsMirror.SandboxIsHost | src/fs.rs:361-374 | Everything below a writable directory is on the host at the corresponding path, and the other way round |
| FsEnumerate.EnumerateRecursive | src/fs.rs:944-966 | The traversal with two explicit stacks ends with both empty and lists every proper descendant once, each after its parent, whatever order the maps are iterated in |
| FsEnumerate.TakeItem | src/fs.rs:950-957 | Taking an item accounts for its path and for no other |
| PathNames.JoinedSplits | src/fs.rs:950-957 | A listed path is its components with slashes between them |
| BundleBuilder.FsNodeBuilder.FindOrMakeDirectory | src/fs/bundle.rs:33-48 | Walks and inserts in place; panics exactly when the path goes up or meets a file |
| BundleBuilder.FsNodeBuilder.AddFile | src/fs/bundle.rs:50-59 | Panics exactly when the path has no file name or its parent cannot be reached; otherwise the file is there |
| BundleBuilder.FsNodeBuilder.AddDirectory | src/fs/bundle.rs:61-63 | Panics exactly when the walk does |
| BundleBuilder.RsplitOnce | src/fs.rs:193-199 | Splits at the last slash, exactly when there is one |
| BundleBuilder.IntoFsNode | src/fs/bundle.rs:154-175 | The entries below the bundle path, added one after the other |
| BundleBuilder.MakeDirsInfo | src/fs/bundle.rs:33-48 | What making directories changes: the missing prefixes appear, everything else stays |
| BundleBuilder.PlaceFileInfo | src/fs/bundle.rs:50-59 | Placing a file replaces what was at and below its path, and adds the missing prefixes |
| BundleBuilder.BuiltHoldsEntries | src/fs/bundle.rs:154-175 | When no file is above another entry, the tree holds exactly the files and, as directories, exactly the prefixes |
| BundleBuilder.OrderIndependent | src/fs/bundle.rs:18-20 | Entries in any order build the same tree, if files have distinct paths and none is above another entry; a directory entry equal to a file path is harmless |
| BundleBuilder.OrderNeverMatters | src/fs/bundle.rs:18-20 | Every permutation of the entries is read and builds one tree exactly under those conditions |
| BundleBuilder.ArchiveOrderIndependent | src/fs/bundle.rs:154-175 | All archives with the same entries build one tree exactly when, of the entries inside the bundle, all are usable, no file is above another, and files with one path hold the same data |
| BundleBuilder.EveryOrderReads | src/fs/bundle.rs:33-67 | Every permutation is read without a panic exactly when no path goes up, every file has a name, and no file is above another entry |
| PathNames.PartsExactly | src/fs/bundle.rs:33-48 | The components of an entry's path are what lies between slashes, without empty ones |
| PathNames.FileNameExactly | src/fs.rs:193-199 | A path has a file name exactly when it is a directory's path, a slash and a name |
| PathNames.StrippedExactly | src/fs/bundle.rs:154-175 | Exactly the archive's entries whose names start with the bundle's path belong to it, under what follows, with their data |
| PathNames.FileAtExactly | src/fs/bundle.rs:50-59 | Of several file entries for a path the last is kept |
| Dyld.NumbersDecode | src/dyld.rs:734-743 | The number given to a host function stands for it exactly while fewer than 0x7ffffd were linked before; then the return flag is set exactly for one-word stubs |
| StubSymbols.NumbersRunOut | src/dyld.rs:865-877 | For how many functions there are numbers |
| StubSymbols.NumberExactly | src/dyld.rs:715-743 | Which numbers stand for the function linked as number i, and which are reserved |
| Dyld.Dyld.SetupLazyLinking | src/dyld.rs:486-527 | Rewrites every stub, and fails exactly on an unknown size or unexpected instructions |
| Dyld.Dyld.SetupAllBinaries | src/dyld.rs:354-360 | The stubs of all binaries, one after the other |
| Dyld.Dyld.LinkByRestoringStub | src/dyld.rs:756-792 | Restores the instructions, then writes the pointer they will load from |
| Dyld.Dyld.DoLazyLink | src/dyld.rs:745-900 | The three ways to link, in their order, and when linking panics |
| Dyld.Dyld.GetSvcHandler | src/dyld.rs:709-743 | Reserved numbers, numbers of linked functions, and all others |
| Dyld.Dyld.CreateGuestFunction | src/dyld.rs:934-955 | A new number and two instructions in a fresh block |
| Dyld.Dyld.CreateProcAddress | src/dyld.rs:918-932 | The same symbol always gives the same function |
| StubSymbols.AddressReplies | src/dyld.rs:918-955 | When the address of a host function is found; asking again gives the same one and changes nothing |
| StubSymbols.StubIsEntry | src/dyld.rs:794-813 | The address of entry i in the first section that spans it stands for symbol i of that section, with its entry size and distance to the pointers |
| StubSymbols.StubExactly | src/dyld.rs:794-813 | An address stands for a symbol exactly so, and no other address is a stub |
| StubSymbols.FirstExportExactly | src/dyld.rs:832-860 | The address an exported symbol is linked to is that of the first binary, in order, that exports it |
| StubSymbols.WrapperNames | src/dyld.rs:847-857 | The constructors that get a wrapper, by their mangled names |
| StubSymbols.LinksSymbol | src/dyld.rs:808-900 | How the stub of entry i is linked: to the function already made for symbol i, else to its first export, behind a wrapper for constructors of libstdc++, else to the host's function |
| StubSymbols.SetUpExactly | src/dyld.rs:486-527 | Setting up a section fails exactly when some entry does not hold the instructions expected of its size |
| A32.RunsOneWordStub | src/dyld.rs:282 | The one-word stub goes where the word at its address plus the low bits of its distance plus 8 says, while the distance leaves the instruction alone |
| A32.OneWordStubDecodes | src/dyld.rs:764 | With the distance or-ed in, a one-word stub still is the load exactly when the bits of the distance beyond the twelfth are among those of the instruction |
| A32.BitOrBits | src/dyld.rs:764 | Each bit of the restored word is set exactly if it is in the instruction or in the distance |
| A32.RunsAbsoluteStub | src/dyld.rs:283 | The two-word stub goes where the pointer named by its third word says, changing only r12 |
| A32.RunsPicStub | src/dyld.rs:284 | The three-word stub goes where the pointer at its fourth word's distance says, changing only r12 |
| StubRuns.TrapsWhileUnbound | src/dyld.rs:716-718 | A stub traps to the linker exactly until it is linked |
| StubRuns.StubsApart | src/dyld.rs:794-806 | Two stubs share no word and no pointer |
| StubRuns.LinkTouchesOwned | src/dyld.rs:756-792 | Linking touches only the stub's own words and pointer, so other stubs behave as before |
| StubRuns.PerformKeeps | src/dyld.rs:745-955 | Calling any address, making functions and storing elsewhere keep every stub, function and wrapper meaning what it was bound to |
| StubRuns.RunKeeps | src/dyld.rs:745-955 | So does every run, while at most 0x7ffffd host functions are linked; nothing bound is ever rebound |
| StubMeaning.StartsUnbound | src/dyld.rs:486-527 | After initial linking every stub traps to the linker, having held the expected instructions |
| StubMeaning.GuestStubReaches | src/dyld.rs:756-792 | In every reachable state a stub linked to a guest address goes there, leaving memory and all registers but r12 alone |
| StubMeaning.HostStubCalls | src/environment.rs:1602-1628 | In every reachable state a stub linked to a host function calls that function and then returns to the caller, with or without room for a return instruction |
| StubMeaning.FunctionCalls | src/dyld.rs:934-955 | So does every function made for a symbol |
| StubMeaning.UnboundStubTraps | src/environment.rs:1587-1633 | An unlinked stub reaches the linker with its own address |
| StubMeaning.LinkedForGood | src/dyld.rs:709-955 | Whatever happens later in a run, a linked stub still reaches the address, or calls the function, it was linked to |
| StubSymbols.BoundToItsSymbol | src/dyld.rs:794-813 | In every reachable state what the stub of entry i is bound to is what symbol i of its section says |
| StubSymbols.LinkedToItsSymbol | src/dyld.rs:709-955 | Whatever happens after the stub of entry i has been linked, calling it goes to the function or export of symbol i |
| StubMeaning.RestoredIsOriginal | src/dyld.rs:764-770 | Stubs of 12 and 16 bytes hold their original words again once linked to a guest address |
| StubMeaning.OneWordSlot | src/dyld.rs:781-785 | For 4-byte stubs the pointer used is two entries after the stub's own, and the restored word is not the original one |
| StubMeaning.LastSlotsOutside | src/dyld.rs:781-785 | With one pointer for each stub, linking the stub of index i of n writes within the pointer section exactly when i < n - 2 |
| StubMeaning.WrapperEnters | src/dyld.rs:232-245 | A constructor wrapper calls its target with `this` and the return address saved |
| StubMeaning.WrapperLeaves | src/dyld.rs:232-245 | When the target returns, the wrapper returns `this` and restores the stack |
| LineBreaking.FindWrapPoints | src/font.rs:275-301 | By words, exactly the starts of words after white space, and the end; by characters, every boundary |
| LineBreaking.BinarySearch | src/font.rs:321-329 | The search's contract: a match, or the place between the smaller and the larger elements when they are sorted |
| LineBreaking.BreakLine | src/font.rs:274-371 | Terminates; consecutive pieces cover the line; with a monotone width every piece fits or is one character, nothing more would fit, and a word is broken exactly when it does not fit by itself; an empty line vanishes exactly when words are wrapped and not even the empty string fits |
| LineBreaking.BreakLines | src/font.rs:259-375 | Every line of the text, broken as `BreakLine` does, in order |
| LineBreaking.CandidatesSorted | src/font.rs:321-329 | With a monotone width the candidates searched are sorted, trimmed or not |
| LineBreaking.BreakingKeeps | src/font.rs:259-375 | By characters the pieces concatenate to the line; by words only white space is lost |
| LineBreaking.NothingVisibleIsLost | src/font.rs:259-375 | For every text, width and mode the visible characters come out unchanged and in order, whatever the widths of strings are |
| LineBreaking.LinesExactly | src/font.rs:267 | The lines of a text: each ended by a line feed, with or without a carriage return before it |
| LineFit.LinesFit | src/font.rs:321-371 | With a monotone width every line fits, but for white space at its end when words are wrapped, or is one character |
| LineFit.BreaksBetweenWords | src/font.rs:275-301 | A line ends where a word begins, or inside a word too wide for any line |
| LineFit.WordsStayWhole | src/font.rs:335-371 | A word that fits a line is never divided |
| LineFit.NoCharacterMore | src/font.rs:321-334 | By characters, with a monotone width, a line with one character more would reach the limit |
| LineFit.NoWordMore | src/font.rs:321-334 | By words, a line with any further word would reach the limit, unless it is a part of a word too wide for any line |
| StartStack.PrepStackForStart | src/stack.rs:21-113 | The end of the stack holds the image of the arguments and the rest is untouched; fails exactly when the image would fill the space set aside |
| StartStack.PushString | src/stack.rs:40-53 | A terminator and the bytes backwards, and the address where the string will start |
| StartStack.Fill | src/stack.rs:92-94 | Copies the data, reversing it |
| StartStack.ProgramFindsArguments | src/stack.rs:55-77 | From the stack pointer, aligned to 4: argc, argv pointers, envp pointers, null, apple pointers, null, each pointer leading to a terminated copy of its string above the table; argv ends in a null pointer exactly when envp is empty |
| StartStack.StringsApart | src/stack.rs:40-53 | Each string ends where the one pushed before it starts |
| StartStack.LittleEndianExactly | src/stack.rs:79-90 | The bytes of a word on the stack are its digits to the base 256, the lowest first |
| StartStack.HeightExactly | src/stack.rs:55-77 | The space needed: three words more than there are strings, the strings with their terminators, in whole words |
| Abi.FromToRegs | src/abi.rs:446-560 | Every value of every argument type survives being put into registers, signed and narrow ones included |
| AbiWords.NumberWords | src/abi.rs:446-550 | Which words a number takes: one, or two of 64 bits with the low one first, in two's complement |
| AbiWords.NumberRead | src/abi.rs:446-550 | Which number any words are read as: the one of its type with the same low bits; a truth value tells whether the word is zero |
| Abi.RoundTrip | src/abi.rs:345-416 | Arguments written are the arguments read, for any types and counts, also when a value is split between r3 and the stack |
| Abi.VariableArguments | src/abi.rs:418-444 | Variable arguments are read on from where the named ones end |
| Abi.ListByPointer | src/abi.rs:517-527 | A list passed by pointer reads memory only, from the pointer on |
| Abi.PutStaysWithin | src/abi.rs:392-416 | Writing arguments touches only the words reserved on the stack |
| Abi.GuestFindsArguments | src/abi.rs:262-305 | A guest function called from the host finds its arguments |
| Abi.GuestFindsFrame | src/abi.rs:274-288 | It finds a frame linking to its caller's, its return address, and the other registers as they were |
| AbiWords.GuestWordAt | src/abi.rs:281-299 | A guest function finds word i of its arguments in register i, and from the fifth on the stack from its stack pointer upwards |
| AbiWords.HostWordAt | src/abi.rs:228-253 | So does a host function called the same way, one place further behind the pointer to a result in memory |
| Abi.GuestCallWritesBelow | src/abi.rs:274-299 | All that is written lies in the reserved words and the frame, below the old stack pointer |
| Abi.CallerIsRestored | src/abi.rs:301-311 | Whatever the function did, PC, Thumb flag, LR, SP and frame pointer are the caller's again |
| Abi.ResultInMemory | src/abi.rs:228-243 | With a result in memory its pointer and all arguments are found |
| Abi.ArgumentsReachResult | src/abi.rs:233-243 | The pointer is not counted when stack is reserved: the last word of the arguments lies in the result's buffer exactly when they take four words or more |
| Abi.ResultInRegisters | src/abi.rs:239-243 | Without a result in memory only reserved words are written |
| Abi.Machine.WriteNextArg | src/abi.rs:392-416 | Puts the words of one argument where the next ones belong |
| Abi.Machine.ReadNextArg | src/abi.rs:345-368 | Reads the words of one argument from where the next ones are |
| Abi.Machine.ExtendStackForArgs | src/abi.rs:375-385 | Reserves the words beyond the fourth and returns the old stack pointer |
| Abi.Machine.CallGuest | src/abi.rs:262-313 | The whole call of a guest function, from the state before to the state after |
| Abi.Machine.CallHost | src/abi.rs:228-253 | The whole call of a host function, up to its result; the stack pointer is as before |
| WeakRefs.ObjC.UnregisterWeakReference | src/objc.rs:266-280 | Forgets one slot, and the object when no slot is left |
| WeakRefs.ObjC.InitializeWeakReference | src/objc.rs:282-302 | Stores a living object and lists the slot for it, or stores nil |
| WeakRefs.ObjC.ObjcStoreWeak | src/objc.rs:310-314 | Forgets the old entry before making the new one |
| WeakRefs.ObjC.ObjcLoadWeakRetained | src/objc.rs:317-330 | Gives the object, or clears a slot whose object is gone |
| WeakRefs.ObjC.ObjcDestroyWeak | src/objc.rs:339-343 | The slot holds nil and is listed nowhere |
| WeakRefs.ObjC.ObjcCopyWeak | src/objc.rs:346-349 | The destination refers to what the source refers to |
| WeakRefs.ObjC.ObjcMoveWeak | src/objc.rs:352-357 | The destination takes over, the source holds nil |
| WeakRefs.ObjC.DeallocObject | src/objc/objects.rs:350-361 | Clears the slots of the object in any order, and panics exactly when there is no such object |
| WeakRefs.InitializeKeeps | src/objc.rs:282-307 | Initialising keeps the index exact precisely when the slot is not listed for another object |
| WeakRefs.StoreKeeps | src/objc.rs:310-314 | Storing always keeps it |
| WeakRefs.CopyKeeps | src/objc.rs:346-349 | Copying keeps it precisely when the destination is not listed for another object |
| WeakRefs.MoveKeeps | src/objc.rs:352-357 | So does moving, unless a slot is moved onto itself, which always keeps it |
| WeakRefs.LoadFindsLiving | src/objc.rs:317-330 | Loading from a weak slot changes nothing and gives an object that is alive |
| WeakRefs.DeallocZeroes | src/objc/objects.rs:350-361 | An object that goes away takes exactly the references to it with it |
| WeakRefs.OneSetPerSlot | src/objc.rs:266-302 | Each slot is in one set only |
| WeakRefs.RunKeeps | src/objc.rs:266-357 | Through a run the index is exactly the inverse of the weak slots' contents, without empty sets, and no slot refers to an object that is gone, exactly while no slot listed for another object is initialised, copied or moved onto, and no weak slot is overwritten with something else |
| WeakRefs.PerformKeeps | src/objc.rs:266-357 | The same for one call, whichever it is |
| WeakRefs.StaleEntryClearsSlot | src/objc.rs:305-307 | Initialising a slot in use: when the object it held before goes away, the slot loses the living object it refers to |
| WeakRefs.CallLeaves | src/objc.rs:266-357 | What each call leaves, in any state: a slot made to refer to an object holds it if it is alive and nil otherwise, a moved or destroyed one nil, and every other slot and object is as before |
| Gdb.GdbServer.ReadPacket | src/gdb.rs:60-121 | Reads the connection only when nothing is buffered; an acknowledgment, a packet with its checksum and text that is UTF-8, an incomplete one, or a panic |
| Gdb.GdbServer.SendPacket | src/gdb.rs:123-127 | The body framed with its checksum in two digits |
| GdbText.ChecksumIsSum | src/gdb.rs:106-124 | The checksum is the sum of the codes of the body's characters, modulo 256 |
| GdbText.FramedExactly | src/gdb.rs:123-127 | A packet as sent: the body between '$' and '#', and that sum in two lower-case digits |
| GdbText.PacketExactly | src/gdb.rs:86-121 | A reading gives a body, and consumes just its packet, exactly when the buffer starts with '$', the body, '#' and characters read as that sum, and the body is text |
| GdbText.NoPacketExactly | src/gdb.rs:70-102 | A reading gives nothing exactly when nothing is buffered, at an acknowledgment, and at a packet that is not all there |
| GdbText.Utf8Exactly | src/gdb.rs:109 | The body of a packet is accepted as text exactly when its bytes are the UTF-8 encoding of some sequence of characters |
| Gdb.ReadsWhole | src/gdb.rs:60-121 | A message that is buffered whole is read as it was sent, whatever follows |
| Gdb.AlignedIsRead | src/gdb.rs:60-121 | Any list of text bodies without '#', framed and interleaved with acknowledgments, is read back in order, in as many readings as messages, when no message is divided between two reads of the connection |
| Gdb.DividedIsLost | src/gdb.rs:60-68 | The first message that is divided is a command; in any number of readings the server gets the commands before it, one message a reading, and never that one or a later one |
| Gdb.ReadExactlyWhenAligned | src/gdb.rs:60-121 | So all commands are read in the end exactly when no message is divided |
| Gdb.ReadRegisters | src/gdb.rs:183-191 | The registers in order, each with its bytes least significant first |
| Gdb.WriteRegisters | src/gdb.rs:193-207 | Data that is the text of register values restores exactly them; other data of the right form is decoded the same way |
| GdbText.RegisterByte | src/gdb.rs:183-191 | Byte k of register i, from the least significant, is in the two digits at 8i + 2k |
| GdbText.RegisterRead | src/gdb.rs:193-207 | A register is set to the word whose bytes, from the least significant, are the four pairs of digits |
| GdbText.PlusIsZero | src/gdb.rs:198 | A plus sign in place of the first digit is read like a zero |
| Gdb.ReadMemory | src/gdb.rs:250-268 | Two digits for each byte |
| GdbText.MemoryByte | src/gdb.rs:250-268 | Byte i of the memory is in the two digits at 2i |
| Gdb.WriteMemory | src/gdb.rs:270-292 | The data of a reply to `m` writes the same bytes back |
| Gdb.FetchesDocument | src/gdb.rs:325-351 | A client that asks for positive lengths, any at each request, ends with the document |
| GdbText.TransferExactly | src/gdb.rs:331-351 | The reply: the piece asked for marked 'm', or what is left marked 'l' if that is shorter, or an error beyond the end |
| Gdb.NothingRequested | src/gdb.rs:334-342 | A request for nothing is answered as if there were more, so such a client does not advance |

## Left out

- Dynarmic, coroutines and the sleeping of the host process: a time slice is an arbitrary change of the current thread's
  registers and memory, a coroutine an opaque token. Threads blocked on file objects or on the debugger are not modelled.
- Emulator.Environment.Scan: both clocks are read once for each scan, while the source reads them for each thread it
  visits; threads blocked on file objects or on the debugger do not occur.
- Emulator.Environment.ScheduleNextThread: likewise, and a sleep lasts at least as long as asked.
- Emulator.Environment.EndTurn: stepping and waiting for the debugger, which come before the scan, are left out.
- Waiter counts, suspension counts and semaphore values are unbounded; the widths of lock counts and mutex ids are
  modelled.
- Named semaphores: opening, closing and unlinking them.
- The condition-variable functions are modelled as far as the scheduler reads what they write; attributes and the checks
  of magic numbers are not.
- InitialTree.NewRoot: creating the application's host directories, and emptying the temporary one, come before it.
- Symbolic links, file permissions, time stamps, handles kept open across removal, and path separators other than '/' in
  host paths. A host call fails only for the reasons modelled, not for lack of space or by interference.
- The host's `rename` replacing an existing file by another is one step on the host map.
- Finding the bundle path in an archive, reading entries, and the clean-up of file contents: an entry's data is a token.
- Of the linker, non-lazy and late linking of constants and classes, Mach-O loading and cache invalidation. Memory is taken
  by words at multiples of four, and only the instructions that stubs use are modelled.
- StubRuns.RunKeeps: the binaries are laid out so that stub sections do not overlap, pointers are distinct and outside of
  them, and the distance to the pointers leaves one-word stubs the instruction they should be.
- Fonts: the width of a string is any function; drawing is not modelled. A string is a sequence of characters, so byte
  offsets that are not character boundaries do not arise.
- Floating-point arguments and structures are raw words; the marshalling of Objective-C messages is not modelled.
- WeakRefs.ObjC.ObjcLoadWeakRetained: reference counts are not modelled, so the returned object is not retained; an object
  exists or has gone.
- WeakRefs.ObjC.DeallocObject: the object's memory is not freed; slots inside it stay in use until they are destroyed.
- Gdb.GdbServer.ReadPacket: a lost connection, on which the server panics, and a failing acknowledgment are left out; when
  nothing more arrives there is no packet.
- Of the debugger, single registers by number, the parsing of addresses, lengths and query strings, and stopping and
  stepping.
- Matrices, touch coordinates, audio, graphics, windows and option parsing.
- Nothing was executed: every statement is proved by the verifier.
