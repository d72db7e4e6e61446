# Verification of the emulator's bookkeeping

The emulator runs applications for an old handheld operating system on other machines. Most of what makes it work is
deterministic bookkeeping, and that is what is modelled and verified here:

- the green threads: what they wait for, how they wake up, which one runs next, how long everyone sleeps, and where the
  state of each is kept (`Threads`, `ThreadInvariants`, `ThreadRuns`, `ThreadHistory`, `DestroyChecks`, `DestroyWitnesses`,
  `Scheduler`, `Fairness`, `Environment`, `ThreadSwitch`);
- the game clock, which runs at a selectable speed (`GuestClock`);
- loading binaries: the closure of their dependencies and the order of initialisation (`DependencyLoader`, `LoadOrder`);
- the dynamic linker, which rewrites code stubs, together with the few instructions stubs are made of (`A32`,
  `LazyLinker`, `ThumbPatch`);
- the calling convention between host and guest (`Abi`);
- the virtual filesystem, its paths, its lookups and the host directories behind it (`Paths`, `VfsTree`, `Volumes`,
  `VolumeRuns`, `VolumeRegions`, `VfsOutcomes`, `VfsLayout`, `Vfs`, `VfsLookup`, `VfsNames`);
- the line breaker (`LineBreaker`), the ADTS writer and parser (`Adts`), the modified UTF-8 encoder (`ModifiedUtf8`) and
  the weighted byte picker (`Corruptor`).

`Threads` describes every step that threads and the scheduler can take as a state machine. `ThreadInvariants` and
`ThreadRuns` prove what each step and whole runs keep, and `ThreadHistory` what a call comes to later on, told by the
calls and not by the state that they lead to. `Environment` does the same things in place, as the emulator does, and
each of its methods is proved to be the machine's step; `Scheduler` holds the reasoning about one pass over the threads.
The filesystem is built likewise: `VfsTree` describes a tree by what each path leads to, `Volumes` what each call does
to the tree and to the host, `VolumeRuns` what calls and runs of them keep, `VfsOutcomes` exactly when each of them
succeeds, and `Vfs` makes the calls in place. Its invariant has two halves. Whatever can be written to is at the host
path that its region calls for, where a region is a directory whose host directory may lie anywhere; and the host has
all that the tree shows, but may have more. The first half holds over all runs, the second one up to calls that are
named exactly; the filesystem that an app starts with (`VfsLayout`) has both. `VolumeRegions` says the same place by
place, for any tree, in step or not: a region with a host directory to itself stays in step whatever happens elsewhere,
which the documents of an app are an example of.

What the code does and its comments promise differ in places; the model follows the code and says exactly where the
promise holds:

- The checks made when a mutex or a condition variable is destroyed protect what a thread still needs as long as no
  condition variable is used with the mutex (`DestroyChecks.DestroyIsSafe`), and otherwise exactly up to the waiters that
  nobody counts (`DestroyChecks.MutexDestroyForgets`, `DestroyChecks.CondDestroyForgets`).
- A time-out is reported exactly when a wait was given up, unless the condition variable has been set up afresh before the
  waiter is back (`ThreadHistory.TimeOutIsReported`).
- The deadlines of timed waits are taken from the guest's wall clock and compared with the host's. They are late or early
  by as much as the game has run faster or slower since the start (`ThreadRuns.TimedWaitsKeepGuestTime`), whatever its
  speed is now (`ThreadRuns.PastSpeedsCount`).
- A thread that can run gets its turn after a bounded number of others, as long as they do not create more and more
  threads (`Fairness.BoundedWaiting`, `Fairness.CreationStarves`).
- The node named when dependencies have a cycle may only lead to the cycle. It lies on it for certain exactly when every
  node that leads to a cycle does (`LoadOrder.NamedNodeLiesOnCycle`).
- Four-byte stubs use the pointer two places further on than their own (`LazyLinker.LastPointersAreBehindTheTable`). If
  the low 12 bits of their distance from the pointers, plus 8, lead to another stub of the section, they use its code as
  their pointer (`LazyLinker.SectionFits`), and linking them breaks it (`LazyLinker.LinkingBreaksOther`). This happens
  with no pointers at all, and at distances at which the compiler's own stubs work (`LazyLinker.PageDistanceBreaks`).
- Supervisor call numbers from 0x800000 on, which the encoder lets pass, reach the wrong function
  (`A32.SvcFindsItsFunction`).
- The hidden pointer to a return value is not counted among the argument words (`Abi.ArgumentsStayInFrame`), and a list of
  variable arguments cannot be passed on (`Abi.Arg.ReadsBack`).
- A path with the sandbox prefix three times over does not resolve to a fixed point
  (`Paths.TripledPrefixDoesNotSettle`). A renamed directory can make the prefix appear a second time in the tree, and
  what is there cannot be reached any more (`VfsNames.RenameMakesNestedMarker`).
- Signalled waiters leave a condition variable in the order of its queue, also if the first one is suspended, so that
  nobody behind it gets on although the mutex is free (`ThreadRuns.SuspendedWaiterBlocksOthers`).
- Opening something read-only for writing is not rejected where a comment says it is, but goes on to the creation of a
  file, which takes the place of what was there: for `/var`, of the app's whole home directory (`VfsLayout.VarGivesWay`).
  For a directory that is a directory on the host as well, the host refuses, which ends the emulator
  (`VolumeRuns.DirectoryOpenedForWriting`).
- The assumption that the tree tells whether the host will refuse fails in exactly four cases
  (`VolumeRuns.PanicsExactly`). Three are about what the host has and the tree does not show, for instance a directory
  left over from an earlier run (`VfsLayout.LeftOverDirectoryPanics`). The fourth is about what the tree shows and the
  host does not have any more, which one deletion in the library is enough for, as it is in two places
  (`VfsLayout.SecondDeletionPanics`).

Times are exact rationals. The host clock is read once for each thread that the scheduler looks at; it never goes back,
and the host's wall clock differs from it by a constant. Sleeping takes at least as long as asked. Host functions keep LR
and the words that stubs are made of. A guest's stack has room for what is passed to it. Memory for new code is given by
the allocator, as a parameter. Words of stubs and pointers are told apart by their addresses. The host's filesystem
renames as POSIX has it, also across regions. Hash tables are gone through in any order.

## Model

| member | source | states |
|---|---|---|
| `ThreadInvariants.StepKeepsConsistent` | src/environment.rs:1491-1636 | Any single step of the guest or the scheduler keeps the thread bookkeeping consistent (waiting sets and condition queues hold exactly the blocked threads, suspended ones included; every mutex, condition variable and joinee waited for exists) if and only if it is not one of four named misuses: setting up afresh a semaphore or condition variable that threads still wait on, or destroying a condition variable or mutex that a wait in progress still needs |
| `ThreadRuns.RunKeepsConsistent` | src/environment.rs:2901-3089 | Consistency holds after every run without misuse, however long |
| `ThreadRuns.SchedulerNeverPanics` | src/environment.rs:2976-3086 | In any clean run of an app from its start, none of the lookups and assertions the scheduler makes about a thread can fail |
| `ThreadRuns.WakeTakesMutex` | src/environment.rs:2937-3045 | A thread that leaves a mutex or condition wait owns the mutex, which was free before; out of a condition wait it is the very mutex it gave back when it began to wait; no other mutex changes hands |
| `ThreadRuns.MutualExclusion` | src/environment.rs:2937-2944 | Over any run, a held mutex stays with its owner and is granted to nobody until a call really releases it: for the last time, without a phantom lock, and by the owner unless the mutex is a plain one |
| `ThreadRuns.OnlyReleasesFree` | src/environment/mutex.rs:237-328 | Exactly those calls make a held mutex free; no other step does |
| `ThreadRuns.SemaphoreConservation` | src/environment.rs:1564-1636 | Over any run in which a semaphore stays open, what it held at first plus the posts equals what it holds plus the units handed to threads; it never hands out more than it got |
| `ThreadRuns.SignalsServeInOrder` | src/libc/pthread/cond.rs:254-298 | Over any clean run, signalled waiters leave a condition variable in queue order: while an earlier waiter still waits, a later one has not been woken, unless its time was up |
| `ThreadRuns.SignalledCanRun` | src/environment.rs:2976-2998 | A waiter on a condition variable can run exactly when the mutex it gave back is free, and it is the first of the signalled ones or its time is up |
| `ThreadRuns.SuspendedWaiterBlocksOthers` | src/environment.rs:2976-2998 | Over any clean run, while a waiter is suspended nobody behind it in the queue, signalled or not and with the mutex free, can leave unless its time is up |
| `ThreadRuns.SuspensionHolds` | src/environment.rs:1491-1542 | Over any run, a suspended thread is neither woken nor switched to, keeps what it waits for and keeps exact count, until it has been resumed as often as suspended |
| `ThreadRuns.NobodyWakesEarly` | src/environment.rs:2917-2936 | Nobody wakes before the host time it sleeps until; for game-time sleepers, not before the host deadline as computed at any earlier moment since the last change of speed |
| `ThreadRuns.JoinDelivers` | src/environment.rs:3056-3080 | In any run, a join ends only after the joined thread's own exit in that run, and the value that it gave there, or null when there is none, is where the caller asked for it; no other memory is written |
| `ThreadRuns.FinishedByExit` | src/environment.rs:1861-1875 | Over any run, a thread is finished exactly when it has called its exit, and keeps the value it gave |
| `DestroyChecks.CountsPlusOwed` | src/environment/mutex.rs:134-162 | Over any run, the waiter count of a mutex and the waiters owed (arrivals after a time-out, and counts taken away by wake-ups from condition variables) make up the threads that wait for it |
| `DestroyChecks.DestroyIsSafe` | src/environment/mutex.rs:90-106 | In any run of an app in which no wait on a condition variable names a mutex, its waiter count is the number of threads waiting for it, and it is destroyed only when nobody needs it |
| `DestroyChecks.MutexDestroyForgets` | src/environment/mutex.rs:90-106 | In any run, a mutex that a thread still needs is destroyed if and only if it is free, no waiter is counted, and a waiter is owed or a wait that gave the mutex back is in progress |
| `DestroyChecks.CondDestroyForgets` | src/libc/pthread/cond.rs:300-310 | In any clean run, a condition variable that a thread still needs is destroyed if and only if its queue is empty and a thread that was woken or timed out has still to finish its wait |
| `DestroyWitnesses.WaitersMutexIsDestroyed` | src/libc/pthread/cond.rs:202-240 | Witness: while a thread waits on a condition variable, the mutex it gave back is destroyed, and the scheduler's next look at the thread fails |
| `DestroyWitnesses.TimedOutWaiterIsForgotten` | src/environment.rs:3004-3033 | Witness: a waiter whose time is up while its mutex is taken is on no queue and not counted, so that the mutex and the condition variable can both be destroyed |
| `DestroyWitnesses.CountIsTakenAway` | src/environment.rs:2988-2998 | Witness: a woken waiter takes the count of a thread that waits for the mutex, which is then destroyed with no wait on a condition variable in progress |
| `ThreadRuns.TimedWaitsKeepGuestTime` | src/environment.rs:3000-3003 | Over any run, a timed wait is due exactly when the guest's wall clock shows its deadline plus the drift, which is speed less one times length, summed over all stretches; a wait for what the clock shows is due exactly if that sum is not positive |
| `ThreadRuns.PastSpeedsCount` | src/environment.rs:3000-3003 | Witness: for any two speeds, ten seconds at the first one decide about a timed wait made at the second |
| `ThreadHistory.TimeOutIsReported` | src/environment.rs:2999-3038 | Over any clean run from the start of a wait on a condition variable to its end, the mark that makes the wait report a time-out is set if and only if the thread was brought on by its time being up, not by being the first of those signalled, whether its mutex was free or taken; setting the condition variable up afresh in between takes the mark away |
| `ThreadHistory.BlockedUntilWoken` | src/environment.rs:2912-3087 | Each call that blocks its caller (sleeping, joining, a mutex of another's, an empty semaphore, a condition variable) does so until the caller wakes up, whatever happens; it can wake up exactly when what that call waits for has happened, and goes over to waiting for its mutex exactly when its time is up and the mutex taken |
| `ThreadHistory.SignalsReach` | src/libc/pthread/cond.rs:254-298 | Over any clean run, a waiter with n unsignalled ones before it has been signalled after more than n signals or one broadcast, and has not been without any |
| `ThreadHistory.SignalIsFor` | src/libc/pthread/cond.rs:254-298 | A signal is for exactly the one who has waited longest, a broadcast for everybody; nobody loses their place |
| `ThreadHistory.ResumingRestores` | src/environment.rs:1491-1542 | A thread that is suspended stays so for as long as it has been resumed less often, with any nesting, and is left waiting for exactly what it was waiting for |
| `ThreadHistory.LocksNest` | src/environment/mutex.rs:166-328 | Over any run, a mutex stays with its owner for exactly as long as it has not been unlocked (or given back for a wait) as often as locked, phantom locks of plain mutexes included, unless another thread unlocks a plain one; the depth is the count plus the phantom locks |
| `ThreadHistory.FirstLock` | src/environment/mutex.rs:166-233 | Locking a free mutex makes the caller its owner at once, one lock deep but for phantom locks left over |
| `ThreadHistory.KindStays` | src/environment/mutex.rs:71-106 | A mutex is set up free and of its kind, and stays of that kind until it is destroyed |
| `ThreadHistory.SemaphoreFromItsStart` | src/environment.rs:1564-1636 | From its setting up, a semaphore holds its initial value plus the posts less the units handed out |
| `ThreadHistory.ClosingLetsGo` | src/environment.rs:2950-2963 | Closing a semaphore lets everyone go who waits for it |
| `ThreadHistory.CreatedCanRun` | src/environment.rs:1406-1463 | A new thread can run at once, and nothing else changes |
| `ThreadHistory.CurrentIsDispatched` | src/environment.rs:2108-2126 | Over any run, the current thread is the one that was switched to last |
| `Scheduler.DueAtDeadline` | src/environment.rs:2928-2936 | A sleeper is due exactly when its deadline, converted to host time, has passed |
| `Scheduler.DeadlockIsForever` | src/environment.rs:3098-3122 | When the scheduler reports a deadlock, no passing of time could let any active thread run or end its wait |
| `Fairness.BoundedWaiting` | src/environment.rs:2909-2914 | Over any turns of the machine (calls of the current thread, a decision of the scheduler, the switch), a thread that can run at each decision is passed over fewer times than its distance around the ring plus the threads created meanwhile; with n threads and no new ones, fewer than n times |
| `Fairness.CreationStarves` | src/environment.rs:2909-2914 | The limit: if each thread chosen creates another one, a thread that can run all along is passed over any number of times |
| `Environment.Environment.SwitchToNext` | src/environment.rs:1957-1962 | The decision and the switch done in place are such a turn |
| `Scheduler.OthersAdvance` | src/environment.rs:2999-3046 | Neither passing time nor another thread's time-out makes a ready thread unready, or a thread ready for any other reason than its deadline |
| `Scheduler.ScanEnds` | src/environment.rs:2908-3089 | A look at all threads that finds none to run has the earliest pending deadline exactly, and has turned some timed wait into a mutex wait if any thread was due when it began |
| `Environment.Environment.TryThread` | src/environment.rs:2912-3087 | Looking at one thread wakes it, ends its timed wait, or finds the deadline it waits for, with exactly the state changes of that step |
| `Environment.Environment.Scan` | src/environment.rs:2908-3089 | One pass over the threads chooses the first that can run, in ring order after the current one, and is a run of the thread machine in which nobody else wakes up |
| `Environment.Environment.SleepUntil` | src/environment.rs:3091-3099 | The scheduler sleeps until exactly the earliest pending deadline, after which somebody is due |
| `Environment.Environment.ScheduleNextThread` | src/environment.rs:2901-3125 | Always ends, by a measure of timed waits, grace attempts left and whether somebody is due; the thread chosen is active, unblocked, and no thread that could run comes before it; without one, the machine is deadlocked for good, and a deadlocked machine is always reported |
| `Environment.Environment.SemDecrement` | src/environment.rs:1564-1609 | Takes a unit, blocks or fails just as the state machine's step; fails exactly for an unknown semaphore, or an empty one without waiting |
| `Environment.Environment.SemIncrement` | src/environment.rs:1618-1636 | Adds one to a known semaphore and reports an unknown one |
| `Environment.Environment.SuspendThread` | src/environment.rs:1491-1510 | Counts up, or suspends with the present state remembered |
| `Environment.Environment.ResumeThread` | src/environment.rs:1513-1542 | Counts down, or restores the remembered state; a thread that is not suspended is left as it is |
| `Environment.Environment.Sleep` | src/environment.rs:1473-1481 | Blocks the current thread until exactly the given duration after the clock is read |
| `Environment.Environment.SleepGuest` | src/environment.rs:1485-1488 | Blocks the current thread until exactly the given duration of game time from now |
| `Environment.Environment.LockMutex` | src/environment/mutex.rs:166-233 | Locks, counts, grants a phantom lock or blocks, by kind of mutex and owner; reports a deadlock exactly for an error-checking mutex of one's own, and otherwise the lock count |
| `Environment.Environment.UnlockMutex` | src/environment/mutex.rs:237-328 | Consumes a phantom lock, counts down or releases, and fails without any change exactly when the lock is not the caller's to give; otherwise returns the lock count that is left |
| `Environment.Environment.RelockUnblockedMutex` | src/environment/mutex.rs:134-162 | Gives a free mutex to the woken thread and counts one waiter less |
| `Environment.Environment.CondWaitStart` | src/libc/pthread/cond.rs:202-240 | Unlocks the mutex once, queues at the end and blocks, or fails and changes nothing; afterwards the mutex is free exactly if it was before, or was locked for the last time and there is no phantom lock |
| `Environment.Environment.CondWaitEnd` | src/libc/pthread/cond.rs:174-199 | Reports a time-out exactly when the thread was marked as timed out, and clears the mark |
| `ThreadSwitch.Machine.constructor` | src/environment.rs:1730-1731 | The main thread starts with its state in the processor and its coroutine held by the run loop |
| `ThreadSwitch.Machine.NewThread` | src/environment.rs:1406-1463 | A new thread has its own saved context and coroutine; nobody's registers change |
| `ThreadSwitch.Machine.Kill` | src/environment.rs:1861-1875 | A finished thread loses its coroutine and its stack and nothing else |
| `ThreadSwitch.Machine.SwitchThread` | src/environment.rs:2108-2126 | Exactly the current thread lacks a saved context and exactly the active others have their own coroutine in the table, before and after; no thread's registers change and no assertion or unwrap on the way fails |
| `ThreadSwitch.Machine.Run` | src/environment.rs:1733-2004 | Over any run of turns, thread creations and exits, and for any answers of the scheduler, each turn is that of a thread that has not finished, beginning with the current one; it is resumed on its own call stack and sees its registers as if it had a processor to itself; the threads that are active afterwards are those that have not ended |
| `ThreadSwitch.HostCalls.Push` | src/environment.rs:2061-2069 | A host-to-guest call adds one frame to its own thread and to no other |
| `ThreadSwitch.HostCalls.Pop` | src/environment.rs:2071-2084 | However threads interleave, ending the innermost call of a thread removes exactly its frame; an untracked frame changes nothing |
| `LoadOrder.GenerateBinaryLoadOrder` | src/environment.rs:273-352 | For any hash iteration order: succeeds exactly when the dependency graph, prefixes stripped and unknown names ignored, has no cycle; the order has every dependency before its dependents; the nodes left over are exactly those with a walk into a cycle, and a failure names whichever of them the hash table yields first |
| `LoadOrder.DependsByName` | src/environment.rs:279-305 | One node depends on another exactly if a node of its name lists the other's name, or `/usr/lib/` and that name; a name that itself begins with `/usr/lib/` counts only with it once more; of several nodes with one name the last is meant |
| `LoadOrder.DistinctNamesArePermuted` | src/environment.rs:273-280 | With distinct names the result is a permutation of all indices |
| `LoadOrder.LoadOrderExcludesCycles` | src/environment.rs:335-340 | No order with dependencies first exists for a graph with a cycle |
| `LoadOrder.NamedNodeLiesOnCycle` | src/environment.rs:335-340 | The node named in the error lies on a cycle for every hash order if and only if every node that reaches a cycle lies on one |
| `LoadOrder.NamedNodeMayLieOutsideTheCycle` | src/environment.rs:335-340 | Witness: a graph and a hash order for which the node named is on no cycle |
| `LoadOrder.ClosedOrderAvoidsCycles` | src/environment.rs:318-333 | What is sorted with its dependencies in front does not reach a cycle |
| `LoadOrder.AddDependency` | src/environment.rs:297-312 | Recording one edge adds it to the edge multiset once, with its in-degree |
| `LoadOrder.Release` | src/environment.rs:325-337 | Finishing a node lowers the in-degree of each dependent once per edge and queues a dependent exactly when its last edge is gone |
| `DependencyLoader.LoadTransitiveDependencies` | src/environment.rs:252-269 | Ends whenever the reachable names are finite; every call is for a name requested and not yet visited, breadth first: the calls are the first requests for each name, in the order of the roots and reports; on success the names called are exactly those requested by the roots and by all reports |
| `DependencyLoader.BinariesInOrder` | src/environment.rs:264-268 | The binaries returned are those of the calls that gave one, in their order, with none left out or added |
| `DependencyLoader.CalledOnce` | src/environment.rs:260-262 | `load` is called once per canonical name, and never after a failure |
| `DependencyLoader.SuccessCoversEverything` | src/environment.rs:252-269 | A successful run has called the canonical name of every root and of every dependency that any call reported |
| `DependencyLoader.OnlyTheClosureIsCalled` | src/environment.rs:252-269 | Nothing outside any set that holds the roots and is closed under dependencies is ever loaded |
| `DependencyLoader.SameLibrary` | src/environment.rs:237-250 | Two paths have one canonical name exactly when they are in one directory and their last components are aliases of one library |
| `DependencyLoader.LibrariesWithAliases` | src/environment.rs:237-250 | Exactly which names are aliases of one library |
| `DependencyLoader.CanonicalizeIsIdempotent` | src/environment.rs:237-250 | Canonical names are their own canonical names |
| `GuestClock.Anchor.DeadlineIsExact` | src/guest_clock.rs:106-109 | Guest time has reached a deadline exactly when the host deadline computed for it at any moment in between has passed |
| `GuestClock.Anchor.DeadlineIsStable` | src/guest_clock.rs:102-109 | A pending host deadline does not move as time passes |
| `GuestClock.GuestTimeIsPaced` | src/guest_clock.rs:72-98 | Over any run of speed changes, guest time is the sum of speed times length of each stretch, and the guest's wall clock keeps step with it |
| `GuestClock.GuestTimeNeverJumps` | src/guest_clock.rs:72-98 | Over any run, guest time never goes back and advances between a quarter and four times as far as host time |
| `GuestClock.RebaseIsInvisible` | src/guest_clock.rs:92-98 | Rebasing at an unchanged speed is invisible later on exactly when it is not dated before the anchor |
| `GuestClock.WallClocksDrift` | src/guest_clock.rs:72-98 | Over any run of speed changes, the guest's wall clock differs from the host's by the drift |
| `GuestClock.Clock.SetSpeedAt` | src/guest_clock.rs:92-98 | Neither guest time nor guest wall time changes at the moment of a speed change |
| `GuestClock.Speed.Step` | src/guest_clock.rs:44-57 | A step doubles or halves the speed, except at the ends |
| `A32.SvcFindsItsFunction` | src/dyld.rs:1554-1590 | A supervisor call number is dispatched to the function it was issued for if and only if index plus base stays below the return flag 0x800000 |
| `A32.StubRuns` | src/dyld.rs:445-452 | Running a stub of 4, 12 or 16 bytes, whatever the registers hold, asks for lazy linking, reaches exactly its guest target, or calls exactly its host function and returns to LR, as its code says |
| `A32.StubStays` | src/dyld.rs:1606-1665 | A stub means the same as long as none of its own words or its pointer changes |
| `LazyLinker.LinkingKeepsBooks` | src/dyld.rs:1606-1665 | Linking one stub leaves every other stub, linked or not, and every host function's code with the same meaning |
| `LazyLinker.NewFunctionKeepsBooks` | src/dyld.rs:1892-1912 | So does giving a host function a guest address |
| `LazyLinker.FunctionRuns` | src/dyld.rs:1892-1912 | A host function's guest address calls it and returns to LR, whatever has been linked since |
| `LazyLinker.Dyld.SetupLazyLinking` | src/dyld.rs:762-834 | Exactly the stubs of a section with the expected instructions are made to ask for lazy linking; their pointers and everything else are untouched; other stub sizes are left alone |
| `LazyLinker.Dyld.LinkByRestoringStub` | src/dyld.rs:1606-1665 | The stub gets its original instructions back and from then on leads to the target |
| `LazyLinker.Dyld.LinkToHost` | src/dyld.rs:1776-1803 | The stub calls a newly numbered host function from then on |
| `LazyLinker.Dyld.CreateGuestFunction` | src/dyld.rs:1892-1912 | The new code calls the new function, and all stubs and functions keep their meaning |
| `LazyLinker.Dyld.CxxAbiIntercept` | src/dyld.rs:1917-1934 | Exactly thrown C++ exceptions without a guest runtime are intercepted, always by the same stub, which calls the interceptor |
| `LazyLinker.Dyld.CreateProcAddress` | src/dyld.rs:1857-1886 | The guest address of a symbol's host function calls that function (the stub binder under both of its names, the interceptor for throws without a guest runtime, otherwise what the host exports), is the same every time, and is missing exactly when there is none |
| `LazyLinker.Dyld.DoLazyLink` | src/dyld.rs:1597-1836 | The first call links the stub to the target that has precedence: the first binary that exports the symbol if it is of the C++ ABI and there is a guest runtime for it; the symbol's guest address; an interceptor of throws without that runtime; the first binary that exports it; and, exactly if no binary does, a host function, or the stand-in if there is none of its name; returns a function exactly when one is to be called at once |
| `LazyLinker.Dyld.SymbolOfStub` | src/dyld.rs:1666-1684 | The symbol is that of the stub's entry in the first binary with stubs at its address |
| `LazyLinker.CompilersStubsMatch` | src/dyld.rs:785-812 | The stubs of 12 and 16 bytes that are set up are those whose instructions are the compiler's, which load the pointer behind them and jump to where it leads |
| `LazyLinker.Dyld.GetSvcHandler` | src/dyld.rs:1554-1595 | A linked number gives its function; the lazy numbers link; the rest do nothing |
| `LazyLinker.Dyld.Call` | src/environment.rs:2528-2602 | A first call through a stub and all later ones come to the same: the chosen host function is called and execution goes on at LR, or execution goes on at the target; only the first call changes anything |
| `LazyLinker.OrSetsLowBitsOnly` | src/dyld.rs:1634-1635 | Combining a distance below 1 MiB with the load instruction changes its low 12 bits only |
| `LazyLinker.SectionFits` | src/dyld.rs:1632-1687 | For a section of four-byte stubs at any distance below 1 MiB: no two share code or pointer if and only if the distance is no multiple of 4 or its low 12 bits plus 8 lead past the stubs; 0, for a missing pointer section, included |
| `LazyLinker.SlotIsStub` | src/dyld.rs:1650-1656 | Exactly which stub's code is taken for the pointer of which |
| `LazyLinker.CompilersStub` | src/dyld.rs:445-452 | A stub as the compiler writes it loads its own pointer at all distances from 8 to 0x1007 |
| `LazyLinker.LinkingBreaksOther` | src/dyld.rs:1632-1663 | Linking a stub whose pointer is another one's code makes it lead to its target, and leaves the other stuck unless the target happens to be an instruction that stubs are made of |
| `LazyLinker.PageDistanceBreaks` | src/dyld.rs:1632-1663 | Witness: three working stubs 0x1000 bytes from their pointers; linking the first one breaks the third |
| `LazyLinker.LastPointersAreBehindTheTable` | src/dyld.rs:1668-1672 | Four-byte stub number i uses pointer number i + 2, so that the last two stubs write behind the table |
| `ThumbPatch.Patch` | src/dyld.rs:317-399 | Applied exactly when both code patterns are in the window; then the redirected branch goes to the empty-string block wherever the two are, and no other halfword changes |
| `ThumbPatch.EncodeBranch` | src/dyld.rs:372-377 | A re-encoded branch goes to its target exactly when the distance fits its eleven bits |
| `Abi.Arg.ReadsBack` | src/abi.rs:477-600 | An argument written to registers is read back the same exactly when it fits the guest's types; a list of variable arguments only when it is the empty default |
| `Abi.Arg.RegistersHoldNumber` | src/abi.rs:477-600 | Registers hold an argument's number modulo two to their width: small ones extended by sign or by zeros, 1 for true, the low word of a wide one first |
| `Abi.Arg.ReadsNumber` | src/abi.rs:477-600 | From any registers, what is read is of the argument's type and agrees with them on the bits of that type; only zero is false |
| `Abi.ArgumentsReadBack` | src/abi.rs:378-448 | An argument list read back from its words is the list written exactly when every argument survives |
| `Abi.Guest.WriteNextArg` | src/abi.rs:424-448 | One argument fills its own slots, split between r3 and the stack if need be, and leaves all other slots, registers and memory |
| `Abi.Guest.WriteArgs` | src/abi.rs:244-260 | All words of all arguments are in place, and nothing else has changed |
| `Abi.Guest.ReadArgs` | src/abi.rs:378-399 | Reads exactly what the words in the slots stand for |
| `Abi.Guest.ExtendStackForArgs` | src/abi.rs:407-419 | Makes room for the words beyond the fourth and returns the old stack pointer |
| `Abi.ArgumentsStayInFrame` | src/abi.rs:244-260 | The pointer for the return value is not counted when the stack is extended: marshalling stays below the old stack pointer except exactly when a value of under 4 bytes is returned in memory and there are at least 4 argument words |
| `Abi.Guest.CallFromGuest` | src/abi.rs:126-146 | The host function gets the arguments in place, and may change registers and memory as it likes; the value it returns then goes to the registers or to the caller's memory and nowhere else |
| `Abi.Guest.CallHostFunction` | src/abi.rs:239-271 | Calling a host function, whatever it does to registers and memory, through the convention comes to calling it directly with the same arguments in the extended frame: its value is read back, its changes stay, and the stack pointer is restored |
| `Abi.Guest.CallGuestFunction` | src/abi.rs:277-347 | A guest function is entered with its arguments in place and a proper stack frame, and whatever it does SP, LR, PC and the frame pointer are as before afterwards |
| `LineBreaker.BreakLines` | src/font.rs:349-468 | Ends, and breaks every line of the text into consecutive slices that leave out nothing but white space before word wraps, each cut as well as its mode can; a line without wrapping stays whole. The lines, each with a newline, or a carriage return and a newline, behind it, or the end of the text behind a last one that is not empty, make up the text, and are as many as there are newlines, or one more |
| `LineBreaker.LinesAreUnique` | src/font.rs:357 | No other lines make up the text in this way |
| `LineBreaker.BreakLine` | src/font.rs:362-464 | For one line: the pieces cover it in order, and for a width monotone in prefixes each is well cut: as many words as fit, or as many characters of a word that is too wide; white space is left out exactly before word wraps |
| `LineBreaker.PieceFits` | src/font.rs:410-464 | A well cut piece fits once trimmed, or is a single character |
| `LineBreaker.SlicesWiden` | src/font.rs:400-420 | Trimmed slices widen with their end, so that the binary search applies |
| `LineBreaker.WrapPoints` | src/font.rs:364-394 | The wrap points are exactly the starts of words, or all characters, and the end of the line, in order |
| `LineBreaker.Search` | src/font.rs:413-420 | On widths in order, finds an exact match or the place between those too narrow and those too wide |
| `LineBreaker.Choose` | src/font.rs:410-444 | The chosen wrap point makes a well cut piece; there is none exactly when not even the first one fits |
| `LineBreaker.EmbedWellCut` | src/font.rs:428-441 | The pieces of a word broken by itself are well cut pieces of the line |
| `Adts.RoundTrip` | src/audio.rs:460-472 | For payloads that fit the length field, parsing the concatenated headers and payloads finds the same offsets, sample rate and channel count (ADTS framing, ISO/IEC 14496-3 Subpart 1, Annex 1.A) |
| `Adts.HeaderReadsBack` | src/audio.rs:460-472 | Each header field is read back as written |
| `Adts.HeaderIsAdts` | src/audio.rs:460-472 | The 56 bits of a header are the fields of the standard one after the other: MPEG-4, no checksum, low complexity profile, rate, channels, frame length, full buffer, one block (ISO/IEC 14496-3 Subpart 1, Annex 1.A) |
| `Adts.ParserReadsFields` | src/audio.rs:571-600 | From any header, whatever its other fields are, the parser takes what the standard has in the place of size, rate, channels and length |
| `Adts.PacketHoldsPayload` | src/audio.rs:75-83 | Every packet is found at its offset with its header and payload |
| `Adts.OffsetsTile` | src/audio.rs:563-618 | On any accepted input the offsets tile a prefix of it, one frame after the other |
| `Adts.Parse` | src/audio.rs:563-618 | Accepts exactly inputs with a frame at the start, and keeps exactly the bytes that its offsets tile |
| `Adts.WritePackets` | src/audio.rs:511-524 | Gives up exactly when the rate, the channels or a packet do not fit the header; otherwise writes header and payload of every packet, with their offsets |
| `ModifiedUtf8.ToModifiedUtf8` | src/android_web_view.rs:317-343 | The loop writes the encoding of the string's UTF-16 units |
| `ModifiedUtf8.NoZeroByte` | src/android_web_view.rs:321-323 | No encoding contains a zero byte (section "Modified UTF-8 Strings" in chapter 3 of the JNI Specification) |
| `ModifiedUtf8.DecodeEncoded` | src/android_web_view.rs:317-343 | Decoding an encoding gives back the units |
| `ModifiedUtf8.DecodeString` | src/android_web_view.rs:317-343 | Reading the bytes as code units and those as characters, as the Unicode Standard has it in section 3.9, gives back the string |
| `ModifiedUtf8.UnitSizes` | src/android_web_view.rs:317-343 | Each code unit takes as few bytes as it can, zero two, and the first byte tells how many |
| `ModifiedUtf8.EncodingIsInjective` | src/android_web_view.rs:317-343 | Different strings have different encodings; surrogate pairs never collide with other characters |
| `Corruptor.Pick` | src/corrupt.rs:169-196 | The scan over allocations finds a target for every number below the total |
| `Corruptor.PickIsLive` | src/corrupt.rs:169-196 | The byte picked is live |
| `Corruptor.PickIsInjective` | src/corrupt.rs:169-196 | Different numbers pick different bytes |
| `Corruptor.PickIsSurjective` | src/corrupt.rs:169-196 | Every live byte is picked by some number |
| `Corruptor.BurstsAreRegular` | src/corrupt.rs:134-146 | After n enabled ticks, the number of bursts is n divided by the interval, rounded down |
| `Corruptor.TotalAfterTicks` | src/corrupt.rs:134-211 | With live bytes throughout, the total is the burst size times the number of whole intervals |
| `Corruptor.Engine.Tick` | src/corrupt.rs:134-146 | Counts as specified, and changes live bytes only, in a burst only |
| `Corruptor.Engine.Blast` | src/corrupt.rs:151-211 | One burst makes exactly the writes that the generator's numbers ask for, two numbers for each, on live bytes only, also with a maximal offset, and adds its size to the total when there are live bytes; otherwise nothing changes |
| `Corruptor.BlastWrites` | src/corrupt.rs:169-206 | After a burst, a byte that was hit has the value of the last write that hit it, and all others are as they were |
| `Corruptor.TargetIsPicked` | src/corrupt.rs:169-196 | A number's target is the byte it picks, or, with a maximal offset, one of the first bytes of an allocation; it is always live |
| `Paths.ResolvePath` | src/fs.rs:316-364 | The components are those of the absolute path with empty, `.` and `..` ones applied, and with a doubled sandbox prefix taken off |
| `Paths.DotsInPaths` | src/fs.rs:296-334 | Anywhere in a path, going into a directory and back with `..` leads nowhere else, and `.` and doubled slashes stay where they are |
| `Paths.NothingAboveRoot` | src/fs.rs:296-334 | `..` at the root stays at the root |
| `Paths.RelativeGoesOn` | src/fs.rs:321-333 | A relative path resolves as the path it is relative to, a slash and itself |
| `Paths.DoubledPrefixGoes` | src/fs.rs:336-358 | Of two paths written one behind the other, with the sandbox prefix exactly twice and more than six components, the second one is left |
| `Paths.SinglePrefixStays` | src/fs.rs:336-358 | A path with at most six components or one prefix is left as it is |
| `Paths.ComponentsResolve` | src/fs.rs:296-334 | Normal components resolve to themselves, but for a doubled prefix |
| `Paths.DeduplicationSettles` | src/fs.rs:336-358 | Resolving once more changes nothing exactly when there were no three sandbox markers, or at most six components from the second one on |
| `Paths.TripledPrefixDoesNotSettle` | src/fs.rs:336-358 | A path with the prefix three times over is shortened again each time it is resolved |
| `Paths.SplitJoined` | src/fs.rs:330-333 | Splitting undoes joining |
| `VfsTree.StatPut` | src/fs.rs:1127-1172 | Putting or removing an entry changes what is at its path and below, and nothing else |
| `VfsTree.StatRehosted` | src/fs.rs:156-175 | Updating host paths gives every node of a moved tree exactly the host path its place calls for, unless something on the way there is read-only, and changes nothing else |
| `Volumes.HostPathsJoin` | src/fs.rs:1918-1935 | Whatever can be written to is at the host path of its innermost region with the names from there on; unless it is a region itself, that is its directory's host path joined with its name |
| `Volumes.SharedHostPath` | src/fs.rs:1034-1054 | Two places have the same host path only if they are in two regions one of whose host directories is inside the other's |
| `Volumes.AddingKeepsHost` | src/fs.rs:1918-1940 | A new entry keeps everything shown on the host, exactly unless something of the other kind is left over there |
| `Volumes.RemovingKeepsHost` | src/fs.rs:1790-1841 | So does removing one, exactly unless another place shows it |
| `Volumes.MovingKeepsHost` | src/fs.rs:1448-1477 | So does moving a subtree, exactly if its host directory has all of it and nothing else shows that directory |
| `Volumes.RenamedMoves` | src/fs.rs:1455-1477 | Taking a node out, updating its paths and putting it in elsewhere moves the whole subtree with its shape kept |
| `VfsOutcomes.MoveExactly` | src/fs.rs:1421-1480 | A rename succeeds if and only if what is renamed can be written to and is on the host, the new place is in a directory that can be written to and that the host has, the host has nothing of another kind and nothing with entries in the new place, and nothing is moved into itself, in the tree or on the host; what the tree has in the new place does not matter |
| `VfsOutcomes.RenameReplacesFile` | src/fs.rs:1421-1480 | In step, a file renamed onto another one replaces it, in the tree and on the host, and nothing else changes |
| `VfsOutcomes.RunKeepsTreelike` | src/fs.rs:1421-1940 | Over any run, every entry on the host stays in a directory, as that last result needs |
| `VfsOutcomes.MakeDirExactly` | src/fs.rs:1879-1940 | Each outcome of making a directory, by what is missing, in the way or read-only |
| `VfsOutcomes.MakeFileExactly` | src/fs.rs:1481-1763 | Likewise for opening or creating a file |
| `VfsOutcomes.DeleteExactly` | src/fs.rs:1768-1841 | Likewise for removing |
| `VolumeRuns.StepKeepsTree` | src/fs.rs:1421-1940 | No call, whatever it is, makes the host path of anything writeable differ from what its region calls for |
| `VolumeRuns.StepKeepsStep` | src/fs.rs:1421-1940 | A call keeps everything that the tree shows on the host if and only if it is not one of three named missteps |
| `VolumeRuns.PlainMovesWhole` | src/fs.rs:1448-1472 | A directory all of which is on the host, without regions and read-only files of the host in it, is moved whole |
| `VolumeRuns.PanicsExactly` | src/fs.rs:418-432 | In any state that calls can reach, in step or not, the host refuses in exactly four cases: a file where the host has a directory, a directory to be removed with something left over in it on the host, a directory moved into itself past a region, and an entry or its directory, to be opened, made or removed, that the tree shows and the host does not have any more |
| `VolumeRuns.PanicsInStep` | src/fs.rs:418-432 | In step, the first three are the only ones |
| `VolumeRuns.DirectoryOpenedForWriting` | src/fs.rs:1603-1763 | Opening a directory for writing with creation, where its own directory is on the host, panics exactly if the host has a directory there, as it has for every writeable one that is on the host and no region; otherwise an empty file takes the place of everything in it |
| `VolumeRuns.LeftOversShow` | src/fs.rs:1918-1926 | A directory made where one is left over on the host shows nothing of it, and can be removed again exactly if nothing is in that one |
| `VolumeRuns.RunKeepsStep` | src/fs.rs:1421-1940 | Over any run, tree and host are in step all the time if and only if no call is a misstep |
| `VolumeRegions.StepAtPlace` | src/fs.rs:1421-1940 | For any state and call, exactly which places show something that is on the host afterwards |
| `VolumeRegions.SeparateIsAlone` | src/fs.rs:1790-1841 | In a region whose host directory overlaps no other one's and has no read-only file of the tree in it, no two places show the same, and no deletion is a misstep |
| `VolumeRegions.PlainMoveIsNoMisstep` | src/fs.rs:1448-1477 | Moving something out of such a region, within it or elsewhere, is no misstep if it is on the host and has no region and no read-only file of the host in it |
| `VolumeRegions.SealedStep` | src/fs.rs:1421-1940 | If such a region shows nothing that the host lacks and has no region in it, this stays so with every call elsewhere, missteps included, and with every call inside, into or out of it, except on the region itself or what it is in, for making a directory over a left-over file, and for moving in what is not all on the host or has regions or read-only files of the host in it |
| `VolumeRegions.SealedRun` | src/fs.rs:1421-1940 | Likewise over any run of such calls |
| `VolumeRegions.SealedPanics` | src/fs.rs:418-432 | In such a region calls panic exactly as they do in step, whatever the state of the rest |
| `VfsLayout.StatFromHostDir` | src/fs.rs:82-118 | A directory read from the host shows exactly what the host has in it, each entry under its host path |
| `VfsLayout.ReadHostDir` | src/fs.rs:82-118 | So does reading one in any order of its entries |
| `VfsLayout.LayoutIsInStep` | src/fs.rs:1013-1054 | The filesystem that an app starts with is in step: `/` on the host with read-only directories in it, the app's directory on the host with three regions and the read-only bundle in it, the library in two places |
| `VfsLayout.LayoutShows` | src/fs.rs:870-1054 | What every path leads to at the start: the emulator's libraries, the app's directory with bundle, documents, library and `tmp`, the library once more, and else what the host has for the root |
| `VfsLayout.LibraryIsInTwoPlaces` | src/fs.rs:980-994 | Both places show the same, so that what is removed in one is still shown in the other |
| `VfsLayout.SecondDeletionPanics` | src/fs.rs:980-994 | Witness: a file of the library deleted by way of one place and then of the other ends the emulator, with nothing left over on the host |
| `VfsLayout.DocumentsAreSealed` | src/fs.rs:1013-1054 | The documents of an app are such a region at the start, if no file of the bundle is in their host directory |
| `VfsLayout.DocumentsStayInStep` | src/fs.rs:1421-1940 | So over any run of such calls from the start, whatever happens to the library, all documents that are shown are on the host, and calls on them panic as in step |
| `VfsLayout.VarGivesWay` | src/fs.rs:1603-1763 | Witness: opening `/var` for writing puts an empty file in its place, and the app's home directory is gone |
| `VfsLayout.LeftOverDirectoryPanics` | src/fs.rs:1918-1926 | Witness: a directory left over in the app's directory, made anew and then removed, ends the emulator |
| `VfsLayout.MovedHomeLosesDocuments` | src/fs.rs:1421-1480 | Witness: renaming the app's directory succeeds, but its documents are not where the tree says afterwards |
| `VfsLayout.TmpCanBeRemoved` | src/fs.rs:1768-1841 | The empty `tmp`, although a region, can be removed |
| `Vfs.Fs.CreateDir` | src/fs.rs:1879-1940 | Each error exactly in its case and without any change; otherwise one new directory at its directory's host path joined with its name, reusing one that the host has; panics exactly if the host has not its directory any more; on success exactly which places are on the host, so that in step it never panics and stays in step exactly if no file is left over there |
| `Vfs.Fs.CreateDirAll` | src/fs.rs:1844-1876 | On a path that resolves to itself: nothing changes when all is there; below a file or a read-only directory it fails without any change; otherwise exactly the missing prefixes of the path appear as directories, each at its place on the host, unless the host has not the directory they go into any more or has a file where one of those that others go into belongs, which panics |
| `Vfs.Fs.CreateFile` | src/fs.rs:1481-1763 | Opens what can be written to; in a writeable directory creates a file in place of whatever is there; refuses the rest; panics exactly where the host has a directory, or has not the file or its directory any more; on success exactly which places are on the host; in step, stays so |
| `Vfs.Fs.Remove` | src/fs.rs:1768-1841 | Each error exactly in its case; otherwise a file or a directory that shows nothing goes from tree and host alike; panics exactly when the host has something left over in it or has it not any more; on success exactly which places are on the host, so that in step it stays in step exactly if no other place shows it |
| `Vfs.Fs.Rename` | src/fs.rs:1421-1480 | Succeeds exactly as `VfsOutcomes.MoveExactly` says; then the subtree is at the new path in place of what was there, nothing at the old one, everything else as it was, on the host as well, with all that is not shown; panics exactly when a directory is moved into itself past a region, in step or not; on success exactly which places are on the host |
| `Vfs.Fs.Perform` | src/fs.rs:1421-1940 | Over any run of these calls until one panics, the tree and the host are those of the run of steps; host paths stay what the regions call for, and tree and host stay in step exactly if no call is a misstep; sealed regions stay sealed as in `VolumeRegions.SealedRun` |
| `VfsLookup.ResolveCaseInsensitivePath` | src/fs.rs:1185-1206 | Unless something on the way has the sandbox prefix in its path twice, the result is an absolute path in the tree's spelling that resolves to an entry matching the request up to case; without clashes there is a result exactly when such an entry exists |
| `VfsNames.RunsKeepNames` | src/fs.rs:1421-1940 | Over any run of calls on resolved paths, all names in the tree are such as a path can have, which lookups rely on |
| `VfsNames.LayoutHasNormalNames` | src/fs.rs:1013-1054 | They are at the start, if those on the host and in the bundle are |
| `VfsNames.CallsKeepMarkers` | src/fs.rs:336-358 | A successful call keeps the tree free of paths with a doubled prefix if and only if it makes none: for what it makes, or for anything below what it renames |
| `VfsNames.RunsKeepMarkers` | src/fs.rs:336-358 | Over any run, the tree is free of them all the time if and only if no call makes one |
| `VfsNames.RenameMakesNestedMarker` | src/fs.rs:1421-1480 | Witness: a documents directory with `mobile/Applications` in it, renamed to `var`, makes one |
| `VfsLookup.EnumerateRecursive` | src/fs.rs:1342-1372 | For any order of children, lists every entry below a directory exactly once and ends; there is always one iterator more than components |
| `VfsLookup.RelativeLeadsThere` | src/fs.rs:1358-1359 | The reported path of an entry, behind the directory's own path and a slash, is the entry's path |
| `VfsLookup.RelativePathsDiffer` | src/fs.rs:1358-1359 | Different entries are reported under different paths |

## Left out

- Coroutine stacks, unwinding and swapping of environments, and yielding without a coroutine: a yield is one step.
- The debugger, and threads that wait for it.
- Named semaphores, and `sem_getvalue`.
- The width of semaphore values and lock counts: they are unbounded.
- Statically initialised mutexes and condition variables: registering one is the step that sets it up.
- Environment.Environment.CondWaitStart: fails without any change for a condition variable that has been destroyed, because one that is in no table counts as unknown; in the emulator its magic number stays in place, and waiting for it, signalling it or destroying it again ends the emulator, for a wait after the mutex has been unlocked.
- Waking threads by overwriting their state from other frameworks.
- ThreadInvariants.StepKeepsConsistent: says nothing about runs after a misuse, because the machine has no meaning for lookups that fail.
- ThreadSwitch.Machine.Run: the scheduler may answer with any active thread; which one it does is proved in `Environment`.
- Abi.Guest.CallGuestFunction: says nothing about what the guest function computes, because that is guest code.
- Variable arguments read by a host function one at a time; they are read as any other argument.
- LazyLinker.Dyld.SetupLazyLinking: requires that no two stubs share code or a pointer, because linking one of them would break the other; for four-byte stubs `LazyLinker.SectionFits` says exactly when that is, and `LazyLinker.LinkingBreaksOther` what happens otherwise.
- LazyLinker.RestoredStub1: distances of 1 MiB and more, where the "or" changes the instruction itself.
- Linking of constants, classes, vtables and Swift symbols, and instruction cache invalidation.
- ThumbPatch.Patch: addresses are halfword indices, so that no overflow of 32-bit addresses is modelled.
- Rounding of floating point numbers in the clock and in font metrics.
- LineBreaker.Search: is specified by what any binary search gives, because which of several equal widths is found is up to the library.
- LineBreaker.BreakLine: for a width that is not monotone only covers the line; how well it is cut then depends on the search. Lines are indexed by characters, not bytes.
- The tables that map glyphs to names.
- Parsing of CAF chunks and of packet sizes, and other audio formats.
- The generator behind the byte picker: its output is any function of its state.
- Vfs.Fs.CreateFile: file contents, truncation and file handles, and other combinations of the options.
- Vfs.Fs.Perform: says nothing about the state after a panic, because the emulator has ended.
- Vfs.Fs.CreateDirAll: on a path that does not resolve to itself, only that it is a run of directories made and so nothing is changed or removed, because the directories then end up elsewhere.
- Tree nodes are values, so that sharing of nodes cannot be expressed.
- Names with a path separator of another host system, which end the emulator.
- VfsLayout.LayoutIsInStep: requires that the host's directory for `/` is clean of `var` and `usr`, because the emulator does not start otherwise.
- Archives (whose files are told by resource names), copy-on-write, symbolic links, pipes and the random device.
- Case folding is any function of a name.
- Graphics, windows, images, options, logging, crash handling and game-specific workarounds.
