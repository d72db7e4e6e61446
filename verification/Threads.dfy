/** Green threads and what they wait for, as a state machine: every step that the guest's calls and
    the scheduler can take, and the state each one leads to. */
module Threads {
  import opened Common
  import opened GuestClock

  // ----- State -----

  /** What a thread is blocked by. Times are host times, except a `GuestSleeping` one (game time)
      and the deadline of a `Condition` (the host's wall clock). */
  datatype Block =
    | NotBlocked
    | Sleeping(until: real)
    | GuestSleeping(due: real)
    | Mutex(mutex: nat)
    | Semaphore(sem: nat)
    | Condition(cond: nat, deadline: Option<real>)
    | Joining(joinee: nat, ptr: nat)
    | Suspended(count: nat, previous: Block)
  {
    /** What the thread waits for once it is not suspended. */
    function Underneath(): Block {
      if Suspended? then previous else this
    }

    predicate WellFormed() {
      Suspended? ==> count > 0 && !previous.Suspended?
    }
  }

  /** The wait on a condition variable that a thread is in the middle of. */
  datatype Call = Call(cond: nat, mutex: nat, timed: bool)

  datatype Thread = Thread(active: bool, blockedBy: Block, returnValue: Option<nat>, call: Option<Call>)

  datatype MutexKind = Plain | ErrorCheck | Recursive

  datatype Hold = Hold(owner: nat, count: nat)

  datatype HostMutex = HostMutex(kind: MutexKind, waitingCount: nat, held: Option<Hold>, phantom: map<nat, nat>)

  datatype HostSemaphore = HostSemaphore(value: int, waiting: set<nat>)

  datatype HostCond = HostCond(waiting: seq<nat>, waking: seq<nat>, mutex: Option<nat>, timedOut: set<nat>) {
    /** Everyone waiting, in the order in which they may leave. */
    function Queue(): seq<nat> {
      waking + waiting
    }
  }

  datatype World = World(
    threads: seq<Thread>, current: nat,
    mutexes: map<nat, HostMutex>, semaphores: map<nat, HostSemaphore>, conds: map<nat, HostCond>,
    memory: map<nat, nat>, clock: Anchor, now: real, wallOffset: real)
  {
    predicate IsActive(t: int) {
      0 <= t < |threads| && threads[t].active
    }

    function Waits(t: nat): Block
      requires t < |threads|
    {
      threads[t].blockedBy.Underneath()
    }

    predicate Locked(m: nat) {
      m in mutexes && mutexes[m].held.Some?
    }

    /** The thread that runs guest code, outside of any condition wait. */
    predicate Running() {
      IsActive(current) && threads[current].blockedBy == NotBlocked && threads[current].call == None
    }

    function Blocked(t: nat, b: Block): World
      requires t < |threads|
    {
      this.(threads := threads[t := threads[t].(blockedBy := b)])
    }

    function Relocked(t: nat, m: nat): World
      requires m in mutexes
    {
      var mutex := mutexes[m];
      var rest := if mutex.waitingCount > 0 then mutex.waitingCount - 1 else 0;
      this.(mutexes := mutexes[m := mutex.(held := Some(Hold(t, 1)), waitingCount := rest)])
    }
  }

  function Without(s: seq<nat>, t: nat): (r: seq<nat>)
    ensures t !in r
    ensures forall u :: u in r <==> u in s && u != t
    ensures t !in s ==> r == s
  {
    if s == [] then [] else Without(s[..|s| - 1], t) + if s[|s| - 1] == t then [] else [s[|s| - 1]]
  }

  // ----- Waking up -----

  /** Nothing the scheduler looks up for the thread is missing. */
  predicate Sound(w: World, t: nat)
    requires t < |w.threads|
  {
    match w.threads[t].blockedBy
    case Mutex(m) => m in w.mutexes
    case Condition(c, _) =>
      && c in w.conds && w.conds[c].mutex.Some? && w.conds[c].mutex.value in w.mutexes
      && t !in w.conds[c].timedOut
    case Joining(j, _) => j < |w.threads|
    case Suspended(count, _) => count > 0
    case _ => true
  }

  predicate MutexIsFree(w: World, t: nat)
    requires t < |w.threads| && Sound(w, t) && w.threads[t].blockedBy.Condition?
  {
    !w.Locked(w.conds[w.threads[t].blockedBy.cond].mutex.value)
  }

  predicate IsSignalled(w: World, t: nat)
    requires t < |w.threads| && Sound(w, t) && w.threads[t].blockedBy.Condition?
  {
    var waking := w.conds[w.threads[t].blockedBy.cond].waking;
    waking != [] && waking[0] == t
  }

  /** A reason to wake up other than the passing of time. */
  predicate ReadyAnyway(w: World, t: nat)
    requires t < |w.threads| && Sound(w, t)
  {
    match w.threads[t].blockedBy
    case NotBlocked => true
    case Mutex(m) => !w.Locked(m)
    case Semaphore(s) => s !in w.semaphores || w.semaphores[s].value > 0
    case Condition(_, _) => IsSignalled(w, t) && MutexIsFree(w, t)
    case Joining(j, _) => !w.threads[j].active
    case _ => false
  }

  /** The time a thread sleeps until, or until which it waits, has come. */
  predicate IsDue(w: World, t: nat)
    requires t < |w.threads|
  {
    match w.threads[t].blockedBy
    case Sleeping(until) => until <= w.now
    case GuestSleeping(due) => due <= w.clock.GuestAt(w.now)
    case Condition(_, Some(deadline)) => deadline <= w.now + w.wallOffset
    case _ => false
  }

  /** The thread can run now. */
  predicate Ready(w: World, t: nat)
    requires t < |w.threads| && Sound(w, t)
  {
    ReadyAnyway(w, t) || (IsDue(w, t) && (w.threads[t].blockedBy.Condition? ==> MutexIsFree(w, t)))
  }

  /** The thread's wait is over, but it still has to get its mutex. */
  predicate Expired(w: World, t: nat)
    requires t < |w.threads| && Sound(w, t)
  {
    IsDue(w, t) && w.threads[t].blockedBy.Condition? && !MutexIsFree(w, t)
  }

  /** The condition variable without `t`, whose time is up. */
  function TimedOutCond(c: HostCond, t: nat): HostCond {
    c.(timedOut := c.timedOut + {t}, waking := Without(c.waking, t), waiting := Without(c.waiting, t))
  }

  function Woken(w: World, t: nat): World
    requires t < |w.threads| && Sound(w, t) && Ready(w, t)
  {
    var awake := w.Blocked(t, NotBlocked);
    match w.threads[t].blockedBy
    case Mutex(m) => awake.Relocked(t, m)
    case Semaphore(s) =>
      if s !in w.semaphores then awake
      else
        var sem := w.semaphores[s];
        awake.(semaphores := w.semaphores[s := HostSemaphore(sem.value - 1, sem.waiting - {t})])
    case Condition(c, _) =>
      var cond := w.conds[c];
      var cond' := if IsSignalled(w, t) then cond.(waking := cond.waking[1..]) else TimedOutCond(cond, t);
      awake.(conds := w.conds[c := cond']).Relocked(t, cond.mutex.value)
    case Joining(j, ptr) =>
      if ptr == 0 then awake
      else
        var value := match w.threads[j].returnValue case Some(rv) => rv case None => 0;
        awake.(memory := w.memory[ptr := value])
    case _ => awake
  }

  function TimedOut(w: World, t: nat): World
    requires t < |w.threads| && Sound(w, t) && Expired(w, t)
  {
    var c := w.threads[t].blockedBy.cond;
    var cond := w.conds[c];
    w.Blocked(t, Mutex(cond.mutex.value)).(conds := w.conds[c := TimedOutCond(cond, t)])
  }

  // ----- Mutexes -----

  /** What unlocking does: nothing at all when it fails. */
  function Unlocked(m: HostMutex, t: nat): Option<HostMutex> {
    if t in m.phantom && m.phantom[t] > 0 then
      Some(m.(phantom := if m.phantom[t] == 1 then m.phantom - {t} else m.phantom[t := m.phantom[t] - 1]))
    else if m.held == None || (m.held.value.owner != t && m.kind != Plain) then
      None
    else if m.held.value.count <= 1 then
      Some(m.(held := None))
    else
      Some(m.(held := Some(Hold(m.held.value.owner, m.held.value.count - 1))))
  }

  function LockedBy(w: World, t: nat, m: nat): World
    requires t < |w.threads| && m in w.mutexes
  {
    var mutex := w.mutexes[m];
    match mutex.held
    case None => w.(mutexes := w.mutexes[m := mutex.(held := Some(Hold(t, 1)))])
    case Some(hold) =>
      if hold.owner != t then
        w.Blocked(t, Mutex(m)).(mutexes := w.mutexes[m := mutex.(waitingCount := mutex.waitingCount + 1)])
      else
        match mutex.kind
        case Plain =>
          var n := if t in mutex.phantom then mutex.phantom[t] else 0;
          w.(mutexes := w.mutexes[m := mutex.(phantom := mutex.phantom[t := n + 1])])
        case ErrorCheck => w
        case Recursive => w.(mutexes := w.mutexes[m := mutex.(held := Some(Hold(t, hold.count + 1)))])
  }

  // ----- Semaphores -----

  function Posted(w: World, s: nat): World {
    if s !in w.semaphores then w
    else w.(semaphores := w.semaphores[s := w.semaphores[s].(value := w.semaphores[s].value + 1)])
  }

  /** A semaphore is taken at once if it can be; otherwise its taker waits, or gives up. */
  function Taken(w: World, t: nat, s: nat, blocking: bool): World
    requires t < |w.threads|
  {
    if s !in w.semaphores then w
    else
      var sem := w.semaphores[s];
      if sem.value > 0 then w.(semaphores := w.semaphores[s := sem.(value := sem.value - 1)])
      else if !blocking then w
      else w.Blocked(t, Semaphore(s)).(semaphores := w.semaphores[s := sem.(waiting := sem.waiting + {t})])
  }

  // ----- Condition variables -----

  /** Waiting gives the mutex back; without it, or without the condition variable, nothing happens. */
  predicate CanWait(w: World, c: nat, m: nat) {
    c in w.conds && m in w.mutexes && Unlocked(w.mutexes[m], w.current).Some?
  }

  function CondWaited(w: World, c: nat, m: nat, deadline: Option<real>): World
    requires w.current < |w.threads| && CanWait(w, c, m)
  {
    var t, cond := w.current, w.conds[c];
    var thread := w.threads[t].(blockedBy := Condition(c, deadline), call := Some(Call(c, m, deadline.Some?)));
    w.(threads := w.threads[t := thread],
       mutexes := w.mutexes[m := Unlocked(w.mutexes[m], t).value],
       conds := w.conds[c := cond.(mutex := Some(m), waiting := cond.waiting + [t])])
  }

  function Signalled(w: World, c: nat): World {
    if c !in w.conds || w.conds[c].waiting == [] then w
    else
      var cond := w.conds[c];
      w.(conds := w.conds[c := cond.(waiting := cond.waiting[1..], waking := cond.waking + [cond.waiting[0]])])
  }

  function Broadcast(w: World, c: nat): World {
    if c !in w.conds then w
    else w.(conds := w.conds[c := w.conds[c].(waiting := [], waking := w.conds[c].Queue())])
  }

  /** The end of a condition wait, on the thread that waited. */
  function WaitFinished(w: World): World
    requires w.current < |w.threads| && w.threads[w.current].call.Some?
    requires w.threads[w.current].call.value.cond in w.conds
  {
    var t := w.current;
    var c := w.threads[t].call.value.cond;
    w.(threads := w.threads[t := w.threads[t].(call := None)],
       conds := w.conds[c := w.conds[c].(timedOut := w.conds[c].timedOut - {t})])
  }

  // ----- Suspension -----

  function SuspendedOnce(b: Block): Block {
    match b
    case Suspended(count, previous) => Suspended(count + 1, previous)
    case _ => Suspended(1, b)
  }

  function ResumedOnce(b: Block): Block
    requires b.WellFormed()
  {
    match b
    case Suspended(count, previous) => if count > 1 then Suspended(count - 1, previous) else previous
    case _ => b
  }

  // ----- Steps -----

  datatype Event =
    // The scheduler's, and the run loop's
    | Tick(at: real)
    | Wake(thread: nat)
    | TimeOut(thread: nat)
    | Dispatch(thread: nat)
    | SetSpeed(speed: Speed)
    // The current thread's
    | Yield(block: Block)
    | MutexInit(mutex: nat, kind: MutexKind)
    | MutexDestroy(mutex: nat)
    | Lock(mutex: nat)
    | Unlock(mutex: nat)
    | SemInit(sem: nat, value: int)
    | SemDestroy(sem: nat)
    | SemPost(sem: nat)
    | SemWait(sem: nat, blocking: bool)
    | CondInit(cond: nat)
    | CondDestroy(cond: nat)
    | CondWait(cond: nat, mutex: nat, deadline: Option<real>)
    | CondSignal(cond: nat)
    | CondBroadcast(cond: nat)
    | CondFinish
    | Suspend(thread: nat)
    | Resume(thread: nat)
    | Create
    | Exit(result: Option<nat>)
  {
    predicate IsScheduling() {
      Tick? || Wake? || TimeOut? || Dispatch? || SetSpeed?
    }
  }

  /** Whether the step can be taken: who may take it, and what its callers must see to. */
  predicate Enabled(w: World, e: Event) {
    && (!e.IsScheduling() && !e.CondFinish? ==> w.Running())
    && match e
       case Tick(at) => w.now <= at
       case Wake(t) => w.IsActive(t) && Sound(w, t) && Ready(w, t)
       case TimeOut(t) => w.IsActive(t) && Sound(w, t) && Expired(w, t)
       case Dispatch(t) => w.IsActive(t) && w.threads[t].blockedBy == NotBlocked
       case Yield(b) => b.NotBlocked? || b.Sleeping? || b.GuestSleeping? || (b.Joining? && b.joinee < |w.threads|)
       case MutexInit(m, _) => m !in w.mutexes
       case MutexDestroy(m) => m in w.mutexes
       case Lock(m) => m in w.mutexes
       case Unlock(m) => m in w.mutexes
       case CondDestroy(c) => c in w.conds ==> w.conds[c].Queue() == []
       case CondWait(c, m, _) => CanWait(w, c, m) ==> w.conds[c].mutex == Some(m) || w.conds[c].Queue() == []
       case CondFinish =>
         && w.IsActive(w.current) && w.threads[w.current].blockedBy == NotBlocked && w.threads[w.current].call.Some?
         && w.threads[w.current].call.value.cond in w.conds
         && (!w.threads[w.current].call.value.timed ==>
               w.current !in w.conds[w.threads[w.current].call.value.cond].timedOut)
       case Suspend(t) => t < |w.threads|
       case Resume(t) => t < |w.threads| && w.threads[t].blockedBy.WellFormed()
       case _ => true
  }

  function Apply(w: World, e: Event): World
    requires Enabled(w, e)
  {
    match e
    case Tick(at) => w.(now := at)
    case Wake(t) => Woken(w, t)
    case TimeOut(t) => TimedOut(w, t)
    case Dispatch(t) => w.(current := t)
    case SetSpeed(speed) => w.(clock := w.clock.Rebased(speed, w.now))
    case Yield(b) => w.Blocked(w.current, b)
    case MutexInit(m, kind) => w.(mutexes := w.mutexes[m := HostMutex(kind, 0, None, map[])])
    case MutexDestroy(m) =>
      if w.Locked(m) || w.mutexes[m].waitingCount != 0 then w else w.(mutexes := w.mutexes - {m})
    case Lock(m) => LockedBy(w, w.current, m)
    case Unlock(m) =>
      (match Unlocked(w.mutexes[m], w.current)
       case Some(mutex) => w.(mutexes := w.mutexes[m := mutex])
       case None => w)
    case SemInit(s, value) =>
      if s in w.semaphores then w else w.(semaphores := w.semaphores[s := HostSemaphore(value, {})])
    case SemDestroy(s) => w.(semaphores := w.semaphores - {s})
    case SemPost(s) => Posted(w, s)
    case SemWait(s, blocking) => Taken(w, w.current, s, blocking)
    case CondInit(c) => w.(conds := w.conds[c := HostCond([], [], None, {})])
    case CondDestroy(c) => w.(conds := w.conds - {c})
    case CondWait(c, m, deadline) => if CanWait(w, c, m) then CondWaited(w, c, m, deadline) else w
    case CondSignal(c) => Signalled(w, c)
    case CondBroadcast(c) => Broadcast(w, c)
    case CondFinish => WaitFinished(w)
    case Suspend(t) => w.Blocked(t, SuspendedOnce(w.threads[t].blockedBy))
    case Resume(t) => w.Blocked(t, ResumedOnce(w.threads[t].blockedBy))
    case Create => w.(threads := w.threads + [Thread(true, NotBlocked, None, None)])
    case Exit(result) =>
      w.(threads := w.threads[w.current := w.threads[w.current].(active := false, returnValue := result)])
  }

  // ----- Runs -----

  ghost predicate IsRun(w: World, events: seq<Event>)
    decreases |events|, 0
  {
    events == [] ||
    (IsRun(w, events[..|events| - 1]) && Enabled(After(w, events[..|events| - 1]), events[|events| - 1]))
  }

  ghost function After(w: World, events: seq<Event>): World
    requires IsRun(w, events)
    decreases |events|, 1
  {
    if events == [] then w else Apply(After(w, events[..|events| - 1]), events[|events| - 1])
  }

  lemma RunStep(w: World, events: seq<Event>, e: Event)
    requires IsRun(w, events) && Enabled(After(w, events), e)
    ensures IsRun(w, events + [e]) && After(w, events + [e]) == Apply(After(w, events), e)
  {
    hide Enabled, Apply;
    assert (events + [e])[..|events|] == events;
  }

  lemma {:induction false} RunsJoin(w: World, front: seq<Event>, back: seq<Event>)
    requires IsRun(w, front) && IsRun(After(w, front), back)
    ensures IsRun(w, front + back) && After(w, front + back) == After(After(w, front), back)
  {
    hide Enabled, Apply;
    if back == [] {
      assert front + back == front;
    } else {
      var init := back[..|back| - 1];
      RunsJoin(w, front, init);
      assert (front + back)[..|front + back| - 1] == front + init;
    }
  }

  /** A run given from its front. */
  lemma RunFromFront(w: World, e: Event, rest: seq<Event>)
    requires Enabled(w, e) && IsRun(Apply(w, e), rest)
    ensures IsRun(w, [e] + rest) && After(w, [e] + rest) == After(Apply(w, e), rest)
  {
    hide Enabled, Apply;
    assert [e][..0] == [];
    RunsJoin(w, [e], rest);
  }
}
