/** Runs in which a mutex or a condition variable is destroyed although a thread still needs it. */
module DestroyWitnesses {
  import opened Common
  import GuestClock
  import opened Threads
  import opened ThreadInvariants
  import opened ThreadRuns
  import opened DestroyChecks

  const START := GuestClock.Anchor(0.0, 0.0, 0.0, GuestClock.Normal)

  function Start(): World {
    Initial(START, 0.0, 0.0)
  }

  const IDLE := Thread(true, NotBlocked, None, None)
  const FREE := HostMutex(Plain, 0, None, map[])
  const NOBODY := HostCond([], [], None, {})

  /** One mutex and one condition variable, both number 0. */
  function Scene(threads: seq<Thread>, current: nat, mutex: HostMutex, cond: HostCond): World {
    World(threads, current, map[0 := mutex], map[], map[0 := cond], map[], START, 0.0, 0.0)
  }

  predicate IsIdle(threads: seq<Thread>, t: nat) {
    t < |threads| && threads[t] == IDLE
  }

  // ----- Single steps -----

  lemma Replacing<T>(x: T, y: T)
    ensures (map[0 := x])[0 := y] == map[0 := y]
  {
  }

  lemma Creating(threads: seq<Thread>, t: nat, mutex: HostMutex, cond: HostCond)
    requires IsIdle(threads, t)
    ensures IsStep(Scene(threads, t, mutex, cond), Create, Scene(threads + [IDLE], t, mutex, cond))
  {
  }

  lemma Dispatching(threads: seq<Thread>, current: nat, mutex: HostMutex, cond: HostCond, t: nat)
    requires t < |threads| && threads[t].active && threads[t].blockedBy == NotBlocked
    ensures IsStep(Scene(threads, current, mutex, cond), Dispatch(t), Scene(threads, t, mutex, cond))
  {
  }

  lemma Locking(threads: seq<Thread>, t: nat, mutex: HostMutex, cond: HostCond)
    requires IsIdle(threads, t) && mutex.held == None
    ensures IsStep(Scene(threads, t, mutex, cond), Lock(0), Scene(threads, t, mutex.(held := Some(Hold(t, 1))), cond))
  {
    Replacing(mutex, mutex.(held := Some(Hold(t, 1))));
  }

  lemma LockingInVain(threads: seq<Thread>, t: nat, mutex: HostMutex, cond: HostCond)
    requires IsIdle(threads, t) && mutex.held.Some? && mutex.held.value.owner != t
    ensures IsStep(Scene(threads, t, mutex, cond), Lock(0),
                   Scene(threads[t := IDLE.(blockedBy := Mutex(0))], t, mutex.(waitingCount := mutex.waitingCount + 1), cond))
  {
    Replacing(mutex, mutex.(waitingCount := mutex.waitingCount + 1));
  }

  lemma Unlocking(threads: seq<Thread>, t: nat, mutex: HostMutex, cond: HostCond)
    requires IsIdle(threads, t) && mutex.held == Some(Hold(t, 1)) && mutex.phantom == map[]
    ensures IsStep(Scene(threads, t, mutex, cond), Unlock(0), Scene(threads, t, mutex.(held := None), cond))
  {
    Replacing(mutex, mutex.(held := None));
  }

  function Waiter(deadline: Option<real>): Thread {
    Thread(true, Condition(0, deadline), None, Some(Call(0, 0, deadline.Some?)))
  }

  lemma Waiting(threads: seq<Thread>, t: nat, mutex: HostMutex, deadline: Option<real>)
    requires IsIdle(threads, t) && mutex.held == Some(Hold(t, 1)) && mutex.phantom == map[]
    ensures IsStep(Scene(threads, t, mutex, NOBODY), CondWait(0, 0, deadline),
                   Scene(threads[t := Waiter(deadline)], t, mutex.(held := None), HostCond([t], [], Some(0), {})))
  {
    Replacing(mutex, mutex.(held := None));
    Replacing(NOBODY, HostCond([t], [], Some(0), {}));
    assert [] + [t] == [t];
  }

  lemma Signalling(threads: seq<Thread>, t: nat, mutex: HostMutex, waiter: nat)
    requires IsIdle(threads, t)
    ensures IsStep(Scene(threads, t, mutex, HostCond([waiter], [], Some(0), {})), CondSignal(0),
                   Scene(threads, t, mutex, HostCond([], [waiter], Some(0), {})))
  {
    Replacing(HostCond([waiter], [], Some(0), {}), HostCond([], [waiter], Some(0), {}));
    assert [waiter][1..] == [] && [] + [waiter] == [waiter];
  }

  lemma WakingSignalled(threads: seq<Thread>, current: nat, mutex: HostMutex, t: nat)
    requires t < |threads| && threads[t] == Waiter(None) && mutex.held == None && mutex.waitingCount == 1
    ensures IsStep(Scene(threads, current, mutex, HostCond([], [t], Some(0), {})), Wake(t),
                   Scene(threads[t := Waiter(None).(blockedBy := NotBlocked)], current,
                         mutex.(held := Some(Hold(t, 1)), waitingCount := 0), HostCond([], [], Some(0), {})))
  {
    hide Without;
    Replacing(HostCond([], [t], Some(0), {}), HostCond([], [], Some(0), {}));
    Replacing(mutex, mutex.(held := Some(Hold(t, 1)), waitingCount := 0));
    assert [t][1..] == [];
  }

  lemma TimingOut(threads: seq<Thread>, current: nat, mutex: HostMutex, t: nat)
    requires t < |threads| && threads[t] == Waiter(Some(0.0)) && mutex.held.Some?
    ensures IsStep(Scene(threads, current, mutex, HostCond([t], [], Some(0), {})), TimeOut(t),
                   Scene(threads[t := Waiter(Some(0.0)).(blockedBy := Mutex(0))], current, mutex, HostCond([], [],
                       Some(0), {t})))
  {
    Replacing(HostCond([t], [], Some(0), {}), HostCond([], [], Some(0), {t}));
    assert [t] == [] + [t];
    WithoutLast([], t, t);
    NothingWithout(t);
    assert {} + {t} == {t};
  }

  lemma Finishing(threads: seq<Thread>, t: nat, mutex: HostMutex)
    requires t < |threads| && threads[t] == Waiter(None).(blockedBy := NotBlocked)
    ensures IsStep(Scene(threads, t, mutex, HostCond([], [], Some(0), {})), CondFinish,
                   Scene(threads[t := IDLE], t, mutex, HostCond([], [], Some(0), {})))
  {
    Replacing(HostCond([], [], Some(0), {}), HostCond([], [], Some(0), {}));
    var none: set<nat> := {};
    assert none - {t} == none;
  }

  // ----- Building a run -----

  ghost predicate Leads(events: seq<Event>, w: World) {
    IsRun(Start(), events) && IsClean(Start(), events) && After(Start(), events) == w
  }

  lemma Onward(events: seq<Event>, w: World, e: Event, w': World)
    requires Leads(events, w) && IsStep(w, e, w') && !e.SemInit? && !e.CondInit? && !e.CondDestroy? && !e.MutexDestroy?
    ensures Leads(events + [e], w')
  {
    hide Enabled, Apply;
    RunStep(Start(), events, e);
    assert (events + [e])[..|events|] == events;
  }

  lemma Opening()
    ensures Leads([MutexInit(0, Plain), CondInit(0)], Scene([IDLE], 0, FREE, NOBODY))
  {
    var w := Start();
    BothSetUp(w, 0, 0);
    var e1, e2 := MutexInit(0, Plain), CondInit(0);
    NoEvents(w);
    Onward([], w, e1, Apply(w, e1));
    assert [] + [e1] == [e1] && [e1] + [e2] == [e1, e2];
    RunStep(w, [e1], e2);
    assert [e1, e2][..1] == [e1];
  }

  /** The main thread starts another one, which locks the mutex and waits with it. */
  function OneWaits(deadline: Option<real>): seq<Event> {
    [MutexInit(0, Plain), CondInit(0)] + [Create] + [Dispatch(1)] + [Lock(0)] + [CondWait(0, 0, deadline)] + [Dispatch(0)]
  }

  lemma OneIsWaiting(deadline: Option<real>)
    ensures Leads(OneWaits(deadline), Scene([IDLE, Waiter(deadline)], 0, FREE, HostCond([1], [], Some(0), {})))
  {
    hide IsStep, Leads;
    Opening();
    var two := [IDLE] + [IDLE];
    Creating([IDLE], 0, FREE, NOBODY);
    Dispatching(two, 0, FREE, NOBODY, 1);
    Locking(two, 1, FREE, NOBODY);
    var taken := FREE.(held := Some(Hold(1, 1)));
    Waiting(two, 1, taken, deadline);
    assert two[1 := Waiter(deadline)] == [IDLE, Waiter(deadline)];
    Dispatching([IDLE, Waiter(deadline)], 1, FREE, HostCond([1], [], Some(0), {}), 0);
    var es := [MutexInit(0, Plain), CondInit(0)];
    Onward(es, Scene([IDLE], 0, FREE, NOBODY), Create, Scene(two, 0, FREE, NOBODY));
    es := es + [Create];
    Onward(es, Scene(two, 0, FREE, NOBODY), Dispatch(1), Scene(two, 1, FREE, NOBODY));
    es := es + [Dispatch(1)];
    Onward(es, Scene(two, 1, FREE, NOBODY), Lock(0), Scene(two, 1, taken, NOBODY));
    es := es + [Lock(0)];
    var waiting := HostCond([1], [], Some(0), {});
    Onward(es, Scene(two, 1, taken, NOBODY), CondWait(0, 0, deadline), Scene([IDLE, Waiter(deadline)], 1, FREE, waiting));
    es := es + [CondWait(0, 0, deadline)];
    Onward(es, Scene([IDLE, Waiter(deadline)], 1, FREE, waiting), Dispatch(0), Scene([IDLE, Waiter(deadline)], 0,
        FREE, waiting));
  }

  /** While a thread waits on a condition variable, the mutex that it gave back can be destroyed. The scheduler then looks
      in vain for it. */
  lemma WaitersMutexIsDestroyed()
    ensures IsRun(Start(), OneWaits(None)) && IsClean(Start(), OneWaits(None))
    ensures var v := After(Start(), OneWaits(None));
            && Enabled(v, MutexDestroy(0)) && Misuse(v, MutexDestroy(0)) && WaitsWith(v, 1, 0)
            && !Sound(Apply(v, MutexDestroy(0)), 1)
  {
    OneIsWaiting(None);
    var v := Scene([IDLE, Waiter(None)], 0, FREE, HostCond([1], [], Some(0), {}));
    assert UsesMutex(v, 1, 0);
  }

  /** Then the waiter's time is up while the main thread has the mutex. */
  function OneTimesOut(): seq<Event> {
    OneWaits(Some(0.0)) + [Lock(0)] + [TimeOut(1)] + [Unlock(0)]
  }

  /** A waiter whose time was up while its mutex was taken is on no queue and not counted, so that both can be destroyed
      while it waits for the one and has still to finish its wait on the other. */
  lemma TimedOutWaiterIsForgotten()
    ensures IsRun(Start(), OneTimesOut()) && IsClean(Start(), OneTimesOut())
    ensures var v := After(Start(), OneTimesOut());
            && Enabled(v, MutexDestroy(0)) && Misuse(v, MutexDestroy(0)) && WaitsOnMutex(v, 1, 0)
            && !Sound(Apply(v, MutexDestroy(0)), 1)
            && Enabled(v, CondDestroy(0)) && Misuse(v, CondDestroy(0)) && IsFinishing(v, 1, 0)
  {
    hide IsStep, Leads;
    OneIsWaiting(Some(0.0));
    var es := OneWaits(Some(0.0));
    var waiting, left := HostCond([1], [], Some(0), {}), HostCond([], [], Some(0), {1});
    var before, after := [IDLE, Waiter(Some(0.0))], [IDLE, Waiter(Some(0.0)).(blockedBy := Mutex(0))];
    var taken := FREE.(held := Some(Hold(0, 1)));
    Locking(before, 0, FREE, waiting);
    TimingOut(before, 0, taken, 1);
    assert before[1 := Waiter(Some(0.0)).(blockedBy := Mutex(0))] == after;
    Unlocking(after, 0, taken, left);
    Onward(es, Scene(before, 0, FREE, waiting), Lock(0), Scene(before, 0, taken, waiting));
    es := es + [Lock(0)];
    Onward(es, Scene(before, 0, taken, waiting), TimeOut(1), Scene(after, 0, taken, left));
    es := es + [TimeOut(1)];
    Onward(es, Scene(after, 0, taken, left), Unlock(0), Scene(after, 0, FREE, left));
    ForgottenWaiter(OneTimesOut(), after, left);
  }

  lemma ForgottenWaiter(events: seq<Event>, threads: seq<Thread>, cond: HostCond)
    requires Leads(events, Scene(threads, 0, FREE, cond)) && cond.Queue() == []
    requires threads == [IDLE, Waiter(Some(0.0)).(blockedBy := Mutex(0))]
    ensures IsRun(Start(), events) && IsClean(Start(), events)
    ensures var v := After(Start(), events);
            && Enabled(v, MutexDestroy(0)) && Misuse(v, MutexDestroy(0)) && WaitsOnMutex(v, 1, 0)
            && !Sound(Apply(v, MutexDestroy(0)), 1)
            && Enabled(v, CondDestroy(0)) && Misuse(v, CondDestroy(0)) && IsFinishing(v, 1, 0)
  {
    var v := Scene(threads, 0, FREE, cond);
    assert UsesMutex(v, 1, 0) && InCall(v, 1, 0);
  }

  /** While a first thread waits on the condition variable, a second one waits for the mutex. The first one is signalled
      and gets the mutex as soon as it is free, and with it takes off the count of the second; and gives it back. */
  function OneTakesTheCount(): seq<Event> {
    OneWaits(None) + [Create] + [Lock(0)] + [Dispatch(2)] + [Lock(0)] + [Dispatch(0)] + [CondSignal(0)] + [Unlock(0)]
    + [Wake(1)] + [Dispatch(1)] + [CondFinish] + [Unlock(0)]
  }

  function Blocked(): Thread {
    IDLE.(blockedBy := Mutex(0))
  }

  /** Up to the point where the mutex is free, one thread is signalled and another one waits for the mutex. */
  lemma TwoContend() returns (events: seq<Event>)
    ensures events == OneWaits(None) + [Create] + [Lock(0)] + [Dispatch(2)] + [Lock(0)] + [Dispatch(0)] + [CondSignal(0)] + [Unlock(0)]
    ensures Leads(events, Scene([IDLE, Waiter(None), Blocked()], 0, FREE.(waitingCount := 1), HostCond([], [1],
        Some(0), {})))
  {
    hide IsStep, Leads;
    OneIsWaiting(None);
    events := OneWaits(None);
    var waiting, signalled := HostCond([1], [], Some(0), {}), HostCond([], [1], Some(0), {});
    var two, three, blocked := [IDLE, Waiter(None)], [IDLE, Waiter(None), IDLE], [IDLE, Waiter(None), Blocked()];
    assert two + [IDLE] == three && three[2 := Blocked()] == blocked;
    var taken := FREE.(held := Some(Hold(0, 1)));
    var counted := taken.(waitingCount := 1);
    Creating(two, 0, FREE, waiting);
    Onward(events, Scene(two, 0, FREE, waiting), Create, Scene(three, 0, FREE, waiting));
    events := events + [Create];
    Locking(three, 0, FREE, waiting);
    Onward(events, Scene(three, 0, FREE, waiting), Lock(0), Scene(three, 0, taken, waiting));
    events := events + [Lock(0)];
    Dispatching(three, 0, taken, waiting, 2);
    Onward(events, Scene(three, 0, taken, waiting), Dispatch(2), Scene(three, 2, taken, waiting));
    events := events + [Dispatch(2)];
    LockingInVain(three, 2, taken, waiting);
    Onward(events, Scene(three, 2, taken, waiting), Lock(0), Scene(blocked, 2, counted, waiting));
    events := events + [Lock(0)];
    Dispatching(blocked, 2, counted, waiting, 0);
    Onward(events, Scene(blocked, 2, counted, waiting), Dispatch(0), Scene(blocked, 0, counted, waiting));
    events := events + [Dispatch(0)];
    Signalling(blocked, 0, counted, 1);
    Onward(events, Scene(blocked, 0, counted, waiting), CondSignal(0), Scene(blocked, 0, counted, signalled));
    events := events + [CondSignal(0)];
    Unlocking(blocked, 0, counted, signalled);
    Onward(events, Scene(blocked, 0, counted, signalled), Unlock(0), Scene(blocked, 0, FREE.(waitingCount := 1),
        signalled));
    events := events + [Unlock(0)];
  }

  /** A waiter that is woken takes a count that belongs to somebody else. The mutex can be destroyed while that other
      thread waits for it, with nobody waiting on a condition variable any more. */
  lemma CountIsTakenAway()
    ensures IsRun(Start(), OneTakesTheCount()) && IsClean(Start(), OneTakesTheCount())
    ensures var v := After(Start(), OneTakesTheCount());
            && Enabled(v, MutexDestroy(0)) && Misuse(v, MutexDestroy(0)) && WaitsOnMutex(v, 2, 0)
            && (forall t: nat :: !WaitsWith(v, t, 0)) && !Sound(Apply(v, MutexDestroy(0)), 2)
  {
    hide IsStep, Leads;
    var es := TwoContend();
    var signalled, done := HostCond([], [1], Some(0), {}), HostCond([], [], Some(0), {});
    var t0, t1, t2 := [IDLE, Waiter(None), Blocked()], [IDLE, Waiter(None).(blockedBy := NotBlocked), Blocked()],
        [IDLE, IDLE, Blocked()];
    assert t0[1 := Waiter(None).(blockedBy := NotBlocked)] == t1 && t1[1 := IDLE] == t2;
    var counted, taken := FREE.(waitingCount := 1), FREE.(held := Some(Hold(1, 1)));
    WakingSignalled(t0, 0, counted, 1);
    Onward(es, Scene(t0, 0, counted, signalled), Wake(1), Scene(t1, 0, taken, done));
    es := es + [Wake(1)];
    Dispatching(t1, 0, taken, done, 1);
    Onward(es, Scene(t1, 0, taken, done), Dispatch(1), Scene(t1, 1, taken, done));
    es := es + [Dispatch(1)];
    Finishing(t1, 1, taken);
    Onward(es, Scene(t1, 1, taken, done), CondFinish, Scene(t2, 1, taken, done));
    es := es + [CondFinish];
    Unlocking(t2, 1, taken, done);
    Onward(es, Scene(t2, 1, taken, done), Unlock(0), Scene(t2, 1, FREE, done));
    UncountedLocker(es + [Unlock(0)], t2, done);
  }

  lemma UncountedLocker(events: seq<Event>, threads: seq<Thread>, cond: HostCond)
    requires Leads(events, Scene(threads, 1, FREE, cond)) && threads == [IDLE, IDLE, Blocked()]
    ensures IsRun(Start(), events) && IsClean(Start(), events)
    ensures var v := After(Start(), events);
            && Enabled(v, MutexDestroy(0)) && Misuse(v, MutexDestroy(0)) && WaitsOnMutex(v, 2, 0)
            && (forall t: nat :: !WaitsWith(v, t, 0)) && !Sound(Apply(v, MutexDestroy(0)), 2)
  {
    var v := Scene(threads, 1, FREE, cond);
    assert UsesMutex(v, 2, 0);
  }
}
