/** What the checks made when a mutex or a condition variable is destroyed can tell, and what they cannot. */
module DestroyChecks {
  import opened Common
  import GuestClock
  import opened Threads
  import opened ThreadInvariants
  import opened ThreadRuns

  // ----- The waiter count of a mutex -----

  predicate WaitsOnMutex(w: World, t: nat, m: nat) {
    t < |w.threads| && w.Waits(t) == Mutex(m)
  }

  /** The threads that wait for a mutex, suspended or not. */
  function Lockers(w: World, m: nat): set<nat> {
    set t: nat | t < |w.threads| && WaitsOnMutex(w, t, m)
  }

  function Counted(w: World, m: nat): nat {
    if m in w.mutexes then w.mutexes[m].waitingCount else 0
  }

  /** By how much a step changes the number of waiters that are not counted: one whose time on a condition variable is up
      waits for the mutex uncounted; and one that goes from there straight to the mutex takes a count away that belongs
      to somebody else, who will not miss it when he gets the mutex with no count left. */
  function Owes(w: World, e: Event, m: nat): int
    requires Enabled(w, e)
  {
    match e
    case TimeOut(t) => if Wanted(w, t) == Some(m) then 1 else 0
    case Wake(t) =>
      if Wanted(w, t) != Some(m) then 0
      else if w.threads[t].blockedBy.Condition? then (if Counted(w, m) > 0 then 1 else 0)
      else if Counted(w, m) == 0 then -1
      else 0
    case _ => 0
  }

  ghost function Owed(w: World, events: seq<Event>, m: nat): int
    requires IsRun(w, events)
  {
    if events == [] then 0
    else
      var front, e := events[..|events| - 1], events[|events| - 1];
      Owed(w, front, m) + Owes(After(w, front), e, m)
  }

  /** The same threads wait for the mutex, but for one. */
  ghost predicate LockersDiffer(w: World, w': World, m: nat, t: nat) {
    forall u: nat :: u != t ==> (WaitsOnMutex(w', u, m) <==> WaitsOnMutex(w, u, m))
  }

  lemma LockersMember(w: World, m: nat)
    ensures forall t: nat :: t in Lockers(w, m) <==> WaitsOnMutex(w, t, m)
  {
  }

  lemma OneMore(s: set<nat>, t: nat)
    ensures |s| == |s - {t}| + if t in s then 1 else 0
  {
    assert t in s ==> s == s - {t} + {t};
    assert t !in s ==> s == s - {t};
  }

  lemma LockersChange(w: World, w': World, m: nat, t: nat)
    requires LockersDiffer(w, w', m, t)
    ensures |Lockers(w', m)| - (if WaitsOnMutex(w', t, m) then 1 else 0) == |Lockers(w, m)| - (if WaitsOnMutex(w, t,
        m) then 1 else 0)
  {
    LockersMember(w, m);
    LockersMember(w', m);
    hide Lockers, WaitsOnMutex;
    var rest := Lockers(w, m) - {t};
    assert Lockers(w', m) - {t} == rest;
    OneMore(Lockers(w, m), t);
    OneMore(Lockers(w', m), t);
  }

  lemma OneThreadLockers(w: World, w': World, m: nat, t: nat)
    requires OnlyThread(w, w', t)
    ensures |Lockers(w', m)| - (if WaitsOnMutex(w', t, m) then 1 else 0) == |Lockers(w, m)| - (if WaitsOnMutex(w, t,
        m) then 1 else 0)
  {
    LockersChange(w, w', m, t);
  }

  lemma WakeCounts(w: World, t: nat, m: nat)
    requires Enabled(w, Wake(t))
    ensures var w' := Apply(w, Wake(t));
            Counted(w', m) + Owes(w, Wake(t), m) - |Lockers(w', m)| == Counted(w, m) - |Lockers(w, m)|
  {
    hide Without, IsSignalled, Lockers;
    OneThreadLockers(w, Woken(w, t), m, t);
    match w.threads[t].blockedBy {
      case Mutex(l) =>
      case Condition(c, _) => assert Wanted(w, t) == w.conds[c].mutex;
      case _ =>
    }
  }

  lemma TimeOutCounts(w: World, t: nat, m: nat)
    requires Enabled(w, TimeOut(t))
    ensures var w' := Apply(w, TimeOut(t));
            Counted(w', m) + Owes(w, TimeOut(t), m) - |Lockers(w', m)| == Counted(w, m) - |Lockers(w, m)|
  {
    hide Without, IsDue, Lockers;
    OneThreadLockers(w, TimedOut(w, t), m, t);
  }

  lemma LockCounts(w: World, l: nat, m: nat)
    requires Enabled(w, Lock(l))
    ensures var w' := Apply(w, Lock(l)); Counted(w', m) - |Lockers(w', m)| == Counted(w, m) - |Lockers(w, m)|
  {
    hide Lockers;
    OneThreadLockers(w, LockedBy(w, w.current, l), m, w.current);
  }

  lemma CreateCounts(w: World, m: nat)
    ensures var w' := w.(threads := w.threads + [Thread(true, NotBlocked, None, None)]);
            Counted(w', m) - |Lockers(w', m)| == Counted(w, m) - |Lockers(w, m)|
  {
    var w' := w.(threads := w.threads + [Thread(true, NotBlocked, None, None)]);
    LockersChange(w, w', m, |w.threads|);
  }

  ghost predicate SameWaiters(w: World, w': World, m: nat) {
    Counted(w', m) == Counted(w, m) && forall u: nat :: WaitsOnMutex(w', u, m) <==> WaitsOnMutex(w, u, m)
  }

  /** Steps that set no thread waiting for a mutex, nor take one from it. */
  lemma OthersAreSame(w: World, e: Event, m: nat)
    requires Enabled(w, e) && !e.Wake? && !e.TimeOut? && !e.Lock? && !e.Create?
    ensures SameWaiters(w, Apply(w, e), m)
  {
    hide Sound, Ready, Expired, Woken, TimedOut, Unlocked;
    if e.MutexInit? || e.MutexDestroy? {
      hide CanWait, CondWaited, Taken;
    } else if e.Unlock? {
      UnlockedCounts(w.mutexes[e.mutex], w.current);
      hide CanWait, CondWaited, Taken;
    } else if e.CondWait? {
      if CanWait(w, e.cond, e.mutex) {
        UnlockedCounts(w.mutexes[e.mutex], w.current);
      }
    } else {
      MutexesUntouched(w, e);
      hide CanWait, CondWaited;
      WaitsAreSame(w, e, m);
    }
  }

  lemma WaitsAreSame(w: World, e: Event, m: nat)
    requires Enabled(w, e) && !e.Wake? && !e.TimeOut? && !e.Lock? && !e.CondWait? && !e.Create?
    ensures forall u: nat :: WaitsOnMutex(Apply(w, e), u, m) <==> WaitsOnMutex(w, u, m)
  {
    hide Sound, Ready, Expired, Woken, TimedOut, Unlocked, CanWait, CondWaited, LockedBy;
    if !e.Suspend? && !e.Resume? {
      hide SuspendedOnce, ResumedOnce;
    }
  }

  lemma UnlockedCounts(mutex: HostMutex, t: nat)
    ensures Unlocked(mutex, t).Some? ==> Unlocked(mutex, t).value.waitingCount == mutex.waitingCount
  {
  }

  lemma OtherCounts(w: World, e: Event, m: nat)
    requires Enabled(w, e) && !e.Wake? && !e.TimeOut? && !e.Lock? && !e.Create?
    ensures Counted(Apply(w, e), m) - |Lockers(Apply(w, e), m)| == Counted(w, m) - |Lockers(w, m)|
  {
    hide Enabled, Apply, Lockers;
    OthersAreSame(w, e, m);
    LockersChange(w, Apply(w, e), m, 0);
  }

  lemma CountStep(w: World, e: Event, m: nat)
    requires Enabled(w, e)
    ensures Counted(Apply(w, e), m) + Owes(w, e, m) - |Lockers(Apply(w, e), m)| == Counted(w, m) - |Lockers(w, m)|
  {
    match e {
      case Wake(t) => WakeCounts(w, t, m);
      case TimeOut(t) => TimeOutCounts(w, t, m);
      case Lock(l) => hide Owes; LockCounts(w, l, m);
      case Create => CreateCounts(w, m);
      case _ => OtherCounts(w, e, m);
    }
  }

  /** Over any run, waiters counted and waiters owed make up the threads that wait for the mutex. */
  lemma {:induction false} CountsPlusOwed(w: World, events: seq<Event>, m: nat)
    requires IsRun(w, events) && Counted(w, m) == |Lockers(w, m)|
    ensures Counted(After(w, events), m) + Owed(w, events, m) == |Lockers(After(w, events), m)|
  {
    hide Enabled, Apply, Lockers, Counted, Owes;
    if events == [] {
    } else {
      var front, e := events[..|events| - 1], events[|events| - 1];
      CountsPlusOwed(w, front, m);
      CountStep(After(w, front), e, m);
    }
  }

  // ----- Mutexes that no condition variable is used with -----

  /** No wait on a condition variable has to do with the mutex. */
  ghost predicate IsUnnamed(w: World, m: nat) {
    && (forall c :: c in w.conds ==> w.conds[c].mutex != Some(m))
    && (forall t :: 0 <= t < |w.threads| ==> !WaitsWith(w, t, m))
  }

  /** The thread is in the middle of a wait that gave the mutex back and is to get it again. */
  predicate WaitsWith(w: World, t: nat, m: nat) {
    t < |w.threads| && w.threads[t].call.Some? && w.threads[t].call.value.mutex == m
  }

  predicate Names(e: Event, m: nat) {
    e.CondWait? && e.mutex == m
  }

  lemma StaysUnnamed(w: World, e: Event, m: nat)
    requires Enabled(w, e) && IsUnnamed(w, m) && !Names(e, m)
    ensures IsUnnamed(Apply(w, e), m)
  {
    hide Enabled, Apply;
    forall t: nat | t < |Apply(w, e).threads| ensures !WaitsWith(Apply(w, e), t, m) {
      CallStays(w, e, t, m);
      assert t < |w.threads| ==> !WaitsWith(w, t, m);
    }
    forall c | c in Apply(w, e).conds ensures Apply(w, e).conds[c].mutex != Some(m) {
      CondMutexStays(w, e, c, m);
    }
  }

  /** Only waiting on a condition variable with the mutex starts a wait with it. */
  lemma CallStays(w: World, e: Event, t: nat, m: nat)
    requires Enabled(w, e) && !Names(e, m)
    ensures WaitsWith(Apply(w, e), t, m) ==> WaitsWith(w, t, m)
  {
    hide Sound, Ready, Expired, Unlocked, TimedOutCond, CanWait, IsSignalled;
    if e.Wake? || e.TimeOut? {
    } else {
      hide Woken, TimedOut;
    }
  }

  lemma CondMutexStays(w: World, e: Event, c: nat, m: nat)
    requires Enabled(w, e) && !Names(e, m)
    ensures c in Apply(w, e).conds && Apply(w, e).conds[c].mutex == Some(m) ==>
        c in w.conds && w.conds[c].mutex == Some(m)
  {
    hide Ready, IsDue, MutexIsFree, Unlocked, Without, CanWait, IsSignalled;
    if e.Wake? || e.TimeOut? {
    } else {
      hide Woken, TimedOut, Sound;
    }
  }

  lemma NothingOwed(w: World, e: Event, m: nat)
    requires Enabled(w, e) && IsUnnamed(w, m) && Counted(w, m) == |Lockers(w, m)|
    ensures Owes(w, e, m) == 0
  {
    hide Ready, IsDue, MutexIsFree, Lockers, Counted, CanWait;
    LockersMember(w, m);
    if e.Wake? || e.TimeOut? {
      hide World.Running;
      var t := e.thread;
      match w.threads[t].blockedBy {
        case Mutex(l) =>
          if l == m {
            assert t in Lockers(w, m);
            OneMore(Lockers(w, m), t);
          }
        case Condition(c, _) => assert c in w.conds ==> w.conds[c].mutex != Some(m);
        case _ =>
      }
    }
  }

  lemma {:induction false} UnnamedRun(w: World, events: seq<Event>, m: nat)
    requires IsRun(w, events) && IsUnnamed(w, m) && Counted(w, m) == |Lockers(w, m)|
    requires forall e :: e in events ==> !Names(e, m)
    ensures IsUnnamed(After(w, events), m) && Counted(After(w, events), m) == |Lockers(After(w, events), m)|
  {
    hide Enabled, Apply, Lockers, Counted, Owes, IsUnnamed, Names;
    if events == [] {
    } else {
      var front, e := events[..|events| - 1], events[|events| - 1];
      UnnamedRun(w, front, m);
      assert e in events && !Names(e, m);
      var v := After(w, front);
      NothingOwed(v, e, m);
      CountStep(v, e, m);
      StaysUnnamed(v, e, m);
    }
  }

  lemma StartsUncounted(clock: GuestClock.Anchor, now: real, wallOffset: real, m: nat)
    ensures var w := Initial(clock, now, wallOffset); IsUnnamed(w, m) && Counted(w, m) == |Lockers(w, m)|
  {
    var w := Initial(clock, now, wallOffset);
    assert Lockers(w, m) == {};
  }

  /** In any run of an app, as long as no wait on a condition variable has named the mutex, its waiter count is the number
      of threads that wait for it; so it is destroyed only when nobody needs it. */
  lemma DestroyIsSafe(clock: GuestClock.Anchor, now: real, wallOffset: real, events: seq<Event>, m: nat)
    requires IsRun(Initial(clock, now, wallOffset), events) && forall e :: e in events ==> !Names(e, m)
    ensures var v := After(Initial(clock, now, wallOffset), events);
            && Counted(v, m) == |Lockers(v, m)|
            && (m in v.mutexes && v.mutexes[m].waitingCount == 0 ==> forall t: nat :: !UsesMutex(v, t, m))
  {
    hide IsRun, After;
    var w := Initial(clock, now, wallOffset);
    StartsUncounted(clock, now, wallOffset, m);
    UnnamedRun(w, events, m);
    var v := After(w, events);
    LockersMember(v, m);
    if m in v.mutexes && v.mutexes[m].waitingCount == 0 {
      assert |Lockers(v, m)| == 0 && Lockers(v, m) == {};
      forall t: nat ensures !UsesMutex(v, t, m) {
        assert t !in Lockers(v, m) && (t < |v.threads| ==> !WaitsWith(v, t, m));
      }
    }
  }

  /** In general, a mutex that somebody needs is destroyed exactly when it is free, no waiter is counted, and a waiter is
      owed or a wait that gave it back is in progress. */
  lemma MutexDestroyForgets(clock: GuestClock.Anchor, now: real, wallOffset: real, events: seq<Event>, m: nat)
    requires IsRun(Initial(clock, now, wallOffset), events)
    ensures var v := After(Initial(clock, now, wallOffset), events);
            var owed := Owed(Initial(clock, now, wallOffset), events, m);
            Misuse(v, MutexDestroy(m)) <==>
              && m in v.mutexes && v.mutexes[m].held == None && v.mutexes[m].waitingCount == 0
              && (owed > 0 || exists t: nat :: WaitsWith(v, t, m))
  {
    hide IsRun, After;
    var w := Initial(clock, now, wallOffset);
    StartsUncounted(clock, now, wallOffset, m);
    CountsPlusOwed(w, events, m);
    var v, owed := After(w, events), Owed(w, events, m);
    LockersMember(v, m);
    if m in v.mutexes && v.mutexes[m].held == None && v.mutexes[m].waitingCount == 0 {
      if owed > 0 {
        var t :| t in Lockers(v, m);
        assert UsesMutex(v, t, m);
      }
      if t: nat :| WaitsWith(v, t, m) {
        assert UsesMutex(v, t, m);
      }
      if t: nat :| UsesMutex(v, t, m) {
        assert t in Lockers(v, m) || WaitsWith(v, t, m);
      }
    }
  }

  // ----- Condition variables -----

  /** The thread has been woken out of its wait, or its time was up, but it has not finished the wait. */
  predicate IsFinishing(w: World, t: nat, c: nat) {
    InCall(w, t, c) && !w.Waits(t).Condition?
  }

  /** In any clean run of an app, a condition variable that somebody needs is destroyed exactly when nobody is on its
      queue, but somebody has still to finish a wait on it. */
  lemma CondDestroyForgets(clock: GuestClock.Anchor, now: real, wallOffset: real, events: seq<Event>, c: nat)
    requires clock.host <= now
    requires var w := Initial(clock, now, wallOffset); IsRun(w, events) && IsClean(w, events)
    ensures var v := After(Initial(clock, now, wallOffset), events);
            Enabled(v, CondDestroy(c)) ==> (Misuse(v, CondDestroy(c)) <==> exists t: nat :: IsFinishing(v, t, c))
  {
    hide IsRun, IsClean, After;
    var w := Initial(clock, now, wallOffset);
    assert ThreadFits(w, 0);
    RunKeepsConsistent(w, events);
    var v := After(w, events);
    if Enabled(v, CondDestroy(c)) {
      forall t: nat ensures InCall(v, t, c) <==> IsFinishing(v, t, c) {
        if InCall(v, t, c) {
          NobodyQueued(v, t, c);
        }
      }
    }
  }

  lemma NobodyQueued(w: World, t: nat, c: nat)
    requires Consistent(w) && (c in w.conds ==> w.conds[c].Queue() == []) && InCall(w, t, c)
    ensures !w.Waits(t).Condition?
  {
    assert ThreadFits(w, t) && CondFits(w, c);
    assert t in w.conds[c].Queue() <==> WaitsOnCond(w, t, c);
  }
}
