/** What holds over whole runs of the thread machine. */
module ThreadRuns {
  import opened Common
  import GuestClock
  import opened Threads
  import opened ThreadInvariants

  // ----- Consistency -----

  /** The machine when the app starts: only the main thread, and nothing set up yet. */
  function Initial(clock: GuestClock.Anchor, now: real, wallOffset: real): World {
    World([Thread(true, NotBlocked, None, None)], 0, map[], map[], map[], map[], clock, now, wallOffset)
  }

  /** No step of the run is a misuse. */
  ghost predicate IsClean(w: World, events: seq<Event>)
    requires IsRun(w, events)
  {
    events == [] ||
    (IsClean(w, events[..|events| - 1]) && !Misuse(After(w, events[..|events| - 1]), events[|events| - 1]))
  }

  lemma {:induction false} RunKeepsConsistent(w: World, events: seq<Event>)
    requires Consistent(w) && IsRun(w, events) && IsClean(w, events)
    ensures Consistent(After(w, events))
  {
    hide Consistent, Enabled, Apply, Misuse;
    if events == [] {
    } else {
      var front := events[..|events| - 1];
      RunKeepsConsistent(w, front);
      StepKeepsConsistent(After(w, front), events[|events| - 1]);
    }
  }

  /** In any clean run of an app, none of the scheduler's assertions can fail, whichever thread it looks at. */
  lemma SchedulerNeverPanics(clock: GuestClock.Anchor, now: real, wallOffset: real, events: seq<Event>, t: nat)
    requires clock.host <= now
    requires var w := Initial(clock, now, wallOffset); IsRun(w, events) && IsClean(w, events)
    requires t < |After(Initial(clock, now, wallOffset), events).threads|
    ensures Sound(After(Initial(clock, now, wallOffset), events), t)
  {
    hide IsRun, IsClean, After, Sound;
    var w := Initial(clock, now, wallOffset);
    assert ThreadFits(w, 0);
    RunKeepsConsistent(w, events);
    ConsistentIsSound(After(w, events), t);
  }

  // ----- What a wake-up takes -----

  /** The mutex that a blocked thread is to own when it wakes up. */
  function Wanted(w: World, t: nat): Option<nat>
    requires t < |w.threads|
  {
    match w.threads[t].blockedBy
    case Mutex(m) => Some(m)
    case Condition(c, _) => if c in w.conds then w.conds[c].mutex else None
    case _ => None
  }

  /** A thread that wakes up from a mutex or condition wait gets the mutex, which was free; out of a condition
      wait it is the one it gave back when it started to wait. No other mutex changes hands. */
  lemma WakeTakesMutex(w: World, t: nat)
    requires Consistent(w) && Enabled(w, Wake(t))
    ensures var w' := Apply(w, Wake(t)); var wanted := Wanted(w, t);
            && (forall m :: m in w.mutexes && wanted != Some(m) ==> m in w'.mutexes && w'.mutexes[m] == w.mutexes[m])
            && (wanted.Some? ==>
                  && wanted.value in w.mutexes && w.mutexes[wanted.value].held == None
                  && wanted.value in w'.mutexes && w'.mutexes[wanted.value].held == Some(Hold(t, 1)))
            && (w.threads[t].call.Some? && w.threads[t].blockedBy != NotBlocked ==>
                  wanted == Some(w.threads[t].call.value.mutex))
  {
    hide SemsFit, CondsFit;
    assert ThreadFits(w, t);
  }

  /** What a thread finished with in the course of a run, if it did. */
  ghost function ExitOf(w: World, events: seq<Event>, t: nat): Option<Option<nat>>
    requires IsRun(w, events)
  {
    if events == [] then None
    else
      var front, e := events[..|events| - 1], events[|events| - 1];
      if e.Exit? && After(w, front).current == t then Some(e.result) else ExitOf(w, front, t)
  }

  ghost predicate SameLives(w: World, w': World) {
    && |w'.threads| == |w.threads|
    && forall t :: 0 <= t < |w.threads| ==>
         w'.threads[t].active == w.threads[t].active && w'.threads[t].returnValue == w.threads[t].returnValue
  }

  lemma LivesUntouched(w: World, e: Event)
    requires Enabled(w, e) && !e.Exit? && !e.Create?
    ensures SameLives(w, Apply(w, e))
  {
    hide Woken, TimedOut, Sound, Ready, Expired, CanWait, Unlocked;
    if e.Wake? {
      WokenLives(w, e.thread);
    } else if e.TimeOut? {
      TimedOutLives(w, e.thread);
    } else if e.Lock? || e.SemWait? || e.CondWait? {
      BlockingLives(w, e);
    } else {
      hide LockedBy, Taken, CondWaited;
    }
  }

  lemma BlockingLives(w: World, e: Event)
    requires Enabled(w, e) && (e.Lock? || e.SemWait? || e.CondWait?)
    ensures SameLives(w, Apply(w, e))
  {
    hide Woken, TimedOut, Sound, Ready, Expired, CanWait, Unlocked;
    if e.Lock? {
      hide Taken, CondWaited;
    } else if e.SemWait? {
      hide LockedBy, CondWaited;
    } else {
      hide LockedBy, Taken;
    }
  }

  lemma WokenLives(w: World, t: nat)
    requires t < |w.threads| && Sound(w, t) && Ready(w, t)
    ensures SameLives(w, Woken(w, t))
  {
    hide Without, IsSignalled, MutexIsFree, IsDue;
  }

  lemma TimedOutLives(w: World, t: nat)
    requires t < |w.threads| && Sound(w, t) && Expired(w, t)
    ensures SameLives(w, TimedOut(w, t))
  {
    hide Without, IsDue;
  }

  /** Only its own exit ends a thread, and that is final. */
  lemma ExitStep(w: World, e: Event, t: nat)
    requires Enabled(w, e) && t < |Apply(w, e).threads|
    ensures |w.threads| <= |Apply(w, e).threads| && (e.Exit? ==> w.current < |w.threads|)
    ensures t >= |w.threads| ==> Apply(w, e).threads[t].active && e.Create?
    ensures t < |w.threads| ==>
              var before, after := w.threads[t], Apply(w, e).threads[t];
              if e.Exit? && w.current == t then before.active && !after.active && after.returnValue == e.result
              else after.active == before.active && after.returnValue == before.returnValue
  {
    hide Woken, TimedOut, Sound, Ready, Expired, CanWait, Unlocked, LockedBy, Taken, CondWaited;
    if !e.Exit? && !e.Create? {
      LivesUntouched(w, e);
      hide Apply, Enabled;
    }
  }

  lemma ThreadsAreKept(w: World, e: Event)
    requires Enabled(w, e)
    ensures |w.threads| <= |Apply(w, e).threads| && (e.Exit? ==> w.current < |w.threads|)
  {
    hide Woken, TimedOut, Sound, Ready, Expired, CanWait, Unlocked, LockedBy, Taken, CondWaited;
    if !e.Exit? && !e.Create? {
      LivesUntouched(w, e);
      hide Apply, Enabled;
    }
  }

  /** A thread that is finished has called its exit in the run, and keeps that value. */
  lemma {:induction false} FinishedByExit(w: World, events: seq<Event>, t: nat)
    requires IsRun(w, events) && t < |After(w, events).threads| && (t < |w.threads| ==> w.threads[t].active)
    ensures var thread := After(w, events).threads[t];
            if thread.active then ExitOf(w, events, t) == None else ExitOf(w, events, t) == Some(thread.returnValue)
  {
    hide Enabled, Apply;
    if events == [] {
    } else {
      var front, e := events[..|events| - 1], events[|events| - 1];
      ExitStep(After(w, front), e, t);
      if t < |After(w, front).threads| {
        FinishedByExit(w, front, t);
      } else {
        NoExitBefore(w, front, t);
      }
    }
  }

  lemma {:induction false} NoExitBefore(w: World, events: seq<Event>, t: nat)
    requires IsRun(w, events) && t >= |After(w, events).threads|
    ensures ExitOf(w, events, t) == None && t >= |w.threads|
  {
    hide Enabled, Apply;
    if events == [] {
    } else {
      var front, e := events[..|events| - 1], events[|events| - 1];
      ThreadsAreKept(After(w, front), e);
      NoExitBefore(w, front, t);
    }
  }

  /** A thread that wakes up from joining finds what the joined thread gave to its own exit, in the course of the run,
      where it asked for it, and null when that was nothing. Nothing else is written. */
  lemma JoinDelivers(w: World, events: seq<Event>, t: nat, p: nat)
    requires IsRun(w, events) && Enabled(After(w, events), Wake(t)) && forall u :: 0 <= u < |w.threads| ==>
        w.threads[u].active
    ensures var v := After(w, events); var memory, b := Apply(v, Wake(t)).memory, v.threads[t].blockedBy;
            && (b.Joining? ==> ExitOf(w, events, b.joinee).Some?)
            && (b.Joining? && b.ptr != 0 ==>
                  && b.ptr in memory
                  && memory[b.ptr] == match ExitOf(w, events, b.joinee).value case Some(value) => value case None => 0)
            && (!b.Joining? || b.ptr != p || p == 0 ==>
                  (p in memory <==> p in v.memory) && (p in memory ==> memory[p] == v.memory[p]))
  {
    hide MutexIsFree, IsSignalled, TimedOutCond, IsRun, After;
    var b := After(w, events).threads[t].blockedBy;
    if b.Joining? {
      FinishedByExit(w, events, b.joinee);
    }
  }

  /** Nobody wakes up early, and nobody wakes up while suspended. */
  lemma NobodyWakesEarly(w: World, t: nat)
    requires w.clock.host <= w.now && Enabled(w, Wake(t))
    ensures var b := w.threads[t].blockedBy;
            && !b.Suspended?
            && (b.Sleeping? ==> b.until <= w.now)
            && (b.GuestSleeping? ==> forall at :: w.clock.host <= at <= w.now ==>
                w.clock.HostDeadline(b.due, at) <= w.now)
  {
    var b := w.threads[t].blockedBy;
    if b.GuestSleeping? {
      forall at | w.clock.host <= at <= w.now ensures w.clock.HostDeadline(b.due, at) <= w.now {
        w.clock.DeadlineIsExact(b.due, at, w.now);
      }
    }
  }

  // ----- The guest's wall clock -----

  /** The changes of speed in a run, with their host times. */
  ghost function Changes(w: World, events: seq<Event>): seq<(GuestClock.Speed, real)>
    requires IsRun(w, events)
  {
    if events == [] then []
    else
      var front, e := events[..|events| - 1], events[|events| - 1];
      Changes(w, front) + if e.SetSpeed? then [(e.speed, After(w, front).now)] else []
  }

  lemma ClockStep(w: World, e: Event)
    requires Enabled(w, e)
    ensures var w' := Apply(w, e);
            && w'.clock == (if e.SetSpeed? then w.clock.Rebased(e.speed, w.now) else w.clock)
            && w.now <= w'.now && w'.wallOffset == w.wallOffset && (e.SetSpeed? ==> w'.now == w.now)
  {
    hide Without, IsSignalled, MutexIsFree, IsDue;
    if e.Wake? || e.TimeOut? {
      hide CanWait, Unlocked;
    } else {
      hide Woken, TimedOut, Sound, Ready, Expired, CanWait, Unlocked;
    }
  }

  /** The clock of a run is that of its changes of speed. */
  lemma {:induction false} ClockRuns(w: World, events: seq<Event>)
    requires IsRun(w, events) && w.clock.host <= w.now
    ensures var v := After(w, events);
            && v.clock == GuestClock.After(w.clock, Changes(w, events)) && v.wallOffset == w.wallOffset
            && GuestClock.InOrder(w.clock, Changes(w, events), v.now)
  {
    hide Enabled, Apply;
    if events == [] {
    } else {
      var front, e := events[..|events| - 1], events[|events| - 1];
      ClockRuns(w, front);
      var before, after := After(w, front), After(w, events);
      ClockStep(before, e);
      var changes := Changes(w, front);
      if e.SetSpeed? {
        var more := changes + [(e.speed, before.now)];
        assert more[..|more| - 1] == changes;
      } else {
        assert changes + [] == changes;
        GuestClock.InOrderLater(w.clock, changes, before.now, after.now);
      }
    }
  }

  /** The guest takes the deadlines of its timed waits from the guest's wall clock, but they are compared with the
      host's. So a wait is due when the guest's clock shows its deadline and the drift on top of that. One whose deadline
      the guest's clock shows is due exactly if the clock has not got ahead, over all stretches since the start. */
  lemma TimedWaitsKeepGuestTime(w: World, events: seq<Event>, t: nat)
    requires IsRun(w, events) && w.clock.host <= w.now && w.clock.wall == w.clock.host + w.wallOffset
    requires var v := After(w, events);
             t < |v.threads| && v.threads[t].blockedBy.Condition? && v.threads[t].blockedBy.deadline.Some?
    ensures var v := After(w, events); var drift := GuestClock.Drift(w.clock, Changes(w, events), v.now);
            var deadline := v.threads[t].blockedBy.deadline.value;
            && (IsDue(v, t) <==> deadline + drift <= v.clock.WallAt(v.now))
            && (deadline == v.clock.WallAt(v.now) ==> (IsDue(v, t) <==> drift <= 0.0))
  {
    var v := After(w, events);
    hide IsRun, After;
    ClockRuns(w, events);
    GuestClock.WallClocksDrift(w.clock, Changes(w, events), v.now, w.wallOffset);
  }

  /** The main thread sets up a timed wait. */
  function SetUp(deadline: real): seq<Event> {
    [MutexInit(0, Plain), CondInit(0), Lock(0), CondWait(0, 0, Some(deadline))]
  }

  ghost predicate IsStep(w: World, e: Event, w': World) {
    Enabled(w, e) && Apply(w, e) == w'
  }

  lemma WaitStarts(w: World, c: nat, m: nat, deadline: Option<real>)
    requires w.Running() && w.current == 0 && w.threads == [Thread(true, NotBlocked, None, None)]
    requires w.mutexes == map[m := HostMutex(Plain, 0, Some(Hold(0, 1)), map[])]
        && w.conds == map[c := HostCond([], [], None, {})]
    ensures IsStep(w, CondWait(c, m, deadline),
                   w.(threads := [Thread(true, Condition(c, deadline), None, Some(Call(c, m, deadline.Some?)))],
                      mutexes := map[m := HostMutex(Plain, 0, None, map[])], conds := map[c := HostCond([0], [],
                          Some(m), {})]))
  {
    var thread := Thread(true, Condition(c, deadline), None, Some(Call(c, m, deadline.Some?)));
    assert w.threads[0 := thread] == [thread];
    assert [] + [0] == [0];
    assert w.mutexes[m := HostMutex(Plain, 0, None, map[])] == map[m := HostMutex(Plain, 0, None, map[])];
    assert w.conds[c := HostCond([0], [], Some(m), {})] == map[c := HostCond([0], [], Some(m), {})];
  }

  lemma LockTaken(w: World, m: nat)
    requires w.Running() && w.mutexes == map[m := HostMutex(Plain, 0, None, map[])]
    ensures IsStep(w, Lock(m), w.(mutexes := map[m := HostMutex(Plain, 0, Some(Hold(w.current, 1)), map[])]))
  {
    assert w.mutexes[m := HostMutex(Plain, 0, Some(Hold(w.current, 1)), map[])] == map[m := HostMutex(Plain, 0,
        Some(Hold(w.current, 1)), map[])];
  }

  lemma BothSetUp(w: World, m: nat, c: nat)
    requires w.Running() && w.mutexes == map[] && w.conds == map[]
    ensures var w1 := w.(mutexes := map[m := HostMutex(Plain, 0, None, map[])]);
            IsStep(w, MutexInit(m, Plain), w1) && IsStep(w1, CondInit(c), w1.(conds := map[c := HostCond([], [],
                None, {})]))
  {
  }

  lemma SettingUp(clock: GuestClock.Anchor, now: real, wallOffset: real, deadline: real)
    ensures var w := Initial(clock, now, wallOffset);
            IsRun(w, SetUp(deadline)) &&
            var v := After(w, SetUp(deadline));
            v.clock == clock && v.now == now && v.wallOffset == wallOffset
            && v.threads == [Thread(true, Condition(0, Some(deadline)), None, Some(Call(0, 0, true)))]
  {
    hide IsRun, After, Woken, TimedOut, Sound, Ready, Expired;
    var free, taken := HostMutex(Plain, 0, None, map[]), HostMutex(Plain, 0, Some(Hold(0, 1)), map[]);
    var w := Initial(clock, now, wallOffset);
    var w1 := w.(mutexes := map[0 := free]);
    var w2 := w1.(conds := map[0 := HostCond([], [], None, {})]);
    var w3 := w2.(mutexes := map[0 := taken]);
    var e1, e2, e3, e4 := MutexInit(0, Plain), CondInit(0), Lock(0), CondWait(0, 0, Some(deadline));
    hide Enabled, Apply;
    BothSetUp(w, 0, 0);
    LockTaken(w2, 0);
    WaitStarts(w3, 0, 0, Some(deadline));
    NoEvents(Apply(w3, e4));
    RunFromFront(w3, e4, []);
    RunFromFront(w2, e3, [e4] + []);
    RunFromFront(w1, e2, [e3] + ([e4] + []));
    RunFromFront(w, e1, [e2] + ([e3] + ([e4] + [])));
    assert SetUp(deadline) == [e1] + ([e2] + ([e3] + ([e4] + [])));
  }

  lemma NoEvents(w: World)
    ensures IsRun(w, []) && After(w, []) == w
  {
  }

  /** Ten seconds at one speed, and a timed wait at another for what the guest's clock shows then. */
  function TwoSpeeds(first: GuestClock.Speed, second: GuestClock.Speed, deadline: real): seq<Event> {
    [SetSpeed(first), Tick(10.0), SetSpeed(second)] + SetUp(deadline)
  }

  lemma ClocksChange(first: GuestClock.Speed, second: GuestClock.Speed)
    ensures var clock := GuestClock.Anchor(0.0, 0.0, 0.0, GuestClock.Normal);
            var clock2 := clock.Rebased(first, 0.0).Rebased(second, 10.0);
            clock2.speed == second && clock2.WallAt(10.0) == 10.0 * first.Multiplier()
    ensures 10.0 * first.Multiplier() <= 10.0 <==> first.Multiplier() <= 1.0
  {
    hide GuestClock.Speed.Multiplier, GuestClock.Anchor.Rebased, GuestClock.Anchor.WallAt;
    var clock := GuestClock.Anchor(0.0, 0.0, 0.0, GuestClock.Normal);
    var clock1 := clock.Rebased(first, 0.0);
    GuestClock.RunsAt(clock, 0.0);
    GuestClock.NothingElapsed(clock, first, 0.0);
    GuestClock.RunsAt(clock1, 10.0);
    GuestClock.NothingElapsed(clock1, second, 10.0);
  }

  lemma SpeedsChange(clock: GuestClock.Anchor, first: GuestClock.Speed, second: GuestClock.Speed)
    ensures var clock1 := clock.Rebased(first, 0.0);
            && IsStep(Initial(clock, 0.0, 0.0), SetSpeed(first), Initial(clock1, 0.0, 0.0))
            && IsStep(Initial(clock1, 0.0, 0.0), Tick(10.0), Initial(clock1, 10.0, 0.0))
            && IsStep(Initial(clock1, 10.0, 0.0), SetSpeed(second), Initial(clock1.Rebased(second, 10.0), 10.0, 0.0))
  {
    hide GuestClock.Anchor.Rebased;
  }

  /** The speed of the moment does not tell whether a timed wait is due: after a fast stretch one for the present is late
      even at normal speed, and after a slow one it is due at once even in a fast game. */
  lemma PastSpeedsCount(first: GuestClock.Speed, second: GuestClock.Speed)
    ensures var clock := GuestClock.Anchor(0.0, 0.0, 0.0, GuestClock.Normal);
            var w := Initial(clock, 0.0, 0.0);
            var events := TwoSpeeds(first, second, 10.0 * first.Multiplier());
            IsRun(w, events) &&
            var v := After(w, events);
            && v.clock.speed == second && v.clock.WallAt(v.now) == 10.0 * first.Multiplier()
            && |v.threads| == 1 && (IsDue(v, 0) <==> first.Multiplier() <= 1.0)
  {
    hide IsRun, After, SetUp, Enabled, Apply, GuestClock.Anchor.Rebased, GuestClock.Speed.Multiplier,
        GuestClock.Anchor.WallAt, Initial;
    var clock := GuestClock.Anchor(0.0, 0.0, 0.0, GuestClock.Normal);
    var deadline := 10.0 * first.Multiplier();
    var w := Initial(clock, 0.0, 0.0);
    var clock1 := clock.Rebased(first, 0.0);
    var clock2 := clock1.Rebased(second, 10.0);
    var e1, e2, e3 := SetSpeed(first), Tick(10.0), SetSpeed(second);
    SpeedsChange(clock, first, second);
    ClocksChange(first, second);
    SettingUp(clock2, 10.0, 0.0, deadline);
    RunFromFront(Initial(clock1, 10.0, 0.0), e3, SetUp(deadline));
    RunFromFront(Initial(clock1, 0.0, 0.0), e2, [e3] + SetUp(deadline));
    RunFromFront(w, e1, [e2] + ([e3] + SetUp(deadline)));
    assert TwoSpeeds(first, second, deadline) == [e1] + ([e2] + ([e3] + SetUp(deadline)));
  }

  // ----- Mutual exclusion -----

  /** The thread that the step makes the owner of a mutex. */
  function Grants(w: World, e: Event, m: nat): Option<nat>
    requires Enabled(w, e)
  {
    match e
    case Wake(t) => if Wanted(w, t) == Some(m) then Some(t) else None
    case Lock(l) => if l == m && w.mutexes[m].held == None then Some(w.current) else None
    case _ => None
  }

  /** The step makes a mutex free: it is unlocked, or given back for a wait, by a thread that may do so, without a
      phantom lock, and for the last time. */
  predicate Releases(w: World, e: Event, m: nat) {
    && m in w.mutexes && (e == Unlock(m) || (e.CondWait? && e.mutex == m && CanWait(w, e.cond, m)))
    && var mutex := w.mutexes[m];
       && mutex.held.Some? && mutex.held.value.count <= 1
       && (mutex.kind != Plain ==> mutex.held.value.owner == w.current)
       && (w.current in mutex.phantom ==> mutex.phantom[w.current] == 0)
  }

  /** A mutex becomes free in these steps and no others. */
  lemma OnlyReleasesFree(w: World, e: Event, m: nat)
    requires Enabled(w, e) && m in w.mutexes && w.mutexes[m].held.Some?
    ensures Releases(w, e, m) <==> m !in Apply(w, e).mutexes || Apply(w, e).mutexes[m].held == None
  {
    if Releases(w, e, m) {
      hide Woken, TimedOut, Sound, Ready;
    } else {
      OwnerStays(w, e, m);
    }
  }

  lemma OwnerStays(w: World, e: Event, m: nat)
    requires Enabled(w, e) && m in w.mutexes && w.mutexes[m].held.Some? && !Releases(w, e, m)
    ensures m in Apply(w, e).mutexes && Apply(w, e).mutexes[m].held.Some?
    ensures Apply(w, e).mutexes[m].held.value.owner == w.mutexes[m].held.value.owner
    ensures Grants(w, e, m) == None
  {
    if e.Wake? {
      WakeLeavesHeld(w, e.thread, m);
    } else if e.Lock? || e.MutexInit? || e.MutexDestroy? {
      OwnerStaysLocked(w, e, m);
    } else if e.Unlock? || e.CondWait? {
      OwnerKeeps(w, e, m);
    } else {
      MutexesUntouched(w, e);
    }
  }

  lemma OwnerStaysLocked(w: World, e: Event, m: nat)
    requires Enabled(w, e) && m in w.mutexes && w.mutexes[m].held.Some? && (e.Lock? || e.MutexInit? || e.MutexDestroy?)
    ensures m in Apply(w, e).mutexes && Apply(w, e).mutexes[m].held.Some?
    ensures Apply(w, e).mutexes[m].held.value.owner == w.mutexes[m].held.value.owner
    ensures Grants(w, e, m) == None
  {
    hide Woken, TimedOut, Sound, Ready, Expired, CanWait, CondWaited, Taken, Unlocked;
  }

  lemma OwnerKeeps(w: World, e: Event, m: nat)
    requires Enabled(w, e) && m in w.mutexes && w.mutexes[m].held.Some? && !Releases(w, e, m) && (e.Unlock? || e.CondWait?)
    ensures m in Apply(w, e).mutexes && Apply(w, e).mutexes[m].held.Some?
    ensures Apply(w, e).mutexes[m].held.value.owner == w.mutexes[m].held.value.owner
  {
    hide Woken, TimedOut, Sound, Ready, Expired, LockedBy, Taken;
  }

  lemma WakeLeavesHeld(w: World, t: nat, m: nat)
    requires Enabled(w, Wake(t)) && m in w.mutexes && w.mutexes[m].held.Some?
    ensures Wanted(w, t) != Some(m) && m in Woken(w, t).mutexes && Woken(w, t).mutexes[m] == w.mutexes[m]
  {
    hide Without;
  }

  lemma MutexesUntouched(w: World, e: Event)
    requires Enabled(w, e) && !e.Wake? && !e.Lock? && !e.MutexInit? && !e.MutexDestroy? && !e.Unlock? && !e.CondWait?
    ensures Apply(w, e).mutexes == w.mutexes
  {
    hide Sound, Ready, Expired, CanWait;
  }

  ghost predicate NeverGranted(w: World, events: seq<Event>, m: nat)
    requires IsRun(w, events)
  {
    events == [] ||
    var front, e := events[..|events| - 1], events[|events| - 1];
    NeverGranted(w, front, m) && Grants(After(w, front), e, m) == None
  }

  ghost predicate NeverReleased(w: World, events: seq<Event>, m: nat)
    requires IsRun(w, events)
  {
    events == [] ||
    var front, e := events[..|events| - 1], events[|events| - 1];
    NeverReleased(w, front, m) && !Releases(After(w, front), e, m)
  }

  /** Until a call really releases a mutex, it stays with its owner and nobody else gets it. */
  lemma {:induction false} MutualExclusion(w: World, events: seq<Event>, m: nat)
    requires IsRun(w, events) && m in w.mutexes && w.mutexes[m].held.Some? && NeverReleased(w, events, m)
    ensures m in After(w, events).mutexes && After(w, events).mutexes[m].held.Some?
    ensures After(w, events).mutexes[m].held.value.owner == w.mutexes[m].held.value.owner
    ensures NeverGranted(w, events, m)
  {
    hide Enabled, Apply, Grants, Releases;
    if events == [] {
    } else {
      var front := events[..|events| - 1];
      MutualExclusion(w, front, m);
      OwnerStays(After(w, front), events[|events| - 1], m);
    }
  }

  // ----- Semaphores -----

  /** The step hands one unit of the semaphore to a thread. */
  predicate TakesUnit(w: World, e: Event, s: nat)
    requires Enabled(w, e)
  {
    match e
    case Wake(t) => w.threads[t].blockedBy == Semaphore(s) && s in w.semaphores
    case SemWait(r, _) => r == s && s in w.semaphores && w.semaphores[s].value > 0
    case _ => false
  }

  ghost function Posts(events: seq<Event>, s: nat): nat {
    if events == [] then 0
    else Posts(events[..|events| - 1], s) + if events[|events| - 1] == SemPost(s) then 1 else 0
  }

  ghost function Units(w: World, events: seq<Event>, s: nat): nat
    requires IsRun(w, events)
  {
    if events == [] then 0
    else
      var front, e := events[..|events| - 1], events[|events| - 1];
      Units(w, front, s) + if TakesUnit(After(w, front), e, s) then 1 else 0
  }

  lemma SemaphoreStep(w: World, e: Event, s: nat)
    requires Enabled(w, e) && s in w.semaphores && e != SemDestroy(s)
    ensures s in Apply(w, e).semaphores
    ensures Apply(w, e).semaphores[s].value ==
            w.semaphores[s].value + (if e == SemPost(s) then 1 else 0) - (if TakesUnit(w, e, s) then 1 else 0)
    ensures TakesUnit(w, e, s) ==> w.semaphores[s].value > 0
  {
    if e.Wake? {
      hide IsDue, Without;
    } else if e.SemInit? || e.SemDestroy? || e.SemPost? || e.SemWait? {
      hide Woken, TimedOut, Sound, Ready;
    } else {
      SemaphoresUntouched(w, e);
    }
  }

  lemma SemaphoresUntouched(w: World, e: Event)
    requires Enabled(w, e) && !e.Wake? && !e.SemInit? && !e.SemDestroy? && !e.SemPost? && !e.SemWait?
    ensures Apply(w, e).semaphores == w.semaphores
  {
    hide Sound, Ready, Expired, CanWait, Unlocked;
  }

  /** While a semaphore stays open, what it started with and the posts make up its value and the units taken;
      it never hands out more than it got. */
  lemma {:induction false} SemaphoreConservation(w: World, events: seq<Event>, s: nat)
    requires IsRun(w, events) && s in w.semaphores && SemDestroy(s) !in events
    ensures s in After(w, events).semaphores
    ensures w.semaphores[s].value + Posts(events, s) == After(w, events).semaphores[s].value + Units(w, events, s)
    ensures w.semaphores[s].value >= 0 ==> Units(w, events, s) <= w.semaphores[s].value + Posts(events, s)
  {
    hide Enabled, Apply, TakesUnit;
    if events == [] {
    } else {
      var front, e := events[..|events| - 1], events[|events| - 1];
      SemaphoreConservation(w, front, s);
      assert e in events;
      SemaphoreStep(After(w, front), e, s);
    }
  }

  // ----- Condition variables -----

  /** The step ends a thread's wait on a condition variable because its time is up. */
  predicate Quits(w: World, e: Event, t: nat)
    requires Enabled(w, e)
  {
    e == TimeOut(t) || (e == Wake(t) && w.threads[t].blockedBy.Condition? && !IsSignalled(w, t))
  }

  ghost predicate Ahead(q: seq<nat>, t: nat, u: nat) {
    exists i, j :: 0 <= i < j < |q| && q[i] == t && q[j] == u
  }

  lemma AheadOfMore(q: seq<nat>, t: nat, u: nat, x: nat)
    requires Ahead(q, t, u)
    ensures Ahead(q + [x], t, u)
  {
    var i, j :| 0 <= i < j < |q| && q[i] == t && q[j] == u;
    assert (q + [x])[i] == t && (q + [x])[j] == u;
  }

  lemma {:induction false} AheadOfFewer(q: seq<nat>, t: nat, u: nat, x: nat)
    requires Ahead(q, t, u) && x != t && x != u
    ensures Ahead(Without(q, x), t, u)
  {
    hide Without;
    var i, j :| 0 <= i < j < |q| && q[i] == t && q[j] == u;
    var front, last := q[..|q| - 1], q[|q| - 1];
    assert q == front + [last];
    WithoutLast(front, last, x);
    if j < |front| {
      assert front[i] == t && front[j] == u;
      AheadOfFewer(front, t, u, x);
      if last == x {
        assert Without(front, x) + [] == Without(front, x);
      } else {
        AheadOfMore(Without(front, x), t, u, last);
      }
    } else {
      assert front[i] == t;
      LastIsBehind(Without(front, x), t, u);
    }
  }

  lemma LastIsBehind(q: seq<nat>, t: nat, u: nat)
    requires t in q
    ensures Ahead(q + [u], t, u)
  {
    var k :| 0 <= k < |q| && q[k] == t;
    assert (q + [u])[k] == t && (q + [u])[|q|] == u;
  }

  /** How one step may change who waits on a condition variable. */
  lemma QueueStep(w: World, e: Event, c: nat)
    requires Consistent(w) && Enabled(w, e) && c in w.conds && e != CondInit(c) && e != CondDestroy(c)
    ensures c in Apply(w, e).conds
    ensures var q, q' := w.conds[c].Queue(), Apply(w, e).conds[c].Queue();
            || q' == q
            || (e.CondWait? && e.cond == c && q' == q + [w.current])
            || ((e.Wake? || e.TimeOut?) && q' == Without(q, e.thread) && (!Quits(w, e, e.thread) ==>
                q != [] && q[0] == e.thread))
  {
    if e.Wake? || e.TimeOut? {
      WakeQueueStep(w, e, c);
    } else if e == CondSignal(c) || e == CondBroadcast(c) {
      SignalKeepsQueue(w, e, c);
    } else if e == CondFinish {
      FinishKeepsQueues(w, c);
    } else if e.CondWait? && e.cond == c && CanWait(w, c, e.mutex) {
      var cond := w.conds[c];
      assert cond.waking + (cond.waiting + [w.current]) == cond.Queue() + [w.current];
    } else {
      CondUnaffected(w, e, c);
    }
  }

  lemma WakeQueueStep(w: World, e: Event, c: nat)
    requires Consistent(w) && Enabled(w, e) && c in w.conds && (e.Wake? || e.TimeOut?)
    ensures c in Apply(w, e).conds
    ensures var q, q' := w.conds[c].Queue(), Apply(w, e).conds[c].Queue();
            q' == q || (q' == Without(q, e.thread) && (!Quits(w, e, e.thread) ==> q != [] && q[0] == e.thread))
  {
    hide ThreadFits, SemFits, HasTimedOut, WaitsOnCond, Without;
    var b := w.threads[e.thread].blockedBy;
    if b.Condition? && b.cond == c {
      assert CondFits(w, c);
      if Quits(w, e, e.thread) {
        TimeOutLeavesQueue(w.conds[c], e.thread);
      } else {
        SignalledLeavesQueue(w.conds[c]);
      }
    }
  }

  lemma FinishKeepsQueues(w: World, c: nat)
    requires Enabled(w, CondFinish) && c in w.conds
    ensures c in Apply(w, CondFinish).conds && Apply(w, CondFinish).conds[c].Queue() == w.conds[c].Queue()
  {
  }

  lemma CondUnaffected(w: World, e: Event, c: nat)
    requires Enabled(w, e) && c in w.conds && !e.Wake? && !e.TimeOut? && e != CondFinish
    requires e.CondInit? || e.CondDestroy? || e.CondSignal? || e.CondBroadcast? ==> e.cond != c
    requires e.CondWait? ==> e.cond != c || !CanWait(w, c, e.mutex)
    ensures c in Apply(w, e).conds && Apply(w, e).conds[c] == w.conds[c]
  {
    hide Sound, Ready, Expired, CanWait, Unlocked, Woken, TimedOut;
  }

  /** Thread `t` waits on `c` all along, and `u` does not time out. */
  ghost predicate BothWait(w: World, events: seq<Event>, c: nat, t: nat, u: nat)
    requires IsRun(w, events)
  {
    (c in After(w, events).conds && t in After(w, events).conds[c].Queue()) &&
    (events == [] ||
     var front, e := events[..|events| - 1], events[|events| - 1];
     BothWait(w, front, c, t, u) && !Quits(After(w, front), e, u) && e != CondInit(c) && e != CondDestroy(c))
  }

  /** Signals serve waiters in order: as long as `t` still waits, one behind it has not been woken, unless its time was up. */
  lemma {:induction false} SignalsServeInOrder(w: World, events: seq<Event>, c: nat, t: nat, u: nat)
    requires Consistent(w) && IsRun(w, events) && IsClean(w, events) && t != u
    requires BothWait(w, events, c, t, u) && c in w.conds && Ahead(w.conds[c].Queue(), t, u)
    ensures Ahead(After(w, events).conds[c].Queue(), t, u)
  {
    hide Enabled, Apply, Consistent, Misuse, HostCond.Queue, Quits, Without, Ahead;
    if events == [] {
    } else {
      var front, e := events[..|events| - 1], events[|events| - 1];
      SignalsServeInOrder(w, front, c, t, u);
      RunKeepsConsistent(w, front);
      var before := After(w, front);
      assert Distinct(before.conds[c].Queue()) by {
        QueueIsDistinct(before, c);
      }
      QueueStep(before, e, c);
      InOrderStep(before, e, c, t, u);
    }
  }

  lemma QueueIsDistinct(w: World, c: nat)
    requires Consistent(w) && c in w.conds
    ensures Distinct(w.conds[c].Queue())
  {
    assert CondFits(w, c);
  }

  lemma InOrderStep(w: World, e: Event, c: nat, t: nat, u: nat)
    requires Enabled(w, e) && c in w.conds && c in Apply(w, e).conds && t != u
    requires Ahead(w.conds[c].Queue(), t, u) && t in Apply(w, e).conds[c].Queue() && !Quits(w, e, u)
    requires Distinct(w.conds[c].Queue())
    requires var q, q' := w.conds[c].Queue(), Apply(w, e).conds[c].Queue();
            || q' == q
            || (e.CondWait? && e.cond == c && q' == q + [w.current])
            || ((e.Wake? || e.TimeOut?) && q' == Without(q, e.thread) && (!Quits(w, e, e.thread) ==>
                q != [] && q[0] == e.thread))
    ensures Ahead(Apply(w, e).conds[c].Queue(), t, u)
  {
    hide Enabled, Apply, HostCond.Queue, Quits;
    var q, q' := w.conds[c].Queue(), Apply(w, e).conds[c].Queue();
    if q' == q {
    } else if e.CondWait? {
      AheadOfMore(q, t, u, w.current);
    } else if e.thread == u {
      NotFirst(q, t, u);
    } else {
      assert e.thread != t;
      AheadOfFewer(q, t, u, e.thread);
    }
  }

  lemma NotFirst(q: seq<nat>, t: nat, u: nat)
    requires Ahead(q, t, u) && Distinct(q)
    ensures q[0] != u
  {
  }

  // ----- Suspension -----

  ghost function Count(events: seq<Event>, e: Event): nat {
    if events == [] then 0
    else Count(events[..|events| - 1], e) + if events[|events| - 1] == e then 1 else 0
  }

  lemma SuspendedStep(w: World, e: Event, t: nat)
    requires Enabled(w, e) && t < |w.threads| && w.threads[t].blockedBy.Suspended?
    requires e == Resume(t) ==> w.threads[t].blockedBy.count > 1
    ensures t < |Apply(w, e).threads| && e != Wake(t) && e != Dispatch(t)
    ensures var n, b := w.threads[t].blockedBy.count, w.threads[t].blockedBy.previous;
            Apply(w, e).threads[t].blockedBy ==
            Suspended(n + (if e == Suspend(t) then 1 else 0) - (if e == Resume(t) then 1 else 0), b)
  {
    if e == Suspend(t) || e == Resume(t) {
    } else if e.Wake? || e.TimeOut? {
      hide IsDue, Without;
    } else {
      OthersUntouched(w, e, t);
    }
  }

  /** A call changes at most the thread that makes it, or the one it suspends or resumes. */
  lemma OthersUntouched(w: World, e: Event, t: nat)
    requires Enabled(w, e) && !e.Wake? && !e.TimeOut? && t < |w.threads|
    requires (!e.IsScheduling() ==> t != w.current) && e != Suspend(t) && e != Resume(t)
    ensures t < |Apply(w, e).threads| && Apply(w, e).threads[t] == w.threads[t]
  {
    hide Sound, Ready, Expired, CanWait, Unlocked, World.Relocked, Woken, TimedOut;
  }

  /** A suspended thread stays suspended, and keeps what it waits for, until it is resumed as often as it was suspended;
      it is never chosen before. */
  lemma {:induction false} SuspensionHolds(w: World, events: seq<Event>, t: nat)
    requires IsRun(w, events) && t < |w.threads| && w.threads[t].blockedBy.Suspended?
    requires Count(events, Resume(t)) < w.threads[t].blockedBy.count
    ensures t < |After(w, events).threads| && Wake(t) !in events && Dispatch(t) !in events
    ensures var n, b := w.threads[t].blockedBy.count, w.threads[t].blockedBy.previous;
            After(w, events).threads[t].blockedBy ==
            Suspended(n + Count(events, Suspend(t)) - Count(events, Resume(t)), b)
  {
    hide Enabled, Apply;
    if events == [] {
    } else {
      var front, e := events[..|events| - 1], events[|events| - 1];
      SuspensionHolds(w, front, t);
      SuspendedStep(After(w, front), e, t);
      assert events == front + [e];
    }
  }

  // ----- Signalled waiters -----

  /** A signalled waiter can run exactly when it is the first of those signalled, or its time is up, and its mutex is free. */
  lemma SignalledCanRun(w: World, t: nat)
    requires Consistent(w) && w.IsActive(t) && w.threads[t].blockedBy.Condition?
    ensures var c := w.threads[t].blockedBy.cond;
            && Sound(w, t) && c in w.conds && w.conds[c].mutex.Some?
            && (Ready(w, t) <==>
                  && !w.Locked(w.conds[c].mutex.value)
                  && ((w.conds[c].waking != [] && w.conds[c].waking[0] == t) || IsDue(w, t)))
  {
    ConsistentIsSound(w, t);
    hide Consistent, IsDue;
  }

  /** A suspended waiter stays in the queue. */
  lemma {:induction false} SuspendedStaysQueued(w: World, events: seq<Event>, c: nat, u: nat, t: nat)
    requires Consistent(w) && IsRun(w, events) && IsClean(w, events) && NeverQuits(w, events, t)
    requires WaitsOnCond(w, u, c) && w.threads[u].blockedBy.Suspended? && Count(events, Resume(u)) < w.threads[u].blockedBy.count
    ensures BothWait(w, events, c, u, t)
  {
    hide Enabled, Apply, Consistent, Misuse, HostCond.Queue, Quits;
    SuspensionHolds(w, events, u);
    RunKeepsConsistent(w, events);
    StillQueued(After(w, events), c, u);
    if events == [] {
    } else {
      var front, e := events[..|events| - 1], events[|events| - 1];
      SuspendedStaysQueued(w, front, c, u, t);
      SuspensionHolds(w, front, u);
      QueueIsNeeded(After(w, front), e, c, u);
    }
  }

  lemma StillQueued(w: World, c: nat, u: nat)
    requires Consistent(w) && WaitsOnCond(w, u, c)
    ensures c in w.conds && u in w.conds[c].Queue()
  {
    assert ThreadFits(w, u);
    assert CondFits(w, c);
  }

  lemma QueueIsNeeded(w: World, e: Event, c: nat, u: nat)
    requires Enabled(w, e) && !Misuse(w, e) && WaitsOnCond(w, u, c) && c in w.conds && u in w.conds[c].Queue()
    ensures e != CondInit(c) && e != CondDestroy(c)
  {
    hide Sound, Ready, Expired, CanWait;
  }

  /** The thread does not leave a condition variable because its time is up. */
  ghost predicate NeverQuits(w: World, events: seq<Event>, t: nat)
    requires IsRun(w, events)
  {
    events == [] ||
    var front, e := events[..|events| - 1], events[|events| - 1];
    NeverQuits(w, front, t) && !Quits(After(w, front), e, t)
  }

  /** Only the first of the signalled waiters can leave, so that while it is suspended nobody behind it does, signalled or
      not and even with the mutex free, unless its time is up. */
  lemma SuspendedWaiterBlocksOthers(w: World, events: seq<Event>, c: nat, u: nat, t: nat)
    requires Consistent(w) && IsRun(w, events) && IsClean(w, events) && NeverQuits(w, events, t) && t != u
    requires WaitsOnCond(w, u, c) && w.threads[u].blockedBy.Suspended? && Count(events, Resume(u)) < w.threads[u].blockedBy.count
    requires c in w.conds && Ahead(w.conds[c].Queue(), u, t)
    ensures c in After(w, events).conds && Ahead(After(w, events).conds[c].Queue(), u, t)
    ensures var v := After(w, events); WaitsOnCond(v, t, c) && Sound(v, t) && (Ready(v, t) ==> IsDue(v, t))
  {
    hide Enabled, Apply, Consistent, Misuse, HostCond.Queue, Quits, WaitsOnCond, Ready, IsDue, Sound, Ahead;
    SuspendedStaysQueued(w, events, c, u, t);
    SignalsServeInOrder(w, events, c, u, t);
    RunKeepsConsistent(w, events);
    BehindCannotWake(After(w, events), c, u, t);
  }

  lemma BehindCannotWake(w: World, c: nat, u: nat, t: nat)
    requires Consistent(w) && c in w.conds && Ahead(w.conds[c].Queue(), u, t) && t != u
    ensures WaitsOnCond(w, t, c) && Sound(w, t) && (Ready(w, t) ==> IsDue(w, t))
  {
    QueueIsDistinct(w, c);
    assert CondFits(w, c);
    assert t in w.conds[c].Queue() && WaitsOnCond(w, t, c);
    ConsistentIsSound(w, t);
    hide Consistent, IsDue, MutexIsFree;
    NotFirst(w.conds[c].Queue(), u, t);
  }
}
