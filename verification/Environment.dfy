/** The emulator's thread bookkeeping as it is done in place, proved against the thread machine. */
module Environment {
  import opened Common
  import GuestClock
  import opened Threads
  import opened ThreadInvariants
  import opened Scheduler
  import opened Fairness

  // ----- Runs of the scheduler -----

  lemma TryIsRun(w0: World, events: seq<Event>, w: World, w': World, t: nat,
      due: Option<real>) returns (events': seq<Event>)
    requires IsRun(w0, events) && IsWaiting(events) && After(w0, events) == w
    requires w.IsActive(t) && StaysBehind(w, w', t, due)
    ensures IsRun(w0, events') && IsWaiting(events') && After(w0, events') == w'
  {
    hide Woken, IsRun, After, Ready;
    RunStep(w0, events, Tick(w'.now));
    events' := events + [Tick(w'.now)];
    if w' != w.(now := w'.now) {
      RunStep(w0, events', TimeOut(t));
      events' := events' + [TimeOut(t)];
    }
  }

  lemma WakeIsRun(w0: World, events: seq<Event>, w: World, w': World, t: nat)
    requires IsRun(w0, events) && After(w0, events) == w && w.now <= w'.now && w.IsActive(t)
    requires var later := w.(now := w'.now); Sound(later, t) && Ready(later, t) && w' == Woken(later, t)
    ensures IsRun(w0, events + [Tick(w'.now)] + [Wake(t)]) && After(w0, events + [Tick(w'.now)] + [Wake(t)]) == w'
  {
    hide Woken, IsRun, After, Ready;
    RunStep(w0, events, Tick(w'.now));
    RunStep(w0, events + [Tick(w'.now)], Wake(t));
  }

  // ----- The environment -----

  class Environment {
    var threads: seq<Thread>
    var current: nat
    var mutexes: map<nat, HostMutex>
    var semaphores: map<nat, HostSemaphore>
    var conds: map<nat, HostCond>
    var memory: map<nat, nat>
    var clock: GuestClock.Anchor
    var now: real
    const wallOffset: real
    var graceUsed: nat

    ghost function State(): World
      reads this
    {
      World(threads, current, mutexes, semaphores, conds, memory, clock, now, wallOffset)
    }

    ghost predicate Valid()
      reads this
    {
      Consistent(State()) && graceUsed <= GRACE_ATTEMPTS
    }

    constructor (clock: GuestClock.Anchor, now: real, wallOffset: real)
      requires clock.host <= now
      ensures Valid() && State() == World([Thread(true, NotBlocked, None, None)], 0, map[], map[], map[], map[],
          clock, now, wallOffset)
    {
      threads := [Thread(true, NotBlocked, None, None)];
      current := 0;
      mutexes := map[];
      semaphores := map[];
      conds := map[];
      memory := map[];
      this.clock := clock;
      this.now := now;
      this.wallOffset := wallOffset;
      graceUsed := 0;
      new;
      assert ThreadFits(State(), 0);
    }

    /** The host clock, which never goes back. */
    method ReadClock()
      modifies `now
      ensures old(now) <= now
    {
      var passed: real := *;
      if passed > 0.0 {
        now := now + passed;
      }
    }

    /** The host thread's own sleep, which lasts at least as long as it is asked to. */
    method HostSleep(duration: real)
      modifies `now
      ensures old(now) <= now && old(now) + duration <= now
    {
      if duration > 0.0 {
        now := now + duration;
      }
      ReadClock();
    }

    method Unblock(t: nat)
      requires t < |threads|
      modifies `threads
      ensures State() == old(State()).Blocked(t, NotBlocked)
    {
      threads := threads[t := threads[t].(blockedBy := NotBlocked)];
    }

    method RelockUnblockedMutex(t: nat, m: nat)
      requires m in mutexes && mutexes[m].held == None
      modifies `mutexes
      ensures State() == old(State()).Relocked(t, m)
    {
      var mutex := mutexes[m];
      mutex := mutex.(held := Some(Hold(t, 1)));
      if mutex.waitingCount > 0 {
        mutex := mutex.(waitingCount := mutex.waitingCount - 1);
      }
      mutexes := mutexes[m := mutex];
    }

    // ----- Blocking -----

    method YieldThread(block: Block)
      requires Enabled(State(), Yield(block))
      modifies `threads
      ensures State() == Apply(old(State()), Yield(block))
    {
      threads := threads[current := threads[current].(blockedBy := block)];
    }

    /** The thread is due exactly `duration` of host time after the clock is read. */
    method Sleep(duration: real)
      requires State().Running()
      modifies `threads, `now
      ensures old(now) <= now && State() == Apply(old(State()).(now := now), Yield(Sleeping(now + duration)))
    {
      ReadClock();
      YieldThread(Sleeping(now + duration));
    }

    method SleepGuest(duration: real)
      requires State().Running()
      modifies `threads, `now
      ensures old(now) <= now
      ensures State() == Apply(old(State()).(now := now), Yield(GuestSleeping(clock.GuestAt(now) + duration)))
    {
      ReadClock();
      YieldThread(GuestSleeping(clock.GuestAt(now) + duration));
    }

    method JoinWithThread(joinee: nat, ptr: nat)
      requires State().Running() && joinee < |threads|
      modifies `threads
      ensures State() == Apply(old(State()), Yield(Joining(joinee, ptr)))
    {
      YieldThread(Joining(joinee, ptr));
    }

    method SuspendThread(t: nat)
      requires Enabled(State(), Suspend(t))
      modifies `threads
      ensures State() == Apply(old(State()), Suspend(t))
    {
      match threads[t].blockedBy
      case Suspended(count, previous) =>
        threads := threads[t := threads[t].(blockedBy := Suspended(count + 1, previous))];
      case previous =>
        threads := threads[t := threads[t].(blockedBy := Suspended(1, previous))];
    }

    /** A thread that is not suspended is left as it is. */
    method ResumeThread(t: nat)
      requires Enabled(State(), Resume(t))
      modifies `threads
      ensures State() == Apply(old(State()), Resume(t))
    {
      var block := threads[t].blockedBy;
      threads := threads[t := threads[t].(blockedBy := NotBlocked)];
      match block {
        case Suspended(count, previous) =>
          if count > 1 {
            threads := threads[t := threads[t].(blockedBy := Suspended(count - 1, previous))];
          } else {
            threads := threads[t := threads[t].(blockedBy := previous)];
          }
        case other =>
          threads := threads[t := threads[t].(blockedBy := other)];
      }
    }

    // ----- Semaphores -----

    /** Fails exactly when there is no such semaphore, or it cannot be had at once by someone who would not wait. */
    method SemDecrement(s: nat, waitOnLock: bool) returns (ok: bool)
      requires State().Running()
      modifies `threads, `semaphores
      ensures State() == Apply(old(State()), SemWait(s, waitOnLock))
      ensures ok <==> s in old(semaphores) && (old(semaphores)[s].value > 0 || waitOnLock)
      ensures ok && old(semaphores)[s].value <= 0 ==> threads[current].blockedBy == Semaphore(s)
    {
      if s !in semaphores {
        return false;
      }
      var sem := semaphores[s];
      if sem.value > 0 {
        semaphores := semaphores[s := sem.(value := sem.value - 1)];
        return true;
      }
      if !waitOnLock {
        return false;
      }
      semaphores := semaphores[s := sem.(waiting := sem.waiting + {current})];
      threads := threads[current := threads[current].(blockedBy := Semaphore(s))];
      return true;
    }

    method SemIncrement(s: nat) returns (known: bool)
      requires State().Running()
      modifies `semaphores
      ensures State() == Apply(old(State()), SemPost(s)) && (known <==> s in old(semaphores))
    {
      if s !in semaphores {
        return false;
      }
      semaphores := semaphores[s := semaphores[s].(value := semaphores[s].value + 1)];
      return true;
    }

    // ----- Mutexes -----

    /** The lock count, or none for a deadlock that an error-checking mutex has noticed. */
    method LockMutex(m: nat) returns (count: Option<nat>)
      requires State().Running() && m in mutexes
      modifies `threads, `mutexes
      ensures State() == Apply(old(State()), Lock(m))
      ensures count == None <==>
              old(mutexes)[m].kind == ErrorCheck && old(mutexes)[m].held.Some?
                  && old(mutexes)[m].held.value.owner == current
      ensures count.Some? ==>
                var held := old(mutexes)[m].held;
                count.value == if old(mutexes)[m].kind == Recursive && held.Some?
                    && held.value.owner == current then held.value.count + 1 else 1
    {
      var mutex := mutexes[m];
      if mutex.held == None {
        mutexes := mutexes[m := mutex.(held := Some(Hold(current, 1)))];
        return Some(1);
      }
      var Hold(owner, lockCount) := mutex.held.value;
      if owner == current {
        match mutex.kind
        case Plain =>
          var n := if current in mutex.phantom then mutex.phantom[current] else 0;
          mutexes := mutexes[m := mutex.(phantom := mutex.phantom[current := n + 1])];
          return Some(1);
        case ErrorCheck =>
          return None;
        case Recursive =>
          mutexes := mutexes[m := mutex.(held := Some(Hold(owner, lockCount + 1)))];
          return Some(lockCount + 1);
      }
      mutexes := mutexes[m := mutex.(waitingCount := mutex.waitingCount + 1)];
      threads := threads[current := threads[current].(blockedBy := Mutex(m))];
      return Some(1);
    }

    /** The lock count that is left, or none if the lock is not the caller's to give; consuming a phantom lock leaves none
        to count. */
    method UnlockMutex(m: nat) returns (count: Option<nat>)
      requires State().Running() && m in mutexes
      modifies `mutexes
      ensures State() == Apply(old(State()), Unlock(m)) && (count.Some? <==> Unlocked(old(mutexes)[m], current).Some?)
      ensures count.Some? ==>
                var phantom, held := old(mutexes)[m].phantom, old(mutexes)[m].held;
                if current in phantom && phantom[current] > 0 then count.value == 0
                else held.Some? && count.value == (if held.value.count > 0 then held.value.count - 1 else 0)
    {
      var mutex := mutexes[m];
      if current in mutex.phantom && mutex.phantom[current] > 0 {
        var n := mutex.phantom[current] - 1;
        mutexes := mutexes[m := mutex.(phantom := if n == 0 then mutex.phantom - {current} else mutex.phantom[current := n])];
        return Some(0);
      }
      if mutex.held == None {
        return None;
      }
      var Hold(owner, lockCount) := mutex.held.value;
      if owner != current && mutex.kind != Plain {
        return None;
      }
      if lockCount <= 1 {
        mutexes := mutexes[m := mutex.(held := None)];
        return Some(0);
      }
      mutexes := mutexes[m := mutex.(held := Some(Hold(owner, lockCount - 1)))];
      return Some(lockCount - 1);
    }

    // ----- Condition variables -----

    /** The first half of a wait: unlocks the mutex once and blocks, or fails and changes nothing. Afterwards the mutex
        is free if it was, or if it was held by a last lock and there was no phantom lock to be consumed. */
    method CondWaitStart(c: nat, m: nat, deadline: Option<real>) returns (ok: bool)
      requires Enabled(State(), CondWait(c, m, deadline)) && m in mutexes
      modifies `threads, `mutexes, `conds
      ensures State() == Apply(old(State()), CondWait(c, m, deadline)) && (ok <==> CanWait(old(State()), c, m))
      ensures ok ==>
                (mutexes[m].held == None <==>
                   old(mutexes)[m].held == None
                   || (old(mutexes)[m].held.value.count <= 1
                       && (current in old(mutexes)[m].phantom ==> old(mutexes)[m].phantom[current] == 0)))
    {
      if c !in conds {
        return false;
      }
      var unlocked := UnlockMutex(m);
      if unlocked == None {
        return false;
      }
      ok := true;
      var cond := conds[c];
      conds := conds[c := cond.(mutex := Some(m), waiting := cond.waiting + [current])];
      threads := threads[current := threads[current].(blockedBy := Condition(c, deadline), call := Some(Call(c, m,
          deadline.Some?)))];
    }

    /** The second half, after waking up: whether the wait timed out. */
    method CondWaitEnd() returns (timedOut: bool)
      requires Enabled(State(), CondFinish)
      modifies `threads, `conds
      ensures State() == Apply(old(State()), CondFinish)
      ensures timedOut <==> current in old(conds)[old(threads)[current].call.value.cond].timedOut
    {
      var c := threads[current].call.value.cond;
      timedOut := current in conds[c].timedOut;
      conds := conds[c := conds[c].(timedOut := conds[c].timedOut - {current})];
      threads := threads[current := threads[current].(call := None)];
    }

    method CondSignal(c: nat)
      requires State().Running()
      modifies `conds
      ensures State() == Apply(old(State()), Event.CondSignal(c))
    {
      if c in conds && conds[c].waiting != [] {
        var cond := conds[c];
        var first := cond.waiting[0];
        conds := conds[c := cond.(waiting := cond.waiting[1..], waking := cond.waking + [first])];
      }
    }

    method CondBroadcast(c: nat)
      requires State().Running()
      modifies `conds
      ensures State() == Apply(old(State()), Event.CondBroadcast(c))
    {
      if c in conds {
        conds := conds[c := conds[c].(waking := conds[c].waking + conds[c].waiting, waiting := [])];
      }
    }

    // ----- Looking at one thread -----

    /** What looking at a thread comes to: it wakes up now, or it stays behind, with its deadline. */
    ghost predicate Tried(before: World, t: nat, woken: bool, due: Option<real>)
      reads this
    {
      var later := before.(now := now);
      && before.now <= now && before.IsActive(t)
      && if woken then Sound(later, t) && Ready(later, t) && State() == Woken(later, t)
         else StaysBehind(before, State(), t, due)
    }

    /** The time of a wait is up: the thread leaves the queue, and wakes up unless its mutex is taken. */
    method GiveUpCondition(t: nat) returns (woken: bool)
      requires State().IsActive(t) && Sound(State(), t) && threads[t].blockedBy.Condition?
      requires IsDue(State(), t) && !ReadyAnyway(State(), t)
      modifies `threads, `mutexes, `conds
      ensures if woken then Ready(old(State()), t) && State() == Woken(old(State()), t)
              else Expired(old(State()), t) && State() == TimedOut(old(State()), t)
    {
      hide IsDue, Without;
      var c := threads[t].blockedBy.cond;
      var m := conds[c].mutex.value;
      conds := conds[c := TimedOutCond(conds[c], t)];
      woken := mutexes[m].held == None;
      if woken {
        Unblock(t);
        RelockUnblockedMutex(t, m);
      } else {
        threads := threads[t := threads[t].(blockedBy := Mutex(m))];
      }
    }

    /** The wait is over because of a signal, and the mutex is free. */
    method LeaveCondition(t: nat)
      requires State().IsActive(t) && Sound(State(), t) && threads[t].blockedBy.Condition?
      requires IsSignalled(State(), t) && MutexIsFree(State(), t)
      modifies `threads, `mutexes, `conds
      ensures Ready(old(State()), t) && State() == Woken(old(State()), t)
    {
      hide IsDue, Without, TimedOutCond;
      var c := threads[t].blockedBy.cond;
      var cond := conds[c];
      conds := conds[c := cond.(waking := cond.waking[1..])];
      Unblock(t);
      RelockUnblockedMutex(t, cond.mutex.value);
    }

    method TryCondition(t: nat) returns (woken: bool, due: Option<real>)
      requires Valid() && State().IsActive(t) && threads[t].blockedBy.Condition?
      modifies `threads, `mutexes, `conds, `now
      ensures Tried(old(State()), t, woken, due)
    {
      ConsistentIsSound(State(), t);
      hide Valid, Consistent, Without, TimedOutCond;
      ReadClock();
      woken, due := false, None;
      var c, deadline := threads[t].blockedBy.cond, threads[t].blockedBy.deadline;
      var cond := conds[c];
      var m := cond.mutex.value;
      if cond.waking != [] && cond.waking[0] == t && mutexes[m].held == None {
        LeaveCondition(t);
        woken := true;
      } else if deadline.Some? {
        var time := now + wallOffset;
        if deadline.value <= time {
          woken := GiveUpCondition(t);
        } else {
          var remaining := deadline.value - time;
          due := Some(now + remaining);
        }
      }
    }

    method TrySleeper(t: nat) returns (woken: bool, due: Option<real>)
      requires Valid() && State().IsActive(t) && (threads[t].blockedBy.Sleeping? || threads[t].blockedBy.GuestSleeping?)
      modifies `threads, `now
      ensures Tried(old(State()), t, woken, due)
    {
      hide Consistent;
      assert clock.host <= now by { ClockHasStarted(State()); }
      ReadClock();
      match threads[t].blockedBy {
        case Sleeping(until) =>
          woken, due := until <= now, Some(until);
        case GuestSleeping(guestDue) =>
          woken, due := guestDue <= clock.GuestAt(now), Some(clock.HostDeadline(guestDue, now));
          if !woken {
            PendingGuestDeadline(clock, guestDue, now);
          }
      }
      if woken {
        Unblock(t);
      }
    }

    method TryMutex(t: nat) returns (woken: bool)
      requires Valid() && State().IsActive(t) && threads[t].blockedBy.Mutex?
      modifies `threads, `mutexes
      ensures Tried(old(State()), t, woken, None)
    {
      ConsistentIsSound(State(), t);
      hide Consistent;
      var m := threads[t].blockedBy.mutex;
      woken := mutexes[m].held == None;
      if woken {
        Unblock(t);
        RelockUnblockedMutex(t, m);
      }
    }

    method TrySemaphore(t: nat) returns (woken: bool)
      requires Valid() && State().IsActive(t) && threads[t].blockedBy.Semaphore?
      modifies `threads, `semaphores
      ensures Tried(old(State()), t, woken, None)
    {
      hide Consistent;
      var s := threads[t].blockedBy.sem;
      woken := true;
      if s in semaphores {
        var sem := semaphores[s];
        woken := sem.value > 0;
        if woken {
          semaphores := semaphores[s := HostSemaphore(sem.value - 1, sem.waiting - {t})];
        }
      }
      if woken {
        Unblock(t);
      }
    }

    method TryJoining(t: nat) returns (woken: bool)
      requires Valid() && State().IsActive(t) && threads[t].blockedBy.Joining?
      modifies `threads, `memory
      ensures Tried(old(State()), t, woken, None)
    {
      ConsistentIsSound(State(), t);
      hide Consistent;
      var joinee, ptr := threads[t].blockedBy.joinee, threads[t].blockedBy.ptr;
      woken := !threads[joinee].active;
      if woken {
        if ptr != 0 {
          match threads[joinee].returnValue
          case Some(value) => memory := memory[ptr := value];
          case None => memory := memory[ptr := 0];
        }
        Unblock(t);
      }
    }

    method TryThread(t: nat) returns (woken: bool, due: Option<real>)
      requires Valid() && State().IsActive(t)
      modifies `threads, `mutexes, `conds, `semaphores, `memory, `now
      ensures Tried(old(State()), t, woken, due)
    {
      ConsistentIsSound(State(), t);
      hide Consistent;
      woken, due := false, None;
      match threads[t].blockedBy
      case NotBlocked => woken := true;
      case Sleeping(_) => woken, due := TrySleeper(t);
      case GuestSleeping(_) => woken, due := TrySleeper(t);
      case Mutex(_) => woken := TryMutex(t);
      case Semaphore(_) => woken := TrySemaphore(t);
      case Condition(_, _) => woken, due := TryCondition(t);
      case Joining(_, _) => woken := TryJoining(t);
      case Suspended(_, _) =>
    }

    // ----- Choosing the next thread -----

    /** Looks at every thread once, beginning with the one after the current one. */
    method Scan() returns (choice: Option<nat>, awakening: Option<real>, ghost events: seq<Event>)
      requires Valid()
      modifies `threads, `mutexes, `conds, `semaphores, `memory, `now
      ensures Valid() && IsRun(old(State()), events) && State() == After(old(State()), events)
      ensures choice.Some? ==> EndsWaking(events, choice.value) && IsNearest(old(State()), choice.value)
      ensures choice.Some? ==> !Deadlocked(old(State()))
      ensures choice == None ==> IsWaiting(events) && Scanned(old(State()), State(), |threads|, awakening)
    {
      hide Consistent, Scanned, IsRun, After, StaysBehind, Woken, Ready, Sound, IsNearest, Deadlocked;
      events, awakening := [], None;
      ghost var start := State();
      RunStarts(start);
      ScanStarts(start);
      ScannedIsConsistent(start, start, 0, None);
      var i := 0;
      while i < |threads|
        invariant Valid() && |threads| == |start.threads| && current == start.current < |threads| && i <= |threads|
        invariant IsRun(start, events) && After(start, events) == State() && IsWaiting(events)
        invariant Scanned(start, State(), i, awakening)
      {
        CandidateIsModulo(|threads|, current, i);
        var t := (current + 1 + i) % |threads|;
        ghost var before := State();
        var woken, due := false, None;
        if threads[t].active {
          woken, due := TryThread(t);
          if woken {
            WakeIsRun(start, events, before, State(), t);
            WakeKeeps(start, before, State(), i, awakening, t);
            events := events + [Tick(now)] + [Wake(t)];
            return Some(t), None, events;
          }
          events := TryIsRun(start, events, before, State(), t, due);
        } else {
          InactiveStaysBehind(before, t);
        }
        ScanTurn(start, before, i, awakening, State(), due);
        ScannedIsConsistent(start, State(), i + 1, Earlier(awakening, due));
        awakening := Earlier(awakening, due);
        i := i + 1;
      }
      choice := None;
    }

    /** Sleeps until exactly the first deadline that is pending, give or take what the host adds to it. */
    method SleepUntil(awakening: real)
      requires Valid() && IsEarliest(State(), Some(awakening))
      modifies `now
      ensures old(now) <= now && awakening <= now && SomeoneDue(State())
    {
      ghost var t :| State().IsActive(t) && Deadline(State(), t) == Some(awakening);
      ClockHasStarted(State());
      HostSleep(awakening - now);
      DueAtDeadline(State(), t);
    }

    /** The next thread to run, set up to be switched to; none when the program has deadlocked. On the way, time may
        pass and waits may run out, but nobody else wakes up. */
    method ScheduleNextThread() returns (choice: Option<nat>, ghost events: seq<Event>)
      requires Valid()
      modifies this
      ensures Valid() && IsRun(old(State()), events) && State() == After(old(State()), events)
      ensures choice.Some? ==> EndsWaking(events, choice.value) && IsNearest(old(State()), choice.value)
      ensures choice.Some? ==> State().IsActive(choice.value) && threads[choice.value].blockedBy == NotBlocked
      ensures choice == None ==> IsWaiting(events) && Deadlocked(State())
      ensures Deadlocked(old(State())) ==> choice == None
    {
      hide Consistent, Scanned, IsRun, After, Deadlocked, IsNearest, IsWaiting, EndsWaking, IsEarliest, SomeoneDue;
      events := [];
      ghost var start := State();
      RunStarts(start);
      ScanStarts(start);
      ScannedIsConsistent(start, start, 0, None);
      while true
        invariant Valid() && IsRun(start, events) && After(start, events) == State() && IsWaiting(events)
        invariant (Deadlocked(start) ==> Deadlocked(State())) && start.current < |start.threads|
        invariant |threads| == |start.threads| && (State() == start || NobodyCanRun(start))
        decreases TimedWaits(threads), GRACE_ATTEMPTS - graceUsed, if SomeoneDue(State()) then 0 else 1
      {
        ghost var before := State();
        var awakening;
        ghost var scan;
        choice, awakening, scan := Scan();
        RunsJoin(start, events, scan);
        if choice.Some? {
          LaterIsNearest(start, before, choice.value);
          WaitingThenWaking(events, scan, choice.value);
          events := events + scan;
          ChosenCanGoOn(start, events, choice.value);
          return;
        }
        ScanEnds(before, State(), awakening);
        ScannedIsConsistent(before, State(), |threads|, awakening);
        WaitingTwice(events, scan);
        ghost var scanned := State();
        events := events + scan;
        if awakening.Some? {
          SleepUntil(awakening.value);
        } else {
          var count := graceUsed;
          graceUsed := graceUsed + 1;
          if count >= GRACE_ATTEMPTS {
            graceUsed := 0;
            return;
          }
          HostSleep(0.01);
        }
        TickKeeps(scanned, State());
        TickIsRun(start, events, scanned, State());
        WaitingTwice(events, [Tick(now)]);
        events := events + [Tick(now)];
      }
    }

    /** The end of the current thread's turn: the next thread is chosen and switched to. */
    method SwitchToNext() returns (choice: Option<nat>, ghost turn: Turn)
      requires Valid()
      modifies this
      ensures Valid() && turn.guest == []
      ensures choice.Some? ==> turn.chosen == choice.value && IsTurn(old(State()), turn) && State() == AfterTurn(old(State()), turn)
      ensures choice == None ==> Deadlocked(State())
    {
      hide Consistent, IsRun, After, Enabled, Apply, Deadlocked, IsNearest, EndsWaking;
      ghost var start := State();
      RunStarts(start);
      ghost var events;
      choice, events := ScheduleNextThread();
      turn := Turn([], events, 0);
      if choice.Some? {
        turn := Turn([], events, choice.value);
        DispatchKeeps(State(), choice.value);
        current := choice.value;
      }
    }
  }

  lemma DispatchKeeps(w: World, t: nat)
    requires Consistent(w) && w.IsActive(t) && w.threads[t].blockedBy == NotBlocked
    ensures Enabled(w, Dispatch(t)) && Consistent(w.(current := t)) && Apply(w, Dispatch(t)) == w.(current := t)
  {
    StepKeepsConsistent(w, Dispatch(t));
  }

  lemma ClockHasStarted(w: World)
    requires Consistent(w)
    ensures w.clock.host <= w.now
  {
  }

  lemma RunStarts(w: World)
    ensures IsRun(w, []) && After(w, []) == w && IsWaiting([])
  {
  }

  lemma InactiveStaysBehind(w: World, t: nat)
    requires !w.IsActive(t)
    ensures StaysBehind(w, w, t, None)
  {
  }

  lemma ScannedIsConsistent(w0: World, w: World, i: nat, awakening: Option<real>)
    requires Scanned(w0, w, i, awakening)
    ensures Consistent(w) && |w.threads| == |w0.threads| && w.current == w0.current < |w.threads| && i <= |w.threads|
    ensures TimedWaits(w.threads) <= TimedWaits(w0.threads)
  {
  }

  predicate NobodyCanRun(w: World) {
    forall u: nat :: u < |w.threads| ==> !CanRun(w, u)
  }

  lemma TickKeeps(w: World, w': World)
    requires Consistent(w) && w.now <= w'.now && w' == w.(now := w'.now)
    ensures Consistent(w') && (Deadlocked(w) ==> Deadlocked(w'))
  {
    StepKeepsConsistent(w, Tick(w'.now));
    if Deadlocked(w) {
      forall t: nat | w'.IsActive(t) ensures !CanRunAnyway(w', t) && Deadline(w', t) == None {
        assert !CanRunAnyway(w, t) && Deadline(w, t) == None;
      }
    }
  }

  lemma TickIsRun(w0: World, events: seq<Event>, w: World, w': World)
    requires IsRun(w0, events) && After(w0, events) == w && w.now <= w'.now && w' == w.(now := w'.now)
    ensures IsRun(w0, events + [Tick(w'.now)]) && After(w0, events + [Tick(w'.now)]) == w'
    ensures IsWaiting([Tick(w'.now)])
  {
    hide IsRun, After;
    RunStep(w0, events, Tick(w'.now));
  }

  lemma WaitingTwice(front: seq<Event>, back: seq<Event>)
    requires IsWaiting(front) && IsWaiting(back)
    ensures IsWaiting(front + back)
  {
  }

  lemma WaitingThenWaking(front: seq<Event>, back: seq<Event>, t: nat)
    requires IsWaiting(front) && EndsWaking(back, t)
    ensures EndsWaking(front + back, t)
  {
    assert (front + back)[..|front + back| - 1] == front + back[..|back| - 1];
  }

  lemma LaterIsNearest(start: World, w: World, t: nat)
    requires IsNearest(w, t) && |w.threads| == |start.threads| && start.current < |start.threads|
    requires w == start || NobodyCanRun(start)
    ensures IsNearest(start, t)
  {
  }

  lemma WakeKeeps(w0: World, w: World, w': World, i: nat, awakening: Option<real>, t: nat)
    requires Scanned(w0, w, i, awakening) && i < |w.threads| && t == Candidate(|w.threads|, w.current, i) && w.IsActive(t)
    requires w.now <= w'.now
    requires var later := w.(now := w'.now); Sound(later, t) && Ready(later, t) && w' == Woken(later, t)
    ensures Consistent(w') && IsNearest(w0, t) && !Deadlocked(w0)
  {
    var later := w.(now := w'.now);
    assert Consistent(later) && Enabled(later, Wake(t)) by {
      hide Ready, Sound, Woken, Consistent;
      StepKeepsConsistent(w, Tick(w'.now));
    }
    StepKeepsConsistent(later, Wake(t));
    NearestOfAll(w0, w, i, awakening, t);
    if Deadlocked(w) {
      ConsistentIsSound(w, t);
      DeadlockIsForever(w, w'.now, t);
    }
  }

  lemma NearestOfAll(w0: World, w: World, i: nat, awakening: Option<real>, t: nat)
    requires Scanned(w0, w, i, awakening) && i < |w.threads| && t == Candidate(|w.threads|, w.current, i)
    ensures IsNearest(w0, t)
  {
    hide CanRun, Skipped, Untried, Consistent, Deadlocked, HasDeadline;
    forall u: nat | CanRun(w0, u)
      ensures u < |w0.threads| && Distance(|w0.threads|, w0.current, t) <= Distance(|w0.threads|, w0.current, u)
    {
      RunnableExists(w0, u);
      FirstIsNearest(w0, w, i, awakening, u);
    }
  }
}
