/** What the calls of a thread come to later on, told by the calls that were made rather than by the state they led to. */
module ThreadHistory {
  import opened Common
  import GuestClock
  import opened Threads
  import opened ThreadInvariants
  import opened ThreadRuns

  // ----- Waiting -----

  /** The thread is blocked, suspended or not, or in the middle of a wait on a condition variable. */
  predicate IsAway(w: World, t: nat) {
    && t < |w.threads| && w.threads[t].blockedBy.WellFormed()
    && (w.Waits(t) != NotBlocked || w.threads[t].call.Some?)
  }

  /** The step brings the thread on: it wakes up, its time is up, or it is back from its wait. */
  predicate Returns(w: World, e: Event, t: nat) {
    e == Wake(t) || e == TimeOut(t) || (e == CondFinish && w.current == t)
  }

  lemma AwayStep(w: World, e: Event, t: nat)
    requires Enabled(w, e) && IsAway(w, t) && !Returns(w, e, t)
    ensures IsAway(Apply(w, e), t)
    ensures Apply(w, e).Waits(t) == w.Waits(t) && Apply(w, e).threads[t].call == w.threads[t].call
  {
    if e == Suspend(t) || e == Resume(t) {
    } else if e.Wake? || e.TimeOut? {
      OtherWakes(w, e, t);
    } else {
      CallersAreHere(w, e, t);
      OthersUntouched(w, e, t);
      hide Enabled, Apply;
    }
  }

  lemma OtherWakes(w: World, e: Event, t: nat)
    requires Enabled(w, e) && (e.Wake? || e.TimeOut?) && e.thread != t && t < |w.threads|
    ensures t < |Apply(w, e).threads| && Apply(w, e).threads[t] == w.threads[t]
  {
    hide IsDue, Without, IsSignalled, MutexIsFree;
  }

  lemma CallersAreHere(w: World, e: Event, t: nat)
    requires Enabled(w, e) && IsAway(w, t) && !Returns(w, e, t)
    ensures !e.IsScheduling() ==> t != w.current
  {
    hide Sound, Ready, Expired, CanWait;
  }

  ghost predicate StaysAway(w: World, events: seq<Event>, t: nat)
    requires IsRun(w, events)
  {
    events == [] ||
    var front, e := events[..|events| - 1], events[|events| - 1];
    StaysAway(w, front, t) && !Returns(After(w, front), e, t)
  }

  lemma {:induction false} WaitLasts(w: World, events: seq<Event>, t: nat)
    requires IsRun(w, events) && IsAway(w, t) && StaysAway(w, events, t)
    ensures var v := After(w, events); IsAway(v, t) && v.Waits(t) == w.Waits(t) && v.threads[t].call == w.threads[t].call
  {
    hide Enabled, Apply, Returns;
    if events == [] {
    } else {
      var front, e := events[..|events| - 1], events[|events| - 1];
      WaitLasts(w, front, t);
      AwayStep(After(w, front), e, t);
    }
  }

  /** Unlocking would do something: there is a phantom lock, or a lock that is the thread's to give. */
  predicate HasLock(mutex: HostMutex, t: nat) {
    || (t in mutex.phantom && mutex.phantom[t] > 0)
    || (mutex.held.Some? && (mutex.held.value.owner == t || mutex.kind == Plain))
  }

  /** What a call makes its caller wait for. */
  function WaitOf(w: World, e: Event): Block {
    match e
    case Yield(b) => b
    case Lock(m) =>
      if m in w.mutexes && w.mutexes[m].held.Some? && w.mutexes[m].held.value.owner != w.current then Mutex(m) else NotBlocked
    case SemWait(s, blocking) =>
      if blocking && s in w.semaphores && w.semaphores[s].value <= 0 then Semaphore(s) else NotBlocked
    case CondWait(c, m, deadline) =>
      if c in w.conds && m in w.mutexes && HasLock(w.mutexes[m], w.current) then Condition(c, deadline) else NotBlocked
    case _ => NotBlocked
  }

  /** What the thread waits for has happened. */
  predicate HasReason(w: World, b: Block, m: Option<nat>, t: nat) {
    match b
    case NotBlocked => true
    case Sleeping(until) => until <= w.now
    case GuestSleeping(due) => due <= w.clock.GuestAt(w.now)
    case Mutex(n) => !w.Locked(n)
    case Semaphore(s) => s in w.semaphores ==> w.semaphores[s].value > 0
    case Condition(c, deadline) =>
      && m.Some? && !w.Locked(m.value)
      && ((c in w.conds && w.conds[c].waking != [] && w.conds[c].waking[0] == t)
          || (deadline.Some? && deadline.value <= w.now + w.wallOffset))
    case Joining(j, _) => !w.IsActive(j)
    case Suspended(_, _) => false
  }

  lemma CallBlocks(w: World, e: Event)
    requires w.Running() && Enabled(w, e) && !e.IsScheduling() && e != Suspend(w.current)
    ensures var v, t := Apply(w, e), w.current;
            && t < |v.threads| && v.threads[t].blockedBy == WaitOf(w, e)
            && v.threads[t].call == if e.CondWait? && WaitOf(w, e) != NotBlocked then Some(Call(e.cond, e.mutex, e.deadline.Some?)) else None
  {
    hide Sound, Ready, Expired, Woken, TimedOut;
    if e.Lock? {
      hide Unlocked, CanWait, CondWaited, Taken;
    } else if e.CondWait? {
      hide LockedBy, Taken;
    } else {
      hide Unlocked, CanWait, CondWaited, LockedBy;
    }
  }

  /** A call that blocks its caller does so until the caller wakes up, or the time of its wait is up; suspending it in
      between changes nothing. In a clean run it can wake up exactly when what it waits for has happened: time has
      passed, the mutex is free, there is a unit, the joinee has finished, or it is its turn on the condition
      variable or its time is up and the mutex that it gave back is free. If its time is up and that mutex is taken, it
      goes on to wait for the mutex. */
  lemma BlockedUntilWoken(w: World, e: Event, events: seq<Event>)
    requires w.Running() && Enabled(w, e) && !e.IsScheduling() && e != Suspend(w.current) && WaitOf(w, e) != NotBlocked
    requires IsRun(Apply(w, e), events) && StaysAway(Apply(w, e), events, w.current)
    ensures var v, t := After(Apply(w, e), events), w.current; t < |v.threads| && v.Waits(t) == WaitOf(w, e)
    ensures Consistent(Apply(w, e)) && IsClean(Apply(w, e), events) ==>
              var v, t, m := After(Apply(w, e), events), w.current, if e.CondWait? then Some(e.mutex) else None;
              Enabled(v, Wake(t)) <==> v.IsActive(t) && !v.threads[t].blockedBy.Suspended? && HasReason(v, WaitOf(w, e), m, t)
    ensures Consistent(Apply(w, e)) && IsClean(Apply(w, e), events) ==>
              var v, t := After(Apply(w, e), events), w.current;
              && (Enabled(v, TimeOut(t)) <==>
                    && v.IsActive(t) && !v.threads[t].blockedBy.Suspended? && e.CondWait? && v.Locked(e.mutex)
                    && e.deadline.Some? && e.deadline.value <= v.now + v.wallOffset)
              && (Enabled(v, Wake(t)) ==> |v.threads| == |Apply(v, Wake(t)).threads| && Apply(v, Wake(t)).Waits(t) == NotBlocked)
              && (Enabled(v, TimeOut(t)) ==> |v.threads| == |Apply(v, TimeOut(t)).threads| && Apply(v, TimeOut(t)).Waits(t) == Mutex(e.mutex))
  {
    hide Enabled, Apply, Consistent;
    CallBlocks(w, e);
    BlockIsSimple(w, e);
    WaitLasts(Apply(w, e), events, w.current);
    if Consistent(Apply(w, e)) && IsClean(Apply(w, e), events) {
      RunKeepsConsistent(Apply(w, e), events);
      ReasonToWake(After(Apply(w, e), events), WaitOf(w, e), w.current);
      ReasonToGiveUp(After(Apply(w, e), events), w.current);
      Woke(After(Apply(w, e), events), w.current);
    }
  }

  lemma ReasonToGiveUp(v: World, t: nat)
    requires Consistent(v) && t < |v.threads| && v.Waits(t) != NotBlocked
    ensures v.Waits(t).Condition? ==> v.threads[t].call.Some? && v.threads[t].call.value.mutex in v.mutexes
    ensures Enabled(v, TimeOut(t)) <==>
            && v.IsActive(t) && v.threads[t].blockedBy.Condition? && v.Locked(v.threads[t].call.value.mutex)
            && v.Waits(t).deadline.Some? && v.Waits(t).deadline.value <= v.now + v.wallOffset
  {
    ConsistentIsSound(v, t);
    assert ThreadFits(v, t);
  }

  lemma Woke(v: World, t: nat)
    requires Consistent(v) && t < |v.threads|
    ensures Enabled(v, Wake(t)) ==> |v.threads| == |Apply(v, Wake(t)).threads| && Apply(v, Wake(t)).threads[t].blockedBy == NotBlocked
    ensures Enabled(v, TimeOut(t)) ==>
              && |v.threads| == |Apply(v, TimeOut(t)).threads| && v.threads[t].call.Some?
              && Apply(v, TimeOut(t)).threads[t].blockedBy == Mutex(v.threads[t].call.value.mutex)
  {
    assert ThreadFits(v, t);
    hide Consistent, IsDue, Without;
  }

  lemma BlockIsSimple(w: World, e: Event)
    requires Enabled(w, e)
    ensures !WaitOf(w, e).Suspended?
  {
    hide Sound, Ready, Expired;
  }

  lemma ReasonToWake(v: World, b: Block, t: nat)
    requires Consistent(v) && t < |v.threads| && v.Waits(t) == b && !b.Suspended? && b != NotBlocked
    ensures var m := if v.threads[t].call.Some? then Some(v.threads[t].call.value.mutex) else None;
            Enabled(v, Wake(t)) <==> v.IsActive(t) && !v.threads[t].blockedBy.Suspended? && HasReason(v, b, m, t)
  {
    ConsistentIsSound(v, t);
    assert ThreadFits(v, t);
  }

  // ----- Time-outs -----

  /** The step ends the thread's wait on a condition variable, and not because of a signal. */
  predicate GivesUp(w: World, e: Event, c: nat, t: nat)
    requires t < |w.threads|
  {
    || e == TimeOut(t)
    || (e == Wake(t) && w.threads[t].blockedBy.Condition?
        && !(c in w.conds && w.conds[c].waking != [] && w.conds[c].waking[0] == t))
  }

  /** The thread has given up its wait on `c`, which has not been set up afresh since. */
  ghost predicate HasGivenUp(w: World, events: seq<Event>, c: nat, t: nat)
    requires IsRun(w, events)
  {
    events != [] &&
    var front, e := events[..|events| - 1], events[|events| - 1];
    e != CondInit(c) && (HasGivenUp(w, front, c, t) || (t < |After(w, front).threads| && GivesUp(After(w, front), e, c, t)))
  }

  ghost predicate NeverFinishes(w: World, events: seq<Event>, t: nat)
    requires IsRun(w, events)
  {
    events == [] ||
    var front, e := events[..|events| - 1], events[|events| - 1];
    NeverFinishes(w, front, t) && !(e == CondFinish && After(w, front).current == t)
  }

  predicate IsInCall(w: World, t: nat, call: Call) {
    t < |w.threads| && w.threads[t].call == Some(call)
  }

  /** How far the wait has got. */
  predicate WaitState(w: World, t: nat, call: Call, givenUp: bool) {
    && IsInCall(w, t, call) && call.cond in w.conds && (givenUp <==> t in w.conds[call.cond].timedOut)
    && (w.Waits(t).Condition? ==> w.Waits(t).cond == call.cond)
  }

  lemma OwnStep(w: World, e: Event, t: nat, call: Call, givenUp: bool)
    requires Consistent(w) && Enabled(w, e) && WaitState(w, t, call, givenUp) && (e == Wake(t) || e == TimeOut(t))
    ensures WaitState(Apply(w, e), t, call, givenUp || GivesUp(w, e, call.cond, t))
  {
    assert ThreadFits(w, t);
    assert CondFits(w, call.cond);
  }

  lemma OtherStep(w: World, e: Event, c: nat, t: nat)
    requires Consistent(w) && Enabled(w, e) && !Misuse(w, e) && !Returns(w, e, t) && InCall(w, t, c) && c in w.conds
    ensures c in Apply(w, e).conds
    ensures t in Apply(w, e).conds[c].timedOut <==> e != CondInit(c) && t in w.conds[c].timedOut
  {
    if e.Wake? || e.TimeOut? {
      hide Consistent, IsDue, Misuse;
    } else if e.CondInit? || e.CondDestroy? || e.CondSignal? || e.CondBroadcast? || e.CondWait? || e == CondFinish {
      hide Consistent, Woken, TimedOut, Sound, Ready, Expired, Unlocked, CanWait;
    } else {
      hide Consistent, Misuse, Woken, TimedOut;
      CondUnaffected(w, e, c);
    }
  }

  lemma WaitStep(w: World, e: Event, t: nat, call: Call, givenUp: bool)
    requires Consistent(w) && Enabled(w, e) && !Misuse(w, e) && WaitState(w, t, call, givenUp)
    requires !(e == CondFinish && w.current == t)
    ensures WaitState(Apply(w, e), t, call, e != CondInit(call.cond) && (givenUp || GivesUp(w, e, call.cond, t)))
  {
    if e == Wake(t) || e == TimeOut(t) {
      OwnStep(w, e, t, call, givenUp);
    } else {
      assert IsAway(w, t) by { assert ThreadFits(w, t); }
      hide Consistent, Enabled, Apply, Misuse;
      AwayStep(w, e, t);
      OtherStep(w, e, call.cond, t);
    }
  }

  lemma {:induction false} WaitGoesOn(w: World, events: seq<Event>, t: nat, call: Call)
    requires Consistent(w) && IsRun(w, events) && IsClean(w, events) && NeverFinishes(w, events, t) && WaitState(w, t, call, false)
    ensures WaitState(After(w, events), t, call, HasGivenUp(w, events, call.cond, t))
  {
    hide Consistent, Enabled, Apply, Misuse, WaitState, GivesUp;
    if events == [] {
    } else {
      var front, e := events[..|events| - 1], events[|events| - 1];
      WaitGoesOn(w, front, t, call);
      RunKeepsConsistent(w, front);
      WaitExists(After(w, front), t, call, HasGivenUp(w, front, call.cond, t));
      WaitStep(After(w, front), e, t, call, HasGivenUp(w, front, call.cond, t));
    }
  }

  lemma WaitExists(w: World, t: nat, call: Call, givenUp: bool)
    requires WaitState(w, t, call, givenUp)
    ensures t < |w.threads|
  {
  }

  lemma WaitBegins(w: World, c: nat, m: nat, deadline: Option<real>)
    requires Consistent(w) && Enabled(w, CondWait(c, m, deadline)) && WaitOf(w, CondWait(c, m, deadline)) != NotBlocked
    ensures WaitState(Apply(w, CondWait(c, m, deadline)), w.current, Call(c, m, deadline.Some?), false)
    ensures Consistent(Apply(w, CondWait(c, m, deadline)))
  {
    hide Sound, Ready, Expired, SemFits;
    StepKeepsConsistent(w, CondWait(c, m, deadline));
    assert CondFits(w, c);
    assert c in w.conds && w.current !in w.conds[c].timedOut;
  }

  /** From the start of a wait on a condition variable to its end, however long it takes and whatever others do: the
      time-out is reported if and only if the wait was given up, because its time was up and not because it was its
      turn, whether or not the mutex was free then. Setting the condition variable up afresh in between, which is no
      misuse any more once the wait has been given up, makes the emulator forget it. */
  lemma TimeOutIsReported(w: World, c: nat, m: nat, deadline: Option<real>, events: seq<Event>)
    requires Consistent(w) && Enabled(w, CondWait(c, m, deadline)) && WaitOf(w, CondWait(c, m, deadline)) != NotBlocked
    requires var w1 := Apply(w, CondWait(c, m, deadline));
             IsRun(w1, events) && IsClean(w1, events) && NeverFinishes(w1, events, w.current)
    ensures var w1, t := Apply(w, CondWait(c, m, deadline)), w.current;
            var v := After(w1, events);
            && t < |v.threads| && v.threads[t].call == Some(Call(c, m, deadline.Some?)) && c in v.conds
            && (t in v.conds[c].timedOut <==> HasGivenUp(w1, events, c, t))
  {
    hide Consistent, Enabled, Apply;
    WaitBegins(w, c, m, deadline);
    WaitGoesOn(Apply(w, CondWait(c, m, deadline)), events, w.current, Call(c, m, deadline.Some?));
  }

  // ----- Signals -----

  /** The thread waits for `c`, with `n` others in front of it that have not been signalled either. */
  predicate IsUnsignalled(w: World, c: nat, t: nat, n: nat) {
    c in w.conds && n < |w.conds[c].waiting| && w.conds[c].waiting[n] == t
  }

  /** A signal is for the one who has waited longest, a broadcast for everybody; nobody is dropped and nothing else
      changes. */
  lemma SignalIsFor(w: World, e: Event, c: nat, t: nat)
    requires Enabled(w, e) && (e == CondSignal(c) || e == CondBroadcast(c)) && c in w.conds
    ensures var cond := w.conds[c];
            && Apply(w, e) == w.(conds := Apply(w, e).conds) && Apply(w, e).conds - {c} == w.conds - {c} && c in Apply(w, e).conds
            && (t in Apply(w, e).conds[c].waking <==>
                  || t in cond.waking
                  || (e == CondSignal(c) && IsUnsignalled(w, c, t, 0))
                  || (e == CondBroadcast(c) && t in cond.waiting))
            && Apply(w, e).conds[c].Queue() == cond.Queue()
            && Apply(w, e).conds[c].mutex == cond.mutex && Apply(w, e).conds[c].timedOut == cond.timedOut
  {
    SignalKeepsQueue(w, e, c);
  }

  ghost predicate Within(q: seq<nat>, t: nat, n: int) {
    exists i :: 0 <= i < |q| && i <= n && q[i] == t
  }

  lemma {:induction false} WithinFewer(q: seq<nat>, t: nat, n: int, u: nat)
    requires Within(q, t, n) && t != u
    ensures Within(Without(q, u), t, n)
  {
    hide Without;
    var i :| 0 <= i < |q| && i <= n && q[i] == t;
    var front, last := q[..|q| - 1], q[|q| - 1];
    assert q == front + [last];
    WithoutLast(front, last, u);
    if i < |front| {
      assert front[i] == t;
      WithinFewer(front, t, n, u);
      WithinMore(Without(front, u), t, n, last);
      assert Without(front, u) + [] == Without(front, u);
    } else {
      WithoutIsShorter(front, u);
      assert (Without(front, u) + [last])[|Without(front, u)|] == t;
    }
  }

  lemma WithinMore(q: seq<nat>, t: nat, n: int, u: nat)
    requires Within(q, t, n)
    ensures Within(q + [u], t, n)
  {
    var i :| 0 <= i < |q| && i <= n && q[i] == t;
    assert (q + [u])[i] == t;
  }

  lemma {:induction false} WithoutIsShorter(q: seq<nat>, u: nat)
    ensures |Without(q, u)| <= |q|
  {
    if q != [] {
      WithoutIsShorter(q[..|q| - 1], u);
    }
  }

  /** The thread has been signalled, or at most `n` others have to be before it. */
  ghost predicate Place(cond: HostCond, t: nat, n: int) {
    t in cond.waking || Within(cond.waiting, t, n)
  }

  /** How a step may change the queues of a condition variable while `t` waits for it. */
  lemma PlaceStep(w: World, e: Event, c: nat, t: nat, n: int)
    requires Consistent(w) && Enabled(w, e) && !Misuse(w, e) && !Returns(w, e, t) && WaitsOnCond(w, t, c)
    requires c in w.conds && Place(w.conds[c], t, n)
    ensures c in Apply(w, e).conds
    ensures var cond' := Apply(w, e).conds[c];
            && Place(cond', t, if e == CondSignal(c) then n - 1 else n)
            && (e == CondBroadcast(c) ==> t in cond'.waking)
            && (t in w.conds[c].waking ==> t in cond'.waking)
            && (t in w.conds[c].waiting && e != CondSignal(c) && e != CondBroadcast(c) ==> t in cond'.waiting)
  {
    if e.Wake? || e.TimeOut? {
      PlaceWhenOtherLeaves(w, e, c, t, n);
    } else if e == CondSignal(c) || e == CondBroadcast(c) {
      PlaceWhenSignalled(w, e, c, t, n);
    } else if e.CondWait? && e.cond == c && CanWait(w, c, e.mutex) {
      hide Consistent, Unlocked, Sound, Ready, Expired;
      if Within(w.conds[c].waiting, t, n) {
        WithinMore(w.conds[c].waiting, t, n, w.current);
      }
    } else if e == CondFinish {
      hide Consistent, Misuse, Sound, Ready, Expired;
    } else {
      StillNeeded(w, e, c, t);
      hide Consistent, Misuse, Woken, TimedOut;
      CondUnaffected(w, e, c);
    }
  }

  lemma StillNeeded(w: World, e: Event, c: nat, t: nat)
    requires Consistent(w) && Enabled(w, e) && !Misuse(w, e) && WaitsOnCond(w, t, c) && c in w.conds
    ensures e != CondInit(c) && e != CondDestroy(c)
  {
    hide Sound, Ready, Expired, CanWait;
    assert CondFits(w, c);
  }

  lemma PlaceWhenSignalled(w: World, e: Event, c: nat, t: nat, n: int)
    requires Enabled(w, e) && (e == CondSignal(c) || e == CondBroadcast(c)) && c in w.conds && Place(w.conds[c], t, n)
    ensures c in Apply(w, e).conds
    ensures Place(Apply(w, e).conds[c], t, if e == CondSignal(c) then n - 1 else n)
    ensures (t in w.conds[c].waking || e == CondBroadcast(c)) ==> t in Apply(w, e).conds[c].waking
  {
    var cond := w.conds[c];
    if t !in cond.waking && e == CondSignal(c) {
      var i :| 0 <= i < |cond.waiting| && i <= n && cond.waiting[i] == t;
      assert i > 0 ==> cond.waiting[1..][i - 1] == t;
    }
  }

  lemma PlaceWhenOtherLeaves(w: World, e: Event, c: nat, t: nat, n: int)
    requires Enabled(w, e) && (e.Wake? || e.TimeOut?) && e.thread != t && c in w.conds && Place(w.conds[c], t, n)
    ensures c in Apply(w, e).conds
    ensures Place(Apply(w, e).conds[c], t, n)
    ensures t in w.conds[c].waking ==> t in Apply(w, e).conds[c].waking
    ensures t in w.conds[c].waiting ==> t in Apply(w, e).conds[c].waiting
  {
    hide IsDue, Without;
    var cond := w.conds[c];
    if Within(cond.waiting, t, n) {
      WithinFewer(cond.waiting, t, n, e.thread);
    }
    assert cond.waking != [] ==> cond.waking == [cond.waking[0]] + cond.waking[1..];
  }

  /** A waiter with `n` unsignalled ones before it, who does not give up, has been signalled after more than `n` signals or
      a broadcast, and has not been without any. With `BlockedUntilWoken`, it can then run as soon as it is the first of
      those signalled and the mutex is free. */
  lemma {:induction false} SignalsReach(w: World, events: seq<Event>, c: nat, t: nat, n: nat)
    requires Consistent(w) && IsRun(w, events) && IsClean(w, events) && StaysAway(w, events, t)
    requires WaitsOnCond(w, t, c) && IsUnsignalled(w, c, t, n)
    ensures var v := After(w, events);
            && WaitsOnCond(v, t, c) && c in v.conds && Place(v.conds[c], t, n - Count(events, CondSignal(c)))
            && (Count(events, CondSignal(c)) > n || CondBroadcast(c) in events ==> t in v.conds[c].waking)
            && (CondSignal(c) !in events && CondBroadcast(c) !in events ==> t in v.conds[c].waiting)
  {
    hide Enabled, Apply, Consistent, Misuse, Returns;
    if events == [] {
    } else {
      var front, e := events[..|events| - 1], events[|events| - 1];
      assert events == front + [e];
      SignalsReach(w, front, c, t, n);
      RunKeepsConsistent(w, events);
      RunKeepsConsistent(w, front);
      PlaceStep(After(w, front), e, c, t, n - Count(front, CondSignal(c)));
      WaiterIsAway(w, c, t);
      WaitLasts(w, events, t);
    }
  }

  lemma WaiterIsAway(w: World, c: nat, t: nat)
    requires Consistent(w) && WaitsOnCond(w, t, c)
    ensures IsAway(w, t)
  {
    assert ThreadFits(w, t);
  }

  // ----- Suspension -----

  /** So far, a thread suspended `n` times has been resumed less often than that and suspended again since. */
  ghost predicate NotYetResumed(events: seq<Event>, t: nat, n: nat) {
    events == [] ||
    (NotYetResumed(events[..|events| - 1], t, n) && Count(events, Resume(t)) < n + Count(events, Suspend(t)))
  }

  lemma {:induction false} StaysSuspended(w: World, events: seq<Event>, t: nat)
    requires IsRun(w, events) && t < |w.threads| && w.threads[t].blockedBy.Suspended?
    requires w.threads[t].blockedBy.count > 0 && NotYetResumed(events, t, w.threads[t].blockedBy.count)
    ensures t < |After(w, events).threads|
    ensures var n, b := w.threads[t].blockedBy.count, w.threads[t].blockedBy.previous;
            After(w, events).threads[t].blockedBy == Suspended(n + Count(events, Suspend(t)) - Count(events, Resume(t)), b)
  {
    hide Enabled, Apply;
    if events == [] {
    } else {
      var front, e := events[..|events| - 1], events[|events| - 1];
      StaysSuspended(w, front, t);
      NotYetPositive(front, t, w.threads[t].blockedBy.count);
      SuspendedStep(After(w, front), e, t);
    }
  }

  lemma NotYetPositive(events: seq<Event>, t: nat, n: nat)
    requires n > 0 && NotYetResumed(events, t, n)
    ensures Count(events, Resume(t)) < n + Count(events, Suspend(t))
  {
  }

  /** Suspending a thread and then resuming it as often, with whatever nesting and whatever happens in between, leaves it
      waiting for exactly what it was waiting for; it has been suspended all the time. */
  lemma ResumingRestores(w: World, t: nat, events: seq<Event>)
    requires Enabled(w, Suspend(t)) && !w.threads[t].blockedBy.Suspended?
    requires IsRun(Apply(w, Suspend(t)), events) && NotYetResumed(events, t, 1)
    ensures var v := After(Apply(w, Suspend(t)), events);
            && t < |v.threads| && v.threads[t].blockedBy.Suspended?
            && (Enabled(v, Resume(t)) && Count(events, Resume(t)) == Count(events, Suspend(t)) ==>
                  Apply(v, Resume(t)).threads[t].blockedBy == w.threads[t].blockedBy)
  {
    hide IsRun, After;
    StaysSuspended(Apply(w, Suspend(t)), events, t);
    NotYetPositive(events, t, 1);
  }

  // ----- Locks -----

  /** How often a mutex has to be unlocked by its owner before it is free. */
  function Depth(mutex: HostMutex, t: nat): int {
    (if mutex.held.Some? && mutex.held.value.owner == t then mutex.held.value.count else 0)
    + (if t in mutex.phantom then mutex.phantom[t] else 0)
  }

  predicate Owns(w: World, m: nat, t: nat) {
    m in w.mutexes && w.mutexes[m].held.Some? && w.mutexes[m].held.value.owner == t && w.mutexes[m].held.value.count > 0
  }

  predicate LocksAgain(w: World, e: Event, m: nat, t: nat) {
    e == Lock(m) && w.current == t && m in w.mutexes && w.mutexes[m].kind != ErrorCheck
  }

  /** A call that unlocks the mutex, or gives it back to wait. */
  predicate Unlocks(w: World, e: Event, m: nat) {
    e == Unlock(m) || (e.CondWait? && e.mutex == m && e.cond in w.conds)
  }

  function Change(w: World, e: Event, m: nat, t: nat): int {
    if LocksAgain(w, e, m, t) then 1 else if Unlocks(w, e, m) && w.current == t then -1 else 0
  }

  /** Only a plain mutex lets others than its owner unlock it. */
  predicate IsForeign(w: World, e: Event, m: nat, t: nat) {
    Unlocks(w, e, m) && w.current != t && m in w.mutexes && w.mutexes[m].kind == Plain
  }

  predicate IsOwned(mutex: HostMutex, t: nat) {
    mutex.held.Some? && mutex.held.value.owner == t && mutex.held.value.count > 0
  }

  lemma UnlockDepth(mutex: HostMutex, u: nat, t: nat)
    requires IsOwned(mutex, t) && (u == t || mutex.kind != Plain)
    ensures match Unlocked(mutex, u)
            case None => u != t
            case Some(mutex') =>
              && mutex'.kind == mutex.kind && Depth(mutex', t) == Depth(mutex, t) - (if u == t then 1 else 0)
              && (IsOwned(mutex', t) <==> Depth(mutex', t) > 0)
  {
  }

  lemma LockedAgain(w: World, m: nat, t: nat)
    requires w.current < |w.threads| && m in w.mutexes && IsOwned(w.mutexes[m], t)
    ensures var w' := LockedBy(w, w.current, m);
            && m in w'.mutexes && w'.mutexes[m].kind == w.mutexes[m].kind && IsOwned(w'.mutexes[m], t)
            && Depth(w'.mutexes[m], t) == Depth(w.mutexes[m], t) + if LocksAgain(w, Lock(m), m, t) then 1 else 0
  {
    var mutex, mutex' := w.mutexes[m], LockedBy(w, w.current, m).mutexes[m];
    if w.current != t {
      assert mutex' == mutex.(waitingCount := mutex.waitingCount + 1);
    } else if mutex.kind == Plain {
      var n := if t in mutex.phantom then mutex.phantom[t] else 0;
      assert mutex' == mutex.(phantom := mutex.phantom[t := n + 1]);
    } else {
      assert mutex'.phantom == mutex.phantom;
    }
  }

  lemma UnlockStep(w: World, e: Event, m: nat, t: nat)
    requires Enabled(w, e) && Owns(w, m, t) && !IsForeign(w, e, m, t) && (e.Unlock? || e.CondWait?)
    ensures m in Apply(w, e).mutexes && Apply(w, e).mutexes[m].kind == w.mutexes[m].kind
    ensures Depth(Apply(w, e).mutexes[m], t) == Depth(w.mutexes[m], t) + Change(w, e, m, t)
    ensures Owns(Apply(w, e), m, t) <==> Depth(Apply(w, e).mutexes[m], t) > 0
  {
    hide Woken, TimedOut, Sound, Ready, Expired, Unlocked, Depth;
    assert Depth(w.mutexes[m], t) > 0 by { DepthIsPositive(w.mutexes[m], t); }
    if Unlocks(w, e, m) {
      UnlockDepth(w.mutexes[m], w.current, t);
    }
  }

  lemma DepthIsPositive(mutex: HostMutex, t: nat)
    requires IsOwned(mutex, t)
    ensures Depth(mutex, t) > 0
  {
  }

  lemma LockStep(w: World, e: Event, m: nat, t: nat)
    requires Enabled(w, e) && Owns(w, m, t) && !IsForeign(w, e, m, t)
    ensures m in Apply(w, e).mutexes && Apply(w, e).mutexes[m].kind == w.mutexes[m].kind
    ensures Depth(Apply(w, e).mutexes[m], t) == Depth(w.mutexes[m], t) + Change(w, e, m, t)
    ensures Owns(Apply(w, e), m, t) <==> Depth(Apply(w, e).mutexes[m], t) > 0
  {
    DepthIsPositive(w.mutexes[m], t);
    hide Depth;
    if e.Wake? {
      hide Enabled, Sound, Ready, Woken;
      WakeLeavesHeld(w, e.thread, m);
    } else if e.Lock? || e.MutexInit? || e.MutexDestroy? {
      hide Woken, TimedOut, Sound, Ready, Expired, LockedBy;
      if e == Lock(m) {
        LockedAgain(w, m, t);
      } else if e.Lock? {
        OtherMutexStays(w, e.mutex, m);
      }
    } else if e.Unlock? || e.CondWait? {
      hide Enabled, Apply;
      UnlockStep(w, e, m, t);
    } else {
      hide Woken, TimedOut, Sound, Ready, Expired, LockedBy, CondWaited, Taken;
      MutexesUntouched(w, e);
    }
  }

  lemma OtherMutexStays(w: World, n: nat, m: nat)
    requires w.current < |w.threads| && n in w.mutexes && m in w.mutexes && n != m
    ensures m in LockedBy(w, w.current, n).mutexes && LockedBy(w, w.current, n).mutexes[m] == w.mutexes[m]
  {
  }

  ghost function Balance(w: World, events: seq<Event>, m: nat, t: nat): int
    requires IsRun(w, events)
  {
    if events == [] then 0
    else
      var front := events[..|events| - 1];
      Balance(w, front, m, t) + Change(After(w, front), events[|events| - 1], m, t)
  }

  ghost predicate NoneForeign(w: World, events: seq<Event>, m: nat, t: nat)
    requires IsRun(w, events)
  {
    events == [] ||
    var front := events[..|events| - 1];
    NoneForeign(w, front, m, t) && !IsForeign(After(w, front), events[|events| - 1], m, t)
  }

  /** In no part of the run has the owner unlocked the mutex as often as it had locked it. */
  ghost predicate AlwaysOwed(w: World, events: seq<Event>, m: nat, t: nat, depth: int)
    requires IsRun(w, events)
  {
    depth + Balance(w, events, m, t) > 0 && (events != [] ==> AlwaysOwed(w, events[..|events| - 1], m, t, depth))
  }

  ghost predicate AlwaysOwns(w: World, events: seq<Event>, m: nat, t: nat)
    requires IsRun(w, events)
  {
    Owns(After(w, events), m, t) && (events != [] ==> AlwaysOwns(w, events[..|events| - 1], m, t))
  }

  /** A mutex, once it is locked, stays with its owner for exactly as long as the owner has not unlocked it as often as it
      has locked it: locks nest on recursive mutexes, and, by phantom locks, on plain ones too, while on an
      error-checking one they do not add up. Waiting on a condition variable counts as unlocking. This is unless another
      thread unlocks a plain mutex. */
  lemma {:induction false} LocksNest(w: World, events: seq<Event>, m: nat, t: nat)
    requires IsRun(w, events) && Owns(w, m, t) && NoneForeign(w, events, m, t)
    ensures AlwaysOwns(w, events, m, t) <==> AlwaysOwed(w, events, m, t, Depth(w.mutexes[m], t))
    ensures AlwaysOwns(w, events, m, t) ==>
              var v := After(w, events);
              && v.mutexes[m].kind == w.mutexes[m].kind
              && Depth(v.mutexes[m], t) == Depth(w.mutexes[m], t) + Balance(w, events, m, t)
  {
    hide Enabled, Apply, Depth, Change, IsForeign;
    if events == [] {
      DepthIsPositive(w.mutexes[m], t);
    } else {
      var front := events[..|events| - 1];
      LocksNest(w, front, m, t);
      if AlwaysOwns(w, front, m, t) {
        LockStep(After(w, front), events[|events| - 1], m, t);
      }
    }
  }

  /** Locking a free mutex is the first lock, and adds to nothing but what another thread's unlocking has left over. */
  lemma FirstLock(w: World, m: nat)
    requires Enabled(w, Lock(m)) && w.mutexes[m].held == None
    ensures Owns(Apply(w, Lock(m)), m, w.current) && Apply(w, Lock(m)).threads == w.threads
    ensures Depth(Apply(w, Lock(m)).mutexes[m], w.current) == Depth(w.mutexes[m], w.current) + 1
  {
  }

  // ----- Beginnings -----

  /** A mutex that is set up is free, of its kind, and stays of that kind until it is destroyed. */
  lemma {:induction false} KindStays(w: World, m: nat, kind: MutexKind, events: seq<Event>)
    requires Enabled(w, MutexInit(m, kind)) && IsRun(Apply(w, MutexInit(m, kind)), events) && MutexDestroy(m) !in events
    ensures var v := After(Apply(w, MutexInit(m, kind)), events);
            && m in v.mutexes && v.mutexes[m].kind == kind
            && (events == [] ==> !v.Locked(m) && v.mutexes[m].waitingCount == 0 && v.mutexes[m].phantom == map[])
  {
    hide Enabled;
    if events == [] {
    } else {
      var front, e := events[..|events| - 1], events[|events| - 1];
      KindStays(w, m, kind, front);
      hide Apply;
      assert e in events;
      KindStep(After(Apply(w, MutexInit(m, kind)), front), e, m);
    }
  }

  lemma KindStep(w: World, e: Event, m: nat)
    requires Enabled(w, e) && m in w.mutexes && e != MutexDestroy(m)
    ensures m in Apply(w, e).mutexes && Apply(w, e).mutexes[m].kind == w.mutexes[m].kind
  {
    if e.Wake? {
      KindAfterWake(w, e.thread, m);
    } else if e.Lock? || e.MutexInit? || e.MutexDestroy? {
      hide Woken, TimedOut, Sound, Ready, Expired, Unlocked, CanWait, CondWaited, Taken;
    } else if e.Unlock? || e.CondWait? {
      hide Woken, TimedOut, Sound, Ready, Expired, LockedBy, Taken;
    } else {
      MutexesUntouched(w, e);
    }
  }

  lemma KindAfterWake(w: World, t: nat, m: nat)
    requires Enabled(w, Wake(t)) && m in w.mutexes
    ensures m in Woken(w, t).mutexes && Woken(w, t).mutexes[m].kind == w.mutexes[m].kind
  {
    hide IsDue, Without;
  }

  /** From its start, a semaphore holds what it was set up with and what has been posted, less what was handed out. */
  lemma SemaphoreFromItsStart(w: World, s: nat, value: int, events: seq<Event>)
    requires Enabled(w, SemInit(s, value)) && s !in w.semaphores
    requires IsRun(Apply(w, SemInit(s, value)), events) && SemDestroy(s) !in events
    ensures var w1 := Apply(w, SemInit(s, value)); var v := After(w1, events);
            && s in v.semaphores && v.semaphores[s].value == value + Posts(events, s) - Units(w1, events, s)
            && (value >= 0 ==> Units(w1, events, s) <= value + Posts(events, s))
  {
    SemaphoreConservation(Apply(w, SemInit(s, value)), events, s);
  }

  /** Closing a semaphore lets all go that wait for it, except for suspended ones; it is unknown from then on. */
  lemma ClosingLetsGo(w: World, s: nat, t: nat)
    requires Enabled(w, SemDestroy(s))
    ensures var v := Apply(w, SemDestroy(s));
            && v == w.(semaphores := v.semaphores) && v.semaphores == w.semaphores - {s}
            && (w.IsActive(t) && w.threads[t].blockedBy == Semaphore(s) ==> Enabled(v, Wake(t)))
            && Apply(v, SemPost(s)) == v && Apply(v, SemWait(s, true)) == v
  {
  }

  /** A mutex goes if it is free and nobody is counted as waiting for it, and stays as it is otherwise; a condition variable
      that nobody is queued for goes. */
  lemma DestroyingTakesAway(w: World, m: nat, c: nat)
    ensures Enabled(w, MutexDestroy(m)) ==>
              var v := Apply(w, MutexDestroy(m));
              if w.mutexes[m].held == None && w.mutexes[m].waitingCount == 0 then v == w.(mutexes := w.mutexes - {m}) else v == w
    ensures Enabled(w, CondDestroy(c)) ==> Apply(w, CondDestroy(c)) == w.(conds := w.conds - {c})
    ensures Enabled(w, CondDestroy(c)) && c in w.conds ==> w.conds[c].waiting == [] && w.conds[c].waking == []
  {
  }

  /** A new thread can run at once, and nothing else changes. */
  lemma CreatedCanRun(w: World)
    requires Enabled(w, Create)
    ensures var v, t := Apply(w, Create), |w.threads|;
            && |v.threads| == t + 1 && v.threads[..t] == w.threads && v == w.(threads := v.threads)
            && Enabled(v, Dispatch(t)) && Enabled(v, Wake(t)) && !IsAway(v, t)
  {
  }

  /** The thread that runs is the one that was switched to last. */
  ghost function LastDispatched(w: World, events: seq<Event>): nat {
    if events == [] then w.current
    else if events[|events| - 1].Dispatch? then events[|events| - 1].thread
    else LastDispatched(w, events[..|events| - 1])
  }

  lemma {:induction false} CurrentIsDispatched(w: World, events: seq<Event>)
    requires IsRun(w, events)
    ensures After(w, events).current == LastDispatched(w, events)
  {
    hide Enabled, Apply;
    if events == [] {
    } else {
      CurrentIsDispatched(w, events[..|events| - 1]);
      CurrentStep(After(w, events[..|events| - 1]), events[|events| - 1]);
    }
  }

  lemma CurrentStep(w: World, e: Event)
    requires Enabled(w, e)
    ensures Apply(w, e).current == if e.Dispatch? then e.thread else w.current
    ensures !e.Wake? ==> Apply(w, e).memory == w.memory
  {
    if e.Wake? || e.TimeOut? {
      hide IsDue, Without, IsSignalled, MutexIsFree;
    } else {
      hide Sound, Ready, Expired, Woken, TimedOut, CanWait, Unlocked;
    }
  }
}
