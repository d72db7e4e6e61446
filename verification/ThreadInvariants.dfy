/** What every step of the thread machine keeps, and which calls of the guest break it. */
module ThreadInvariants {
  import opened Common
  import opened GuestClock
  import opened Threads

  // ----- The invariant -----

  predicate WaitFitsCall(w: World, b: Block, call: Call) {
    && call.mutex in w.mutexes && call.cond in w.conds
    && (b == NotBlocked || b == Mutex(call.mutex)
        || (b.Condition? && b.cond == call.cond && b.deadline.Some? == call.timed
            && w.conds[b.cond].mutex == Some(call.mutex)))
  }

  predicate ThreadFits(w: World, t: nat)
    requires t < |w.threads|
  {
    var b, call := w.Waits(t), w.threads[t].call;
    && w.threads[t].blockedBy.WellFormed()
    && (b.Joining? ==> b.joinee < |w.threads|)
    && (b.Mutex? ==> b.mutex in w.mutexes)
    && (b.Condition? ==> call.Some?)
    && (call.Some? ==> WaitFitsCall(w, b, call.value))
  }

  predicate WaitsOnSem(w: World, t: nat, s: nat) {
    t < |w.threads| && w.Waits(t) == Semaphore(s)
  }

  predicate WaitsOnCond(w: World, t: nat, c: nat) {
    t < |w.threads| && w.Waits(t).Condition? && w.Waits(t).cond == c
  }

  /** The waiting set of a semaphore is exactly the threads blocked on it, suspended or not. */
  ghost predicate SemFits(w: World, s: nat)
    requires s in w.semaphores
  {
    forall t: nat :: t in w.semaphores[s].waiting <==> WaitsOnSem(w, t, s)
  }

  predicate Distinct(q: seq<nat>) {
    forall i, j :: 0 <= i < j < |q| ==> q[i] != q[j]
  }

  predicate HasTimedOut(w: World, t: nat, c: nat) {
    && t < |w.threads| && !w.Waits(t).Condition?
    && w.threads[t].call.Some? && w.threads[t].call.value.cond == c && w.threads[t].call.value.timed
  }

  /** Each thread blocked on a condition variable has one place in its queue, and nobody else has. */
  ghost predicate CondFits(w: World, c: nat)
    requires c in w.conds
  {
    && Distinct(w.conds[c].Queue())
    && (forall t: nat :: t in w.conds[c].Queue() <==> WaitsOnCond(w, t, c))
    && (forall t: nat :: t in w.conds[c].timedOut ==> HasTimedOut(w, t, c))
  }

  ghost predicate ThreadsFit(w: World) {
    w.current < |w.threads| && w.clock.host <= w.now && forall t :: 0 <= t < |w.threads| ==> ThreadFits(w, t)
  }

  ghost predicate SemsFit(w: World) {
    forall s :: s in w.semaphores ==> SemFits(w, s)
  }

  ghost predicate CondsFit(w: World) {
    forall c :: c in w.conds ==> CondFits(w, c)
  }

  ghost predicate Consistent(w: World) {
    ThreadsFit(w) && SemsFit(w) && CondsFit(w)
  }

  // ----- Misuse -----

  predicate UsesMutex(w: World, t: nat, m: nat) {
    t < |w.threads| && (w.Waits(t) == Mutex(m) || (w.threads[t].call.Some? && w.threads[t].call.value.mutex == m))
  }

  predicate InCall(w: World, t: nat, c: nat) {
    t < |w.threads| && w.threads[t].call.Some? && w.threads[t].call.value.cond == c
  }

  /** A call that takes away, or sets up afresh, what a thread is still waiting for. */
  ghost predicate Misuse(w: World, e: Event) {
    match e
    case SemInit(s, _) => s !in w.semaphores && exists t: nat :: WaitsOnSem(w, t, s)
    case CondInit(c) => exists t: nat :: WaitsOnCond(w, t, c)
    case CondDestroy(c) => exists t: nat :: InCall(w, t, c)
    case MutexDestroy(m) =>
      m in w.mutexes && !w.Locked(m) && w.mutexes[m].waitingCount == 0 && exists t: nat :: UsesMutex(w, t, m)
    case _ => false
  }

  lemma ConsistentIsSound(w: World, t: nat)
    requires Consistent(w) && t < |w.threads|
    ensures Sound(w, t)
  {
    assert ThreadFits(w, t);
    var b := w.threads[t].blockedBy;
    if b.Condition? {
      assert CondFits(w, b.cond);
    }
  }

  // ----- Steps that change one thread -----

  predicate OnlyThread(w: World, w': World, t: nat) {
    && t < |w.threads| == |w'.threads|
    && forall u :: 0 <= u < |w.threads| && u != t ==> w'.threads[u] == w.threads[u]
  }

  /** Nothing that the threads of `w` may refer to is gone in `w'`. */
  predicate NothingGone(w: World, w': World) {
    && w.mutexes.Keys <= w'.mutexes.Keys && w.conds.Keys <= w'.conds.Keys
    && forall c :: c in w.conds ==> w'.conds[c].mutex == w.conds[c].mutex
  }

  lemma ThreadsKept(w: World, w': World, t: nat)
    requires ThreadsFit(w) && OnlyThread(w, w', t) && NothingGone(w, w')
    requires w'.current < |w.threads| && w'.clock.host <= w'.now && ThreadFits(w', t)
    ensures ThreadsFit(w')
  {
    forall u | 0 <= u < |w'.threads| ensures ThreadFits(w', u) {
      if u != t {
        assert ThreadFits(w, u);
      }
    }
  }

  lemma SemKept(w: World, w': World, s: nat, t: nat)
    requires s in w.semaphores && s in w'.semaphores && SemFits(w, s) && OnlyThread(w, w', t)
    requires w'.semaphores[s].waiting - {t} == w.semaphores[s].waiting - {t}
    requires t in w'.semaphores[s].waiting <==> WaitsOnSem(w', t, s)
    ensures SemFits(w', s)
  {
    forall u: nat ensures u in w'.semaphores[s].waiting <==> WaitsOnSem(w', u, s) {
      if u != t {
        assert u in w'.semaphores[s].waiting - {t} <==> u in w.semaphores[s].waiting - {t};
      }
    }
  }

  lemma CondKept(w: World, w': World, c: nat, t: nat)
    requires c in w.conds && c in w'.conds && CondFits(w, c) && OnlyThread(w, w', t)
    requires Distinct(w'.conds[c].Queue())
    requires forall u :: u != t ==> (u in w'.conds[c].Queue() <==> u in w.conds[c].Queue())
    requires t in w'.conds[c].Queue() <==> WaitsOnCond(w', t, c)
    requires forall u :: u in w'.conds[c].timedOut && u != t ==> u in w.conds[c].timedOut
    requires t in w'.conds[c].timedOut ==> HasTimedOut(w', t, c)
    ensures CondFits(w', c)
  {
    hide HostCond.Queue, Distinct;
    forall u: nat ensures u in w'.conds[c].Queue() <==> WaitsOnCond(w', u, c) {
      if u != t {
        assert WaitsOnCond(w', u, c) <==> WaitsOnCond(w, u, c);
      }
    }
    forall u: nat | u in w'.conds[c].timedOut ensures HasTimedOut(w', u, c) {
      if u != t {
        assert HasTimedOut(w, u, c);
      }
    }
  }

  predicate SemUntouched(w: World, w': World, t: nat, s: nat) {
    s in w.semaphores && s in w'.semaphores && w'.semaphores[s] == w.semaphores[s]
    && WaitsOnSem(w', t, s) == WaitsOnSem(w, t, s)
  }

  predicate CondUntouched(w: World, w': World, t: nat, c: nat) {
    c in w.conds && c in w'.conds && w'.conds[c] == w.conds[c]
    && WaitsOnCond(w', t, c) == WaitsOnCond(w, t, c) && (HasTimedOut(w, t, c) ==> HasTimedOut(w', t, c))
  }

  /** What is untouched, and means the same to the changed thread, still fits. */
  lemma OthersKept(w: World, w': World, t: nat)
    requires SemsFit(w) && CondsFit(w) && OnlyThread(w, w', t)
    ensures forall s {:trigger SemFits(w', s)} :: s in w'.semaphores && SemUntouched(w, w', t, s) ==> SemFits(w', s)
    ensures forall c {:trigger CondFits(w', c)} :: c in w'.conds && CondUntouched(w, w', t, c) ==> CondFits(w', c)
  {
    hide HostCond.Queue, Distinct, WaitsOnSem, WaitsOnCond, HasTimedOut;
    forall s | s in w'.semaphores && SemUntouched(w, w', t, s) ensures SemFits(w', s) {
      assert SemFits(w, s);
      SemKept(w, w', s, t);
    }
    forall c | c in w'.conds && CondUntouched(w, w', t, c) ensures CondFits(w', c) {
      assert CondFits(w, c);
      CondKept(w, w', c, t);
    }
  }

  // ----- Queues -----

  lemma {:induction false} WithoutKeepsDistinct(q: seq<nat>, t: nat)
    requires Distinct(q)
    ensures Distinct(Without(q, t))
  {
    if q == [] {
    } else {
      var front := q[..|q| - 1];
      WithoutKeepsDistinct(front, t);
      assert forall i :: 0 <= i < |front| ==> front[i] != q[|q| - 1];
      assert q[|q| - 1] !in Without(front, t);
    }
  }

  lemma {:induction false} WithoutSplits(p: seq<nat>, q: seq<nat>, t: nat)
    ensures Without(p + q, t) == Without(p, t) + Without(q, t)
  {
    hide Without;
    if q == [] {
      assert p + q == p;
      NothingWithout(t);
    } else {
      var front, last := q[..|q| - 1], q[|q| - 1];
      WithoutSplits(p, front, t);
      WithoutLast(p + front, last, t);
      WithoutLast(front, last, t);
      assert front + [last] == q && (p + front) + [last] == p + q;
      var kept := if last == t then [] else [last];
      assert Without(p, t) + (Without(front, t) + kept) == (Without(p, t) + Without(front, t)) + kept;
    }
  }

  lemma NothingWithout(t: nat)
    ensures Without([], t) == []
  {
  }

  lemma WithoutLast(q: seq<nat>, u: nat, t: nat)
    ensures Without(q + [u], t) == Without(q, t) + if u == t then [] else [u]
  {
    assert (q + [u])[..|q + [u]| - 1] == q;
  }

  /** A thread whose time is up leaves the queue, and the others keep their order. */
  lemma TimeOutLeavesQueue(cond: HostCond, t: nat)
    ensures TimedOutCond(cond, t).Queue() == Without(cond.Queue(), t)
  {
    WithoutSplits(cond.waking, cond.waiting, t);
  }

  lemma SignalledLeavesQueue(cond: HostCond)
    requires cond.waking != [] && Distinct(cond.Queue())
    ensures cond.(waking := cond.waking[1..]).Queue() == cond.Queue()[1..] == Without(cond.Queue(), cond.waking[0])
  {
    var q := cond.Queue();
    FirstLeaves(q);
  }

  lemma FirstLeaves(q: seq<nat>)
    requires q != [] && Distinct(q)
    ensures Without(q, q[0]) == q[1..]
  {
    hide Without;
    var rest := q[1..];
    assert q == [] + [q[0]] + rest;
    WithoutLast([], q[0], q[0]);
    WithoutSplits([q[0]], rest, q[0]);
    assert [] + [q[0]] == [q[0]];
    assert q[0] !in rest;
  }

  // ----- Waking up -----

  lemma WokenThread(w: World, t: nat)
    requires Consistent(w) && w.IsActive(t) && Sound(w, t) && Ready(w, t)
    ensures ThreadsFit(Woken(w, t))
  {
    hide SemFits, CondFits, Without;
    assert ThreadFits(w, t);
    ThreadsKept(w, Woken(w, t), t);
  }

  lemma CondLosesThread(w: World, w': World, t: nat, c: nat)
    requires c in w.conds && c in w'.conds && CondFits(w, c) && OnlyThread(w, w', t)
    requires w'.conds[c].Queue() == Without(w.conds[c].Queue(), t) && !WaitsOnCond(w', t, c)
    requires forall u :: u in w'.conds[c].timedOut && u != t ==> u in w.conds[c].timedOut
    requires t in w'.conds[c].timedOut ==> HasTimedOut(w', t, c)
    ensures CondFits(w', c)
  {
    hide HostCond.Queue, WaitsOnCond, HasTimedOut;
    WithoutKeepsDistinct(w.conds[c].Queue(), t);
    CondKept(w, w', c, t);
  }

  lemma WokenSems(w: World, t: nat)
    requires Consistent(w) && w.IsActive(t) && Sound(w, t) && Ready(w, t)
    ensures SemsFit(Woken(w, t))
  {
    hide CondFits, ThreadFits, Without;
    var w' := Woken(w, t);
    OthersKept(w, w', t);
    var b := w.threads[t].blockedBy;
    if b.Semaphore? && b.sem in w.semaphores {
      assert SemFits(w, b.sem);
      SemKept(w, w', b.sem, t);
    }
  }

  lemma WokenConds(w: World, t: nat)
    requires Consistent(w) && w.IsActive(t) && Sound(w, t) && Ready(w, t)
    ensures CondsFit(Woken(w, t))
  {
    hide SemFits, HostCond.Queue, Without;
    var w' := Woken(w, t);
    OthersKept(w, w', t);
    var b := w.threads[t].blockedBy;
    if b.Condition? {
      var c := b.cond;
      assert ThreadFits(w, t) && CondFits(w, c);
      if IsSignalled(w, t) {
        SignalledLeavesQueue(w.conds[c]);
      } else {
        TimeOutLeavesQueue(w.conds[c], t);
      }
      CondLosesThread(w, w', t, c);
    }
  }

  lemma WokenKeeps(w: World, t: nat)
    requires Consistent(w) && w.IsActive(t) && Sound(w, t) && Ready(w, t)
    ensures Consistent(Woken(w, t))
  {
    hide SemsFit, CondsFit, ThreadsFit, Woken, Ready, Sound;
    WokenThread(w, t);
    WokenSems(w, t);
    WokenConds(w, t);
  }

  lemma TimedOutKeeps(w: World, t: nat)
    requires Consistent(w) && w.IsActive(t) && Sound(w, t) && Expired(w, t)
    ensures Consistent(TimedOut(w, t))
  {
    var c := w.threads[t].blockedBy.cond;
    var w' := TimedOut(w, t);
    OthersKept(w, w', t);
    assert ThreadFits(w, t);
    assert CondFits(w, c);
    ThreadsKept(w, w', t);
    TimeOutLeavesQueue(w.conds[c], t);
    CondLosesThread(w, w', t, c);
  }

  // ----- The other steps -----

  lemma SameThreadsKeeps(w: World, w': World)
    requires Consistent(w) && w'.threads == w.threads && w'.semaphores == w.semaphores && w'.conds == w.conds
    requires w.mutexes.Keys <= w'.mutexes.Keys && w'.current < |w.threads| && w'.clock.host <= w'.now
    ensures Consistent(w')
  {
    hide SemFits, CondFits;
    OthersKept(w, w', w.current);
    assert ThreadFits(w, w.current);
    ThreadsKept(w, w', w.current);
  }

  lemma SchedulingKeeps(w: World, e: Event)
    requires Consistent(w) && Enabled(w, e) && e.IsScheduling()
    ensures Consistent(Apply(w, e))
  {
    hide ThreadFits, SemFits, CondFits, Woken, TimedOut, Ready, Sound, Expired;
    if e.Wake? {
      WokenKeeps(w, e.thread);
    } else if e.TimeOut? {
      TimedOutKeeps(w, e.thread);
    } else {
      SameThreadsKeeps(w, Apply(w, e));
    }
  }

  /** A step that changes only what thread `t` waits for, which is neither a semaphore nor a condition variable. */
  lemma BlockKeeps(w: World, w': World, t: nat)
    requires Consistent(w) && OnlyThread(w, w', t) && w'.semaphores == w.semaphores && w'.conds == w.conds
    requires w.mutexes.Keys <= w'.mutexes.Keys && w'.current == w.current && w'.clock == w.clock && w'.now == w.now
    requires ThreadFits(w', t) && w'.threads[t].call == w.threads[t].call
    requires w'.Waits(t) == w.Waits(t)
          || (!w'.Waits(t).Semaphore? && !w'.Waits(t).Condition? && !w.Waits(t).Semaphore? && !w.Waits(t).Condition?)
    ensures Consistent(w')
  {
    hide SemFits, CondFits, ThreadFits;
    OthersKept(w, w', t);
    ThreadsKept(w, w', t);
  }

  lemma SuspensionKeeps(w: World, e: Event)
    requires Consistent(w) && Enabled(w, e) && (e.Suspend? || e.Resume?)
    ensures Consistent(Apply(w, e))
  {
    hide SemFits, CondFits, SemsFit, CondsFit, Woken, TimedOut, LockedBy, CondWaited, Taken, Ready, Sound;
    var t := e.thread;
    assert ThreadFits(w, t);
    BlockKeeps(w, Apply(w, e), t);
  }

  lemma BlockingKeeps(w: World, e: Event)
    requires Consistent(w) && Enabled(w, e) && (e.Yield? || e.Lock? || e.Exit?)
    ensures Consistent(Apply(w, e))
  {
    hide SemsFit, CondsFit, Woken, TimedOut, Sound, Ready, Unlocked, CondWaited;
    var w', t := Apply(w, e), w.current;
    assert ThreadFits(w, t);
    BlockKeeps(w, w', t);
  }

  lemma MutexKeeps(w: World, e: Event)
    requires Consistent(w) && Enabled(w, e) && (e.MutexInit? || e.Unlock?)
    ensures Consistent(Apply(w, e))
  {
    hide SemFits, CondFits, ThreadFits, Unlocked;
    SameThreadsKeeps(w, Apply(w, e));
  }

  /** A step that changes one semaphore, and at most what thread `t` waits for. */
  lemma OneSemKeeps(w: World, w': World, s: nat, t: nat)
    requires Consistent(w) && OnlyThread(w, w', t) && ThreadFits(w', t)
    requires w'.mutexes == w.mutexes && w'.conds == w.conds
    requires w'.current == w.current && w'.clock == w.clock && w'.now == w.now
    requires forall r :: r in w'.semaphores && r != s ==> SemUntouched(w, w', t, r)
    requires forall c :: c in w.conds ==> CondUntouched(w, w', t, c)
    requires s in w'.semaphores ==> SemFits(w', s)
    ensures Consistent(w')
  {
    hide SemFits, CondFits, ThreadFits, SemUntouched, CondUntouched;
    OthersKept(w, w', t);
    ThreadsKept(w, w', t);
  }

  lemma SemPostKeeps(w: World, e: Event)
    requires Consistent(w) && Enabled(w, e) && (e.SemPost? || e.SemDestroy?)
    ensures Consistent(Apply(w, e))
  {
    hide CondFits, CondsFit;
    var w' := Apply(w, e);
    assert ThreadFits(w, w.current);
    if e.sem in w.semaphores {
      assert SemFits(w, e.sem);
    }
    OneSemKeeps(w, w', e.sem, w.current);
  }

  lemma SemWaitKeeps(w: World, e: Event)
    requires Consistent(w) && Enabled(w, e) && e.SemWait?
    ensures Consistent(Apply(w, e))
  {
    hide CondFits, CondsFit;
    var w', t := Apply(w, e), w.current;
    assert ThreadFits(w, t);
    if e.sem in w.semaphores {
      assert SemFits(w, e.sem);
      SemKept(w, w', e.sem, t);
    }
    OneSemKeeps(w, w', e.sem, t);
  }

  lemma CreateKeeps(w: World)
    requires Consistent(w) && Enabled(w, Create)
    ensures Consistent(Apply(w, Create))
  {
    var w' := Apply(w, Create);
    forall t | 0 <= t < |w'.threads| ensures ThreadFits(w', t) {
      assert t < |w.threads| ==> ThreadFits(w, t);
    }
    forall s | s in w'.semaphores ensures SemFits(w', s) {
      assert SemFits(w, s);
      assert forall t: nat :: WaitsOnSem(w', t, s) <==> WaitsOnSem(w, t, s);
    }
    forall c | c in w'.conds ensures CondFits(w', c) {
      assert CondFits(w, c);
      assert forall t: nat :: WaitsOnCond(w', t, c) <==> WaitsOnCond(w, t, c);
      assert forall t: nat :: HasTimedOut(w, t, c) ==> HasTimedOut(w', t, c);
    }
  }

  /** Signals move threads along in the queue, in order. */
  lemma SignalKeepsQueue(w: World, e: Event, c: nat)
    requires Enabled(w, e) && (e == CondSignal(c) || e == CondBroadcast(c)) && c in w.conds
    ensures c in Apply(w, e).conds && Apply(w, e).conds[c].Queue() == w.conds[c].Queue()
  {
    var cond := w.conds[c];
    if cond.waiting != [] {
      var first := cond.waiting[0];
      assert cond.waking + cond.waiting == (cond.waking + [first]) + cond.waiting[1..];
    }
  }

  lemma SignalKeeps(w: World, e: Event)
    requires Consistent(w) && Enabled(w, e) && (e.CondSignal? || e.CondBroadcast?)
    ensures Consistent(Apply(w, e))
  {
    if e.cond in w.conds {
      SignalKeepsQueue(w, e, e.cond);
      SameQueuesKeep(w, Apply(w, e), e.cond);
    }
  }

  /** A step that moves threads along inside one queue. */
  lemma SameQueuesKeep(w: World, w': World, c: nat)
    requires Consistent(w) && c in w.conds && c in w'.conds && w' == w.(conds := w.conds[c := w'.conds[c]])
    requires w'.conds[c].Queue() == w.conds[c].Queue() && w'.conds[c].timedOut == w.conds[c].timedOut
    requires w'.conds[c].mutex == w.conds[c].mutex
    ensures Consistent(w')
  {
    hide SemFits, HostCond.Queue, Distinct;
    var t := w.current;
    OthersKept(w, w', t);
    assert ThreadFits(w, t);
    ThreadsKept(w, w', t);
    assert CondFits(w, c);
    CondKept(w, w', c, t);
  }

  lemma CondFinishKeeps(w: World)
    requires Consistent(w) && Enabled(w, CondFinish)
    ensures Consistent(Apply(w, CondFinish))
  {
    hide SemFits, Distinct;
    var w', t := Apply(w, CondFinish), w.current;
    var c := w.threads[t].call.value.cond;
    OthersKept(w, w', t);
    assert ThreadFits(w, t) && CondFits(w, c);
    assert w'.conds[c].Queue() == w.conds[c].Queue();
    ThreadsKept(w, w', t);
    CondKept(w, w', c, t);
  }

  lemma CondWaitThread(w: World, e: Event)
    requires Consistent(w) && Enabled(w, e) && e.CondWait? && CanWait(w, e.cond, e.mutex)
    ensures ThreadsFit(Apply(w, e))
  {
    hide SemFits, SemsFit, Unlocked, Distinct;
    var w', t, c := Apply(w, e), w.current, e.cond;
    assert ThreadFits(w', t);
    forall u | 0 <= u < |w'.threads| ensures ThreadFits(w', u) {
      if u != t {
        assert ThreadFits(w, u) && CondFits(w, c);
        assert WaitsOnCond(w, u, c) ==> u in w.conds[c].Queue();
      }
    }
  }

  lemma CondWaitKeeps(w: World, e: Event)
    requires Consistent(w) && Enabled(w, e) && e.CondWait?
    ensures Consistent(Apply(w, e))
  {
    hide SemFits, Unlocked, ThreadFits, ThreadsFit;
    if CanWait(w, e.cond, e.mutex) {
      CondWaitThread(w, e);
      var w', t, c := Apply(w, e), w.current, e.cond;
      OthersKept(w, w', t);
      assert CondFits(w, c);
      assert w'.conds[c].Queue() == w.conds[c].Queue() + [t];
      assert !WaitsOnCond(w, t, c);
      CondKept(w, w', c, t);
    }
  }

  // ----- The steps that can be misuse -----

  lemma MutexDestroyKeeps(w: World, e: Event)
    requires Consistent(w) && Enabled(w, e) && e.MutexDestroy?
    ensures Consistent(Apply(w, e)) <==> !Misuse(w, e)
  {
    hide SemFits, CondFits;
    var w', m := Apply(w, e), e.mutex;
    if Misuse(w, e) {
      var t: nat :| UsesMutex(w, t, m);
      assert ThreadFits(w, t) && !ThreadFits(w', t);
    } else {
      forall t | 0 <= t < |w.threads| ensures ThreadFits(w', t) {
        assert ThreadFits(w, t);
        assert w' != w ==> !UsesMutex(w, t, m);
      }
      OthersKept(w, w', w.current);
    }
  }

  lemma SemInitKeeps(w: World, e: Event)
    requires Consistent(w) && Enabled(w, e) && e.SemInit?
    ensures Consistent(Apply(w, e)) <==> !Misuse(w, e)
  {
    hide CondFits, CondsFit;
    var w', s := Apply(w, e), e.sem;
    assert ThreadFits(w, w.current);
    if Misuse(w, e) {
      var t: nat :| WaitsOnSem(w, t, s);
      assert t !in w'.semaphores[s].waiting && WaitsOnSem(w', t, s);
      assert !SemFits(w', s);
    } else {
      assert s !in w.semaphores ==> forall t: nat :: WaitsOnSem(w', t, s) <==> WaitsOnSem(w, t, s);
      OneSemKeeps(w, w', s, w.current);
    }
  }

  lemma CondInitKeeps(w: World, e: Event)
    requires Consistent(w) && Enabled(w, e) && e.CondInit?
    ensures Consistent(Apply(w, e)) <==> !Misuse(w, e)
  {
    hide SemFits, Distinct;
    var w', c := Apply(w, e), e.cond;
    if Misuse(w, e) {
      var t: nat :| WaitsOnCond(w, t, c);
      assert ThreadFits(w, t) && !ThreadFits(w', t);
    } else {
      forall t | 0 <= t < |w.threads| ensures ThreadFits(w', t) {
        assert ThreadFits(w, t) && !WaitsOnCond(w, t, c);
      }
      OthersKept(w, w', w.current);
      assert w'.conds[c].Queue() == [];
      assert Distinct([]) by { NoneIsDistinct(); }
      assert forall t: nat :: WaitsOnCond(w', t, c) <==> WaitsOnCond(w, t, c);
      assert CondFits(w', c);
    }
  }

  lemma NoneIsDistinct()
    ensures Distinct([])
  {
  }

  lemma CondDestroyKeeps(w: World, e: Event)
    requires Consistent(w) && Enabled(w, e) && e.CondDestroy?
    ensures Consistent(Apply(w, e)) <==> !Misuse(w, e)
  {
    hide SemFits, CondFits;
    var w', c := Apply(w, e), e.cond;
    if Misuse(w, e) {
      var t: nat :| InCall(w, t, c);
      assert ThreadFits(w, t) && !ThreadFits(w', t);
    } else {
      forall t | 0 <= t < |w.threads| ensures ThreadFits(w', t) {
        assert ThreadFits(w, t) && !InCall(w, t, c);
      }
      OthersKept(w, w', w.current);
    }
  }

  /** Every step keeps the invariant, except exactly the misuses. */
  lemma StepKeepsConsistent(w: World, e: Event)
    requires Consistent(w) && Enabled(w, e)
    ensures Consistent(Apply(w, e)) <==> !Misuse(w, e)
  {
    hide Consistent, Enabled, Apply, Misuse;
    if !e.SemInit? && !e.CondInit? && !e.CondDestroy? && !e.MutexDestroy? {
      NoMisuse(w, e);
    }
    match e
    case Tick(_) => SchedulingKeeps(w, e);
    case Wake(_) => SchedulingKeeps(w, e);
    case TimeOut(_) => SchedulingKeeps(w, e);
    case Dispatch(_) => SchedulingKeeps(w, e);
    case SetSpeed(_) => SchedulingKeeps(w, e);
    case Yield(_) => BlockingKeeps(w, e);
    case MutexInit(_, _) => MutexKeeps(w, e);
    case MutexDestroy(_) => MutexDestroyKeeps(w, e);
    case Lock(_) => BlockingKeeps(w, e);
    case Unlock(_) => MutexKeeps(w, e);
    case SemInit(_, _) => SemInitKeeps(w, e);
    case SemDestroy(_) => SemPostKeeps(w, e);
    case SemPost(_) => SemPostKeeps(w, e);
    case SemWait(_, _) => SemWaitKeeps(w, e);
    case CondInit(_) => CondInitKeeps(w, e);
    case CondDestroy(_) => CondDestroyKeeps(w, e);
    case CondWait(_, _, _) => CondWaitKeeps(w, e);
    case CondSignal(_) => SignalKeeps(w, e);
    case CondBroadcast(_) => SignalKeeps(w, e);
    case CondFinish => CondFinishKeeps(w);
    case Suspend(_) => SuspensionKeeps(w, e);
    case Resume(_) => SuspensionKeeps(w, e);
    case Create => CreateKeeps(w);
    case Exit(_) => BlockingKeeps(w, e);
  }

  lemma NoMisuse(w: World, e: Event)
    requires !e.SemInit? && !e.CondInit? && !e.CondDestroy? && !e.MutexDestroy?
    ensures !Misuse(w, e)
  {
  }
}
