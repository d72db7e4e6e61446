/** The scheduler: which thread runs next, what it takes with it, and how long everyone sleeps when none can run. */
module Scheduler {
  import opened Common
  import GuestClock
  import opened Threads
  import opened ThreadInvariants

  const GRACE_ATTEMPTS := 3

  // ----- Deadlines -----

  /** The host time at which guest time reaches `due`, at the present speed. */
  function HostDue(clock: GuestClock.Anchor, due: real): real {
    clock.host + (due - clock.guest) / clock.speed.Multiplier()
  }

  /** The host time until which a thread waits at most, if it waits for a time at all. */
  function Deadline(w: World, t: nat): Option<real>
    requires t < |w.threads|
  {
    match w.threads[t].blockedBy
    case Sleeping(until) => Some(until)
    case GuestSleeping(due) => Some(HostDue(w.clock, due))
    case Condition(_, Some(deadline)) => Some(deadline - w.wallOffset)
    case _ => None
  }

  lemma PendingGuestDeadline(clock: GuestClock.Anchor, due: real, now: real)
    requires clock.host <= now && clock.GuestAt(now) <= due
    ensures clock.HostDeadline(due, now) == HostDue(clock, due)
  {
    var m := clock.speed.Multiplier();
    var x, y := due - clock.guest, now - clock.host;
    assert (x - y * m) / m == x / m - y;
  }

  /** A thread's time has come exactly when its deadline has passed on the host. */
  lemma DueAtDeadline(w: World, t: nat)
    requires t < |w.threads| && w.clock.host <= w.now
    ensures IsDue(w, t) <==> Deadline(w, t).Some? && Deadline(w, t).value <= w.now
  {
    match w.threads[t].blockedBy
    case GuestSleeping(due) =>
      var m := w.clock.speed.Multiplier();
      var x, y := due - w.clock.guest, w.now - w.clock.host;
      assert x <= y * m <==> x / m <= y;
    case _ =>
  }

  /** The moment when the first of the waiting threads can go on; none when nobody waits for a time. */
  ghost predicate IsEarliest(w: World, awakening: Option<real>) {
    && (forall t :: w.IsActive(t) && Deadline(w, t).Some? ==> awakening.Some? && awakening.value <= Deadline(w, t).value)
    && (awakening.Some? ==> exists t :: w.IsActive(t) && Deadline(w, t) == awakening)
  }

  // ----- Who can run -----

  predicate CanRun(w: World, t: nat) {
    w.IsActive(t) && Sound(w, t) && Ready(w, t)
  }

  predicate CanRunAnyway(w: World, t: nat) {
    w.IsActive(t) && Sound(w, t) && ReadyAnyway(w, t)
  }

  /** No thread can run, and no passing of time will change that. */
  ghost predicate Deadlocked(w: World) {
    forall t: nat :: w.IsActive(t) ==> !CanRunAnyway(w, t) && Deadline(w, t) == None
  }

  lemma DeadlockIsForever(w: World, at: real, t: nat)
    requires Deadlocked(w) && w.IsActive(t) && Sound(w, t)
    ensures !Ready(w.(now := at), t) && !Expired(w.(now := at), t)
  {
    assert !CanRunAnyway(w, t) && Deadline(w, t) == None;
  }

  // ----- Distance around the ring of threads -----

  /** How many threads on from `from` the scheduler gets to `to`; a thread comes last itself. */
  function Distance(n: nat, from: nat, to: nat): (d: nat)
    requires from < n && to < n
    ensures 1 <= d <= n
  {
    if to > from then to - from else to + n - from
  }

  function Candidate(n: nat, current: nat, i: nat): (t: nat)
    requires current < n && i < n
    ensures t < n && Distance(n, current, t) == i + 1
  {
    if current + 1 + i < n then current + 1 + i else current + 1 + i - n
  }

  lemma CandidateIsModulo(n: nat, current: nat, i: nat)
    requires current < n && i < n
    ensures Candidate(n, current, i) == (current + 1 + i) % n
  {
    if current + 1 + i >= n {
      OneTurnOfModulo(current + 1 + i, n);
    }
  }

  lemma OneTurnOfModulo(x: nat, n: nat)
    requires n <= x < 2 * n
    ensures x % n == x - n
  {
    var q, r := x / n, x % n;
    assert x == q * n + r && 0 <= r < n;
    assert q >= 2 ==> q * n >= 2 * n;
    assert q <= 0 ==> q * n <= 0;
    assert q == 1;
  }

  lemma EveryThreadIsACandidate(n: nat, current: nat, t: nat)
    requires current < n && t < n
    ensures Candidate(n, current, Distance(n, current, t) - 1) == t
  {
  }

  /** Each decision takes the scheduler closer to a thread that it does not choose. */
  lemma DecisionsApproach(n: nat, from: nat, chosen: nat, t: nat)
    requires from < n && chosen < n && t < n && chosen != t && Distance(n, from, chosen) <= Distance(n, from, t)
    ensures Distance(n, chosen, t) == Distance(n, from, t) - Distance(n, from, chosen) < Distance(n, from, t)
  {
  }

  /** No thread that can run comes before `t`, counting on from the current thread. */
  ghost predicate IsNearest(w: World, t: nat) {
    && w.current < |w.threads| && t < |w.threads|
    && forall u: nat :: CanRun(w, u) ==> Distance(|w.threads|, w.current, t) <= Distance(|w.threads|, w.current, u)
  }

  // ----- Runs of the scheduler -----

  /** Time passing and waits running out, but nobody waking up. */
  ghost predicate IsWaiting(events: seq<Event>) {
    forall i :: 0 <= i < |events| ==> events[i].Tick? || events[i].TimeOut?
  }

  /** The run ends with `t` waking up, and is a mere wait before. */
  ghost predicate EndsWaking(events: seq<Event>, t: nat) {
    events != [] && events[|events| - 1] == Wake(t) && IsWaiting(events[..|events| - 1])
  }

  lemma ChosenCanGoOn(w: World, events: seq<Event>, t: nat)
    requires IsRun(w, events) && EndsWaking(events, t)
    ensures After(w, events).IsActive(t) && After(w, events).threads[t].blockedBy == NotBlocked
  {
    hide Without;
  }

  // ----- Timed waits on condition variables -----

  predicate IsTimedWait(thread: Thread) {
    thread.blockedBy.Condition? && thread.blockedBy.deadline.Some?
  }

  ghost function TimedWaits(threads: seq<Thread>): nat {
    if threads == [] then 0
    else TimedWaits(threads[..|threads| - 1]) + if IsTimedWait(threads[|threads| - 1]) then 1 else 0
  }

  lemma {:induction false} OneTimedWaitLess(threads: seq<Thread>, t: nat, thread: Thread)
    requires t < |threads| && IsTimedWait(threads[t]) && !IsTimedWait(thread)
    ensures TimedWaits(threads[t := thread]) == TimedWaits(threads) - 1
  {
    var front, front' := threads[..|threads| - 1], threads[t := thread][..|threads| - 1];
    if t == |threads| - 1 {
      assert front' == front;
    } else {
      OneTimedWaitLess(front, t, thread);
      assert front' == front[t := thread];
    }
  }

  // ----- One look at the threads -----

  /** Time passes, and then possibly the wait of thread `t` ends without its mutex. */
  predicate Advances(w: World, w': World, t: nat) {
    var later := w.(now := w'.now);
    && w.now <= w'.now && w.IsActive(t)
    && (w' == later || (Sound(later, t) && Expired(later, t) && w' == TimedOut(later, t)))
  }

  lemma OthersAdvance(w: World, w': World, t: nat, u: nat)
    requires Advances(w, w', t) && u != t && w.IsActive(u) && Sound(w, u)
    ensures w'.IsActive(u) && Sound(w', u)
    ensures IsDue(w, u) ==> IsDue(w', u)
    ensures Ready(w, u) ==> Ready(w', u)
    ensures ReadyAnyway(w', u) ==> ReadyAnyway(w, u)
    ensures Deadline(w', u) == Deadline(w, u)
  {
    hide Without;
    assert w.clock.GuestAt(w.now) <= w.clock.GuestAt(w'.now);
  }

  /** A thread that the scheduler has looked at since `w0`, and that can not run. */
  ghost predicate Skipped(w0: World, w: World, awakening: Option<real>, t: nat) {
    w.IsActive(t) ==>
      && t < |w0.threads| && !CanRunAnyway(w, t) && !CanRun(w0, t)
      && (Deadline(w, t).Some? ==> awakening.Some? && awakening.value <= Deadline(w, t).value)
      && (IsDue(w0, t) ==> TimedWaits(w.threads) < TimedWaits(w0.threads))
  }

  /** A thread that it has still to look at. */
  ghost predicate Untried(w0: World, w: World, t: nat) {
    w.IsActive(t) ==>
      && t < |w0.threads| && (CanRun(w0, t) ==> CanRun(w, t)) && (IsDue(w0, t) ==> IsDue(w, t))
  }

  ghost predicate HasDeadline(w: World, i: nat, awakening: real)
    requires w.current < |w.threads| && i <= |w.threads|
  {
    exists k :: 0 <= k < i && WaitsUntil(w, Candidate(|w.threads|, w.current, k), awakening)
  }

  predicate WaitsUntil(w: World, t: nat, time: real) {
    w.IsActive(t) && Deadline(w, t) == Some(time)
  }

  ghost predicate SameThreads(w0: World, w: World) {
    && |w.threads| == |w0.threads| && w.current == w0.current < |w0.threads|
    && forall t :: 0 <= t < |w.threads| ==> w.threads[t].active == w0.threads[t].active
  }

  /** Where a look at all threads stands after the first `i` of them, beginning with the one after the current one. */
  ghost predicate Scanned(w0: World, w: World, i: nat, awakening: Option<real>) {
    && Consistent(w) && SameThreads(w0, w) && i <= |w.threads|
    && TimedWaits(w.threads) <= TimedWaits(w0.threads)
    && (awakening.Some? ==> HasDeadline(w, i, awakening.value))
    && (forall k :: 0 <= k < i ==> Skipped(w0, w, awakening, Candidate(|w.threads|, w.current, k)))
    && (forall k :: i <= k < |w.threads| ==> Untried(w0, w, Candidate(|w.threads|, w.current, k)))
    && (Deadlocked(w0) ==> Deadlocked(w))
  }

  lemma ScanStarts(w: World)
    requires Consistent(w)
    ensures Scanned(w, w, 0, None)
  {
  }

  function Earlier(a: Option<real>, b: Option<real>): Option<real> {
    if a == None then b else if b == None || a.value <= b.value then a else b
  }

  /** What the look at one thread finds: it is not active, or it waits on, perhaps for something else than before. */
  predicate StaysBehind(w: World, w': World, t: nat, due: Option<real>) {
    if w.IsActive(t) then
      var later := w.(now := w'.now);
      && Advances(w, w', t) && due == Deadline(w', t) && Sound(later, t) && !Ready(later, t)
      && (Expired(later, t) ==> w' != later)
    else
      w' == w && due == None
  }

  lemma TryKeepsConsistent(w: World, w': World, t: nat)
    requires Consistent(w) && Advances(w, w', t)
    ensures Consistent(w')
  {
    hide Consistent, Woken, Ready;
    var later := w.(now := w'.now);
    StepKeepsConsistent(w, Tick(w'.now));
    if w' != later {
      StepKeepsConsistent(later, TimeOut(t));
    }
  }

  lemma TryCountsTimedWaits(w: World, w': World, t: nat, due: Option<real>)
    requires StaysBehind(w, w', t, due)
    ensures SameThreads(w, w') || !(w.current < |w.threads|)
    ensures TimedWaits(w'.threads) <= TimedWaits(w.threads)
    ensures w.IsActive(t) && IsDue(w, t) ==> TimedWaits(w'.threads) < TimedWaits(w.threads)
    ensures w.IsActive(t) ==> !CanRun(w, t) && !CanRunAnyway(w', t)
  {
    hide Without;
    if w.IsActive(t) {
      var later := w.(now := w'.now);
      assert w.clock.GuestAt(w.now) <= w.clock.GuestAt(w'.now);
      if w' != later {
        OneTimedWaitLess(w.threads, t, w'.threads[t]);
      }
    }
  }

  lemma TrySkips(w0: World, w: World, i: nat, awakening: Option<real>, w': World, due: Option<real>)
    requires Scanned(w0, w, i, awakening) && i < |w.threads|
    requires StaysBehind(w, w', Candidate(|w.threads|, w.current, i), due)
    ensures SameThreads(w0, w')
    ensures Skipped(w0, w', Earlier(awakening, due), Candidate(|w.threads|, w.current, i))
  {
    hide Consistent, IsDue, Ready, ReadyAnyway, Sound, Expired, TimedOut, Deadlocked, Deadline;
    var t := Candidate(|w.threads|, w.current, i);
    assert Untried(w0, w, t);
    TryCountsTimedWaits(w, w', t, due);
  }

  lemma OthersStay(w0: World, w: World, i: nat, awakening: Option<real>, w': World, due: Option<real>, k: nat)
    requires Scanned(w0, w, i, awakening) && i < |w.threads| && k < |w.threads| && k != i
    requires StaysBehind(w, w', Candidate(|w.threads|, w.current, i), due)
    ensures var u := Candidate(|w.threads|, w.current, k);
            if k < i then Skipped(w0, w', Earlier(awakening, due), u) else Untried(w0, w', u)
    ensures var u := Candidate(|w.threads|, w.current, k);
            w'.IsActive(u) ==> w.IsActive(u) && Deadline(w', u) == Deadline(w, u)
    ensures var u := Candidate(|w.threads|, w.current, k);
            w.IsActive(u) ==> w'.IsActive(u) && Deadline(w', u) == Deadline(w, u)
  {
    hide IsDue, Ready, ReadyAnyway, Sound, Expired, TimedOut, Deadlocked, Deadline, ThreadsFit, SemsFit, CondsFit;
    var t, u := Candidate(|w.threads|, w.current, i), Candidate(|w.threads|, w.current, k);
    assert t != u;
    TryCountsTimedWaits(w, w', t, due);
    assert if k < i then Skipped(w0, w, awakening, u) else Untried(w0, w, u);
    if w.IsActive(u) && w.IsActive(t) {
      ConsistentIsSound(w, u);
      OthersAdvance(w, w', t, u);
    }
  }

  lemma TryLeavesDeadlock(w: World, w': World, t: nat, due: Option<real>)
    requires Consistent(w) && StaysBehind(w, w', t, due) && Deadlocked(w)
    ensures Deadlocked(w')
  {
    hide Consistent;
    if w.IsActive(t) {
      DeadlockIsForever(w, w'.now, t);
      assert w' == w.(now := w'.now);
      forall u: nat | w'.IsActive(u) ensures !CanRunAnyway(w', u) && Deadline(w', u) == None {
        assert !CanRunAnyway(w, u) && Deadline(w, u) == None;
      }
    }
  }

  lemma DeadlineIsKept(w0: World, w: World, i: nat, awakening: Option<real>, w': World, due: Option<real>)
    requires Scanned(w0, w, i, awakening) && i < |w.threads|
    requires StaysBehind(w, w', Candidate(|w.threads|, w.current, i), due)
    requires SameThreads(w, w') && Earlier(awakening, due).Some?
    ensures HasDeadline(w', i + 1, Earlier(awakening, due).value)
  {
    hide IsDue, Ready, ReadyAnyway, Sound, Expired, TimedOut, Deadlocked, Deadline, Consistent, Skipped, Untried;
    var first := Earlier(awakening, due);
    if first == due {
      assert WaitsUntil(w', Candidate(|w'.threads|, w'.current, i), first.value);
    } else {
      var k :| 0 <= k < i && WaitsUntil(w, Candidate(|w.threads|, w.current, k), first.value);
      OthersStay(w0, w, i, awakening, w', due, k);
      assert WaitsUntil(w', Candidate(|w'.threads|, w'.current, k), first.value);
    }
  }

  lemma ScanTurn(w0: World, w: World, i: nat, awakening: Option<real>, w': World, due: Option<real>)
    requires Scanned(w0, w, i, awakening) && i < |w.threads|
    requires StaysBehind(w, w', Candidate(|w.threads|, w.current, i), due)
    ensures Scanned(w0, w', i + 1, Earlier(awakening, due))
  {
    hide IsDue, Ready, ReadyAnyway, Sound, Expired, TimedOut, Deadlocked, Deadline, Consistent, Skipped, Untried, HasDeadline, Earlier;
    var n, t := |w.threads|, Candidate(|w.threads|, w.current, i);
    TryCountsTimedWaits(w, w', t, due);
    TrySkips(w0, w, i, awakening, w', due);
    forall k | 0 <= k < n && k != i
      ensures if k < i then Skipped(w0, w', Earlier(awakening, due), Candidate(n, w.current, k))
              else Untried(w0, w', Candidate(n, w.current, k))
    {
      OthersStay(w0, w, i, awakening, w', due, k);
    }
    if w.IsActive(t) {
      TryKeepsConsistent(w, w', t);
    }
    if Deadlocked(w0) {
      TryLeavesDeadlock(w, w', t, due);
    }
    if Earlier(awakening, due).Some? {
      DeadlineIsKept(w0, w, i, awakening, w', due);
    }
  }

  lemma SkippedCannotRun(w0: World, w: World, i: nat, awakening: Option<real>, u: nat)
    requires Scanned(w0, w, i, awakening) && u < |w.threads| && Distance(|w.threads|, w.current, u) <= i
    ensures Skipped(w0, w, awakening, u) && !CanRun(w0, u)
  {
    hide IsDue, Ready, ReadyAnyway, Sound, Deadline, Consistent;
    EveryThreadIsACandidate(|w.threads|, w.current, u);
    assert Skipped(w0, w, awakening, Candidate(|w.threads|, w.current, Distance(|w.threads|, w.current, u) - 1));
  }

  ghost predicate SomeoneDue(w: World) {
    exists t: nat :: w.IsActive(t) && IsDue(w, t)
  }

  /** When all have been looked at in vain, everyone's deadline is accounted for, and somebody's wait that was over
      by then is now one for a mutex. */
  lemma ScanEnds(w0: World, w: World, awakening: Option<real>)
    requires Scanned(w0, w, |w.threads|, awakening)
    ensures IsEarliest(w, awakening)
    ensures forall t: nat :: !CanRunAnyway(w, t) && !CanRun(w0, t)
    ensures awakening == None || Deadlocked(w0) ==> Deadlocked(w)
    ensures SomeoneDue(w0) ==> TimedWaits(w.threads) < TimedWaits(w0.threads)
  {
    hide IsDue, Ready, ReadyAnyway, Sound, Deadline, Consistent;
    forall t: nat | w.IsActive(t)
      ensures !CanRunAnyway(w, t) && !CanRun(w0, t)
      ensures Deadline(w, t).Some? ==> awakening.Some? && awakening.value <= Deadline(w, t).value
      ensures IsDue(w0, t) ==> TimedWaits(w.threads) < TimedWaits(w0.threads)
    {
      SkippedCannotRun(w0, w, |w.threads|, awakening, t);
    }
    if SomeoneDue(w0) {
      var t: nat :| w0.IsActive(t) && IsDue(w0, t);
      assert w.IsActive(t);
    }
  }

  /** The first thread that can run is the one whose turn comes next. */
  lemma FirstIsNearest(w0: World, w: World, i: nat, awakening: Option<real>, u: nat)
    requires Scanned(w0, w, i, awakening) && i < |w.threads| && CanRun(w0, u)
    ensures Distance(|w.threads|, w.current, Candidate(|w.threads|, w.current, i)) <= Distance(|w.threads|, w.current, u)
  {
    hide IsDue, Ready, ReadyAnyway, Sound, Deadline, Consistent, CanRun, Skipped;
    assert u < |w.threads| by { RunnableExists(w0, u); }
    if Distance(|w.threads|, w.current, u) <= i {
      SkippedCannotRun(w0, w, i, awakening, u);
    }
  }

  lemma RunnableExists(w: World, u: nat)
    requires CanRun(w, u)
    ensures u < |w.threads|
  {
  }
}
