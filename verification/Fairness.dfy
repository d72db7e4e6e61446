/** How long a thread that can run has to wait for its turn. */
module Fairness {
  import opened Common
  import GuestClock
  import opened Threads
  import opened ThreadInvariants
  import opened ThreadRuns
  import opened Scheduler

  // ----- Turns -----

  /** What the current thread does, what the scheduler does then, and whom it switches to. */
  datatype Turn = Turn(guest: seq<Event>, schedule: seq<Event>, chosen: nat)

  /** Calls of the current thread, and time passing meanwhile. */
  ghost predicate IsGuest(events: seq<Event>) {
    forall i :: 0 <= i < |events| ==> !events[i].Wake? && !events[i].TimeOut? && !events[i].Dispatch?
  }

  ghost predicate IsTurn(w: World, turn: Turn) {
    && IsRun(w, turn.guest) && IsGuest(turn.guest)
    && var decided := After(w, turn.guest);
       && IsRun(decided, turn.schedule) && EndsWaking(turn.schedule, turn.chosen) && IsNearest(decided, turn.chosen)
       && Enabled(After(decided, turn.schedule), Dispatch(turn.chosen))
  }

  /** The state when the scheduler begins to look for the next thread. */
  ghost function Decided(w: World, turn: Turn): World
    requires IsTurn(w, turn)
  {
    After(w, turn.guest)
  }

  ghost function AfterTurn(w: World, turn: Turn): World
    requires IsTurn(w, turn)
  {
    Apply(After(Decided(w, turn), turn.schedule), Dispatch(turn.chosen))
  }

  /** Thread `t` could run each time that the scheduler chose, and was never chosen. */
  ghost predicate PassOver(w: World, turns: seq<Turn>, t: nat)
    decreases |turns|
  {
    turns == [] ||
    (IsTurn(w, turns[0]) && CanRun(Decided(w, turns[0]), t) && turns[0].chosen != t
     && PassOver(AfterTurn(w, turns[0]), turns[1..], t))
  }

  ghost function CreatedIn(events: seq<Event>): nat {
    if events == [] then 0
    else CreatedIn(events[..|events| - 1]) + if events[|events| - 1].Create? then 1 else 0
  }

  ghost function Created(turns: seq<Turn>): nat {
    if turns == [] then 0 else CreatedIn(turns[0].guest) + Created(turns[1..])
  }

  // ----- A turn keeps the ring, but for new threads -----

  lemma RingStep(w: World, e: Event)
    requires Enabled(w, e)
    ensures |Apply(w, e).threads| == |w.threads| + if e.Create? then 1 else 0
    ensures !e.Dispatch? ==> Apply(w, e).current == w.current
  {
    if e.Create? || e.Exit? {
      hide Woken, TimedOut, Sound, Ready, Expired, CanWait, Unlocked;
    } else {
      LivesUntouched(w, e);
      if !e.Dispatch? {
        CurrentStays(w, e);
      }
    }
  }

  lemma CurrentStays(w: World, e: Event)
    requires Enabled(w, e) && !e.Dispatch?
    ensures Apply(w, e).current == w.current
  {
    hide Without, IsSignalled, MutexIsFree, IsDue;
    if e.Wake? || e.TimeOut? {
      hide CanWait, Unlocked;
    } else {
      hide Woken, TimedOut, Sound, Ready, Expired, CanWait, Unlocked;
    }
  }

  lemma {:induction false} RingRun(w: World, events: seq<Event>)
    requires IsRun(w, events) && forall i :: 0 <= i < |events| ==> !events[i].Dispatch?
    ensures |After(w, events).threads| == |w.threads| + CreatedIn(events) && After(w, events).current == w.current
  {
    hide Enabled, Apply;
    if events == [] {
    } else {
      RingRun(w, events[..|events| - 1]);
      RingStep(After(w, events[..|events| - 1]), events[|events| - 1]);
    }
  }

  lemma {:induction false} NoneCreated(events: seq<Event>)
    requires forall i :: 0 <= i < |events| ==> !events[i].Create?
    ensures CreatedIn(events) == 0
  {
    if events == [] {
    } else {
      NoneCreated(events[..|events| - 1]);
    }
  }

  lemma RingTurn(w: World, turn: Turn)
    requires IsTurn(w, turn)
    ensures var v := Decided(w, turn);
            |v.threads| == |w.threads| + CreatedIn(turn.guest) && v.current == w.current
    ensures |AfterTurn(w, turn).threads| == |w.threads| + CreatedIn(turn.guest)
        && AfterTurn(w, turn).current == turn.chosen
  {
    hide Enabled, IsNearest, Apply;
    RingRun(w, turn.guest);
    NoneCreated(turn.schedule);
    RingRun(Decided(w, turn), turn.schedule);
    Dispatched(After(Decided(w, turn), turn.schedule), turn.chosen);
  }

  lemma Dispatched(w: World, t: nat)
    requires Enabled(w, Dispatch(t))
    ensures Apply(w, Dispatch(t)) == w.(current := t)
  {
  }

  /** A new thread makes the way around the ring to an old one at most one longer. */
  lemma RingGrows(n: nat, more: nat, from: nat, to: nat)
    requires from < n && to < n
    ensures Distance(n + more, from, to) <= Distance(n, from, to) + more
  {
  }

  lemma TurnApproaches(w: World, turn: Turn, t: nat)
    requires IsTurn(w, turn) && CanRun(Decided(w, turn), t) && turn.chosen != t
    requires w.current < |w.threads| && t < |w.threads|
    ensures var v := AfterTurn(w, turn);
            && v.current < |v.threads| && t < |v.threads|
            && Distance(|v.threads|, v.current, t) < Distance(|w.threads|, w.current, t) + CreatedIn(turn.guest)
  {
    hide IsTurn, CanRun, Decided, AfterTurn, Distance;
    RingTurn(w, turn);
    ChosenIsNearest(w, turn);
    var decided := Decided(w, turn);
    RingGrows(|w.threads|, CreatedIn(turn.guest), w.current, t);
    DecisionsApproach(|decided.threads|, decided.current, turn.chosen, t);
  }

  lemma ChosenIsNearest(w: World, turn: Turn)
    requires IsTurn(w, turn)
    ensures IsNearest(Decided(w, turn), turn.chosen)
  {
  }

  /** A thread that can run whenever the scheduler chooses is passed over in a row less often than its distance around
      the ring and the number of threads created meanwhile: with n threads and no new ones, fewer than n times. */
  lemma {:induction false} BoundedWaiting(w: World, turns: seq<Turn>, t: nat)
    requires w.current < |w.threads| && t < |w.threads| && PassOver(w, turns, t)
    ensures |turns| < Distance(|w.threads|, w.current, t) + Created(turns)
    ensures Created(turns) == 0 ==> |turns| < |w.threads|
    decreases |turns|
  {
    hide IsTurn, CanRun, Decided, AfterTurn, Distance;
    if turns == [] {
    } else {
      TurnApproaches(w, turns[0], t);
      BoundedWaiting(AfterTurn(w, turns[0]), turns[1..], t);
    }
  }

  // ----- With new threads all the time -----

  /** The main thread and `n` more, the last one running. */
  function Family(n: nat): World {
    Initial(GuestClock.Anchor(0.0, 0.0, 0.0, GuestClock.Normal), 0.0, 0.0).(
      threads := seq(n + 1, i => Thread(true, NotBlocked, None, None)), current := n)
  }

  /** The running thread creates another one, which is next. */
  function Generation(n: nat): Turn {
    Turn([Create], [Wake(n + 1)], n + 1)
  }

  function Generations(n: nat, k: nat): (turns: seq<Turn>)
    ensures |turns| == k
    decreases k
  {
    if k == 0 then [] else [Generation(n)] + Generations(n + 1, k - 1)
  }

  lemma FamilyGrows(n: nat)
    ensures IsTurn(Family(n), Generation(n)) && AfterTurn(Family(n), Generation(n)) == Family(n + 1)
    ensures CanRun(Decided(Family(n), Generation(n)), 0)
  {
    hide IsRun, After;
    var w, thread := Family(n), Thread(true, NotBlocked, None, None);
    var v := w.(threads := w.threads + [thread]);
    assert w.threads + [thread] == Family(n + 1).threads;
    assert Enabled(w, Create) && Apply(w, Create) == v;
    assert Enabled(v, Wake(n + 1)) && Apply(v, Wake(n + 1)) == v by {
      assert v.threads[n + 1 := thread] == v.threads;
    }
    NoEvents(w);
    NoEvents(v);
    RunStep(w, [], Create);
    RunStep(v, [], Wake(n + 1));
    assert [] + [Create] == [Create] && [] + [Wake(n + 1)] == [Wake(n + 1)];
  }

  /** The bound needs the threads created: if each thread that is chosen creates another one, a thread that can run all
      along is passed over any number of times. */
  lemma {:induction false} CreationStarves(n: nat, k: nat)
    ensures PassOver(Family(n), Generations(n, k), 0) && Created(Generations(n, k)) == k
    decreases k
  {
    hide IsTurn, CanRun, Decided, AfterTurn, Family;
    if k == 0 {
    } else {
      FamilyGrows(n);
      CreationStarves(n + 1, k - 1);
      assert Generations(n, k)[1..] == Generations(n + 1, k - 1);
      assert CreatedIn([Create]) == 1 by {
        assert [Create][..0] == [];
      }
    }
  }
}
