/** Game time: a clock that runs at a selectable multiple of host time and is rebased at every
    change of speed. Times are exact rationals. */
module GuestClock {

  datatype Speed = Quarter | Half | Normal | Double | Quadruple {

    function Multiplier(): real {
      match this
      case Quarter => 0.25
      case Half => 0.5
      case Normal => 1.0
      case Double => 2.0
      case Quadruple => 4.0
    }

    /** The next faster or slower speed, stopping at the ends. */
    function Step(faster: bool): (s: Speed)
      ensures s == this <==> (if faster then Quadruple? else Quarter?)
      ensures s != this ==> s.Multiplier() == if faster then 2.0 * Multiplier() else Multiplier() / 2.0
    {
      match this
      case Quarter => if faster then Half else Quarter
      case Half => if faster then Normal else Quarter
      case Normal => if faster then Double else Half
      case Double => if faster then Quadruple else Normal
      case Quadruple => if faster then Quadruple else Double
    }
  }

  function Max0(x: real): real {
    if x < 0.0 then 0.0 else x
  }

  /** The fields of the clock: what guest and wall time were at `host`, and how fast they run from there. */
  datatype Anchor = Anchor(host: real, guest: real, wall: real, speed: Speed) {

    function Elapsed(now: real): real {
      Max0(now - host) * speed.Multiplier()
    }

    function GuestAt(now: real): real {
      guest + Elapsed(now)
    }

    function WallAt(now: real): real {
      wall + Elapsed(now)
    }

    function Rebased(newSpeed: Speed, now: real): Anchor {
      Anchor(now, GuestAt(now), WallAt(now), newSpeed)
    }

    function HostDeadline(due: real, now: real): real {
      now + Max0(due - GuestAt(now)) / speed.Multiplier()
    }

    /** A guest deadline is reached exactly when the host deadline computed for it is. */
    lemma DeadlineIsExact(due: real, now: real, later: real)
      requires host <= now <= later
      ensures due <= GuestAt(later) <==> HostDeadline(due, now) <= later
    {
      var m := speed.Multiplier();
      var remaining := due - GuestAt(now);
      assert GuestAt(later) - GuestAt(now) == (later - now) * m;
      if remaining > 0.0 {
        if remaining <= (later - now) * m {
          assert remaining / m <= (later - now) * m / m;
        } else {
          assert remaining / m > (later - now) * m / m;
        }
      }
    }

    /** A pending deadline does not move as host time passes. */
    lemma DeadlineIsStable(due: real, now: real, later: real)
      requires host <= now <= later && GuestAt(later) <= due
      ensures HostDeadline(due, later) == HostDeadline(due, now)
    {
      var m := speed.Multiplier();
      assert GuestAt(later) == GuestAt(now) + (later - now) * m;
      var x, y := due - GuestAt(later), later - now;
      assert (x + y * m) / m == x / m + y;
    }
  }

  // ----- Runs of speed changes -----

  /** The clock after some changes of speed, each given with its host time. */
  ghost function After(start: Anchor, changes: seq<(Speed, real)>): Anchor {
    if changes == [] then start
    else
      var (speed, now) := changes[|changes| - 1];
      After(start, changes[..|changes| - 1]).Rebased(speed, now)
  }

  ghost predicate InOrder(start: Anchor, changes: seq<(Speed, real)>, now: real) {
    if changes == [] then start.host <= now
    else
      var last := changes[|changes| - 1].1;
      last <= now && InOrder(start, changes[..|changes| - 1], last)
  }

  /** Speed times length, summed over the stretches of constant speed up to `now`. */
  ghost function Paced(start: Anchor, changes: seq<(Speed, real)>, now: real): real {
    if changes == [] then start.speed.Multiplier() * (now - start.host)
    else
      var (speed, last) := changes[|changes| - 1];
      Paced(start, changes[..|changes| - 1], last) + speed.Multiplier() * (now - last)
  }

  /** Guest time is the paced sum, and the guest's wall clock keeps step with it. */
  lemma {:induction false} GuestTimeIsPaced(start: Anchor, changes: seq<(Speed, real)>, now: real)
    requires InOrder(start, changes, now)
    ensures After(start, changes).host <= now
    ensures After(start, changes).GuestAt(now) == start.guest + Paced(start, changes, now)
    ensures After(start, changes).WallAt(now) == start.wall + Paced(start, changes, now)
  {
    if changes == [] {
    } else {
      var rest := changes[..|changes| - 1];
      var (speed, last) := changes[|changes| - 1];
      GuestTimeIsPaced(start, rest, last);
      RunsAt(After(start, rest).Rebased(speed, last), now);
    }
  }

  lemma RunsAt(clock: Anchor, now: real)
    requires clock.host <= now
    ensures clock.GuestAt(now) == clock.guest + clock.speed.Multiplier() * (now - clock.host)
    ensures clock.WallAt(now) == clock.wall + clock.speed.Multiplier() * (now - clock.host)
  {
  }

  /** Over any run, guest time never goes back, and never advances more than four times as far as host time. */
  lemma {:induction false} GuestTimeNeverJumps(start: Anchor, changes: seq<(Speed, real)>, more: seq<(Speed, real)>,
                                               now: real, later: real)
    requires InOrder(start, changes, now) && now <= later && InOrder(start, changes + more, later)
    requires forall i :: 0 <= i < |more| ==> now <= more[i].1
    ensures var passed := After(start, changes + more).GuestAt(later) - After(start, changes).GuestAt(now);
            0.25 * (later - now) <= passed <= 4.0 * (later - now)
  {
    GuestTimeIsPaced(start, changes + more, later);
    GuestTimeIsPaced(start, changes, now);
    PacedAdvance(start, changes, more, now, later);
  }

  lemma {:induction false} PacedAdvance(start: Anchor, changes: seq<(Speed, real)>, more: seq<(Speed, real)>,
                                        now: real, later: real)
    requires InOrder(start, changes, now) && now <= later && InOrder(start, changes + more, later)
    requires forall i :: 0 <= i < |more| ==> now <= more[i].1
    ensures var passed := Paced(start, changes + more, later) - Paced(start, changes, now);
            0.25 * (later - now) <= passed <= 4.0 * (later - now)
    decreases |more|
  {
    if more == [] {
      assert changes + more == changes;
      SameStretch(start, changes, now, later);
    } else {
      var front, last := more[..|more| - 1], more[|more| - 1].1;
      assert (changes + more)[..|changes + more| - 1] == changes + front;
      PacedAdvance(start, changes, front, now, last);
    }
  }

  lemma SameStretch(start: Anchor, changes: seq<(Speed, real)>, now: real, later: real)
    requires now <= later
    ensures var passed := Paced(start, changes, later) - Paced(start, changes, now);
            0.25 * (later - now) <= passed <= 4.0 * (later - now)
  {
    var m := (if changes == [] then start.speed else changes[|changes| - 1].0).Multiplier();
    var from := if changes == [] then start.host else changes[|changes| - 1].1;
    assert m * (later - from) - m * (now - from) == m * (later - now);
  }

  /** Rebasing at an unchanged speed is invisible afterwards exactly when it is not dated before the anchor:
      the time in between would count twice. */
  lemma RebaseIsInvisible(clock: Anchor, now: real, later: real)
    requires clock.host <= later && now <= later
    ensures clock.Rebased(clock.speed, now).GuestAt(later) == clock.GuestAt(later) <==> clock.host <= now
  {
    var m := clock.speed.Multiplier();
    if clock.host <= now {
      assert (now - clock.host) * m + (later - now) * m == (later - clock.host) * m;
    } else {
      assert (later - now) * m - (later - clock.host) * m == (clock.host - now) * m > 0.0;
    }
  }

  lemma NothingElapsed(clock: Anchor, speed: Speed, now: real)
    ensures clock.Rebased(speed, now).WallAt(now) == clock.WallAt(now)
    ensures clock.Rebased(speed, now).host == now && clock.Rebased(speed, now).speed == speed
    ensures clock.Rebased(speed, now).wall == clock.WallAt(now)
  {
    hide Speed.Multiplier;
    assert Max0(now - now) == 0.0;
  }

  // ----- Drift -----

  /** How far the guest's wall clock has got ahead of the host's: speed less one, times length, over all stretches. */
  ghost function Drift(start: Anchor, changes: seq<(Speed, real)>, now: real): real {
    if changes == [] then (start.speed.Multiplier() - 1.0) * (now - start.host)
    else
      var (speed, last) := changes[|changes| - 1];
      Drift(start, changes[..|changes| - 1], last) + (speed.Multiplier() - 1.0) * (now - last)
  }

  lemma {:induction false} PacedIsDrift(start: Anchor, changes: seq<(Speed, real)>, now: real)
    ensures Paced(start, changes, now) == now - start.host + Drift(start, changes, now)
  {
    if changes == [] {
    } else {
      PacedIsDrift(start, changes[..|changes| - 1], changes[|changes| - 1].1);
    }
  }

  /** If guest and host agreed about the wall clock at the start, they differ by the drift from then on. */
  lemma WallClocksDrift(start: Anchor, changes: seq<(Speed, real)>, now: real, wallOffset: real)
    requires InOrder(start, changes, now) && start.wall == start.host + wallOffset
    ensures After(start, changes).WallAt(now) == now + wallOffset + Drift(start, changes, now)
  {
    GuestTimeIsPaced(start, changes, now);
    PacedIsDrift(start, changes, now);
  }

  lemma {:induction false} InOrderLater(start: Anchor, changes: seq<(Speed, real)>, now: real, later: real)
    requires InOrder(start, changes, now) && now <= later
    ensures InOrder(start, changes, later)
  {
    if changes == [] {
    } else {
    }
  }

  // ----- The clock object -----

  class Clock {
    var hostAnchor: real
    var guestAnchor: real
    var wallAnchor: real
    var speed: Speed

    ghost function State(): Anchor
      reads this
    {
      Anchor(hostAnchor, guestAnchor, wallAnchor, speed)
    }

    constructor (host: real, wall: real)
      ensures State() == Anchor(host, host, wall, Normal)
    {
      hostAnchor := host;
      guestAnchor := host;
      wallAnchor := wall;
      speed := Normal;
    }

    function ElapsedAt(now: real): (elapsed: real)
      reads this
      ensures elapsed == State().Elapsed(now)
    {
      Max0(now - hostAnchor) * speed.Multiplier()
    }

    function Now(now: real): (guest: real)
      reads this
      ensures guest == State().GuestAt(now)
    {
      guestAnchor + ElapsedAt(now)
    }

    function HostDeadlineAt(due: real, now: real): (deadline: real)
      reads this
      ensures deadline == State().HostDeadline(due, now)
    {
      now + Max0(due - Now(now)) / speed.Multiplier()
    }

    /** Neither guest time nor guest wall time changes at the moment of the change. */
    method SetSpeedAt(newSpeed: Speed, now: real)
      modifies this
      ensures State() == old(State()).Rebased(newSpeed, now)
      ensures State().GuestAt(now) == old(State()).GuestAt(now)
      ensures State().WallAt(now) == old(State()).WallAt(now)
    {
      var elapsed := ElapsedAt(now);
      guestAnchor := guestAnchor + elapsed;
      wallAnchor := wallAnchor + elapsed;
      hostAnchor := now;
      speed := newSpeed;
    }
  }
}
