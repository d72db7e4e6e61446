/** Where the state of every thread is kept: in the processor and on the run loop's stack for the
    current one, in the thread table for the others. */
module ThreadSwitch {
  import opened Common

  /** The host call stack of a thread; there is one for each thread, and it is never copied. */
  datatype Coroutine = Coroutine(thread: nat)

  datatype Slot<C> = Slot(active: bool, guestContext: Option<C>, hostContext: Option<Coroutine>, stack: Option<nat>)

  /** `C` is the content of the processor's registers. */
  class Machine<C(==)> {
    var cpu: C
    var current: nat
    var threads: seq<Slot<C>>
    /** The coroutine that the run loop holds. */
    var held: Option<Coroutine>

    /** Exactly the current thread lacks a saved guest context, exactly the active threads other than the current one
        have their own coroutine in the table, and the run loop holds that of the current thread while it is active. */
    ghost predicate Valid()
      reads this
    {
      && current < |threads|
      && (forall t {:trigger threads[t]} :: 0 <= t < |threads| ==>
            && (threads[t].guestContext == None <==> t == current)
            && threads[t].hostContext == (if threads[t].active && t != current then Some(Coroutine(t)) else None)
            && (threads[t].stack.Some? <==> threads[t].active))
      && held == if threads[current].active then Some(Coroutine(current)) else None
    }

    /** The registers as each thread sees them. */
    ghost function Registers(): (r: seq<C>)
      requires Valid()
      reads this
      ensures |r| == |threads|
    {
      seq(|threads|, t requires 0 <= t < |threads| && Valid() reads this =>
        if t == current then cpu else threads[t].guestContext.value)
    }

    ghost function Active(): seq<bool>
      reads this
    {
      seq(|threads|, t requires 0 <= t < |threads| reads this => threads[t].active)
    }

    /** The main thread, as the run loop takes it up. */
    constructor (cpu: C, stack: nat)
      ensures Valid() && Registers() == [cpu] && Active() == [true] && current == 0
    {
      var main := Slot(true, None, Some(Coroutine(0)), Some(stack));
      this.cpu := cpu;
      current := 0;
      held := main.hostContext;
      threads := [main.(hostContext := None)];
    }

    method NewThread(initial: C, stack: nat) returns (t: nat)
      requires Valid()
      modifies this
      ensures Valid() && t == old(|threads|) && current == old(current)
      ensures Registers() == old(Registers()) + [initial] && Active() == old(Active()) + [true]
    {
      t := |threads|;
      threads := threads + [Slot(true, Some(initial), Some(Coroutine(t)), Some(stack))];
    }

    /** Guest code runs on the current thread, until it yields or ends. */
    method Resume(cpu': C)
      requires Valid() && threads[current].active
      modifies `cpu
      ensures Valid() && Registers() == old(Registers())[current := cpu']
    {
      cpu := cpu';
    }

    /** The current thread's coroutine has returned: it is dropped and the stack is freed. */
    method Kill() returns (freed: nat)
      requires Valid() && threads[current].active
      modifies this
      ensures Valid() && current == old(current) && Active() == old(Active())[current := false]
      ensures Registers() == old(Registers()) && Some(freed) == old(threads)[current].stack
    {
      held := None;
      var slot := threads[current];
      freed := slot.stack.value;
      threads := threads[current := slot.(active := false, stack := None)];
    }

    /** Nothing looked up on the way is missing, and no thread's registers change. */
    method SwitchThread(newThread: nat)
      requires Valid() && newThread < |threads| && newThread != current && threads[newThread].active
      modifies this
      ensures Valid() && current == newThread
      ensures Registers() == old(Registers()) && Active() == old(Active())
    {
      assert threads[newThread].guestContext.Some?;
      var guest := threads[newThread].guestContext.value;
      threads := threads[newThread := threads[newThread].(guestContext := None)];
      cpu, guest := guest, cpu;
      assert threads[current].guestContext == None;
      assert held.Some? || !threads[current].active;
      threads := threads[current := threads[current].(guestContext := Some(guest))];

      assert threads[newThread].hostContext.Some?;
      var host := threads[newThread].hostContext;
      threads := threads[newThread := threads[newThread].(hostContext := None)];
      threads := threads[current := threads[current].(hostContext := held)];
      held := host;
      current := newThread;
    }

    /** What the scheduler answers, as far as switching is concerned: any thread that has not finished. */
    method NextThread() returns (next: Option<nat>)
      ensures next.Some? ==> next.value < |threads| && threads[next.value].active
    {
      var t: int := *;
      next := if 0 <= t < |threads| && threads[t].active then Some(t) else None;
    }

    method RunTurn(turn: Turn<C>)
      requires Valid() && threads[current].active
      modifies this
      ensures Valid() && current == old(current)
      ensures Registers() == AfterTurn(old(Registers()), current, turn)
      ensures Active() == old(Active())[current := !turn.finishes] + seq(|turn.creates|, _ => true)
    {
      assert held == Some(Coroutine(current));
      Resume(turn.registers);
      ghost var registers, active := Registers(), Active();
      var n := 0;
      while n < |turn.creates|
        invariant Valid() && n <= |turn.creates| && current == old(current) && |active| <= |threads|
        invariant Registers() == registers + turn.creates[..n]
        invariant Active() == active + seq(n, _ => true) && Active()[current]
      {
        var stack: nat := *;
        var _ := NewThread(turn.creates[n], stack);
        n := n + 1;
      }
      assert turn.creates[..n] == turn.creates;
      if turn.finishes {
        var _ := Kill();
      }
    }

    /** The run loop: every turn resumes the current thread, which may start others or end, and goes on with whichever
        thread the scheduler says. Each thread runs on its own call stack, and sees its registers just as if it had a
        processor to itself. The first turn is that of the current thread, and each turn is that of a thread that has not
        finished before; when the scheduler has no answer, the last one stays current. */
    method Run(turns: seq<Turn<C>>) returns (ghost ran: seq<nat>)
      requires Valid() && threads[current].active
      modifies this
      ensures Valid() && |ran| <= |turns| && RunsInTurn(old(Active()), ran, turns)
      ensures Registers() == AfterTurns(old(Registers()), ran, turns)
      ensures Active() == ActiveAfter(old(Active()), ran, turns)
      ensures turns != [] ==> ran != [] && ran[0] == old(current)
      ensures |ran| < |turns| ==> current == ran[|ran| - 1]
      ensures |ran| == |turns| > 0 && current != ran[|ran| - 1] ==> Active()[current]
    {
      ran := [];
      var n := 0;
      while n < |turns|
        invariant Valid() && threads[current].active && |ran| == n <= |turns| && RunsInTurn(old(Active()), ran, turns)
        invariant Registers() == AfterTurns(old(Registers()), ran, turns)
        invariant Active() == ActiveAfter(old(Active()), ran, turns)
        invariant if n == 0 then current == old(current) else ran[0] == old(current)
      {
        ghost var ran' := ran + [current];
        assert ran'[..|ran|] == ran && Active()[current];
        RunTurn(turns[n]);
        ran := ran';
        var next := NextThread();
        if next == None {
          return;
        }
        assert Active()[next.value];
        if next.value != current {
          SwitchThread(next.value);
        }
        assert Active()[current];
        assert held.Some?;
        n := n + 1;
      }
    }
  }

  /** What one turn of guest code does: what it leaves in the registers, which threads it starts, and whether it ends. */
  datatype Turn<C> = Turn(registers: C, creates: seq<C>, finishes: bool)

  function AfterTurn<C>(registers: seq<C>, t: nat, turn: Turn<C>): seq<C>
    requires t < |registers|
  {
    registers[t := turn.registers] + turn.creates
  }

  /** The registers of all threads after the threads `ran` have had one turn each. */
  ghost function AfterTurns<C>(registers: seq<C>, ran: seq<nat>, turns: seq<Turn<C>>): seq<C>
    requires |ran| <= |turns|
  {
    if ran == [] then registers
    else
      var n := |ran| - 1;
      var before := AfterTurns(registers, ran[..n], turns);
      if ran[n] < |before| then AfterTurn(before, ran[n], turns[n]) else before
  }

  /** Which threads have not finished after those turns. */
  ghost function ActiveAfter<C>(active: seq<bool>, ran: seq<nat>, turns: seq<Turn<C>>): seq<bool>
    requires |ran| <= |turns|
  {
    if ran == [] then active
    else
      var n := |ran| - 1;
      var before := ActiveAfter(active, ran[..n], turns);
      if ran[n] < |before| then before[ran[n] := !turns[n].finishes] + seq(|turns[n].creates|, _ => true) else before
  }

  /** Each turn is that of a thread that has not finished before. */
  ghost predicate RunsInTurn<C>(active: seq<bool>, ran: seq<nat>, turns: seq<Turn<C>>)
    requires |ran| <= |turns|
  {
    ran == [] ||
    var n := |ran| - 1;
    var before := ActiveAfter(active, ran[..n], turns);
    RunsInTurn(active, ran[..n], turns) && ran[n] < |before| && before[ran[n]]
  }

  // ----- Frames of host-to-guest calls -----

  /** The frames of one thread, innermost last. */
  ghost function FramesOf(frames: seq<(nat, nat)>, t: nat): seq<nat> {
    if frames == [] then []
    else
      var front, last := frames[..|frames| - 1], frames[|frames| - 1];
      FramesOf(front, t) + if last.0 == t then [last.1] else []
  }

  lemma OneFrameMore(frames: seq<(nat, nat)>, frame: (nat, nat), t: nat)
    ensures FramesOf(frames + [frame], t) == FramesOf(frames, t) + if frame.0 == t then [frame.1] else []
  {
    assert (frames + [frame])[..|frames|] == frames;
  }

  lemma {:induction false} FramesJoin(front: seq<(nat, nat)>, back: seq<(nat, nat)>, t: nat)
    ensures FramesOf(front + back, t) == FramesOf(front, t) + FramesOf(back, t)
  {
    if back == [] {
      assert front + back == front;
    } else {
      var init, last := back[..|back| - 1], back[|back| - 1];
      FramesJoin(front, init, t);
      assert init + [last] == back && (front + init) + [last] == front + back;
      OneFrameMore(front + init, last, t);
      OneFrameMore(init, last, t);
    }
  }

  lemma {:induction false} FramesAreTracked(frames: seq<(nat, nat)>, t: nat, fp: nat)
    requires fp in FramesOf(frames, t)
    ensures (t, fp) in frames
  {
    if fp in FramesOf(frames[..|frames| - 1], t) {
      FramesAreTracked(frames[..|frames| - 1], t, fp);
    }
  }

  /** The synthetic frames of the calls from the host into the guest that are under way, of all threads together. */
  class HostCalls {
    var frames: seq<(nat, nat)>

    method Push(thread: nat, fp: nat) returns (frame: (nat, nat))
      modifies this
      ensures frame == (thread, fp)
      ensures forall t :: FramesOf(frames, t) == FramesOf(old(frames), t) + if t == thread then [fp] else []
    {
      frame := (thread, fp);
      forall t {
        OneFrameMore(frames, frame, t);
      }
      frames := frames + [frame];
    }

    /** Threads may be interleaved as they like: a call that was the innermost one of its thread is undone, and
        the calls of the other threads stay. */
    method Pop(frame: (nat, nat))
      modifies this
      ensures frame !in old(frames) ==> frames == old(frames)
      ensures forall t :: t != frame.0 ==> FramesOf(frames, t) == FramesOf(old(frames), t)
      ensures var own := FramesOf(old(frames), frame.0);
              own != [] && own[|own| - 1] == frame.1 ==> FramesOf(frames, frame.0) == own[..|own| - 1]
    {
      var i := |frames|;
      while i > 0 && frames[i - 1] != frame
        invariant 0 <= i <= |frames| && frame !in frames[i..]
      {
        i := i - 1;
      }
      if i > 0 {
        ghost var front, back := frames[..i - 1], frames[i..];
        assert frames == (front + [frame]) + back;
        LastFrameLeaves(front, back, frame);
        frames := frames[..i - 1] + frames[i..];
      } else {
        assert frames[0..] == frames;
        UntrackedIsNotInnermost(frames, frame);
      }
    }
  }

  lemma UntrackedIsNotInnermost(frames: seq<(nat, nat)>, frame: (nat, nat))
    requires frame !in frames
    ensures var own := FramesOf(frames, frame.0); own != [] ==> own[|own| - 1] != frame.1
  {
    if frame.1 in FramesOf(frames, frame.0) {
      FramesAreTracked(frames, frame.0, frame.1);
    }
  }

  lemma LastFrameLeaves(front: seq<(nat, nat)>, back: seq<(nat, nat)>, frame: (nat, nat))
    requires frame !in back
    ensures forall t :: t != frame.0 ==> FramesOf(front + back, t) == FramesOf((front + [frame]) + back, t)
    ensures var own := FramesOf((front + [frame]) + back, frame.0);
            own != [] && own[|own| - 1] == frame.1 ==> FramesOf(front + back, frame.0) == own[..|own| - 1]
  {
    forall t
      ensures FramesOf(front + back, t) == FramesOf(front, t) + FramesOf(back, t)
      ensures FramesOf((front + [frame]) + back, t) ==
              FramesOf(front, t) + (if frame.0 == t then [frame.1] else []) + FramesOf(back, t)
    {
      FramesJoin(front, back, t);
      FramesJoin(front + [frame], back, t);
      OneFrameMore(front, frame, t);
    }
    UntrackedIsNotInnermost(back, frame);
    var own := FramesOf((front + [frame]) + back, frame.0);
    if FramesOf(back, frame.0) != [] {
      assert own[|own| - 1] == FramesOf(back, frame.0)[|FramesOf(back, frame.0)| - 1];
    }
  }
}
