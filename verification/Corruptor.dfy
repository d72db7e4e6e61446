/** The game-corruption engine: bursts of random bytes written, at a fixed cadence, over memory the
    guest has allocated. */
module Corruptor {
  import opened Common

  const ADDRESS_SPACE := 0x1_0000_0000

  datatype Allocation = Allocation(base: nat, size: nat)

  ghost predicate Within(a: Allocation, address: int) {
    a.base <= address < a.base + a.size
  }

  ghost predicate Live(allocations: seq<Allocation>, address: int) {
    exists i :: 0 <= i < |allocations| && Within(allocations[i], address)
  }

  /** No allocation runs past the address space, and no two share a byte. */
  ghost predicate WellFormed(allocations: seq<Allocation>) {
    && (forall i :: 0 <= i < |allocations| ==> allocations[i].base + allocations[i].size <= ADDRESS_SPACE)
    && (forall i, j, a :: 0 <= i < j < |allocations| && Within(allocations[i], a) ==> !Within(allocations[j], a))
  }

  function TotalBytes(allocations: seq<Allocation>): nat {
    if allocations == [] then 0 else allocations[0].size + TotalBytes(allocations[1..])
  }

  // ----- The pick -----

  /** The allocation and offset that a number below the total stands for. */
  ghost function Locate(allocations: seq<Allocation>, pick: nat): (target: (Allocation, nat))
    requires pick < TotalBytes(allocations)
    ensures target.0 in allocations && target.1 < target.0.size
  {
    if pick < allocations[0].size then (allocations[0], pick)
    else Locate(allocations[1..], pick - allocations[0].size)
  }

  ghost function AddressOf(allocations: seq<Allocation>, pick: nat): nat
    requires pick < TotalBytes(allocations)
  {
    var (a, offset) := Locate(allocations, pick);
    a.base + offset
  }

  lemma TailIsWellFormed(allocations: seq<Allocation>)
    requires allocations != [] && WellFormed(allocations)
    ensures WellFormed(allocations[1..])
    ensures forall a :: Live(allocations, a) <==> Within(allocations[0], a) || Live(allocations[1..], a)
    ensures forall a :: Within(allocations[0], a) ==> !Live(allocations[1..], a)
  {
    var rest := allocations[1..];
    forall i | 0 <= i < |rest| ensures rest[i] == allocations[i + 1] {}
    forall a | Live(rest, a) ensures Live(allocations, a) && !Within(allocations[0], a) {
      var i :| 0 <= i < |rest| && Within(rest[i], a);
      assert Within(allocations[i + 1], a);
    }
    forall a | Live(allocations, a) && !Within(allocations[0], a) ensures Live(rest, a) {
      var i :| 0 <= i < |allocations| && Within(allocations[i], a);
      assert Within(rest[i - 1], a);
    }
  }

  lemma AddressStep(allocations: seq<Allocation>, pick: nat)
    requires pick < TotalBytes(allocations)
    ensures var first := allocations[0];
            AddressOf(allocations, pick) ==
            if pick < first.size then first.base + pick else AddressOf(allocations[1..], pick - first.size)
  {
  }

  lemma {:induction false} PickIsLive(allocations: seq<Allocation>, pick: nat)
    requires WellFormed(allocations) && pick < TotalBytes(allocations)
    ensures Live(allocations, AddressOf(allocations, pick))
  {
    hide WellFormed, Live, AddressOf;
    TailIsWellFormed(allocations);
    AddressStep(allocations, pick);
    if pick >= allocations[0].size {
      PickIsLive(allocations[1..], pick - allocations[0].size);
    }
  }

  /** No two picks reach the same byte. */
  lemma {:induction false} PickIsInjective(allocations: seq<Allocation>, p: nat, q: nat)
    requires WellFormed(allocations) && p < q < TotalBytes(allocations)
    ensures AddressOf(allocations, p) != AddressOf(allocations, q)
  {
    hide WellFormed, Live, AddressOf;
    var first, rest := allocations[0], allocations[1..];
    TailIsWellFormed(allocations);
    AddressStep(allocations, p);
    AddressStep(allocations, q);
    if p >= first.size {
      PickIsInjective(rest, p - first.size, q - first.size);
    } else if q >= first.size {
      PickIsLive(rest, q - first.size);
      assert Within(first, AddressOf(allocations, p));
    }
  }

  /** The picks reach every live byte. */
  lemma {:induction false} PickIsSurjective(allocations: seq<Allocation>, address: int) returns (pick: nat)
    requires WellFormed(allocations) && Live(allocations, address)
    ensures pick < TotalBytes(allocations) && AddressOf(allocations, pick) == address
  {
    var first, rest := allocations[0], allocations[1..];
    TailIsWellFormed(allocations);
    if Within(first, address) {
      pick := address - first.base;
    } else {
      pick := PickIsSurjective(rest, address);
      AddressStep(allocations, pick + first.size);
      pick := pick + first.size;
    }
  }

  method Pick(allocations: seq<Allocation>, start: nat) returns (target: Option<(Allocation, nat)>)
    ensures target.Some? <==> start < TotalBytes(allocations)
    ensures target.Some? ==> target.value == Locate(allocations, start)
  {
    var pick: nat := start;
    assert allocations[0..] == allocations;
    for i := 0 to |allocations|
      invariant pick < TotalBytes(allocations[i..]) <==> start < TotalBytes(allocations)
      invariant pick < TotalBytes(allocations[i..]) ==> Locate(allocations[i..], pick) == Locate(allocations, start)
    {
      assert allocations[i..][1..] == allocations[i + 1..];
      if pick < allocations[i].size {
        return Some((allocations[i], pick));
      }
      pick := pick - allocations[i].size;
    }
    return None;
  }

  // ----- The engine -----

  class Memory {
    var bytes: map<int, int>
    var allocations: seq<Allocation>

    ghost predicate Valid()
      reads this
    {
      WellFormed(allocations) && forall a :: Live(allocations, a) ==> a in bytes
    }
  }

  /** Only live bytes may differ. */
  ghost predicate OnlyLiveChanged(allocations: seq<Allocation>, before: map<int, int>, after: map<int, int>) {
    before.Keys == after.Keys && forall a :: a in before && before[a] != after[a] ==> Live(allocations, a)
  }

  lemma NothingChanged(allocations: seq<Allocation>, bytes: map<int, int>)
    ensures OnlyLiveChanged(allocations, bytes, bytes)
  {
  }

  lemma OneMoreChanged(allocations: seq<Allocation>, before: map<int, int>, after: map<int, int>, address: int, value: int)
    requires OnlyLiveChanged(allocations, before, after) && Live(allocations, address) && address in after
    ensures OnlyLiveChanged(allocations, before, after[address := value])
  {
  }

  /** Addresses of live bytes do not wrap around. */
  lemma LiveTarget(allocations: seq<Allocation>, a: Allocation, offset: nat)
    requires WellFormed(allocations) && a in allocations && offset < a.size
    ensures (a.base + offset) % ADDRESS_SPACE == a.base + offset
    ensures Live(allocations, a.base + offset)
  {
    var i :| 0 <= i < |allocations| && allocations[i] == a;
    assert Within(allocations[i], a.base + offset);
  }

  ghost predicate AnyLive(allocations: seq<Allocation>) {
    exists a :: Live(allocations, a)
  }

  lemma {:induction false} TotalIsPositive(allocations: seq<Allocation>)
    ensures TotalBytes(allocations) > 0 <==> AnyLive(allocations)
  {
    if allocations == [] {
    } else {
      var first, rest := allocations[0], allocations[1..];
      TotalIsPositive(rest);
      if first.size > 0 {
        assert Within(first, first.base) && Live(allocations, first.base);
      } else if AnyLive(rest) {
        var a, i :| 0 <= i < |rest| && Within(rest[i], a);
        assert Within(allocations[i + 1], a) && Live(allocations, a);
      } else if AnyLive(allocations) {
        var a, i :| 0 <= i < |allocations| && Within(allocations[i], a);
        assert !Within(first, a);
        assert Within(rest[i - 1], a) && Live(rest, a);
      }
    }
  }

  datatype Options = Options(enabled: bool, interval: nat, bytesPerBurst: nat, maxOffset: Option<nat>) {
    /** Never a zero period. */
    function Period(): (period: nat)
      ensures period >= 1 && (interval > 0 ==> period == interval)
    {
      if interval == 0 then 1 else interval
    }

    function Burst(): (size: nat)
      ensures size >= 1 && (bytesPerBurst > 0 ==> size == bytesPerBurst)
    {
      if bytesPerBurst == 0 then 1 else bytesPerBurst
    }
  }

  /** Ticks since the last burst, bursts attempted, bytes corrupted. */
  datatype Counters = Counters(frames: nat, bursts: nat, total: nat)

  /** One tick of an enabled engine; `live` tells whether there is anything to corrupt. */
  ghost function Ticked(options: Options, c: Counters, live: bool): Counters {
    if c.frames + 1 < options.Period() then c.(frames := c.frames + 1)
    else Counters(0, c.bursts + 1, c.total + if live then options.Burst() else 0)
  }

  ghost function AfterTicks(options: Options, live: seq<bool>): Counters {
    if live == [] then Counters(0, 0, 0)
    else Ticked(options, AfterTicks(options, live[..|live| - 1]), live[|live| - 1])
  }

  /** Bursts that find live bytes, among the first `n`. */
  ghost function Effective(live: seq<bool>, period: nat, n: nat): nat
    requires period > 0 && n * period <= |live|
  {
    if n == 0 then 0
    else
      assert (n - 1) * period + period == n * period;
      Effective(live, period, n - 1) + if live[n * period - 1] then 1 else 0
  }

  /** After any ticks, one burst has been attempted per whole period, each that found live bytes corrupting one burst's worth. */
  lemma {:induction false} BurstsAreRegular(options: Options, live: seq<bool>)
    ensures var n, period := |live|, options.Period();
            && n / period * period <= n
            && AfterTicks(options, live) ==
               Counters(n % period, n / period, options.Burst() * Effective(live, period, n / period))
  {
    var n, period := |live|, options.Period();
    Euclid(n, period);
    if live == [] {
      QuotientIs(0, period, 0, 0);
    } else {
      var front, last := live[..n - 1], live[n - 1];
      BurstsAreRegular(options, front);
      NextQuotient(n - 1, period);
      var q := (n - 1) / period;
      EffectiveOfPrefix(front, live, period, q);
      if (n - 1) % period + 1 == period {
        assert n / period == q + 1 && n / period * period == n;
        assert Effective(live, period, q + 1) == Effective(live, period, q) + if last then 1 else 0;
        Distribute(options.Burst(), Effective(live, period, q));
      }
    }
  }

  lemma Distribute(a: nat, b: nat)
    ensures a * (b + 1) == a * b + a
  {
  }

  lemma Euclid(n: nat, period: nat)
    requires period > 0
    ensures n % period <= n
    ensures n / period * period + n % period == n && 0 <= n % period < period && 0 <= n / period
  {
  }

  lemma MultipleIsFar(d: int, period: int)
    requires period > 0
    ensures d >= 1 ==> d * period >= period
    ensures d <= -1 ==> d * period <= -period
  {
  }

  lemma QuotientIs(n: nat, period: nat, q: nat, r: nat)
    requires period > 0 && n == q * period + r && r < period
    ensures n / period == q && n % period == r
  {
    Euclid(n, period);
    var d := n / period - q;
    assert d * period == r - n % period;
    MultipleIsFar(d, period);
  }

  lemma NextQuotient(n: nat, period: nat)
    requires period > 0
    ensures if n % period + 1 < period then (n + 1) / period == n / period && (n + 1) % period == n % period + 1
            else (n + 1) / period == n / period + 1 && (n + 1) % period == 0
  {
    Euclid(n, period);
    if n % period + 1 < period {
      QuotientIs(n + 1, period, n / period, n % period + 1);
    } else {
      assert (n / period + 1) * period == n / period * period + period;
      QuotientIs(n + 1, period, n / period + 1, 0);
    }
  }

  lemma {:induction false} EffectiveOfPrefix(front: seq<bool>, live: seq<bool>, period: nat, n: nat)
    requires period > 0 && n * period <= |front| && front <= live
    ensures n * period <= |live| && Effective(front, period, n) == Effective(live, period, n)
  {
    if n > 0 {
      assert (n - 1) * period + period == n * period;
      EffectiveOfPrefix(front, live, period, n - 1);
    }
  }

  lemma {:induction false} AllEffective(live: seq<bool>, period: nat, n: nat)
    requires period > 0 && n * period <= |live| && forall i :: 0 <= i < |live| ==> live[i]
    ensures Effective(live, period, n) == n
  {
    if n > 0 {
      assert (n - 1) * period + period == n * period;
      AllEffective(live, period, n - 1);
    }
  }

  /** With live bytes throughout, the total is the number of whole periods times the burst size. */
  lemma TotalAfterTicks(options: Options, live: seq<bool>)
    requires forall i :: 0 <= i < |live| ==> live[i]
    ensures AfterTicks(options, live).bursts == |live| / options.Period()
    ensures AfterTicks(options, live).total == options.Burst() * (|live| / options.Period())
  {
    BurstsAreRegular(options, live);
    AllEffective(live, options.Period(), |live| / options.Period());
  }

  // ----- What a burst writes -----

  /** The generator's state after `n` numbers. */
  function Advanced(seed: nat, n: nat): nat {
    if n == 0 then seed else (Advanced(seed, n - 1) + 0x9E37_79B9_7F4A_7C15) % 0x1_0000_0000_0000_0000
  }

  /** The byte that a number picks: each live byte has one, and with a maximal offset those behind it have another's. */
  ghost function TargetOf(options: Options, allocations: seq<Allocation>, random: nat): int
    requires TotalBytes(allocations) > 0
  {
    var (a, offset) := Locate(allocations, random % TotalBytes(allocations));
    a.base + if options.maxOffset.Some? && options.maxOffset.value > 0 then offset % options.maxOffset.value else offset
  }

  /** Number k of a burst's writes: two numbers are drawn for it, one for the place and one for the value. */
  ghost function Write(options: Options, mix: nat -> nat, seed: nat, allocations: seq<Allocation>, k: nat): (int, int)
    requires TotalBytes(allocations) > 0
  {
    (TargetOf(options, allocations, mix(Advanced(seed, 2 * k + 1))), mix(Advanced(seed, 2 * k + 2)) / 0x1_0000_0000 % 0x100)
  }

  ghost function Blasted(options: Options, mix: nat -> nat, seed: nat, allocations: seq<Allocation>, n: nat,
                         bytes: map<int, int>): map<int, int>
    requires TotalBytes(allocations) > 0
  {
    if n == 0 then bytes
    else
      var write := Write(options, mix, seed, allocations, n - 1);
      Blasted(options, mix, seed, allocations, n - 1, bytes)[write.0 := write.1]
  }

  lemma NothingWritten(options: Options, mix: nat -> nat, seed: nat, allocations: seq<Allocation>, bytes: map<int, int>)
    ensures Advanced(seed, 0) == seed
    ensures TotalBytes(allocations) > 0 ==> Blasted(options, mix, seed, allocations, 0, bytes) == bytes
  {
  }

  lemma OneMoreWritten(options: Options, mix: nat -> nat, seed: nat, allocations: seq<Allocation>, k: nat, bytes: map<int, int>)
    requires TotalBytes(allocations) > 0
    ensures Advanced(Advanced(seed, 2 * k), 1) == Advanced(seed, 2 * k + 1)
    ensures Advanced(Advanced(seed, 2 * k + 1), 1) == Advanced(seed, 2 * k + 2)
    ensures Blasted(options, mix, seed, allocations, k + 1, bytes) ==
            Blasted(options, mix, seed, allocations, k, bytes)[
              TargetOf(options, allocations, mix(Advanced(seed, 2 * k + 1))) := mix(Advanced(seed, 2 * k + 2)) / 0x1_0000_0000 % 0x100]
  {
  }

  /** A byte that is hit has the value of the last write that hits it; all others are as they were. */
  lemma {:induction false} BlastWrites(options: Options, mix: nat -> nat, seed: nat, allocations: seq<Allocation>, n: nat,
                                       bytes: map<int, int>, a: int)
    requires TotalBytes(allocations) > 0
    ensures var bytes' := Blasted(options, mix, seed, allocations, n, bytes);
            && (forall k: nat :: k < n && Write(options, mix, seed, allocations, k).0 == a
                                 && (forall j: nat :: k < j < n ==> Write(options, mix, seed, allocations, j).0 != a) ==>
                  a in bytes' && bytes'[a] == Write(options, mix, seed, allocations, k).1)
            && ((forall k: nat :: k < n ==> Write(options, mix, seed, allocations, k).0 != a) ==>
                  (a in bytes' <==> a in bytes) && (a in bytes' ==> bytes'[a] == bytes[a]))
  {
    hide Write;
    if n > 0 {
      BlastWrites(options, mix, seed, allocations, n - 1, bytes, a);
    }
  }

  /** Without a maximal offset, a burst hits what the numbers pick; with one, no byte further into its allocation. */
  lemma TargetIsPicked(options: Options, allocations: seq<Allocation>, random: nat)
    requires WellFormed(allocations) && TotalBytes(allocations) > 0
    ensures Live(allocations, TargetOf(options, allocations, random))
    ensures options.maxOffset.None? ==> TargetOf(options, allocations, random) == AddressOf(allocations, random % TotalBytes(allocations))
    ensures options.maxOffset.Some? && options.maxOffset.value > 0 ==>
              exists i :: 0 <= i < |allocations| && Within(allocations[i], TargetOf(options, allocations, random))
                          && TargetOf(options, allocations, random) < allocations[i].base + options.maxOffset.value
  {
    var (a, offset) := Locate(allocations, random % TotalBytes(allocations));
    var offset' := if options.maxOffset.Some? && options.maxOffset.value > 0 then offset % options.maxOffset.value else offset;
    if options.maxOffset.Some? && options.maxOffset.value > 0 {
      Euclid(offset, options.maxOffset.value);
    }
    LiveTarget(allocations, a, offset');
    var i :| 0 <= i < |allocations| && allocations[i] == a;
    assert Within(allocations[i], a.base + offset');
  }

  class Engine {
    const options: Options
    /** Turns the generator's state into its output. */
    const mix: nat -> nat
    var rngState: nat
    var framesSinceBurst: nat
    var totalCorrupted: nat
    /** How often a burst has been attempted. */
    ghost var bursts: nat

    ghost function State(): Counters
      reads this
    {
      Counters(framesSinceBurst, bursts, totalCorrupted)
    }

    constructor (options: Options, mix: nat -> nat, seed: nat)
      ensures this.options == options && State() == AfterTicks(options, [])
    {
      this.options := options;
      this.mix := mix;
      rngState := seed;
      framesSinceBurst := 0;
      totalCorrupted := 0;
      bursts := 0;
    }

    method NextU64() returns (x: nat)
      modifies this`rngState
      ensures rngState == Advanced(old(rngState), 1) && x == mix(rngState)
    {
      rngState := (rngState + 0x9E37_79B9_7F4A_7C15) % 0x1_0000_0000_0000_0000;
      x := mix(rngState);
    }

    method Below(bound: nat) returns (x: nat)
      requires bound > 0
      modifies this`rngState
      ensures rngState == Advanced(old(rngState), 1) && x == mix(rngState) % bound < bound
    {
      x := NextU64();
      x := x % bound;
    }

    method Tick(mem: Memory)
      requires mem.Valid()
      modifies this`rngState, this`framesSinceBurst, this`totalCorrupted, this`bursts, mem`bytes
      ensures State() == if options.enabled
                         then Ticked(options, old(State()), AnyLive(mem.allocations))
                         else old(State())
      ensures OnlyLiveChanged(mem.allocations, old(mem.bytes), mem.bytes)
      ensures State().bursts == old(State()).bursts || !AnyLive(mem.allocations) ==>
                mem.bytes == old(mem.bytes) && rngState == old(rngState)
      ensures State().bursts != old(State()).bursts && AnyLive(mem.allocations) ==>
                && TotalBytes(mem.allocations) > 0
                && mem.bytes == Blasted(options, mix, old(rngState), mem.allocations, options.Burst(), old(mem.bytes))
    {
      if !options.enabled {
        return;
      }
      framesSinceBurst := framesSinceBurst + 1;
      if framesSinceBurst < options.Period() {
        return;
      }
      framesSinceBurst := 0;
      Blast(mem);
    }

    /** Tries one burst: as many bytes as configured, all of them live. */
    method Blast(mem: Memory)
      requires mem.Valid()
      modifies this`rngState, this`totalCorrupted, this`bursts, mem`bytes
      ensures bursts == old(bursts) + 1
      ensures totalCorrupted == old(totalCorrupted) + if AnyLive(mem.allocations) then options.Burst() else 0
      ensures OnlyLiveChanged(mem.allocations, old(mem.bytes), mem.bytes)
      ensures !AnyLive(mem.allocations) ==> mem.bytes == old(mem.bytes) && rngState == old(rngState)
      ensures AnyLive(mem.allocations) ==>
                && TotalBytes(mem.allocations) > 0 && rngState == Advanced(old(rngState), 2 * options.Burst())
                && mem.bytes == Blasted(options, mix, old(rngState), mem.allocations, options.Burst(), old(mem.bytes))
    {
      hide TotalBytes, Locate, WellFormed, OnlyLiveChanged, AnyLive, Blasted, Write, Advanced, Live;
      NothingWritten(options, mix, rngState, mem.allocations, mem.bytes);
      bursts := bursts + 1;
      NothingChanged(mem.allocations, mem.bytes);
      var allocations := mem.allocations;
      var total := TotalBytes(allocations);
      TotalIsPositive(allocations);
      if total == 0 {
        return;
      }
      var corrupted := 0;
      for i := 0 to options.Burst()
        invariant corrupted == i && mem.Valid() && bursts == old(bursts) + 1 && totalCorrupted == old(totalCorrupted)
        invariant OnlyLiveChanged(allocations, old(mem.bytes), mem.bytes)
        invariant rngState == Advanced(old(rngState), 2 * i)
        invariant mem.bytes == Blasted(options, mix, old(rngState), allocations, i, old(mem.bytes))
      {
        var pick := Below(total);
        var target := Pick(allocations, pick);
        if target == None {
          continue;
        }
        var (allocation, offset) := target.value;
        if options.maxOffset.Some? && options.maxOffset.value > 0 {
          Euclid(offset, options.maxOffset.value);
          offset := offset % options.maxOffset.value;
        }
        var address := (allocation.base + offset) % ADDRESS_SPACE;
        var newValue := NextU64();
        LiveTarget(allocations, allocation, offset);
        OneMoreWritten(options, mix, old(rngState), allocations, i, old(mem.bytes));
        assert address == TargetOf(options, allocations, mix(Advanced(old(rngState), 2 * i + 1)));
        hide TargetOf, AddressOf;
        OneMoreChanged(allocations, old(mem.bytes), mem.bytes, address, newValue / 0x1_0000_0000 % 0x100);
        mem.bytes := mem.bytes[address := newValue / 0x1_0000_0000 % 0x100];
        corrupted := corrupted + 1;
      }
      totalCorrupted := totalCorrupted + corrupted;
    }
  }
}
