/** The calling convention: arguments in four registers and then on the stack, the value returned in
    registers or in memory, and calls both ways between host and guest. */
module Abi {
  import opened Common

  type Word = x: int | 0 <= x < 0x1_0000_0000

  type Byte = x: int | 0 <= x < 0x100

  const FRAME_POINTER: nat := 7
  const SP: nat := 13
  const LR: nat := 14
  const PC: nat := 15

  // ----- Memory -----

  type Memory = int -> Byte

  /** The word at an address, least significant byte first. */
  function ReadWord(mem: Memory, addr: int): Word {
    mem(addr) + 0x100 * mem(addr + 1) + 0x10000 * mem(addr + 2) + 0x1000000 * mem(addr + 3)
  }

  function WriteWord(mem: Memory, addr: int, w: Word): Memory {
    x => if x == addr then w % 0x100
         else if x == addr + 1 then w / 0x100 % 0x100
         else if x == addr + 2 then w / 0x10000 % 0x100
         else if x == addr + 3 then w / 0x1000000
         else mem(x)
  }

  lemma WrittenWord(mem: Memory, addr: int, w: Word)
    ensures ReadWord(WriteWord(mem, addr, w), addr) == w
    ensures forall a :: a + 4 <= addr || addr + 4 <= a ==> ReadWord(WriteWord(mem, addr, w), a) == ReadWord(mem, a)
    ensures forall x :: x < addr || addr + 4 <= x ==> WriteWord(mem, addr, w)(x) == mem(x)
    ensures var mem' := WriteWord(mem, addr, w);
            && mem'(addr) == w % 0x100 && mem'(addr + 1) == w / 0x100 % 0x100
            && mem'(addr + 2) == w / 0x10000 % 0x100 && mem'(addr + 3) == w / 0x1000000
  {
    FourBytes(w);
  }

  lemma FourBytes(w: Word)
    ensures w % 0x100 + 0x100 * (w / 0x100 % 0x100) + 0x10000 * (w / 0x10000 % 0x100) + 0x1000000 * (w / 0x1000000) == w
    ensures w / 0x1000000 < 0x100
  {
    var q1 := w / 0x100;
    var q2 := q1 / 0x100;
    assert w == 0x100 * q1 + w % 0x100 && q1 == 0x100 * q2 + q1 % 0x100;
    assert w / 0x10000 == q2;
    var q3 := q2 / 0x100;
    assert q2 == 0x100 * q3 + q2 % 0x100;
    assert w / 0x1000000 == q3;
  }

  // ----- Argument types -----

  /** An argument; floating point numbers are given by their bits. */
  datatype Arg =
    | U32(u32: int) | I32(i32: int) | U16(u16: int) | I16(i16: int) | U8(u8: int) | I8(i8: int)
    | Usize(usize: int) | Bool(b: bool) | F32(bits32: int) | Pointer(addr: int)
    | U64(u64: int) | I64(i64: int) | F64(bits64: int)
    | VaList(regOffset: nat, stackPointer: Word)
  {
    predicate Valid() {
      match this
      case U32(v) => 0 <= v < 0x1_0000_0000
      case I32(v) => -0x8000_0000 <= v < 0x8000_0000
      case U16(v) => 0 <= v < 0x10000
      case I16(v) => -0x8000 <= v < 0x8000
      case U8(v) => 0 <= v < 0x100
      case I8(v) => -0x80 <= v < 0x80
      case Usize(v) => 0 <= v < 0x1_0000_0000_0000_0000
      case Bool(_) => true
      case F32(v) => 0 <= v < 0x1_0000_0000
      case Pointer(v) => 0 <= v < 0x1_0000_0000
      case U64(v) => 0 <= v < 0x1_0000_0000_0000_0000
      case I64(v) => -0x8000_0000_0000_0000 <= v < 0x8000_0000_0000_0000
      case F64(v) => 0 <= v < 0x1_0000_0000_0000_0000
      case VaList(_, _) => true
    }

    predicate IsWide() {
      U64? || I64? || F64?
    }

    function RegCount(): nat {
      if IsWide() then 2 else 1
    }

    /** The number that goes into registers. A list of variable arguments leaves them as they are, which is zero. */
    function Payload(): int {
      match this
      case U32(v) => v
      case I32(v) => v % 0x1_0000_0000
      case U16(v) => v
      case I16(v) => v % 0x1_0000_0000
      case U8(v) => v
      case I8(v) => v % 0x1_0000_0000
      case Usize(v) => v % 0x1_0000_0000
      case Bool(v) => if v then 1 else 0
      case F32(v) => v
      case Pointer(v) => v
      case U64(v) => v
      case I64(v) => v % 0x1_0000_0000_0000_0000
      case F64(v) => v
      case VaList(_, _) => 0
    }

    function ToRegs(): (r: seq<Word>)
      requires Valid()
      ensures |r| == RegCount()
    {
      if IsWide() then [Payload() % 0x1_0000_0000, Payload() / 0x1_0000_0000] else [Payload()]
    }

    /** The argument of the same type that is read from registers. */
    function FromRegs(regs: seq<Word>): (arg: Arg)
      requires |regs| == RegCount()
      ensures arg.RegCount() == RegCount()
    {
      match this
      case U32(_) => U32(regs[0])
      case I32(_) => I32(Signed(regs[0], 0x8000_0000))
      case U16(_) => U16(regs[0] % 0x10000)
      case I16(_) => I16(Signed(regs[0] % 0x10000, 0x8000))
      case U8(_) => U8(regs[0] % 0x100)
      case I8(_) => I8(Signed(regs[0] % 0x100, 0x80))
      case Usize(_) => Usize(regs[0])
      case Bool(_) => Bool(regs[0] != 0)
      case F32(_) => F32(regs[0])
      case Pointer(_) => Pointer(regs[0])
      case U64(_) => U64(Wide(regs[0], regs[1]))
      case I64(_) => I64(Signed(Wide(regs[0], regs[1]), 0x8000_0000_0000_0000))
      case F64(_) => F64(Wide(regs[0], regs[1]))
      case VaList(_, _) => VaList(4, regs[0])
    }

    /** The number that an argument is: with its sign, 1 for true, and the bits of a floating point number. */
    function Number(): int
      requires !VaList?
    {
      match this
      case U32(v) => v
      case I32(v) => v
      case U16(v) => v
      case I16(v) => v
      case U8(v) => v
      case I8(v) => v
      case Usize(v) => v
      case Bool(v) => if v then 1 else 0
      case F32(v) => v
      case Pointer(v) => v
      case U64(v) => v
      case I64(v) => v
      case F64(v) => v
    }

    /** How many different values the type has, as the guest counts them. */
    function Modulus(): nat {
      if IsWide() then 0x1_0000_0000_0000_0000
      else if U16? || I16? then 0x10000
      else if U8? || I8? then 0x100
      else 0x1_0000_0000
    }

    /** Registers hold the number modulo two to their width: it is extended by its sign, or by zeros, and a wide one has its
        low word first. */
    lemma RegistersHoldNumber()
      requires Valid() && !VaList?
      ensures var r := ToRegs();
              if IsWide() then r[0] as int + 0x1_0000_0000 * r[1] as int == Number() % 0x1_0000_0000_0000_0000
              else r[0] == Number() % 0x1_0000_0000
    {
      if IsWide() {
        WideNumber();
        HalvesAreWhole(Payload());
        assert ToRegs() == [Payload() % 0x1_0000_0000, Payload() / 0x1_0000_0000];
      } else {
        NarrowNumber();
      }
    }

    lemma WideNumber()
      requires Valid() && IsWide()
      ensures Payload() == Number() % 0x1_0000_0000_0000_0000
    {
    }

    lemma NarrowNumber()
      requires Valid() && !IsWide() && !VaList?
      ensures Payload() == Number() % 0x1_0000_0000
    {
    }

    /** Whatever is in the registers, what is read from them is of the type and agrees with them on the type's bits; a truth
        value is false for zero only. */
    lemma ReadsNumber(regs: seq<Word>)
      requires |regs| == RegCount() && !VaList?
      ensures FromRegs(regs).Valid() && FromRegs(regs).RegCount() == RegCount() && !FromRegs(regs).VaList?
      ensures Bool? ==> (FromRegs(regs) == Bool(false) <==> regs[0] == 0)
      ensures !Bool? ==>
                FromRegs(regs).Number() % Modulus() == (if IsWide() then regs[0] as int + 0x1_0000_0000 * regs[1] as int else regs[0]) % Modulus()
    {
      hide Signed;
      match this
      case I32(_) => SignedIs(regs[0], 0x8000_0000);
      case I16(_) => SignedIs(regs[0] % 0x10000, 0x8000);
      case I8(_) => SignedIs(regs[0] % 0x100, 0x80);
      case I64(_) => SignedIs(Wide(regs[0], regs[1]), 0x8000_0000_0000_0000);
      case _ =>
    }

    /** Arguments that fit the guest's types; a host size may not, and a list of variable arguments is never written. */
    predicate Survives() {
      match this
      case Usize(v) => v < 0x1_0000_0000
      case VaList(offset, sp) => offset == 4 && sp == 0
      case _ => true
    }

    lemma ReadsBack()
      requires Valid()
      ensures FromRegs(ToRegs()) == this <==> Survives()
    {
      if IsWide() {
        WideReadsBack();
      } else {
        NarrowReadsBack();
      }
    }

    lemma NarrowReadsBack()
      requires Valid() && !IsWide()
      ensures FromRegs(ToRegs()) == this <==> Survives()
    {
      hide Signed;
      match this
      case I32(v) => Signed32(v);
      case I16(v) => Signed16(v);
      case I8(v) => Signed8(v);
      case _ =>
    }

    lemma WideReadsBack()
      requires Valid() && IsWide()
      ensures FromRegs(ToRegs()) == this
    {
      Halves(Payload());
      if I64? {
        var v := this.i64;
        assert v % 0x1_0000_0000_0000_0000 == if v < 0 then v + 0x1_0000_0000_0000_0000 else v;
      }
    }
  }

  lemma Wrapped32(v: int)
    requires -0x8000_0000 <= v < 0x8000_0000
    ensures v % 0x1_0000_0000 == if v < 0 then v + 0x1_0000_0000 else v
  {
  }

  lemma Signed32(v: int)
    requires -0x8000_0000 <= v < 0x8000_0000
    ensures Signed(v % 0x1_0000_0000, 0x8000_0000) == v
  {
    Wrapped32(v);
  }

  lemma Signed16(v: int)
    requires -0x8000 <= v < 0x8000
    ensures Signed(v % 0x1_0000_0000 % 0x10000, 0x8000) == v
  {
    Wrapped32(v);
    assert (if v < 0 then v + 0x1_0000_0000 else v) % 0x10000 == if v < 0 then v + 0x10000 else v;
  }

  lemma Signed8(v: int)
    requires -0x80 <= v < 0x80
    ensures Signed(v % 0x1_0000_0000 % 0x100, 0x80) == v
  {
    Wrapped32(v);
    assert (if v < 0 then v + 0x1_0000_0000 else v) % 0x100 == if v < 0 then v + 0x100 else v;
  }

  lemma Halves(v: int)
    requires 0 <= v < 0x1_0000_0000_0000_0000
    ensures Wide(v % 0x1_0000_0000, v / 0x1_0000_0000) == v
  {
  }

  lemma HalvesAreWhole(v: int)
    ensures v % 0x1_0000_0000 + 0x1_0000_0000 * (v / 0x1_0000_0000) == v
  {
  }

  function Wide(low: int, high: int): int {
    low + 0x1_0000_0000 * high
  }

  /** A two's complement number with its sign. */
  function Signed(v: int, half: int): int {
    if v >= half then v - 2 * half else v
  }

  lemma SignedIs(v: int, half: int)
    requires 0 <= v < 2 * half && half in {0x80, 0x8000, 0x8000_0000, 0x8000_0000_0000_0000}
    ensures -half <= Signed(v, half) < half && Signed(v, half) % (2 * half) == v
  {
    if half == 0x80 {
    } else if half == 0x8000 {
    } else if half == 0x8000_0000 {
    } else {
      assert half == 0x8000_0000_0000_0000;
    }
  }

  // ----- Argument lists -----

  predicate AllValid(args: seq<Arg>) {
    forall i :: 0 <= i < |args| ==> args[i].Valid()
  }

  predicate AllSurvive(args: seq<Arg>) {
    forall i :: 0 <= i < |args| ==> args[i].Survives()
  }

  function RegCountSum(args: seq<Arg>): nat {
    if args == [] then 0 else RegCountSum(args[..|args| - 1]) + args[|args| - 1].RegCount()
  }

  /** All the words of the arguments, in order. */
  ghost function Words(args: seq<Arg>): (words: seq<Word>)
    requires AllValid(args)
    ensures |words| == RegCountSum(args)
  {
    if args == [] then [] else Words(args[..|args| - 1]) + args[|args| - 1].ToRegs()
  }

  /** What a reader of the given types makes of the words. */
  ghost function Parsed(types: seq<Arg>, words: seq<Word>): (args: seq<Arg>)
    requires |words| == RegCountSum(types)
    ensures |args| == |types|
  {
    if types == [] then []
    else
      var last := types[|types| - 1];
      var n := |words| - last.RegCount();
      Parsed(types[..|types| - 1], words[..n]) + [last.FromRegs(words[n..])]
  }

  /** Reading the words back gives the arguments exactly when every one of them survives. */
  lemma {:induction false} ArgumentsReadBack(args: seq<Arg>)
    requires AllValid(args)
    ensures Parsed(args, Words(args)) == args <==> AllSurvive(args)
  {
    hide Arg.ToRegs, Arg.FromRegs, Arg.Survives, Arg.Valid;
    if args == [] {
    } else {
      var front, last := args[..|args| - 1], args[|args| - 1];
      ArgumentsReadBack(front);
      last.ReadsBack();
      var words := Words(args);
      var n := |words| - last.RegCount();
      assert words[..n] == Words(front) && words[n..] == last.ToRegs();
      var read := Parsed(args, words);
      assert read[..|read| - 1] == Parsed(front, Words(front)) && read[|read| - 1] == last.FromRegs(last.ToRegs());
      assert read == args <==> read[..|read| - 1] == front && read[|read| - 1] == last;
      assert AllSurvive(args) <==> AllSurvive(front) && last.Survives();
    }
  }

  // ----- Slots -----

  /** Word number k of the arguments: a register, or a word of the stack. */
  function SlotWord(regs: seq<Word>, mem: Memory, sp: int, k: nat): Word
    requires |regs| == 16
  {
    if k < 4 then regs[k] else ReadWord(mem, sp + 4 * (k - 4))
  }

  ghost predicate InPlace(regs: seq<Word>, mem: Memory, sp: int, from: nat, words: seq<Word>)
    requires |regs| == 16
  {
    forall k :: 0 <= k < |words| ==> SlotWord(regs, mem, sp, from + k) == words[k]
  }

  function Max0(x: int): nat {
    if x < 0 then 0 else x
  }

  // ----- What a write leaves alone -----

  /** Only the four argument registers may differ. */
  ghost predicate OtherRegistersSame(before: seq<Word>, after: seq<Word>) {
    |before| == |after| == 16 && forall r :: 4 <= r < 16 ==> after[r] == before[r]
  }

  /** Memory is the same outside of the bytes from `low` up to `high`. */
  ghost predicate OutsideSame(before: Memory, after: Memory, low: int, high: int) {
    forall x :: x < low || high <= x ==> after(x) == before(x)
  }

  ghost predicate SlotsSame(regs: seq<Word>, mem: Memory, regs': seq<Word>, mem': Memory, sp: int, end: nat)
    requires |regs| == |regs'| == 16
  {
    forall k: nat :: k < end ==> SlotWord(regs', mem', sp, k) == SlotWord(regs, mem, sp, k)
  }

  /** The words found in `n` slots. */
  ghost function SlotWords(regs: seq<Word>, mem: Memory, sp: int, from: nat, n: nat): (words: seq<Word>)
    requires |regs| == 16
    ensures |words| == n && InPlace(regs, mem, sp, from, words)
  {
    if n == 0 then [] else SlotWords(regs, mem, sp, from, n - 1) + [SlotWord(regs, mem, sp, from + n - 1)]
  }

  lemma PlacedWordsAreFound(regs: seq<Word>, mem: Memory, sp: int, from: nat, words: seq<Word>)
    requires |regs| == 16 && InPlace(regs, mem, sp, from, words)
    ensures SlotWords(regs, mem, sp, from, |words|) == words
  {
    hide SlotWord;
    var found := SlotWords(regs, mem, sp, from, |words|);
    forall k | 0 <= k < |words| ensures found[k] == words[k] {
    }
  }

  lemma FoundTwice(regs: seq<Word>, mem: Memory, sp: int, from: nat, m: nat, n: nat)
    requires |regs| == 16
    ensures SlotWords(regs, mem, sp, from, m + n) == SlotWords(regs, mem, sp, from, m) + SlotWords(regs, mem, sp, from + m, n)
  {
    hide SlotWord;
    if n > 0 {
      FoundTwice(regs, mem, sp, from, m, n - 1);
    }
  }

  /** Words in place stay so when nothing below `end` changes, and go on with what is put behind them. */
  lemma MoreInPlace(regs: seq<Word>, mem: Memory, regs': seq<Word>, mem': Memory, sp: int, from: nat,
                    words: seq<Word>, more: seq<Word>)
    requires |regs| == |regs'| == 16 && InPlace(regs, mem, sp, from, words)
    requires SlotsSame(regs, mem, regs', mem', sp, from + |words|) && InPlace(regs', mem', sp, from + |words|, more)
    ensures InPlace(regs', mem', sp, from, words + more)
  {
    hide SlotWord;
    forall k | 0 <= k < |words + more| ensures SlotWord(regs', mem', sp, from + k) == (words + more)[k] {
      if k >= |words| {
        assert SlotWord(regs', mem', sp, from + |words| + (k - |words|)) == more[k - |words|];
      }
    }
  }

  // ----- Return values -----

  datatype Ret = Nothing | InRegs(value: Arg) | InMemory(bytes: seq<Byte>) {
    /** The value is of the given type, and fits the registers it is returned in. */
    predicate Fits(type_: Ret) {
      match type_
      case Nothing => Nothing?
      case InRegs(t) => InRegs? && value.Valid() && value.RegCount() == t.RegCount() && t.FromRegs(value.ToRegs()) == value
      case InMemory(bytes) => InMemory? && |this.bytes| == |bytes|
    }

    /** How much memory the value needs besides the registers. */
    function SizeInMem(): nat {
      if InMemory? then |bytes| else 0
    }

    function HiddenWords(): nat {
      if InMemory? then 1 else 0
    }
  }

  datatype State = State(regs: seq<Word>, mem: Memory)

  /** What a host function returns, and what it leaves behind: it may change memory and registers, and call guest code. */
  datatype Effect = Effect(value: Ret, after: State)

  type HostFunction = (seq<Arg>, State) -> Effect

  ghost predicate Returns(f: HostFunction, type_: Ret) {
    forall args, before: State {:trigger f(args, before)} ::
      |before.regs| == 16 ==> f(args, before).value.Fits(type_) && |f(args, before).after.regs| == 16
  }

  function WriteBytes(mem: Memory, addr: int, bytes: seq<Byte>): Memory {
    x => if addr <= x < addr + |bytes| then bytes[x - addr] else mem(x)
  }

  function ReadBytes(mem: Memory, addr: int, n: nat): seq<Byte> {
    seq(n, i requires 0 <= i < n => mem(addr + i))
  }

  // ----- The stack frame of a call -----

  /** The stack pointer during a call with `n` argument words, from one of `sp` before it. */
  function CallSp(sp: int, ret: Ret, n: nat): int {
    sp - ret.SizeInMem() - 4 * Max0(n - 4)
  }

  /** The end of the stack words that are written: the pointer to the return value counts as a word. */
  function ArgsEnd(sp: int, ret: Ret, n: nat): int {
    CallSp(sp, ret, n) + 4 * Max0(ret.HiddenWords() + n - 4)
  }

  /** The pointer is not counted when the stack is extended, so that the last word goes where the return value will be.
      Marshalling stays below the old stack pointer except exactly when the value is too small for that. */
  lemma ArgumentsStayInFrame(sp: int, ret: Ret, n: nat)
    ensures CallSp(sp, ret, n) <= sp
    ensures ArgsEnd(sp, ret, n) <= sp <==> !(ret.InMemory? && |ret.bytes| < 4 && n >= 4)
    ensures n >= 4 && ret.InMemory? ==> ArgsEnd(sp, ret, n) == sp - |ret.bytes| + 4
  {
  }

  // ----- The guest's processor and memory -----

  class Guest {
    const regs: array<Word>
    var mem: Memory

    ghost predicate Valid()
      reads this
    {
      regs.Length == 16
    }

    constructor (mem: Memory)
      ensures Valid() && fresh(regs) && this.mem == mem
    {
      regs := new Word[16];
      this.mem := mem;
    }

    method WriteSlot(k: nat, w: Word)
      requires Valid()
      modifies regs, `mem
      ensures SlotWord(regs[..], mem, regs[SP], k) == w
      ensures forall j: nat :: j != k ==> SlotWord(regs[..], mem, regs[SP], j) == old(SlotWord(regs[..], mem, regs[SP], j))
      ensures OtherRegistersSame(old(regs[..]), regs[..])
      ensures OutsideSame(old(mem), mem, regs[SP] + 4 * Max0(k - 4), regs[SP] + 4 * Max0(k + 1 - 4))
    {
      if k < 4 {
        regs[k] := w;
      } else {
        WrittenWord(mem, regs[SP] + 4 * (k - 4), w);
        mem := WriteWord(mem, regs[SP] + 4 * (k - 4), w);
      }
    }

    /** Writes one argument. Only its slots change. */
    method WriteNextArg(regOffset: nat, arg: Arg) returns (next: nat)
      requires Valid() && arg.Valid()
      modifies regs, `mem
      ensures next == regOffset + arg.RegCount()
      ensures InPlace(regs[..], mem, regs[SP], regOffset, arg.ToRegs())
      ensures SlotsSame(old(regs[..]), old(mem), regs[..], mem, regs[SP], regOffset)
      ensures OtherRegistersSame(old(regs[..]), regs[..])
      ensures OutsideSame(old(mem), mem, regs[SP] + 4 * Max0(regOffset - 4), regs[SP] + 4 * Max0(next - 4))
    {
      hide SlotWord;
      var fakeRegs := arg.ToRegs();
      var i := 0;
      next := regOffset;
      while i < |fakeRegs|
        invariant 0 <= i <= |fakeRegs| && next == regOffset + i
        invariant InPlace(regs[..], mem, regs[SP], regOffset, fakeRegs[..i])
        invariant SlotsSame(old(regs[..]), old(mem), regs[..], mem, regs[SP], regOffset)
        invariant OtherRegistersSame(old(regs[..]), regs[..])
        invariant OutsideSame(old(mem), mem, regs[SP] + 4 * Max0(regOffset - 4), regs[SP] + 4 * Max0(next - 4))
      {
        WriteSlot(next, fakeRegs[i]);
        i, next := i + 1, next + 1;
      }
      assert fakeRegs[..i] == fakeRegs;
    }

    /** Writes all arguments, the first one at `from`. */
    method WriteArgs(args: seq<Arg>, from: nat) returns (next: nat)
      requires Valid() && AllValid(args)
      modifies regs, `mem
      ensures next == from + RegCountSum(args)
      ensures InPlace(regs[..], mem, regs[SP], from, Words(args))
      ensures SlotsSame(old(regs[..]), old(mem), regs[..], mem, regs[SP], from)
      ensures OtherRegistersSame(old(regs[..]), regs[..])
      ensures OutsideSame(old(mem), mem, regs[SP] + 4 * Max0(from - 4), regs[SP] + 4 * Max0(next - 4))
    {
      hide SlotWord, InPlace, Arg.ToRegs, Arg.Valid;
      var i := 0;
      next := from;
      NoneInPlace(regs[..], mem, regs[SP], from);
      while i < |args|
        invariant 0 <= i <= |args| && next == from + RegCountSum(args[..i])
        invariant InPlace(regs[..], mem, regs[SP], from, Words(args[..i]))
        invariant SlotsSame(old(regs[..]), old(mem), regs[..], mem, regs[SP], from)
        invariant OtherRegistersSame(old(regs[..]), regs[..])
        invariant OutsideSame(old(mem), mem, regs[SP] + 4 * Max0(from - 4), regs[SP] + 4 * Max0(next - 4))
      {
        ghost var regs0, mem0 := regs[..], mem;
        next := WriteNextArg(next, args[i]);
        MoreInPlace(regs0, mem0, regs[..], mem, regs[SP], from, Words(args[..i]), args[i].ToRegs());
        assert args[..i + 1][..i] == args[..i];
        i := i + 1;
      }
      assert args[..i] == args;
    }

    method ReadNextArg(regOffset: nat, type_: Arg) returns (arg: Arg, next: nat)
      requires Valid()
      ensures next == regOffset + type_.RegCount()
      ensures arg == type_.FromRegs(SlotWords(regs[..], mem, regs[SP], regOffset, type_.RegCount()))
    {
      hide Arg.FromRegs;
      var fakeRegs: seq<Word> := [];
      next := regOffset;
      while |fakeRegs| < type_.RegCount()
        invariant |fakeRegs| <= type_.RegCount() && next == regOffset + |fakeRegs|
        invariant fakeRegs == SlotWords(regs[..], mem, regs[SP], regOffset, |fakeRegs|)
      {
        if next < 4 {
          fakeRegs := fakeRegs + [regs[next]];
        } else {
          fakeRegs := fakeRegs + [ReadWord(mem, regs[SP] + 4 * (next - 4))];
        }
        next := next + 1;
      }
      arg := type_.FromRegs(fakeRegs);
    }

    /** Reads arguments of the given types, the first one at `from`. */
    method ReadArgs(types: seq<Arg>, from: nat) returns (args: seq<Arg>)
      requires Valid()
      ensures args == Parsed(types, SlotWords(regs[..], mem, regs[SP], from, RegCountSum(types)))
    {
      hide Arg.FromRegs, SlotWord, SlotWords, Parsed, Arg.RegCount;
      NothingParsed(regs[..], mem, regs[SP], from);
      args := [];
      assert types[..0] == [];
      var next := from;
      while |args| < |types|
        invariant |args| <= |types| && next == from + RegCountSum(types[..|args|])
        invariant args == Parsed(types[..|args|], SlotWords(regs[..], mem, regs[SP], from, RegCountSum(types[..|args|])))
      {
        var i := |args|;
        var arg;
        OneMoreParsed(types, i, regs[..], mem, regs[SP], from);
        arg, next := ReadNextArg(next, types[i]);
        args := args + [arg];
      }
      assert types[..|args|] == types;
    }

    method ExtendStackForArgs(regCountSum: nat) returns (oldSp: Word)
      requires Valid() && 4 * Max0(regCountSum - 4) <= regs[SP]
      modifies regs
      ensures oldSp == old(regs[SP])
      ensures regs[..] == old(regs[..])[SP := oldSp - 4 * Max0(regCountSum - 4)]
    {
      oldSp := regs[SP];
      if regCountSum > 4 {
        regs[SP] := oldSp - 4 * (regCountSum - 4);
      }
    }

    // ----- A host function called by the guest -----

    method Enact(after: State)
      requires Valid() && |after.regs| == 16
      modifies regs, `mem
      ensures regs[..] == after.regs && mem == after.mem
    {
      forall r | 0 <= r < 16 {
        regs[r] := after.regs[r];
      }
      mem := after.mem;
    }

    /** The host function gets the arguments that are in place and does whatever it does; then its value goes where the
        caller expects it, and nowhere else. */
    method CallFromGuest(f: HostFunction, types: seq<Arg>, ret: Ret)
      requires Valid() && Returns(f, ret)
      modifies regs, `mem
      ensures var before := State(old(regs[..]), old(mem));
              var words := SlotWords(before.regs, before.mem, before.regs[SP], ret.HiddenWords(), RegCountSum(types));
              var effect := f(Parsed(types, words), before);
              match effect.value
              case Nothing => regs[..] == effect.after.regs && mem == effect.after.mem
              case InRegs(v) =>
                && v.FromRegs(regs[..v.RegCount()]) == v && mem == effect.after.mem
                && forall r :: v.RegCount() <= r < 16 ==> regs[r] == effect.after.regs[r]
              case InMemory(bytes) =>
                regs[..] == effect.after.regs && mem == WriteBytes(effect.after.mem, before.regs[0], bytes)
    {
      hide Arg.FromRegs, Arg.ToRegs, Parsed, SlotWord;
      var regOffset, retvalPtr := 0, 0;
      if ret.InMemory? {
        PointerIsFirstWord(regs[..], mem, regs[SP]);
        var pointer;
        pointer, regOffset := ReadNextArg(0, Pointer(0));
        retvalPtr := pointer.addr;
      }
      var args := ReadArgs(types, regOffset);
      var effect := f(args, State(regs[..], mem));
      Enact(effect.after);
      match effect.value
      case Nothing =>
      case InRegs(v) =>
        var fakeRegs := v.ToRegs();
        ReturnsItself(v, ret.value);
        regs[0] := fakeRegs[0];
        if v.RegCount() == 2 {
          regs[1] := fakeRegs[1];
        }
        assert regs[..v.RegCount()] == fakeRegs;
      case InMemory(bytes) =>
        mem := WriteBytes(mem, retvalPtr, bytes);
    }

    /** The pointer to the return value, if there is to be one, and then all arguments. */
    method PassArguments(args: seq<Arg>, ret: Ret) returns (retvalPtr: Word, oldSp: Word)
      requires Valid() && AllValid(args)
      requires ret.SizeInMem() + 4 * Max0(RegCountSum(args) - 4) <= regs[SP]
      modifies regs, `mem
      ensures oldSp == old(regs[SP]) - ret.SizeInMem() && regs[SP] == CallSp(old(regs[SP]), ret, RegCountSum(args))
      ensures InPlace(regs[..], mem, regs[SP], ret.HiddenWords(), Words(args))
      ensures ret.InMemory? ==> regs[0] == retvalPtr == oldSp
      ensures OtherRegistersSame(old(regs[..]), regs[..][SP := old(regs[SP])])
      ensures OutsideSame(old(mem), mem, regs[SP], ArgsEnd(old(regs[SP]), ret, RegCountSum(args)))
    {
      hide Arg.ToRegs, SlotWord, InPlace, Arg.Valid;
      var regOffset := 0;
      retvalPtr := 0;
      if ret.InMemory? {
        regs[SP] := regs[SP] - |ret.bytes|;
        retvalPtr := regs[SP];
        PointerIsValid(retvalPtr);
        regOffset := WriteNextArg(0, Pointer(retvalPtr));
        PointerInPlace(regs[..], mem, regs[SP], retvalPtr);
      }
      oldSp := ExtendStackForArgs(RegCountSum(args));
      ghost var regs1, mem1 := regs[..], mem;
      regOffset := WriteArgs(args, regOffset);
      if ret.InMemory? {
        FirstWordStays(regs1, mem1, regs[..], mem, regs[SP], 1);
      }
    }

    /** A call of a host function as if from the guest comes to calling it: it is entered with the arguments in place and
        with nothing but the frame of the call changed, it gets those that survive, its value comes back and the stack
        pointer is as before, whatever the function does; all else is as the function leaves it. */
    method CallHostFunction(f: HostFunction, args: seq<Arg>, ret: Ret)
      returns (value: Ret, ghost entered: State, ghost passed: seq<Arg>)
      requires Valid() && AllValid(args) && Returns(f, ret)
      requires ret.SizeInMem() + 4 * Max0(RegCountSum(args) - 4) <= regs[SP]
      modifies regs, `mem
      ensures |entered.regs| == 16 && entered.regs[SP] == CallSp(old(regs[SP]), ret, RegCountSum(args))
      ensures OtherRegistersSame(old(regs[..]), entered.regs[SP := old(regs[SP])])
      ensures OutsideSame(old(mem), entered.mem, entered.regs[SP], ArgsEnd(old(regs[SP]), ret, RegCountSum(args)))
      ensures AllSurvive(args) <==> passed == args
      ensures value == f(passed, entered).value && regs[SP] == old(regs[SP])
      ensures var after := f(passed, entered).after;
              && (forall r :: 2 <= r < 16 && r != SP ==> regs[r] == after.regs[r])
              && mem == match value
                        case InMemory(bytes) => WriteBytes(after.mem, old(regs[SP]) - ret.SizeInMem(), bytes)
                        case _ => after.mem
    {
      hide Arg.FromRegs, Arg.ToRegs, SlotWord, InPlace, Arg.Valid, Arg.Survives, Parsed;
      var retvalPtr, oldSp := PassArguments(args, ret);
      ArgumentsFound(regs[..], mem, regs[SP], ret.HiddenWords(), args);
      entered := State(regs[..], mem);
      passed := Parsed(args, SlotWords(regs[..], mem, regs[SP], ret.HiddenWords(), RegCountSum(args)));
      CallFromGuest(f, args, ret);
      regs[SP] := oldSp;
      match ret
      case InMemory(bytes) =>
        regs[SP] := regs[SP] + |bytes|;
        BytesReadBack(f(passed, entered).after.mem, retvalPtr, f(passed, entered).value.bytes);
        value := InMemory(ReadBytes(mem, retvalPtr, |bytes|));
      case InRegs(v) =>
        ReturnsItself(f(passed, entered).value.value, v);
        value := InRegs(v.FromRegs(regs[..v.RegCount()]));
      case Nothing =>
        value := Nothing;
    }

    // ----- A guest function called by the host -----

    /** The state of the guest when one of its functions is entered: its arguments are in place, it will return to
        the routine, and it finds a stack frame with the caller's frame pointer and return address. */
    ghost predicate IsEntered(function_: Word, routine: Word, args: seq<Arg>, regs0: seq<Word>, mem0: Memory)
      reads this, regs
    {
      && Valid() && AllValid(args) && |regs0| == 16
      && regs[PC] == function_ && regs[LR] == routine
      && regs[SP] == regs0[SP] - 8 - 4 * Max0(RegCountSum(args) - 4)
      && InPlace(regs[..], mem, regs[SP], 0, Words(args))
      && regs[FRAME_POINTER] == regs0[SP] - 8
      && ReadWord(mem, regs[FRAME_POINTER]) == regs0[FRAME_POINTER] && ReadWord(mem, regs[FRAME_POINTER] + 4) == regs0[LR]
      && OutsideSame(mem0, mem, regs[SP], regs0[SP])
    }

    /** Guest code, which may do anything before it returns to the host. */
    method RunCall(ghost function_: Word, ghost routine: Word, ghost args: seq<Arg>, ghost regs0: seq<Word>, ghost mem0: Memory)
      requires IsEntered(function_, routine, args, regs0, mem0)
      modifies regs, `mem
    {
      var i := 0;
      while i < 16 {
        regs[i] := *;
        i := i + 1;
      }
      mem := *;
    }

    method PushFrame(oldLr: Word)
      requires Valid() && regs[SP] >= 8
      modifies regs, `mem
      ensures regs[..] == old(regs[..])[SP := old(regs[SP]) - 8][FRAME_POINTER := old(regs[SP]) - 8]
      ensures ReadWord(mem, regs[SP]) == old(regs[FRAME_POINTER]) && ReadWord(mem, regs[SP] + 4) == oldLr
      ensures OutsideSame(old(mem), mem, regs[SP], old(regs[SP]))
    {
      hide ReadWord, WriteWord;
      var oldFp := regs[FRAME_POINTER];
      regs[SP] := regs[SP] - 8;
      regs[FRAME_POINTER] := regs[SP];
      WrittenWord(mem, regs[SP], oldFp);
      mem := WriteWord(mem, regs[SP], oldFp);
      WrittenWord(mem, regs[SP] + 4, oldLr);
      mem := WriteWord(mem, regs[SP] + 4, oldLr);
    }

    /** Whatever the guest function does, the stack and frame pointers, the link register and the program counter are
        as before when it has returned. */
    method CallGuestFunction(function_: Word, routine: Word, args: seq<Arg>, ret: Ret) returns (value: Ret)
      requires Valid() && AllValid(args) && !ret.InMemory?
      requires 8 + 4 * Max0(RegCountSum(args) - 4) <= regs[SP]
      modifies regs, `mem
      ensures forall r :: r in {SP, LR, PC, FRAME_POINTER} ==> regs[r] == old(regs[r])
      ensures ret.InRegs? ==> value == InRegs(ret.value.FromRegs(regs[..ret.value.RegCount()]))
    {
      hide SlotWord, InPlace, Arg.ToRegs, Arg.Valid, Arg.FromRegs, ReadWord, WriteWord, SlotsSame;
      var oldPc, oldLr := regs[PC], regs[LR];
      regs[PC], regs[LR] := function_, routine;
      var oldSp, oldFp := regs[SP], regs[FRAME_POINTER];
      PushFrame(oldLr);
      ghost var mem1 := mem;
      var _ := ExtendStackForArgs(RegCountSum(args));
      var _ := WriteArgs(args, 0);
      SameWord(mem1, mem, regs[SP], oldSp - 8, oldSp - 8);
      SameWord(mem1, mem, regs[SP], oldSp - 8, oldSp - 4);
      RunCall(function_, routine, args, old(regs[..]), old(mem));
      regs[PC] := oldPc;
      regs[LR] := oldLr;
      regs[SP] := oldSp;
      regs[FRAME_POINTER] := oldFp;
      match ret
      case InRegs(v) => value := InRegs(v.FromRegs(regs[..v.RegCount()]));
      case _ => value := Nothing;
    }
  }

  lemma SameWord(mem: Memory, mem': Memory, low: int, high: int, addr: int)
    requires OutsideSame(mem, mem', low, high) && high <= addr
    ensures ReadWord(mem', addr) == ReadWord(mem, addr)
  {
  }

  lemma NothingParsed(regs: seq<Word>, mem: Memory, sp: int, from: nat)
    requires |regs| == 16
    ensures Parsed([], SlotWords(regs, mem, sp, from, 0)) == []
  {
  }

  lemma OneMoreParsed(types: seq<Arg>, i: nat, regs: seq<Word>, mem: Memory, sp: int, from: nat)
    requires |regs| == 16 && i < |types|
    ensures var m, m' := RegCountSum(types[..i]), RegCountSum(types[..i + 1]);
            && m' == m + types[i].RegCount()
            && Parsed(types[..i + 1], SlotWords(regs, mem, sp, from, m')) ==
               Parsed(types[..i], SlotWords(regs, mem, sp, from, m))
               + [types[i].FromRegs(SlotWords(regs, mem, sp, from + m, types[i].RegCount()))]
  {
    hide SlotWord, SlotWords, InPlace, Arg.FromRegs, Arg.RegCount;
    var m, n := RegCountSum(types[..i]), types[i].RegCount();
    assert types[..i + 1][..i] == types[..i] && types[..i + 1][i] == types[i];
    FoundTwice(regs, mem, sp, from, m, n);
    var words := SlotWords(regs, mem, sp, from, m + n);
    assert words[..m] == SlotWords(regs, mem, sp, from, m) && words[m..] == SlotWords(regs, mem, sp, from + m, n);
  }

  lemma NoneInPlace(regs: seq<Word>, mem: Memory, sp: int, from: nat)
    requires |regs| == 16
    ensures InPlace(regs, mem, sp, from, [])
  {
  }

  lemma PointerIsValid(p: Word)
    ensures Pointer(p).Valid() && Pointer(p).RegCount() == 1
  {
  }

  lemma ReturnsItself(v: Arg, type_: Arg)
    requires v.Valid() && v.RegCount() == type_.RegCount() && type_.FromRegs(v.ToRegs()) == v
    ensures v.FromRegs(v.ToRegs()) == v
    ensures forall regs :: |regs| == type_.RegCount() ==> type_.FromRegs(regs) == v.FromRegs(regs)
  {
  }

  lemma PointerIsFirstWord(regs: seq<Word>, mem: Memory, sp: int)
    requires |regs| == 16
    ensures Pointer(0).FromRegs(SlotWords(regs, mem, sp, 0, 1)) == Pointer(regs[0]) && SlotWord(regs, mem, sp, 0) == regs[0]
  {
    assert SlotWords(regs, mem, sp, 0, 1) == SlotWords(regs, mem, sp, 0, 0) + [regs[0]];
  }

  lemma FirstWordStays(regs: seq<Word>, mem: Memory, regs': seq<Word>, mem': Memory, sp: int, from: nat)
    requires |regs| == |regs'| == 16 && from > 0 && SlotsSame(regs, mem, regs', mem', sp, from)
    ensures regs'[0] == regs[0]
  {
    PointerIsFirstWord(regs, mem, sp);
    PointerIsFirstWord(regs', mem', sp);
  }

  lemma PointerInPlace(regs: seq<Word>, mem: Memory, sp: int, p: Word)
    requires |regs| == 16 && InPlace(regs, mem, sp, 0, Pointer(p).ToRegs())
    ensures regs[0] == p
  {
    assert SlotWord(regs, mem, sp, 0 + 0) == Pointer(p).ToRegs()[0];
  }

  /** What a reader finds when the arguments are in place. */
  lemma ArgumentsFound(regs: seq<Word>, mem: Memory, sp: int, from: nat, args: seq<Arg>)
    requires |regs| == 16 && AllValid(args) && InPlace(regs, mem, sp, from, Words(args))
    ensures Parsed(args, SlotWords(regs, mem, sp, from, RegCountSum(args))) == args <==> AllSurvive(args)
  {
    hide SlotWord, Arg.ToRegs, Arg.FromRegs, Arg.Survives, Arg.Valid;
    PlacedWordsAreFound(regs, mem, sp, from, Words(args));
    ArgumentsReadBack(args);
  }

  lemma BytesReadBack(mem: Memory, addr: int, bytes: seq<Byte>)
    ensures ReadBytes(WriteBytes(mem, addr, bytes), addr, |bytes|) == bytes
    ensures OutsideSame(mem, WriteBytes(mem, addr, bytes), addr, addr + |bytes|)
  {
  }
}
