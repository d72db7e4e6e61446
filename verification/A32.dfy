/** The few A32 instructions that stubs are made of, and what running a stub comes to. */
module A32 {
  import opened Common

  type Word = x: int | 0 <= x < 0x1_0000_0000

  type Memory = Word -> Word

  /** Addition as the processor and 32-bit pointers do it. */
  function Add(x: Word, y: Word): Word {
    if x + y < 0x1_0000_0000 then x + y else x + y - 0x1_0000_0000
  }

  // ----- Instructions -----

  const LDR_PC_PC: Word := 0xe59ff000
  const LDR_IP_PC: Word := 0xe59fc000
  const LDR_PC_IP: Word := 0xe59cf000
  const ADD_IP_PC_IP: Word := 0xe08fc00c
  const SVC: Word := 0xef000000
  const RET: Word := 0xe12fff1e
  const TRAP: Word := 0xe7ffdefe

  datatype Instruction =
    | LdrPcPc(offset: Word)  // LDR pc, [pc, #offset]
    | LdrIpPc(offset: Word)  // LDR ip, [pc, #offset]
    | LdrPcIp                // LDR pc, [ip]
    | AddIpPcIp              // ADD ip, pc, ip
    | Svc(imm: Word)
    | Ret                    // BX lr
    | Trap
    | Other

  function Decode(w: Word): Instruction {
    if SVC <= w < 0xf0000000 then Svc(w - SVC)
    else if LDR_PC_PC <= w < LDR_PC_PC + 0x1000 then LdrPcPc(w - LDR_PC_PC)
    else if LDR_IP_PC <= w < LDR_IP_PC + 0x1000 then LdrIpPc(w - LDR_IP_PC)
    else if w == LDR_PC_IP then LdrPcIp
    else if w == ADD_IP_PC_IP then AddIpPcIp
    else if w == RET then Ret
    else if w == TRAP then Trap
    else Other
  }

  function EncodeSvc(imm: Word): (w: Word)
    requires imm < 0x1000000
    ensures Decode(w) == Svc(imm)
  {
    SVC + imm
  }

  // ----- Supervisor calls -----

  const SVC_LAZY_LINK: Word := 0
  const SVC_LINKED_FUNCTIONS_BASE: Word := 3
  const SVC_LAZY_LINK_RET_FLAG: Word := 0x800000

  /** The number issued for host function `index`; `flagged` if the handler is to return from the stub itself. */
  function IssuedSvc(index: nat, flagged: bool): Word
    requires index + SVC_LINKED_FUNCTIONS_BASE < (if flagged then SVC_LAZY_LINK_RET_FLAG else 0x1000000)
  {
    index + SVC_LINKED_FUNCTIONS_BASE + if flagged then SVC_LAZY_LINK_RET_FLAG else 0
  }

  function WithoutFlag(svc: Word): Word
    requires svc < 0x1000000
  {
    if svc >= SVC_LAZY_LINK_RET_FLAG then svc - SVC_LAZY_LINK_RET_FLAG else svc
  }

  datatype SvcKind = LazyLink | Special | Linked(index: nat, flagged: bool)

  /** What the handler takes a supervisor call for. */
  function Dispatch(svc: Word): SvcKind
    requires svc < 0x1000000
  {
    if svc == SVC_LAZY_LINK || svc == SVC_LAZY_LINK_RET_FLAG then LazyLink
    else if WithoutFlag(svc) < SVC_LINKED_FUNCTIONS_BASE then Special
    else Linked(WithoutFlag(svc) - SVC_LINKED_FUNCTIONS_BASE, svc >= SVC_LAZY_LINK_RET_FLAG)
  }

  /** A number means the function it was issued for exactly as long as it stays clear of the flag. */
  lemma SvcFindsItsFunction(index: nat, flagged: bool)
    requires index + SVC_LINKED_FUNCTIONS_BASE < (if flagged then SVC_LAZY_LINK_RET_FLAG else 0x1000000)
    ensures Dispatch(IssuedSvc(index, flagged)) == Linked(index, flagged)
            <==> index + SVC_LINKED_FUNCTIONS_BASE < SVC_LAZY_LINK_RET_FLAG
  {
  }

  // ----- Running a stub -----

  /** Where running from an address gets: it leaves for `pc`, after calling the given host functions; or it asks for
      lazy linking at `pc`; or it goes wrong. */
  datatype Outcome = Left(calls: seq<nat>, pc: Word) | Lazy(calls: seq<nat>, pc: Word) | Stuck

  /** Runs until something other than stub code takes over. A host function keeps LR and what stubs are made of. */
  function Run(mem: Memory, pc: Word, ip: Word, lr: Word, calls: seq<nat>, fuel: nat): Outcome
    decreases fuel
  {
    if fuel == 0 then Stuck
    else
      match Decode(mem(pc))
      case LdrPcPc(offset) => Left(calls, mem(Add(Add(pc, 8), offset)))
      case LdrIpPc(offset) => Run(mem, Add(pc, 4), mem(Add(Add(pc, 8), offset)), lr, calls, fuel - 1)
      case LdrPcIp => Left(calls, mem(ip))
      case AddIpPcIp => Run(mem, Add(pc, 4), Add(Add(pc, 8), ip), lr, calls, fuel - 1)
      case Ret => Left(calls, lr)
      case Svc(imm) =>
        (match Dispatch(imm)
         case LazyLink => Lazy(calls, pc)
         case Special => Stuck
         case Linked(index, flagged) =>
           if flagged then Left(calls + [index], lr)
           else Run(mem, Add(pc, 4), ip, lr, calls + [index], fuel - 1))
      case _ => Stuck
  }

  /** Long enough for any stub. */
  const STUB_FUEL: nat := 4

  function Enter(mem: Memory, pc: Word, ip: Word, lr: Word): Outcome {
    Run(mem, pc, ip, lr, [], STUB_FUEL)
  }

  // ----- Shapes of stubs -----

  /** Where a stub leads. */
  datatype Link = Unlinked | ToGuest(target: Word) | ToHost(index: nat)

  /** A stub of `size` bytes, and the word of the symbol pointer table that it loads its target from. */
  datatype Stub = Stub(size: nat, slot: Word) {
    predicate Valid() {
      size == 4 || size == 12 || size == 16
    }

    /** Which words of memory the stub at `addr` is made of, or depends on. */
    predicate Covers(addr: Word, x: Word) {
      || x == addr || x == slot
      || (size >= 12 && (x == Add(addr, 4) || x == Add(addr, 8)))
      || (size == 16 && x == Add(addr, 12))
    }

    /** The pointer is not part of the code, and the code does not wrap around onto itself. */
    predicate SlotIsApart(addr: Word) {
      slot != addr && (size >= 12 ==> slot != Add(addr, 4) && slot != Add(addr, 8)) && (size == 16 ==> slot != Add(addr, 12))
    }

    /** The part of the stub that is never rewritten leads to the slot. */
    predicate LeadsToSlot(mem: Memory, addr: Word) {
      if size == 4 then exists offset: Word :: IsNearSlot(addr, offset)
      else if size == 12 then mem(Add(addr, 8)) == slot
      else Add(Add(addr, mem(Add(addr, 12))), 12) == slot
    }

    predicate IsNearSlot(addr: Word, offset: Word) {
      offset < 0x1000 && slot == Add(Add(addr, offset), 8)
    }

    predicate Is(mem: Memory, addr: Word, link: Link)
      requires Valid()
    {
      LeadsToSlot(mem, addr) &&
      match link
      case Unlinked =>
        if size == 4 then mem(addr) == EncodeSvc(SVC_LAZY_LINK_RET_FLAG)
        else mem(addr) == EncodeSvc(SVC_LAZY_LINK) && mem(Add(addr, 4)) == RET
      case ToGuest(target) =>
        && mem(slot) == target
        && (if size == 4 then exists offset: Word :: IsNearSlot(addr, offset) && mem(addr) == LDR_PC_PC + offset
            else if size == 12 then mem(addr) == LDR_IP_PC && mem(Add(addr, 4)) == LDR_PC_IP
            else mem(addr) == LDR_IP_PC + 4 && mem(Add(addr, 4)) == ADD_IP_PC_IP && mem(Add(addr, 8)) == LDR_PC_IP)
      case ToHost(index) =>
        && index + SVC_LINKED_FUNCTIONS_BASE < SVC_LAZY_LINK_RET_FLAG
        && mem(addr) == EncodeSvc(IssuedSvc(index, size == 4)) && (size != 4 ==> mem(Add(addr, 4)) == RET)
    }
  }

  /** What entering a stub does, whatever the registers hold. */
  function Meaning(link: Link, addr: Word, lr: Word): Outcome {
    match link
    case Unlinked => Lazy([], addr)
    case ToGuest(target) => Left([], target)
    case ToHost(index) => Left([index], lr)
  }

  lemma StubRuns(mem: Memory, addr: Word, stub: Stub, link: Link, ip: Word, lr: Word)
    requires stub.Valid() && stub.Is(mem, addr, link)
    ensures Enter(mem, addr, ip, lr) == Meaning(link, addr, lr)
  {
    match link
    case Unlinked =>
    case ToHost(index) =>
      SvcFindsItsFunction(index, stub.size == 4);
      if stub.size != 4 {
        assert Run(mem, Add(addr, 4), ip, lr, [] + [index], STUB_FUEL - 1) == Left([index], lr);
      }
    case ToGuest(target) =>
      if stub.size == 12 {
        assert Run(mem, Add(addr, 4), stub.slot, lr, [], STUB_FUEL - 1) == Left([], target);
      } else if stub.size == 16 {
        var ip1 := mem(Add(addr, 12));
        assert Add(Add(addr, 8), 4) == Add(addr, 12);
        assert Run(mem, Add(Add(addr, 4), 4), Add(Add(Add(addr, 4), 8), ip1), lr, [], STUB_FUEL - 2) == Left([], target);
        assert Run(mem, Add(addr, 4), ip1, lr, [], STUB_FUEL - 1) == Left([], target);
      }
  }

  /** Writing elsewhere does not change what a stub is. */
  lemma StubStays(mem: Memory, mem': Memory, addr: Word, stub: Stub, link: Link)
    requires stub.Valid() && stub.Is(mem, addr, link)
    requires forall x {:trigger mem'(x)} :: stub.Covers(addr, x) ==> mem'(x) == mem(x)
    ensures stub.Is(mem', addr, link)
  {
  }
}
