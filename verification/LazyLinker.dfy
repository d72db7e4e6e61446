/** Lazy linking: stubs of the app's binaries are rewritten to call the linker, which rewrites each of
    them once more, to lead to a guest function or to call a host function. */
module LazyLinker {
  import opened Common
  import opened A32

  // ----- Binaries -----

  /** A section of stubs, with the symbol each one is for. */
  datatype StubSection = StubSection(addr: Word, size: nat, entrySize: nat, symbols: seq<Option<string>>) {
    predicate Contains(pc: Word) {
      addr <= pc < addr + size
    }
  }

  datatype Binary = Binary(stubs: Option<StubSection>, lazyPointers: Option<Word>, exports: map<string, Word>) {
    /** How far the symbol pointers are from the stubs. */
    function PicOffset(): int
      requires stubs.Some?
    {
      match lazyPointers case Some(pointers) => pointers - stubs.value.addr case None => 0
    }
  }

  /** The first binary with `pc` in its stubs. */
  function FindStubs(bins: seq<Binary>, pc: Word): (r: Option<Binary>)
    ensures r.Some? ==> r.value in bins && r.value.stubs.Some? && r.value.stubs.value.Contains(pc)
  {
    if bins == [] then None
    else if bins[0].stubs.Some? && bins[0].stubs.value.Contains(pc) then Some(bins[0])
    else FindStubs(bins[1..], pc)
  }

  /** The first binary's address for a symbol. */
  function FindExport(bins: seq<Binary>, symbol: string): Option<Word> {
    if bins == [] then None
    else if symbol in bins[0].exports then Some(bins[0].exports[symbol])
    else FindExport(bins[1..], symbol)
  }

  predicate Exports(bins: seq<Binary>, i: int, symbol: string) {
    0 <= i < |bins| && symbol in bins[i].exports
  }

  /** Binary number `i` exports the symbol, and none before it does. */
  ghost predicate IsFirstExport(bins: seq<Binary>, i: int, symbol: string) {
    Exports(bins, i, symbol) && forall j :: Exports(bins, j, symbol) ==> i <= j
  }

  lemma {:induction false} ExportIsFirst(bins: seq<Binary>, symbol: string)
    ensures forall i :: IsFirstExport(bins, i, symbol) ==> FindExport(bins, symbol) == Some(bins[i].exports[symbol])
    ensures FindExport(bins, symbol) == None ==> forall i :: !Exports(bins, i, symbol)
    ensures FindExport(bins, symbol).Some? ==> exists i :: IsFirstExport(bins, i, symbol)
  {
    if bins == [] {
    } else if symbol in bins[0].exports {
      assert IsFirstExport(bins, 0, symbol);
    } else {
      var rest := bins[1..];
      ExportIsFirst(rest, symbol);
      forall i | Exports(bins, i, symbol) ensures Exports(rest, i - 1, symbol) && bins[i] == rest[i - 1] {
      }
      forall i | IsFirstExport(bins, i, symbol) ensures FindExport(bins, symbol) == Some(bins[i].exports[symbol]) {
        forall j | Exports(rest, j, symbol) ensures i - 1 <= j {
          assert Exports(bins, j + 1, symbol);
        }
        assert IsFirstExport(rest, i - 1, symbol);
      }
      if i :| IsFirstExport(rest, i, symbol) {
        forall j | Exports(bins, j, symbol) ensures i + 1 <= j {
          assert Exports(rest, j - 1, symbol);
        }
        assert IsFirstExport(bins, i + 1, symbol);
      }
    }
  }

  predicate HasStub(bins: seq<Binary>, i: int, pc: Word) {
    0 <= i < |bins| && bins[i].stubs.Some? && bins[i].stubs.value.Contains(pc)
  }

  /** The stub at `pc` is number `k` of binary number `i`, the first one with stubs there. */
  ghost predicate IsStub(bins: seq<Binary>, i: int, k: nat, pc: Word) {
    && HasStub(bins, i, pc) && (forall j :: HasStub(bins, j, pc) ==> i <= j)
    && var section := bins[i].stubs.value; section.entrySize > 0 && pc == section.addr + k * section.entrySize
  }

  lemma {:induction false} StubIsFirst(bins: seq<Binary>, i: int, pc: Word)
    requires HasStub(bins, i, pc) && forall j :: HasStub(bins, j, pc) ==> i <= j
    ensures FindStubs(bins, pc) == Some(bins[i])
  {
    if i == 0 {
    } else {
      assert !HasStub(bins, 0, pc);
      var rest := bins[1..];
      forall j | HasStub(rest, j, pc) ensures i - 1 <= j {
        assert HasStub(bins, j + 1, pc);
      }
      StubIsFirst(rest, i - 1, pc);
    }
  }

  predicate IsGuestCxxAbiSymbol(name: string) {
    || "___cxa_" <= name || "__Unwind_" <= name || "___gxx_personality_" <= name
    || "__ZTVN10__cxxabiv1" <= name || "__ZTI" <= name || "__ZTS" <= name
  }

  function StubBinderName(): string {
    "dyld_stub_binder"
  }

  /** The two spellings of the stub binder's name are the same symbol. */
  function PlainName(symbol: string): string {
    if symbol == "_" + StubBinderName() then StubBinderName() else symbol
  }

  lemma BinderIsNoThrow()
    ensures !IsThrow(StubBinderName()) && !IsThrow("_" + StubBinderName())
  {
  }

  predicate IsThrow(name: string) {
    name == "__cxa_throw" || name == "___cxa_throw"
  }

  // ----- Layout -----

  ghost predicate Apart(a: Word, s: Stub, b: Word, t: Stub) {
    forall x: Word :: s.Covers(a, x) ==> !t.Covers(b, x)
  }

  /** No two stubs share a word, or a pointer. */
  ghost predicate Layout(stubs: map<Word, Stub>) {
    && (forall a :: a in stubs ==> stubs[a].Valid() && stubs[a].SlotIsApart(a))
    && (forall a, b :: a in stubs && b in stubs && a != b ==> Apart(a, stubs[a], b, stubs[b]))
  }

  predicate IsFunctionWord(p: Word, x: Word) {
    x == p || x == Add(p, 4)
  }

  /** The code of a host function's guest address, clear of all stubs. */
  ghost predicate IsClear(stubs: map<Word, Stub>, p: Word) {
    forall a: Word, x: Word :: a in stubs && IsFunctionWord(p, x) ==> !stubs[a].Covers(a, x)
  }

  /** The code at `p` calls host function `index` and returns. */
  predicate CallsHost(mem: Memory, p: Word, index: nat) {
    && index + SVC_LINKED_FUNCTIONS_BASE < SVC_LAZY_LINK_RET_FLAG
    && mem(p) == EncodeSvc(IssuedSvc(index, false)) && mem(Add(p, 4)) == RET
  }

  lemma HostFunctionRuns(mem: Memory, p: Word, index: nat, ip: Word, lr: Word)
    requires CallsHost(mem, p, index)
    ensures Enter(mem, p, ip, lr) == Left([index], lr)
  {
    SvcFindsItsFunction(index, false);
    assert Run(mem, Add(p, 4), ip, lr, [] + [index], STUB_FUEL - 1) == Left([index], lr);
  }

  /** Only words that belong to the stub at `pc` differ. */
  ghost predicate ChangesOnly(mem: Memory, mem': Memory, pc: Word, stub: Stub) {
    forall x: Word {:trigger mem'(x)} :: !stub.Covers(pc, x) ==> mem'(x) == mem(x)
  }

  ghost predicate SameFrom(mem: Memory, mem': Memory, a: int) {
    forall x: Word {:trigger mem'(x)} :: x >= a ==> mem'(x) == mem(x)
  }

  /** Only words that belong to some of the stubs differ. */
  ghost predicate ChangesOnlyStubs(mem: Memory, mem': Memory, stubs: map<Word, Stub>) {
    forall x: Word {:trigger mem'(x)} :: (forall a :: a in stubs ==> !stubs[a].Covers(a, x)) ==> mem'(x) == mem(x)
  }

  lemma OthersStay(stubs: map<Word, Stub>, mem: Memory, mem': Memory, pc: Word, a: Word, link: Link)
    requires Layout(stubs) && pc in stubs && a in stubs && a != pc
    requires ChangesOnly(mem, mem', pc, stubs[pc]) && stubs[a].Is(mem, a, link)
    ensures stubs[a].Is(mem', a, link)
  {
    assert Apart(a, stubs[a], pc, stubs[pc]);
    StubStays(mem, mem', a, stubs[a], link);
  }

  lemma FunctionStays(stubs: map<Word, Stub>, mem: Memory, mem': Memory, pc: Word, p: Word, index: nat)
    requires pc in stubs && ChangesOnly(mem, mem', pc, stubs[pc])
    requires IsClear(stubs, p) && CallsHost(mem, p, index)
    ensures CallsHost(mem', p, index)
  {
    assert IsFunctionWord(p, p) && IsFunctionWord(p, Add(p, 4));
  }

  // ----- The books -----

  /** What is known about memory: the stubs that have been set up, where those that have been called lead, and the
      host functions that have a guest address, of `linked` host functions in all. */
  datatype Books = Books(stubs: map<Word, Stub>, links: map<Word, Link>, functions: map<Word, nat>, linked: nat) {
    function LinkOf(a: Word): Link {
      if a in links then links[a] else Unlinked
    }

    ghost predicate AreRight(mem: Memory) {
      && Layout(stubs) && links.Keys <= stubs.Keys
      && (forall a {:trigger LinkOf(a)} :: a in stubs ==> stubs[a].Is(mem, a, LinkOf(a)))
      && (forall a :: a in links ==> links[a] != Unlinked && (links[a].ToHost? ==> links[a].index < linked))
      && (forall p :: p in functions ==> IsClear(stubs, p) && functions[p] < linked && CallsHost(mem, p, functions[p]))
    }
  }

  lemma StubIsKnown(books: Books, mem: Memory, a: Word)
    requires books.AreRight(mem) && a in books.stubs
    ensures books.stubs[a].Valid() && books.stubs[a].SlotIsApart(a) && books.stubs[a].Is(mem, a, books.LinkOf(a))
    ensures books.stubs[a].LeadsToSlot(mem, a)
    ensures a in books.links ==> books.links[a] == books.LinkOf(a) != Unlinked
  {
  }

  /** After linking one stub, and nothing else, the books are right again. */
  lemma LinkingKeepsBooks(books: Books, mem: Memory, mem': Memory, pc: Word, link: Link, linked: nat)
    requires books.AreRight(mem) && pc in books.stubs && pc !in books.links && books.linked <= linked
    requires link != Unlinked && (link.ToHost? ==> link.index < linked)
    requires ChangesOnly(mem, mem', pc, books.stubs[pc])
    requires books.stubs[pc].Valid() && books.stubs[pc].Is(mem', pc, link)
    ensures books.(links := books.links[pc := link], linked := linked).AreRight(mem')
  {
    hide Stub.Is, Stub.Covers, Stub.Valid, Stub.SlotIsApart, CallsHost, IsClear, Apart, ChangesOnly;
    var books' := books.(links := books.links[pc := link], linked := linked);
    forall a | a in books.stubs ensures books.stubs[a].Is(mem', a, books'.LinkOf(a)) {
      if a != pc {
        assert books.LinkOf(a) == books'.LinkOf(a);
        OthersStay(books.stubs, mem, mem', pc, a, books.LinkOf(a));
      }
    }
    forall p | p in books.functions ensures CallsHost(mem', p, books.functions[p]) {
      FunctionStays(books.stubs, mem, mem', pc, p, books.functions[p]);
    }
  }

  /** Two words for the code of a new host function, which nothing else uses. */
  ghost predicate IsFree(books: Books, p: Word) {
    && IsClear(books.stubs, p)
    && forall q: Word, x: Word :: q in books.functions && IsFunctionWord(p, x) ==> !IsFunctionWord(q, x)
  }

  lemma FreeIsNew(books: Books, p: Word)
    requires IsFree(books, p)
    ensures p !in books.functions
  {
    assert IsFunctionWord(p, p);
  }

  lemma NewFunctionKeepsBooks(books: Books, mem: Memory, mem': Memory, p: Word)
    requires books.AreRight(mem) && IsFree(books, p) && CallsHost(mem', p, books.linked)
    requires forall x: Word {:trigger mem'(x)} :: !IsFunctionWord(p, x) ==> mem'(x) == mem(x)
    ensures books.(functions := books.functions[p := books.linked], linked := books.linked + 1).AreRight(mem')
  {
    hide Stub.Is, Stub.Covers, Stub.Valid, Stub.SlotIsApart, Apart;
    forall a | a in books.stubs ensures books.stubs[a].Is(mem', a, books.LinkOf(a)) {
      assert forall x :: books.stubs[a].Covers(a, x) ==> !IsFunctionWord(p, x);
      StubStays(mem, mem', a, books.stubs[a], books.LinkOf(a));
    }
    forall q | q in books.functions && q != p ensures CallsHost(mem', q, books.functions[q]) {
      assert IsFunctionWord(q, q) && IsFunctionWord(q, Add(q, 4));
    }
  }

  /** A stub that is yet to be set up is clear of all that are. */
  lemma NewStubIsApart(books: Books, a: Word, stub: Stub)
    requires Layout(books.stubs[a := stub]) && a !in books.stubs
    ensures stub.Valid() && stub.SlotIsApart(a)
    ensures forall b :: b in books.stubs ==> Apart(b, books.stubs[b], a, stub)
  {
    var stubs' := books.stubs[a := stub];
    assert stubs'[a] == stub;
    forall b | b in books.stubs ensures Apart(b, books.stubs[b], a, stub) {
      assert stubs'[b] == books.stubs[b];
      assert Apart(b, stubs'[b], a, stubs'[a]);
    }
  }

  lemma NewStubKeepsBooks(books: Books, mem: Memory, mem': Memory, a: Word, stub: Stub)
    requires books.AreRight(mem) && a !in books.stubs && Layout(books.stubs[a := stub])
    requires forall p :: p in books.functions ==> IsClear(books.stubs[a := stub], p)
    requires forall b :: b in books.stubs ==> Apart(b, books.stubs[b], a, stub)
    requires stub.Valid() && ChangesOnly(mem, mem', a, stub) && stub.Is(mem', a, Unlinked)
    ensures books.(stubs := books.stubs[a := stub]).AreRight(mem')
  {
    var stubs' := books.stubs[a := stub];
    var books' := books.(stubs := stubs');
    assert a !in books.links;
    forall b | b in stubs' ensures stubs'[b].Is(mem', b, books'.LinkOf(b)) {
      if b != a {
        assert books.LinkOf(b) == books'.LinkOf(b);
        StubStays(mem, mem', b, books.stubs[b], books.LinkOf(b));
      }
    }
    forall p | p in books.functions ensures CallsHost(mem', p, books.functions[p]) {
      FunctionStays(stubs', mem, mem', a, p, books.functions[p]);
    }
  }

  predicate IsStubSize(size: nat) {
    size == 4 || size == 12 || size == 16
  }

  /** Whether the code of a stub is as a compiler writes it; a four-byte stub can be anything. */
  predicate Matches(mem: Memory, a: Word, size: nat) {
    if size == 4 then true
    else if size == 12 then mem(a) == LDR_IP_PC && mem(Add(a, 4)) == LDR_PC_IP
    else mem(a) == LDR_IP_PC + 4 && mem(Add(a, 4)) == ADD_IP_PC_IP && mem(Add(a, 8)) == LDR_PC_IP
  }

  function SlotOf(mem: Memory, a: Word, bin: Binary): Word
    requires bin.stubs.Some?
  {
    if bin.stubs.value.entrySize == 4 then
      (if 0 <= bin.PicOffset() < 0x100000 then Slot1(a, bin.PicOffset()) else a)
    else if bin.stubs.value.entrySize == 12 then mem(Add(a, 8))
    else Add(Add(a, mem(Add(a, 12))), 12)
  }

  /** The stubs that are set up are those that go by their pointer, in the compiler's way: they load it from behind their
      code, relative to the processor's counter in the longer ones, and jump to where it leads. */
  lemma CompilersStubsMatch(mem: Memory, a: Word, bin: Binary, ip: Word, lr: Word)
    requires bin.stubs.Some? && bin.stubs.value.entrySize in {12, 16}
    ensures Matches(mem, a, 12) <==> Decode(mem(a)) == LdrIpPc(0) && Decode(mem(Add(a, 4))) == LdrPcIp
    ensures Matches(mem, a, 16) <==>
            Decode(mem(a)) == LdrIpPc(4) && Decode(mem(Add(a, 4))) == AddIpPcIp && Decode(mem(Add(a, 8))) == LdrPcIp
    ensures Matches(mem, a, bin.stubs.value.entrySize) ==> Enter(mem, a, ip, lr) == Left([], mem(SlotOf(mem, a, bin)))
  {
  }

  ghost function Before(stubs: map<Word, Stub>, end: int): map<Word, Stub> {
    map a | a in stubs && a < end :: stubs[a]
  }

  lemma StubIsInSection(section: StubSection, i: nat, count: nat)
    requires i < count && section.entrySize > 0 && count == section.size / section.entrySize
    ensures i * section.entrySize + section.entrySize == (i + 1) * section.entrySize <= section.size
  {
    assert (i + 1) * section.entrySize <= count * section.entrySize;
  }

  /** What is at and behind the stub decides about it. */
  lemma SameStub(mem: Memory, mem': Memory, a: Word, bin: Binary)
    requires bin.stubs.Some? && IsStubSize(bin.stubs.value.entrySize) && a + bin.stubs.value.entrySize < 0x1_0000_0000
    requires bin.stubs.value.entrySize == 4 ==> 0 <= bin.PicOffset() < 0x100000
    requires SameFrom(mem, mem', a)
    ensures Matches(mem', a, bin.stubs.value.entrySize) == Matches(mem, a, bin.stubs.value.entrySize)
    ensures Stub(bin.stubs.value.entrySize, SlotOf(mem, a, bin)).LeadsToSlot(mem', a)
  {
    if bin.stubs.value.entrySize == 4 {
      assert Stub(4, SlotOf(mem, a, bin)).IsNearSlot(a, bin.PicOffset() % 0x1000);
    }
  }

  lemma PartOfLayout(stubs: map<Word, Stub>, part: map<Word, Stub>)
    requires Layout(stubs) && forall a :: a in part ==> a in stubs && part[a] == stubs[a]
    ensures Layout(part)
  {
    hide Apart, Stub.SlotIsApart, Stub.Valid;
  }

  lemma PartIsClear(stubs: map<Word, Stub>, part: map<Word, Stub>, p: Word)
    requires IsClear(stubs, p) && forall a :: a in part ==> a in stubs && part[a] == stubs[a]
    ensures IsClear(part, p)
  {
  }

  // ----- Setting up a section -----

  /** The stubs of a section that have the expected instructions. */
  ghost function Expected(mem: Memory, bin: Binary): (r: map<Word, Stub>)
    requires bin.stubs.Some? && bin.stubs.value.entrySize > 0
  {
    var section := bin.stubs.value;
    map a: Word | section.addr <= a < section.addr + section.size && (a - section.addr) % section.entrySize == 0
                  && Matches(mem, a, section.entrySize)
      :: Stub(section.entrySize, SlotOf(mem, a, bin))
  }

  lemma ExpectedAt(mem: Memory, bin: Binary, a: Word, i: nat)
    requires bin.stubs.Some? && IsStubSize(bin.stubs.value.entrySize)
    requires a == bin.stubs.value.addr + i * bin.stubs.value.entrySize
    requires a + bin.stubs.value.entrySize <= bin.stubs.value.addr + bin.stubs.value.size
    ensures var expected, n := Expected(mem, bin), bin.stubs.value.entrySize;
            && (a in expected <==> Matches(mem, a, n))
            && (a in expected ==> expected[a] == Stub(n, SlotOf(mem, a, bin)))
            && (forall b :: b in expected && a <= b < a + n ==> b == a)
  {
    hide Matches, SlotOf;
    var section := bin.stubs.value;
    MultipleIsAtBoundary(section.entrySize, i);
    forall b | b in Expected(mem, bin) && a <= b < a + section.entrySize ensures b == a {
      IsAtBoundary(section.entrySize, i, a - section.addr, b - section.addr);
    }
  }

  lemma ExpectedRange(mem: Memory, bin: Binary)
    requires bin.stubs.Some? && bin.stubs.value.entrySize > 0
    ensures forall b :: b in Expected(mem, bin) ==> bin.stubs.value.addr <= b < bin.stubs.value.addr + bin.stubs.value.size
  {
    hide Matches, SlotOf;
  }

  /** The stubs of a section can be set up beside those that are, and beside the host functions. */
  ghost predicate FitTogether(start: map<Word, Stub>, expected: map<Word, Stub>, functions: map<Word, nat>) {
    && expected.Keys !! start.Keys && Layout(start + expected)
    && (forall p :: p in functions ==> IsClear(start + expected, p))
  }

  /** The expected stubs before `a` have been set up. */
  ghost predicate Progress(start: map<Word, Stub>, stubs: map<Word, Stub>, expected: map<Word, Stub>,
                           mem0: Memory, mem: Memory, a: int) {
    stubs == start + Before(expected, a) && SameFrom(mem0, mem, a) && ChangesOnlyStubs(mem0, mem, expected)
  }

  lemma SetUpStarts(start: map<Word, Stub>, expected: map<Word, Stub>, mem: Memory, a: int)
    requires forall b :: b in expected ==> a <= b
    ensures Progress(start, start, expected, mem, mem, a)
  {
    assert Before(expected, a) == map[];
  }

  lemma ProgressIsSame(start: map<Word, Stub>, stubs: map<Word, Stub>, expected: map<Word, Stub>,
                       mem0: Memory, mem: Memory, a: int)
    requires Progress(start, stubs, expected, mem0, mem, a)
    ensures SameFrom(mem0, mem, a)
  {
  }

  lemma NextFits(start: map<Word, Stub>, stubs: map<Word, Stub>, expected: map<Word, Stub>,
                 mem0: Memory, mem: Memory, a: Word, functions: map<Word, nat>)
    requires Progress(start, stubs, expected, mem0, mem, a) && FitTogether(start, expected, functions) && a in expected
    ensures a !in stubs && Layout(stubs[a := expected[a]])
    ensures forall p :: p in functions ==> IsClear(stubs[a := expected[a]], p)
  {
    hide Layout, IsClear;
    var part := stubs[a := expected[a]];
    assert forall b :: b in part ==> b in start + expected && part[b] == (start + expected)[b];
    PartOfLayout(start + expected, part);
    forall p | p in functions ensures IsClear(part, p) {
      PartIsClear(start + expected, part, p);
    }
  }

  lemma ProgressMade(start: map<Word, Stub>, stubs: map<Word, Stub>, expected: map<Word, Stub>,
                     mem0: Memory, mem: Memory, mem': Memory, a: Word, size: nat)
    requires Progress(start, stubs, expected, mem0, mem, a) && a in expected && size > 0
    requires forall b :: b in expected && a <= b < a + size ==> b == a
    requires ChangesOnly(mem, mem', a, expected[a]) && SameFrom(mem, mem', a + size)
    ensures Progress(start, stubs[a := expected[a]], expected, mem0, mem', a + size)
  {
    forall x: Word | forall b :: b in expected ==> !expected[b].Covers(b, x) ensures mem'(x) == mem0(x) {
      assert !expected[a].Covers(a, x);
      assert mem(x) == mem0(x);
    }
    forall x: Word | x >= a + size ensures mem'(x) == mem0(x) {
      assert mem(x) == mem0(x);
    }
    assert Before(expected, a + size) == Before(expected, a)[a := expected[a]];
  }

  lemma NoProgress(start: map<Word, Stub>, stubs: map<Word, Stub>, expected: map<Word, Stub>,
                   mem0: Memory, mem: Memory, a: Word, size: nat)
    requires Progress(start, stubs, expected, mem0, mem, a) && a !in expected
    requires forall b :: b in expected && a <= b < a + size ==> b == a
    ensures Progress(start, stubs, expected, mem0, mem, a + size)
  {
    assert Before(expected, a + size) == Before(expected, a);
  }

  /** The stubs that have been added. */
  ghost function Added(start: map<Word, Stub>, stubs: map<Word, Stub>): map<Word, Stub> {
    map b | b in stubs && b !in start :: stubs[b]
  }

  lemma SetUpEnds(start: map<Word, Stub>, stubs: map<Word, Stub>, expected: map<Word, Stub>,
                  mem0: Memory, mem: Memory, a: int, functions: map<Word, nat>)
    requires Progress(start, stubs, expected, mem0, mem, a) && FitTogether(start, expected, functions)
    requires forall b :: b in expected ==> b < a
    ensures stubs == start + expected
    ensures ChangesOnlyStubs(mem0, mem, Added(start, stubs))
  {
    assert Before(expected, a) == expected;
    assert Added(start, stubs) == expected;
  }

  lemma SectionEnds(bin: Binary, start: map<Word, Stub>, stubs: map<Word, Stub>, mem0: Memory, mem: Memory,
      functions: map<Word, nat>)
    requires bin.stubs.Some? && bin.stubs.value.entrySize > 0
    requires Progress(start, stubs, Expected(mem0, bin), mem0, mem, bin.stubs.value.addr + bin.stubs.value.size)
    requires FitTogether(start, Expected(mem0, bin), functions)
    ensures stubs == start + Expected(mem0, bin) && ChangesOnlyStubs(mem0, mem, Added(start, stubs))
  {
    hide Expected, Progress, FitTogether, Added;
    ExpectedRange(mem0, bin);
    SetUpEnds(start, stubs, Expected(mem0, bin), mem0, mem, bin.stubs.value.addr + bin.stubs.value.size, functions);
  }

  /** Every stub of a section is a whole number of stubs from its start. */
  lemma IsAtBoundary(n: nat, i: nat, d: nat, e: nat)
    requires IsStubSize(n) && d == i * n && d <= e < d + n && e % n == 0
    ensures e == d
  {
    if n == 4 {
      assert d == 4 * i && e % 4 == 0;
    } else if n == 12 {
      assert d == 12 * i && e % 12 == 0;
    } else {
      assert d == 16 * i && e % 16 == 0;
    }
  }

  lemma MultipleIsAtBoundary(n: nat, i: nat)
    requires IsStubSize(n)
    ensures i * n % n == 0
  {
    if n == 4 {
      assert i * 4 % 4 == 0;
    } else if n == 12 {
      assert i * 12 % 12 == 0;
    } else {
      assert i * 16 % 16 == 0;
    }
  }

  // ----- Four-byte stubs -----

  /** The instruction that restores a stub of four bytes: a bitwise "or" of the distance onto LDR pc, [pc, #0], whose
      bits 12 to 19 are all set. */
  function RestoredStub1(picOffset: nat): (w: Word)
    requires picOffset < 0x100000
  {
    LDR_PC_PC + picOffset % 0x1000
  }

  lemma OrSetsLowBitsOnly(picOffset: bv32)
    requires picOffset < 0x100000
    ensures 0xe59ff000 | picOffset == 0xe59ff000 + picOffset % 0x1000
  {
    assert picOffset % 0x1000 == picOffset & 0xfff;
  }

  /** Where the linker puts the target of a four-byte stub, and where the stub then loads it from. */
  function Slot1(addr: Word, picOffset: nat): Word
    requires picOffset < 0x100000
  {
    Add(Add(addr, picOffset % 0x1000), 8)
  }

  /** A section of four-byte stubs at distance `d` from its pointers, as the linker takes them to be. */
  ghost function FourByteStubs(addr: Word, d: nat, count: nat): map<Word, Stub>
    requires d < 0x100000
  {
    map a: Word | addr <= a < addr + 4 * count && (a - addr) % 4 == 0 :: Stub(4, Slot1(a, d))
  }

  /** The word that stub number i uses as its pointer is the code of stub number j, for a distance that puts them there. */
  lemma SlotIsStub(addr: Word, d: nat, i: nat, j: nat)
    requires d < 0x100000 && addr + 4 * i + 0x1008 < 0x1_0000_0000
    ensures Slot1(addr + 4 * i, d) == addr + 4 * i + d % 0x1000 + 8
    ensures Slot1(addr + 4 * i, d) == addr + 4 * j <==> 4 * (j - i) == d % 0x1000 + 8
  {
  }

  /** Linking one stub of the section leaves the others alone, whichever it is, if and only if the distance is no multiple
      of 4 or the stubs end before its low 12 bits and 8 more. Whether it fits 12 bits is not the point: 0, the distance
      when there are no pointers, does and is in the way from three stubs on. */
  lemma SectionFits(addr: Word, d: nat, count: nat)
    requires d < 0x100000 && addr + 4 * count + 0x1008 < 0x1_0000_0000
    ensures Layout(FourByteStubs(addr, d, count)) <==> !(d % 4 == 0 && d % 0x1000 + 8 < 4 * count)
  {
    hide Apart;
    var stubs, offset := FourByteStubs(addr, d, count), d % 0x1000 + 8;
    LowBits(d);
    if d % 4 == 0 && offset < 4 * count {
      var a, b: Word := addr, addr + offset;
      assert a in stubs && b in stubs && a != b;
      assert !Apart(a, stubs[a], b, stubs[b]) by {
        assert stubs[a].Covers(a, b) && stubs[b].Covers(b, b);
        NotApart(a, stubs[a], b, stubs[b], b);
      }
    } else {
      forall a, b | a in stubs && b in stubs && a != b ensures Apart(a, stubs[a], b, stubs[b]) {
        FarApart(addr, d, count, a, b);
      }
    }
  }

  lemma LowBits(d: nat)
    ensures (d % 0x1000 + 8) % 4 == d % 4
  {
    assert d == 0x1000 * (d / 0x1000) + d % 0x1000;
  }

  lemma NotApart(a: Word, s: Stub, b: Word, t: Stub, x: Word)
    requires s.Covers(a, x) && t.Covers(b, x)
    ensures !Apart(a, s, b, t)
  {
  }

  lemma FarApart(addr: Word, d: nat, count: nat, a: Word, b: Word)
    requires d < 0x100000 && addr + 4 * count + 0x1008 < 0x1_0000_0000
    requires a in FourByteStubs(addr, d, count) && b in FourByteStubs(addr, d, count) && a != b
    requires d % 4 != 0 || d % 0x1000 + 8 >= 4 * count
    ensures Apart(a, Stub(4, Slot1(a, d)), b, Stub(4, Slot1(b, d)))
  {
    hide FourByteStubs, Slot1, Apart;
    LowBits(d);
    SlotIsBehind(addr, d, count, a);
    SlotIsBehind(addr, d, count, b);
    OffStubs(a - addr, b - addr, d % 0x1000 + 8, count);
    OffStubs(b - addr, a - addr, d % 0x1000 + 8, count);
    ApartBy(a, Slot1(a, d), b, Slot1(b, d));
  }

  lemma SlotIsBehind(addr: Word, d: nat, count: nat, a: Word)
    requires d < 0x100000 && addr + 4 * count + 0x1008 < 0x1_0000_0000 && a in FourByteStubs(addr, d, count)
    ensures Slot1(a, d) == a + (d % 0x1000 + 8)
    ensures addr <= a < addr + 4 * count && (a - addr) % 4 == 0
  {
  }

  lemma OffStubs(x: int, y: int, offset: int, count: nat)
    requires 0 <= x < 4 * count && 0 <= y < 4 * count && x % 4 == y % 4 == 0
    requires offset % 4 != 0 || offset >= 4 * count
    ensures x + offset != y
  {
  }

  lemma ApartBy(a: Word, p: Word, b: Word, q: Word)
    requires a != b && p != b && q != a && p != q
    ensures Apart(a, Stub(4, p), b, Stub(4, q))
  {
  }

  /** As the compiler writes it, a four-byte stub loads its own pointer at all distances up to 0x1007, which includes
      some that do not fit 12 bits: the processor counts from 8 bytes behind the stub. */
  lemma CompilersStub(mem: Memory, a: Word, d: nat, ip: Word, lr: Word)
    requires 8 <= d < 0x1008 && a + d < 0x1_0000_0000 && mem(a) == LDR_PC_PC + (d - 8)
    ensures Enter(mem, a, ip, lr) == Left([], mem(a + d))
  {
  }

  /** Where stubs are in each other's way, linking number i puts its target into number j, which is run as code from then
      on: it is stuck unless the target happens to be an instruction that stubs are made of. */
  lemma LinkingBreaksOther(mem: Memory, mem': Memory, addr: Word, d: nat, i: nat, j: nat, target: Word, ip: Word, lr: Word)
    requires d < 0x100000 && addr + 4 * j + 0x1008 < 0x1_0000_0000 && 4 * (j - i) == d % 0x1000 + 8
    requires Stub(4, Slot1(addr + 4 * j, d)).Is(mem, addr + 4 * j, Unlinked)
    requires Stub(4, Slot1(addr + 4 * i, d)).Is(mem', addr + 4 * i, ToGuest(target))
    ensures Enter(mem, addr + 4 * j, ip, lr) == Lazy([], addr + 4 * j)
    ensures Enter(mem', addr + 4 * i, ip, lr) == Left([], target)
    ensures mem'(addr + 4 * j) == target && (Decode(target) in {Trap, Other} ==> Enter(mem', addr + 4 * j, ip, lr) == Stuck)
  {
    SlotIsStub(addr, d, i, j);
    StubRuns(mem, addr + 4 * j, Stub(4, Slot1(addr + 4 * j, d)), Unlinked, ip, lr);
    StubRuns(mem', addr + 4 * i, Stub(4, Slot1(addr + 4 * i, d)), ToGuest(target), ip, lr);
  }

  function Stored(mem: Memory, addr: Word, value: Word): Memory {
    x => if x == addr then value else mem(x)
  }

  /** Three stubs that ask for lazy linking. */
  function AskingStubs(mem: Memory, a: Word, b: Word, c: Word): Memory {
    var svc := EncodeSvc(SVC_LAZY_LINK_RET_FLAG);
    Stored(Stored(Stored(mem, a, svc), b, svc), c, svc)
  }

  /** A working binary whose third stub the linker breaks: its pointers are 0x1000 bytes from its stubs, each of which
      loads its own. Linking the first one puts the target into the third, which is stuck when it is called. */
  lemma PageDistanceBreaks(mem: Memory, addr: Word, target: Word, ip: Word, lr: Word)
    requires addr + 0x2000 < 0x1_0000_0000 && Decode(target) in {Trap, Other}
    requires mem(addr) == mem(addr + 4) == mem(addr + 8) == LDR_PC_PC + 0xff8
    ensures forall k: nat :: k < 3 ==> Enter(mem, addr + 4 * k, ip, lr) == Left([], mem(addr + 4 * k + 0x1000))
    ensures var asking := AskingStubs(mem, addr, addr + 4, addr + 8);
            var linked := Stored(Stored(asking, addr, RestoredStub1(0x1000)), Slot1(addr, 0x1000), target);
            && Enter(asking, addr + 8, ip, lr) == Lazy([], addr + 8)
            && Enter(linked, addr, ip, lr) == Left([], target) && Enter(linked, addr + 8, ip, lr) == Stuck
  {
    forall k: nat | k < 3 ensures Enter(mem, addr + 4 * k, ip, lr) == Left([], mem(addr + 4 * k + 0x1000)) {
      CompilersStub(mem, addr + 4 * k, 0x1000, ip, lr);
    }
    var asking := AskingStubs(mem, addr, addr + 4, addr + 8);
    var linked := Stored(Stored(asking, addr, RestoredStub1(0x1000)), Slot1(addr, 0x1000), target);
    assert Stub(4, Slot1(addr, 0x1000)).IsNearSlot(addr, 0);
    assert Stub(4, Slot1(addr + 8, 0x1000)).IsNearSlot(addr + 8, 0);
    LinkingBreaksOther(asking, linked, addr, 0x1000, 0, 2, target, ip, lr);
  }

  /** Counting from the start of the symbol pointers, stub number i uses pointer number i + 2. So the last two stubs of
      a section use words after its pointers. */
  lemma LastPointersAreBehindTheTable(stubs: Word, pointers: Word, count: nat, i: nat)
    requires stubs <= pointers < stubs + 0x1000 && i < count && pointers + 4 * count + 8 < 0x1_0000_0000
    ensures var slot := Slot1(stubs + 4 * i, pointers - stubs);
            slot == pointers + 4 * (i + 2) && (slot + 4 <= pointers + 4 * count <==> i + 2 < count)
  {
  }

  lemma EntryNumber(offset: int, entrySize: nat, k: nat)
    requires entrySize > 0 && offset == k * entrySize
    ensures offset / entrySize == k
  {
    var q, r := offset / entrySize, offset % entrySize;
    assert offset == q * entrySize + r;
    if q < k {
      Multiples(q + 1, k, entrySize);
    } else if k < q {
      Multiples(k + 1, q, entrySize);
    }
  }

  lemma Multiples(a: int, b: int, d: nat)
    requires a <= b
    ensures (a - 1) * d + d == a * d <= b * d
  {
  }

  // ----- The linker -----

  /** What a symbol is linked to. */
  datatype Target<F> = GuestCode(addr: Word) | HostFunction(f: F)

  class Dyld<F(==)> {
    const bins: seq<Binary>
    const hostExports: map<string, F>
    const unimplemented: F
    const throwIntercept: F
    const stubBinder: F
    const guestSjljRuntime: bool
    var mem: Memory
    var linkedHostFunctions: seq<F>
    var nonLazyHostFunctions: map<string, Word>
    /** The stubs that have been set up. */
    ghost var stubs: map<Word, Stub>
    /** Where those that have been called lead. */
    ghost var links: map<Word, Link>
    /** The host functions that have a guest address. */
    ghost var functions: map<Word, nat>

    ghost function Known(): Books
      reads this
    {
      Books(stubs, links, functions, |linkedHostFunctions|)
    }

    /** The linker finds the stub's size and pointer. */
    ghost predicate Placed(a: Word, stub: Stub) {
      var bin := FindStubs(bins, a);
      && bin.Some?
      && var section := bin.value.stubs.value;
         && stub.size == section.entrySize > 0 && (a - section.addr) % section.entrySize == 0
         && (stub.size == 4 ==> 0 <= bin.value.PicOffset() < 0x100000 && stub.slot == Slot1(a, bin.value.PicOffset()))
    }

    /** The linker finds the name of the stub's symbol, which it needs when the stub is first called. */
    ghost predicate HasSymbol(a: Word) {
      var bin := FindStubs(bins, a);
      && bin.Some?
      && var section := bin.value.stubs.value;
         && section.entrySize > 0 && (a - section.addr) / section.entrySize < |section.symbols|
         && section.symbols[(a - section.addr) / section.entrySize].Some?
    }

    function SymbolOf(a: Word): string
      requires HasSymbol(a)
    {
      var section := FindStubs(bins, a).value.stubs.value;
      section.symbols[(a - section.addr) / section.entrySize].value
    }

    ghost predicate Valid()
      reads this
    {
      Known().AreRight(mem) && AllPlaced(stubs) && NamesFit(nonLazyHostFunctions, functions, linkedHostFunctions)
    }

    ghost predicate AllPlaced(stubs: map<Word, Stub>) {
      forall a :: a in stubs ==> Placed(a, stubs[a])
    }

    ghost predicate NamesFit(names: map<string, Word>, functions: map<Word, nat>, linked: seq<F>) {
      forall symbol {:trigger names[symbol]} :: symbol in names ==>
        names[symbol] in functions && functions[names[symbol]] < |linked|
            && HostFor(symbol) == Some(linked[functions[names[symbol]]])
    }

    lemma MoreFunctionsFit(names: map<string, Word>, functions: map<Word, nat>, linked: seq<F>,
                           functions': map<Word, nat>, linked': seq<F>)
      requires NamesFit(names, functions, linked) && linked <= linked'
      requires forall p :: p in functions ==> p in functions' && functions'[p] == functions[p]
      ensures NamesFit(names, functions', linked')
    {
      hide HostFor;
    }

    lemma NameFits(symbol: string)
      requires Valid() && symbol in nonLazyHostFunctions
      ensures CallsThere(nonLazyHostFunctions[symbol], HostFor(symbol))
    {
      hide HostFor;
    }

    /** The host function that a symbol has a guest address for. */
    function HostFor(symbol: string): Option<F> {
      if !guestSjljRuntime && IsThrow(symbol) then Some(throwIntercept)
      else if symbol == StubBinderName() then Some(stubBinder)
      else if symbol in hostExports then Some(hostExports[symbol])
      else None
    }

    ghost predicate CallsThere(p: Word, f: Option<F>)
      reads this
    {
      p in functions && functions[p] < |linkedHostFunctions| && f == Some(linkedHostFunctions[functions[p]])
    }

    constructor (bins: seq<Binary>, hostExports: map<string, F>, unimplemented: F, throwIntercept: F,
                 stubBinder: F, guestSjljRuntime: bool, mem: Memory)
      ensures Valid() && stubs == map[] && links == map[] && functions == map[] && linkedHostFunctions == []
      ensures this.bins == bins && this.mem == mem && this.hostExports == hostExports
          && this.unimplemented == unimplemented
      ensures this.throwIntercept == throwIntercept && this.stubBinder == stubBinder
          && this.guestSjljRuntime == guestSjljRuntime
    {
      this.bins := bins;
      this.hostExports := hostExports;
      this.unimplemented := unimplemented;
      this.throwIntercept := throwIntercept;
      this.stubBinder := stubBinder;
      this.guestSjljRuntime := guestSjljRuntime;
      this.mem := mem;
      linkedHostFunctions := [];
      nonLazyHostFunctions := map[];
      stubs := map[];
      links := map[];
      functions := map[];
    }

    method Put(addr: Word, value: Word)
      modifies `mem
      ensures mem(addr) == value && forall x: Word {:trigger mem(x)} :: x != addr ==> mem(x) == old(mem)(x)
    {
      var before := mem;
      mem := x => if x == addr then value else before(x);
    }

    // ----- Setting up the stubs of a binary -----

    /** The stub at `a` is made to ask for lazy linking; what leads to its pointer is left as it is. */
    method WriteLazyStub(a: Word, entrySize: nat, ghost stub: Stub)
      requires stub.Valid() && stub.SlotIsApart(a) && stub.LeadsToSlot(mem, a) && entrySize == stub.size
      requires a + entrySize < 0x1_0000_0000
      modifies `mem
      ensures ChangesOnly(old(mem), mem, a, stub) && stub.Is(mem, a, Unlinked) && SameFrom(old(mem), mem, a + entrySize)
    {
      if entrySize == 4 {
        Put(a, EncodeSvc(SVC_LAZY_LINK_RET_FLAG));
      } else {
        Put(a, EncodeSvc(SVC_LAZY_LINK));
        Put(Add(a, 4), RET);
      }
      if entrySize == 16 {
        Put(Add(a, 8), TRAP);
      }
    }

    method SetUpStub(a: Word, entrySize: nat, ghost stub: Stub)
      requires Valid() && a !in stubs && Layout(stubs[a := stub]) && Placed(a, stub)
      requires stub.LeadsToSlot(mem, a) && entrySize == stub.size && a + entrySize < 0x1_0000_0000
      requires forall p :: p in functions ==> IsClear(stubs[a := stub], p)
      modifies `mem, `stubs
      ensures Valid() && stubs == old(stubs)[a := stub]
      ensures ChangesOnly(old(mem), mem, a, stub) && SameFrom(old(mem), mem, a + entrySize)
    {
      NewStubIsApart(Known(), a, stub);
      hide Books.AreRight, AllPlaced, NamesFit, Stub.Is, Stub.Covers, Stub.SlotIsApart, Stub.Valid, Stub.LeadsToSlot,
          ChangesOnly, SameFrom, Layout, IsClear;
      WriteLazyStub(a, entrySize, stub);
      NewStubKeepsBooks(Known(), old(mem), mem, a, stub);
      stubs := stubs[a := stub];
    }

    /** Every stub with the expected instructions is set up, and nothing else is touched. A section of stubs of another
        size is left alone. */
    method SetupLazyLinking(bin: Binary)
      requires Valid() && bin.stubs.Some? && bin.stubs.value.entrySize > 0
      requires bin.stubs.value.size % bin.stubs.value.entrySize == 0
      requires bin.stubs.value.addr + bin.stubs.value.size < 0x1_0000_0000
      requires IsStubSize(bin.stubs.value.entrySize) ==> FitsIn(Expected(mem, bin))
      requires bin.stubs.value.entrySize == 4 ==> 0 <= bin.PicOffset() < 0x100000
      modifies `mem, `stubs
      ensures Valid()
      ensures stubs == if IsStubSize(bin.stubs.value.entrySize) then old(stubs) + Expected(old(mem), bin) else old(stubs)
      ensures ChangesOnlyStubs(old(mem), mem, Added(old(stubs), stubs))
    {
      if !IsStubSize(bin.stubs.value.entrySize) {
        return;
      }
      hide Books.AreRight, AllPlaced, NamesFit, Matches, SlotOf, Progress, FitTogether, ChangesOnlyStubs, Expected, Added;
      ghost var expected := Expected(mem, bin);
      SetUpSection(bin, expected);
      SectionEnds(bin, old(stubs), stubs, old(mem), mem, functions);
    }

    /** Goes through the stubs of a section. */
    method SetUpSection(bin: Binary, ghost expected: map<Word, Stub>)
      requires Valid() && bin.stubs.Some? && IsStubSize(bin.stubs.value.entrySize)
      requires bin.stubs.value.size % bin.stubs.value.entrySize == 0
      requires bin.stubs.value.addr + bin.stubs.value.size < 0x1_0000_0000
      requires expected == Expected(mem, bin) && FitsIn(expected)
      requires bin.stubs.value.entrySize == 4 ==> 0 <= bin.PicOffset() < 0x100000
      modifies `mem, `stubs
      ensures Valid()
      ensures Progress(old(stubs), stubs, expected, old(mem), mem, bin.stubs.value.addr + bin.stubs.value.size)
    {
      hide Books.AreRight, AllPlaced, NamesFit, Matches, SlotOf, Progress, FitTogether, ChangesOnlyStubs, Expected;
      var section := bin.stubs.value;
      var entrySize := section.entrySize;
      ExpectedRange(mem, bin);
      var stubCount := section.size / entrySize;
      assert stubCount * entrySize == section.size;
      var i, a := 0, section.addr;
      SetUpStarts(stubs, expected, mem, a);
      while i < stubCount
        invariant 0 <= i <= stubCount && a == section.addr + i * entrySize
        invariant Valid() && Progress(old(stubs), stubs, expected, old(mem), mem, a)
      {
        StubIsInSection(section, i, stubCount);
        ExpectedAt(old(mem), bin, a, i);
        SetUpNext(bin, a, old(stubs), expected, old(mem));
        i, a := i + 1, a + entrySize;
      }
    }

    /** Sets up the stub at `a`, if it is one, when those before it are set up. */
    method SetUpNext(bin: Binary, a: Word, ghost start: map<Word, Stub>, ghost expected: map<Word, Stub>,
        ghost mem0: Memory)
      requires Valid() && bin.stubs.Some? && IsStubSize(bin.stubs.value.entrySize)
      requires a + bin.stubs.value.entrySize < 0x1_0000_0000
      requires bin.stubs.value.entrySize == 4 ==> 0 <= bin.PicOffset() < 0x100000
      requires FitTogether(start, expected, functions) && AllPlaced(expected)
      requires a in expected <==> Matches(mem0, a, bin.stubs.value.entrySize)
      requires a in expected ==> expected[a] == Stub(bin.stubs.value.entrySize, SlotOf(mem0, a, bin))
      requires forall b :: b in expected && a <= b < a + bin.stubs.value.entrySize ==> b == a
      requires Progress(start, stubs, expected, mem0, mem, a)
      modifies `mem, `stubs
      ensures Valid() && Progress(start, stubs, expected, mem0, mem, a + bin.stubs.value.entrySize)
    {
      hide Layout, IsClear, Books.AreRight, NamesFit, Stub.Covers, Stub.SlotIsApart, Stub.LeadsToSlot, Matches, SlotOf,
           ChangesOnly, Progress, FitTogether;
      var entrySize := bin.stubs.value.entrySize;
      ProgressIsSame(start, stubs, expected, mem0, mem, a);
      SameStub(mem0, mem, a, bin);
      if Matches(mem, a, entrySize) {
        NextFits(start, stubs, expected, mem0, mem, a, functions);
        SetUpStub(a, entrySize, expected[a]);
        ProgressMade(start, old(stubs), expected, mem0, old(mem), mem, a, entrySize);
      } else {
        NoProgress(start, stubs, expected, mem0, mem, a, entrySize);
      }
    }

    ghost predicate FitsIn(expected: map<Word, Stub>)
      reads this
    {
      AllPlaced(expected) && FitTogether(stubs, expected, functions)
    }

    // ----- Linking one stub -----

    /** The stub at `pc` gets its original instructions back, and the pointer it loads gets the target. */
    method RestoreStub(pc: Word, target: Word, entrySize: nat, picOffset: int, ghost stub: Stub)
      requires stub.Valid() && stub.SlotIsApart(pc) && stub.LeadsToSlot(mem, pc) && entrySize == stub.size
      requires entrySize == 4 ==> 0 <= picOffset < 0x100000 && stub.slot == Slot1(pc, picOffset)
      modifies `mem
      ensures ChangesOnly(old(mem), mem, pc, stub) && stub.Is(mem, pc, ToGuest(target))
    {
      var slot;
      if entrySize == 4 {
        Put(pc, RestoredStub1(picOffset));
        var offset := (mem(pc) - LDR_PC_PC) % 0x1000;
        slot := Add(Add(pc, offset), 8);
        assert stub.IsNearSlot(pc, picOffset % 0x1000);
      } else if entrySize == 12 {
        Put(pc, LDR_IP_PC);
        Put(Add(pc, 4), LDR_PC_IP);
        slot := mem(Add(pc, 8));
      } else {
        Put(pc, LDR_IP_PC + 4);
        Put(Add(pc, 4), ADD_IP_PC_IP);
        Put(Add(pc, 8), LDR_PC_IP);
        slot := Add(Add(pc, mem(Add(pc, 12))), 12);
      }
      assert slot == stub.slot;
      Put(slot, target);
    }

    method LinkByRestoringStub(pc: Word, target: Word, entrySize: nat, picOffset: int)
      requires Valid() && pc in stubs && pc !in links && entrySize == stubs[pc].size
      requires entrySize == 4 ==> 0 <= picOffset < 0x100000 && stubs[pc].slot == Slot1(pc, picOffset)
      modifies `mem, `links
      ensures Valid() && links == old(links)[pc := ToGuest(target)]
    {
      StubIsKnown(Known(), mem, pc);
      hide Books.AreRight, AllPlaced, NamesFit, Stub.Is, Stub.Covers, Stub.SlotIsApart, Stub.Valid, Stub.LeadsToSlot,
          ChangesOnly;
      RestoreStub(pc, target, entrySize, picOffset, stubs[pc]);
      LinkingKeepsBooks(Known(), old(mem), mem, pc, ToGuest(target), |linkedHostFunctions|);
      links := links[pc := ToGuest(target)];
    }

    /** The stub at `pc` is made to call host function `index`. The return instruction behind it is already there. */
    method WriteHostStub(pc: Word, index: nat, entrySize: nat, ghost stub: Stub)
      requires stub.Valid() && stub.SlotIsApart(pc) && stub.Is(mem, pc, Unlinked) && entrySize == stub.size
      requires index + SVC_LINKED_FUNCTIONS_BASE < SVC_LAZY_LINK_RET_FLAG
      modifies `mem
      ensures ChangesOnly(old(mem), mem, pc, stub) && stub.Is(mem, pc, ToHost(index))
    {
      Put(pc, EncodeSvc(IssuedSvc(index, entrySize == 4)));
      if entrySize != 4 {
        assert mem(Add(pc, 4)) == RET;
      }
    }

    /** The stub at `pc` is made to call the host function `f`, which is new. */
    method LinkToHost(pc: Word, f: F, entrySize: nat)
      requires Valid() && pc in stubs && pc !in links && entrySize == stubs[pc].size
      requires |linkedHostFunctions| + SVC_LINKED_FUNCTIONS_BASE < SVC_LAZY_LINK_RET_FLAG
      modifies `mem, `links, `linkedHostFunctions
      ensures Valid() && links == old(links)[pc := ToHost(|old(linkedHostFunctions)|)]
      ensures linkedHostFunctions == old(linkedHostFunctions) + [f]
    {
      StubIsKnown(Known(), mem, pc);
      hide Books.AreRight, AllPlaced, NamesFit, Stub.Is, Stub.Covers, Stub.SlotIsApart, Stub.Valid, Stub.LeadsToSlot,
          ChangesOnly;
      var idx := |linkedHostFunctions|;
      linkedHostFunctions := linkedHostFunctions + [f];
      WriteHostStub(pc, idx, entrySize, stubs[pc]);
      MoreFunctionsFit(nonLazyHostFunctions, functions, old(linkedHostFunctions), functions, linkedHostFunctions);
      LinkingKeepsBooks(old(Known()), old(mem), mem, pc, ToHost(idx), |linkedHostFunctions|);
      links := links[pc := ToHost(idx)];
    }

    // ----- Guest addresses of host functions -----

    /** `p` is memory that the allocator has handed out. */
    method CreateGuestFunction(f: F, p: Word)
      requires Valid() && IsFree(Known(), p)
      requires |linkedHostFunctions| + SVC_LINKED_FUNCTIONS_BASE < SVC_LAZY_LINK_RET_FLAG
      modifies `mem, `linkedHostFunctions, `functions
      ensures Valid() && functions == old(functions)[p := |old(linkedHostFunctions)|]
      ensures linkedHostFunctions == old(linkedHostFunctions) + [f]
    {
      hide Books.AreRight, IsFree, AllPlaced, NamesFit;
      FreeIsNew(Known(), p);
      var idx := |linkedHostFunctions|;
      linkedHostFunctions := linkedHostFunctions + [f];
      Put(p, EncodeSvc(IssuedSvc(idx, false)));
      Put(Add(p, 4), RET);
      NewFunctionKeepsBooks(old(Known()), old(mem), mem, p);
      functions := functions[p := idx];
      MoreFunctionsFit(nonLazyHostFunctions, old(functions), old(linkedHostFunctions), functions, linkedHostFunctions);
    }

    method CxxAbiIntercept(name: string, p: Word) returns (stub: Option<Word>)
      requires Valid() && IsFree(Known(), p)
      requires |linkedHostFunctions| + SVC_LINKED_FUNCTIONS_BASE < SVC_LAZY_LINK_RET_FLAG
      modifies `mem, `linkedHostFunctions, `functions, `nonLazyHostFunctions
      ensures Valid() && old(linkedHostFunctions) <= linkedHostFunctions
      ensures stub == None <==> guestSjljRuntime || !IsThrow(name)
      ensures stub.Some? ==> CallsThere(stub.value, Some(throwIntercept))
      ensures stub.Some? ==> name in nonLazyHostFunctions && nonLazyHostFunctions[name] == stub.value
      ensures stub == None || name in old(nonLazyHostFunctions) ==>
                mem == old(mem) && linkedHostFunctions == old(linkedHostFunctions) && functions == old(functions)
                && nonLazyHostFunctions == old(nonLazyHostFunctions)
    {
      hide IsThrow, IsFree, Placed, Books.AreRight;
      if guestSjljRuntime || !IsThrow(name) {
        return None;
      }
      if name in nonLazyHostFunctions {
        NameFits(name);
        return Some(nonLazyHostFunctions[name]);
      }
      CreateNonLazy(name, throwIntercept, p);
      return Some(p);
    }

    /** Gives a symbol's host function a guest address. */
    method CreateNonLazy(symbol: string, f: F, p: Word)
      requires Valid() && IsFree(Known(), p) && symbol !in nonLazyHostFunctions && HostFor(symbol) == Some(f)
      requires |linkedHostFunctions| + SVC_LINKED_FUNCTIONS_BASE < SVC_LAZY_LINK_RET_FLAG
      modifies `mem, `linkedHostFunctions, `functions, `nonLazyHostFunctions
      ensures Valid() && linkedHostFunctions == old(linkedHostFunctions) + [f] && CallsThere(p, Some(f))
      ensures nonLazyHostFunctions == old(nonLazyHostFunctions)[symbol := p]
    {
      hide IsThrow, IsFree, Placed, Books.AreRight, HostFor;
      FreeIsNew(Known(), p);
      CreateGuestFunction(f, p);
      nonLazyHostFunctions := nonLazyHostFunctions[symbol := p];
    }

    /** The guest address of a symbol's host function, the same every time; none exactly when there is no such function. */
    method CreateProcAddress(symbol: string, p: Word) returns (addr: Option<Word>)
      requires Valid() && IsFree(Known(), p)
      requires |linkedHostFunctions| + SVC_LINKED_FUNCTIONS_BASE < SVC_LAZY_LINK_RET_FLAG
      modifies `mem, `linkedHostFunctions, `functions, `nonLazyHostFunctions
      ensures Valid() && old(linkedHostFunctions) <= linkedHostFunctions
      ensures addr == None <==> HostFor(PlainName(symbol)) == None
      ensures addr.Some? ==> CallsThere(addr.value, HostFor(PlainName(symbol)))
      ensures symbol == "dyld_stub_binder" || symbol == "_dyld_stub_binder" ==>
                addr.Some? && CallsThere(addr.value, Some(stubBinder))
      ensures !guestSjljRuntime && IsThrow(symbol) ==> addr.Some? && CallsThere(addr.value, Some(throwIntercept))
      ensures symbol != "dyld_stub_binder" && symbol != "_dyld_stub_binder" && (guestSjljRuntime || !IsThrow(symbol)) ==>
                if symbol in hostExports then addr.Some? && CallsThere(addr.value, Some(hostExports[symbol])) else addr == None
      ensures addr.Some? ==> PlainName(symbol) in nonLazyHostFunctions && nonLazyHostFunctions[PlainName(symbol)] == addr.value
      ensures PlainName(symbol) in old(nonLazyHostFunctions) ==>
                addr == Some(old(nonLazyHostFunctions)[PlainName(symbol)])
                    && linkedHostFunctions == old(linkedHostFunctions)
    {
      hide IsFree, Placed, Books.AreRight, IsThrow;
      BinderIsNoThrow();
      if symbol == StubBinderName() || symbol == "_" + StubBinderName() {
        if StubBinderName() in nonLazyHostFunctions {
          NameFits(StubBinderName());
          return Some(nonLazyHostFunctions[StubBinderName()]);
        }
        CreateNonLazy(StubBinderName(), stubBinder, p);
        return Some(p);
      }
      addr := CxxAbiIntercept(symbol, p);
      if addr.Some? {
        return;
      }
      if symbol !in hostExports {
        return None;
      }
      if symbol in nonLazyHostFunctions {
        NameFits(symbol);
        return Some(nonLazyHostFunctions[symbol]);
      }
      CreateNonLazy(symbol, hostExports[symbol], p);
      return Some(p);
    }

    // ----- The lazy linker -----

    /** `pc` leads to the target: directly, or by way of the guest address of a host function. */
    ghost predicate Leads(pc: Word, target: Target<F>)
      reads this
    {
      && pc in links
      && match target
         case GuestCode(addr) => links[pc] == ToGuest(addr)
         case HostFunction(f) =>
           || (links[pc].ToHost? && links[pc].index < |linkedHostFunctions| && linkedHostFunctions[links[pc].index] == f)
           || (links[pc].ToGuest? && CallsThere(links[pc].target, Some(f)))
    }

    ghost function NonLazyTarget(symbol: string): Target<F>
      requires Valid() && symbol in nonLazyHostFunctions
      reads this
    {
      NameFits(symbol);
      HostFunction(HostFor(symbol).value)
    }

    /** What a symbol is linked to, in the order of precedence. */
    ghost function Chosen(symbol: string): Target<F>
      requires Valid()
      reads this
    {
      if guestSjljRuntime && IsGuestCxxAbiSymbol(symbol) && FindExport(bins, symbol).Some? then
        GuestCode(FindExport(bins, symbol).value)
      else if symbol in nonLazyHostFunctions then NonLazyTarget(symbol)
      else if !guestSjljRuntime && IsThrow(symbol) then HostFunction(throwIntercept)
      else if FindExport(bins, symbol).Some? then GuestCode(FindExport(bins, symbol).value)
      else if symbol in hostExports then HostFunction(hostExports[symbol])
      else HostFunction(unimplemented)
    }

    /** What a stub for the symbol is linked to, given the guest addresses that host functions had: the first binary that
        exports it if it is of the C++ ABI and there is a guest runtime for that, or else the symbol's guest address, an
        interceptor of throws if there is no runtime, the first binary that exports it, and, if none does, a host
        function for it, or a stand-in. */
    ghost predicate HasPrecedence(symbol: string, addresses: map<string, Word>, link: Link)
      reads this
    {
      var isAbi, isIntercepted := guestSjljRuntime && IsGuestCxxAbiSymbol(symbol), !guestSjljRuntime && IsThrow(symbol);
      && (forall i :: IsFirstExport(bins, i, symbol) && (isAbi || (symbol !in addresses && !isIntercepted)) ==>
            link == ToGuest(bins[i].exports[symbol]))
      && (symbol in addresses && (isAbi ==> forall i :: !Exports(bins, i, symbol)) ==> link == ToGuest(addresses[symbol]))
      && (symbol !in addresses && isIntercepted ==> link.ToGuest? && CallsThere(link.target, Some(throwIntercept)))
      && (link.ToHost? <==> symbol !in addresses && !isIntercepted && forall i :: !Exports(bins, i, symbol))
      && (link.ToHost? ==>
            && link.index < |linkedHostFunctions|
            && linkedHostFunctions[link.index] == if symbol in hostExports then hostExports[symbol] else unimplemented)
    }

    /** The symbol that the linker looks up for a stub is that of its entry in the section. */
    lemma SymbolOfStub(i: int, k: nat, pc: Word)
      requires IsStub(bins, i, k, pc) && k < |bins[i].stubs.value.symbols| && bins[i].stubs.value.symbols[k].Some?
      ensures HasSymbol(pc) && SymbolOf(pc) == bins[i].stubs.value.symbols[k].value
    {
      StubIsFirst(bins, i, pc);
      EntryNumber(pc - bins[i].stubs.value.addr, bins[i].stubs.value.entrySize, k);
    }

    method LookUp(pc: Word) returns (symbol: string, entrySize: nat, picOffset: int)
      requires Valid() && pc in stubs && HasSymbol(pc)
      ensures symbol == SymbolOf(pc) && entrySize == stubs[pc].size
      ensures entrySize == 4 ==> 0 <= picOffset < 0x100000 && stubs[pc].slot == Slot1(pc, picOffset)
    {
      hide Books.AreRight;
      var bin := FindStubs(bins, pc).value;
      var section := bin.stubs.value;
      picOffset := bin.PicOffset();
      entrySize := section.entrySize;
      symbol := section.symbols[(pc - section.addr) / entrySize].value;
    }

    /** The first call of a stub. The host function, if there is one to be called at once, is the one chosen. */
    method DoLazyLink(pc: Word, p: Word) returns (f: Option<F>)
      requires Valid() && pc in stubs && pc !in links && HasSymbol(pc) && IsFree(Known(), p)
      requires |linkedHostFunctions| + SVC_LINKED_FUNCTIONS_BASE < SVC_LAZY_LINK_RET_FLAG
      modifies `mem, `links, `linkedHostFunctions, `functions, `nonLazyHostFunctions
      ensures Valid() && pc in links && links == old(links)[pc := links[pc]]
          && old(linkedHostFunctions) <= linkedHostFunctions
      ensures Leads(pc, old(Chosen(SymbolOf(pc)))) && HasPrecedence(SymbolOf(pc), old(nonLazyHostFunctions), links[pc])
      ensures f.Some? <==> links[pc].ToHost?
      ensures f.Some? ==> links[pc].index < |linkedHostFunctions| && linkedHostFunctions[links[pc].index] == f.value
    {
      hide IsThrow, IsGuestCxxAbiSymbol, IsFree, Books.AreRight, Placed, SymbolOf, HasSymbol;
      var symbol, entrySize, picOffset := LookUp(pc);
      ExportIsFirst(bins, symbol);
      f := None;
      if guestSjljRuntime && IsGuestCxxAbiSymbol(symbol) {
        var addr := FindExport(bins, symbol);
        if addr.Some? {
          LinkByRestoringStub(pc, addr.value, entrySize, picOffset);
          return;
        }
      }
      if symbol in nonLazyHostFunctions {
        NameFits(symbol);
        LinkByRestoringStub(pc, nonLazyHostFunctions[symbol], entrySize, picOffset);
        return;
      }
      var stub := CxxAbiIntercept(symbol, p);
      if stub.Some? {
        LinkByRestoringStub(pc, stub.value, entrySize, picOffset);
        return;
      }
      var addr := FindExport(bins, symbol);
      if addr.Some? {
        LinkByRestoringStub(pc, addr.value, entrySize, picOffset);
        return;
      }
      if symbol in hostExports {
        f := Some(hostExports[symbol]);
      } else {
        f := Some(unimplemented);
      }
      LinkToHost(pc, f.value, entrySize);
    }

    /** The host function to call for a supervisor call at `pc`; without one, execution goes on at `pc` again. */
    method GetSvcHandler(pc: Word, svc: Word, p: Word) returns (f: Option<F>)
      requires Valid() && svc < 0x1000000
      requires Dispatch(svc) == LazyLink ==> pc in stubs && pc !in links && HasSymbol(pc) && IsFree(Known(), p)
      requires Dispatch(svc) == LazyLink ==> |linkedHostFunctions| + SVC_LINKED_FUNCTIONS_BASE < SVC_LAZY_LINK_RET_FLAG
      modifies `mem, `links, `linkedHostFunctions, `functions, `nonLazyHostFunctions
      ensures Valid() && old(linkedHostFunctions) <= linkedHostFunctions
      ensures Dispatch(svc) == LazyLink ==>
                && pc in links && links == old(links)[pc := links[pc]]
                && Leads(pc, old(Chosen(SymbolOf(pc)))) && HasPrecedence(SymbolOf(pc), old(nonLazyHostFunctions), links[pc])
                && (f.Some? <==> links[pc].ToHost?)
                && (f.Some? ==> links[pc].index < |linkedHostFunctions| && linkedHostFunctions[links[pc].index] == f.value)
      ensures Dispatch(svc) != LazyLink ==> links == old(links) && mem == old(mem)
      ensures Dispatch(svc).Linked? ==>
                f == if Dispatch(svc).index < |linkedHostFunctions| then Some(linkedHostFunctions[Dispatch(svc).index]) else None
    {
      hide Placed, SymbolOf, HasSymbol, Books.AreRight, IsThrow, IsGuestCxxAbiSymbol;
      match Dispatch(svc)
      case LazyLink => f := DoLazyLink(pc, p);
      case Special => f := None;
      case Linked(index, _) => f := if index < |linkedHostFunctions| then Some(linkedHostFunctions[index]) else None;
    }

    /** A call through a stub, the first one or a later one: either the chosen host function is called and execution
        goes on at LR, or execution goes on at the target. Only a first call changes anything. */
    method Call(pc: Word, ip: Word, lr: Word, p: Word) returns (called: Option<F>, next: Word)
      requires Valid() && pc in stubs
      requires pc !in links ==> HasSymbol(pc) && IsFree(Known(), p)
      requires pc !in links ==> |linkedHostFunctions| + SVC_LINKED_FUNCTIONS_BASE < SVC_LAZY_LINK_RET_FLAG
      modifies `mem, `links, `linkedHostFunctions, `functions, `nonLazyHostFunctions
      ensures Valid() && pc in links && links == old(links)[pc := links[pc]]
          && old(linkedHostFunctions) <= linkedHostFunctions
      ensures pc in old(links) ==> links == old(links) && mem == old(mem) && linkedHostFunctions == old(linkedHostFunctions)
      ensures pc !in old(links) ==>
                Leads(pc, old(Chosen(SymbolOf(pc)))) && HasPrecedence(SymbolOf(pc), old(nonLazyHostFunctions), links[pc])
      ensures called == None ==> links[pc] == ToGuest(next)
      ensures called.Some? ==> links[pc].ToHost? && next == lr && links[pc].index < |linkedHostFunctions|
      ensures called.Some? ==> called.value == linkedHostFunctions[links[pc].index]
    {
      hide Placed, SymbolOf, HasSymbol, Books.AreRight, Enter, Run, Decode, IsFree, Stub.Is;
      StubIsKnown(Known(), mem, pc);
      StubRuns(mem, pc, stubs[pc], Known().LinkOf(pc), ip, lr);
      called := None;
      match Enter(mem, pc, ip, lr) {
        case Left(calls, target) =>
          next := target;
          if calls != [] {
            LinksAreLinked(Known(), mem, pc);
            called := Some(linkedHostFunctions[calls[0]]);
          }
        case Lazy(_, svcPc) =>
          UnlinkedSvc(mem, pc, stubs[pc]);
          var svc := mem(svcPc) - SVC;
          called := GetSvcHandler(svcPc, svc, p);
          StubIsKnown(Known(), mem, pc);
          if called == None {
            StubRuns(mem, pc, stubs[pc], Known().LinkOf(pc), ip, lr);
            next := Enter(mem, svcPc, ip, lr).pc;
          } else if svc >= SVC_LAZY_LINK_RET_FLAG {
            next := lr;
          } else {
            ReturnsAfterCall(mem, pc, stubs[pc], links[pc], ip, lr);
            next := Run(mem, Add(svcPc, 4), ip, lr, [], STUB_FUEL).pc;
          }
      }
    }
  }

  lemma LinksAreLinked(books: Books, mem: Memory, a: Word)
    requires books.AreRight(mem) && a in books.links && books.links[a].ToHost?
    ensures books.links[a].index < books.linked
  {
  }

  lemma UnlinkedSvc(mem: Memory, pc: Word, stub: Stub)
    requires stub.Valid() && stub.Is(mem, pc, Unlinked)
    ensures SVC <= mem(pc) < 0xf0000000 && Dispatch(mem(pc) - SVC) == LazyLink
    ensures mem(pc) - SVC >= SVC_LAZY_LINK_RET_FLAG <==> stub.size == 4
  {
  }

  lemma ReturnsAfterCall(mem: Memory, pc: Word, stub: Stub, link: Link, ip: Word, lr: Word)
    requires stub.Valid() && stub.size != 4 && link.ToHost? && stub.Is(mem, pc, link)
    ensures Run(mem, Add(pc, 4), ip, lr, [], STUB_FUEL) == Left([], lr)
  {
  }

  /** A host function's guest address calls it and returns, whatever has been linked since. */
  lemma FunctionRuns(books: Books, mem: Memory, p: Word, ip: Word, lr: Word)
    requires books.AreRight(mem) && p in books.functions
    ensures Enter(mem, p, ip, lr) == Left([books.functions[p]], lr)
  {
    HostFunctionRuns(mem, p, books.functions[p], ip, lr);
  }
}
