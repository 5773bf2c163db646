/**
 The dynamic linker: rewriting the stubs of a binary so that they call it, linking a stub when it
 is first called, and deciding what a supervisor call stands for.
 */
module Dyld {
  import opened Wrappers
  import opened A32

  const SVC_LAZY_LINK: Word := 0
  const SVC_THREAD_EXIT: Word := 1
  const SVC_RETURN_TO_HOST: Word := 2
  const SVC_LINKED_FUNCTIONS_BASE: Word := 3
  const SVC_LAZY_LINK_RET_FLAG: Word := 0x80_0000

  /** A section of stubs, with the symbol each entry stands for. */
  datatype Stubs = Stubs(addr: Word, size: Word, entrySize: Word, symbols: seq<Option<string>>)

  datatype Bin = Bin(stubs: Option<Stubs>, lazyPointers: Option<Word>, exports: map<string, Word>, isLibstdcxx: bool)

  /** The loaded binaries and the symbols of the host's functions. */
  datatype Env = Env(bins: seq<Bin>, host: set<string>)

  /** What the linker changes. A host function is known by its symbol. */
  datatype Linker = Linker(mem: Mem, linked: seq<string>, nonLazy: map<string, Word>, wrappers: map<string, Word>)

  datatype Outcome = CallHost(symbol: string) | Resume | Panicked

  // ---------------------------------------------------------------- supervisor calls

  /** The number given to the next host function; `None` when an assertion fails. */
  function NextSvc(count: nat, entrySize: Word): Option<Word> {
    if entrySize == 4 then
      if count + 3 < 0x80_0000 then Some(count + 3 + 0x80_0000) else None
    else
      if count + 3 < 0x100_0000 then Some(count + 3) else None
  }

  /** Which linked function a number stands for; `None` for reserved numbers. */
  function IndexOf(svc: Word): Option<nat> {
    if svc == SVC_LAZY_LINK || svc == SVC_LAZY_LINK_RET_FLAG || svc < SVC_LINKED_FUNCTIONS_BASE then None
    else
      var unflagged := if svc / 0x80_0000 % 2 == 1 then svc - 0x80_0000 else svc as int;
      if unflagged < 3 then None else Some(unflagged - 3)
  }

  /** The flag that the handler returns from, there being no room for an instruction that does. */
  predicate HasRetFlag(svc: Word) {
    svc / 0x80_0000 % 2 == 1
  }

  /** A number stands for its function exactly while fewer than 0x7ffffd are linked before it. */
  lemma NumbersDecode(count: nat, entrySize: Word)
    requires NextSvc(count, entrySize).Some?
    ensures IndexOf(NextSvc(count, entrySize).value) == Some(count) <==> count < 0x7f_fffd
    ensures entrySize == 4 ==> count < 0x7f_fffd && HasRetFlag(NextSvc(count, entrySize).value)
    ensures entrySize != 4 && count < 0x7f_fffd ==> !HasRetFlag(NextSvc(count, entrySize).value)
  {
    var svc := NextSvc(count, entrySize).value;
    if svc < 0x80_0000 {
      assert svc / 0x80_0000 == 0;
    } else {
      assert svc / 0x80_0000 == 1;
    }
  }

  // ---------------------------------------------------------------- stubs

  /** What a stub of this size is expected to hold; nothing is checked of the one-word stubs. */
  function ExpectedWords(entrySize: Word): seq<Word> {
    if entrySize == 12 then ABSOLUTE_STUB else if entrySize == 16 then PIC_STUB else []
  }

  function StubWords(entrySize: Word): seq<Word> {
    if entrySize == 4 then [EncodeSvc(SVC_LAZY_LINK_RET_FLAG)]
    else if entrySize == 12 then [EncodeSvc(SVC_LAZY_LINK), RET]
    else [EncodeSvc(SVC_LAZY_LINK), RET, TRAP]
  }

  predicate IsEntrySize(n: Word) {
    n == 4 || n == 12 || n == 16
  }

  function RestoredWords(entrySize: Word, picOffset: Word): seq<Word> {
    if entrySize == 4 then [OneWordStub(picOffset)]
    else if entrySize == 12 then ABSOLUTE_STUB
    else PIC_STUB
  }

  /** Where the pointer of the stub at `a` is. */
  function SlotOf(mem: Mem, a: Word, entrySize: Word, picOffset: Word): Word {
    if entrySize == 4 then Plus(a, picOffset as int % 0x1000 + 8)
    else if entrySize == 12 then Read(mem, Plus(a, 8))
    else Plus(a, Read(mem, Plus(a, 12)) as int + 12)
  }

  function LinkedStub(mem: Mem, a: Word, entrySize: Word, picOffset: Word, target: Word): Mem {
    var restored := WriteWords(mem, a, RestoredWords(entrySize, picOffset));
    restored[SlotOf(restored, a, entrySize, picOffset) := target]
  }

  function EntryAddr(stubs: Stubs, i: nat): int {
    stubs.addr + i * stubs.entrySize
  }

  predicate Fits(stubs: Stubs) {
    stubs.addr + stubs.size <= 0x1_0000_0000
  }

  predicate InSection(stubs: Stubs, w: Word) {
    stubs.addr <= w < stubs.addr as int + stubs.size
  }

  predicate IsProper(stubs: Stubs) {
    && IsEntrySize(stubs.entrySize) && Fits(stubs) && stubs.addr % 4 == 0 && stubs.size % stubs.entrySize == 0
  }

  function Entries(stubs: Stubs): nat
    requires stubs.entrySize > 0
  {
    stubs.size / stubs.entrySize
  }

  lemma EntryInSection(stubs: Stubs, i: nat)
    requires IsEntrySize(stubs.entrySize) && i < Entries(stubs)
    ensures stubs.addr <= EntryAddr(stubs, i) && EntryAddr(stubs, i) + stubs.entrySize <= stubs.addr + stubs.size
    ensures EntryAddr(stubs, i + 1) == EntryAddr(stubs, i) + stubs.entrySize
  {
  }

  /** Rewriting the first `n` entries; `None` when one does not hold what is expected. */
  function SetUp(mem: Mem, stubs: Stubs, n: nat): Option<Mem>
    requires IsEntrySize(stubs.entrySize) && Fits(stubs) && n <= Entries(stubs)
  {
    if n == 0 then Some(mem)
    else match SetUp(mem, stubs, n - 1)
      case None => None
      case Some(before) =>
        EntryInSection(stubs, n - 1);
        var a: Word := EntryAddr(stubs, n - 1);
        if HoldsAll(before, a, ExpectedWords(stubs.entrySize)) then Some(WriteWords(before, a, StubWords(stubs.entrySize)))
        else None
  }

  /** Rewriting the stubs of the first `n` binaries. */
  function SetUpAll(mem: Mem, bins: seq<Bin>, n: nat): Option<Mem>
    requires n <= |bins|
  {
    if n == 0 then Some(mem)
    else match SetUpAll(mem, bins, n - 1)
      case None => None
      case Some(before) =>
        var stubs := bins[n - 1].stubs;
        if stubs.None? then Some(before)
        else if !IsEntrySize(stubs.value.entrySize) || !Fits(stubs.value) || stubs.value.size % stubs.value.entrySize != 0 then None
        else SetUp(before, stubs.value, Entries(stubs.value))
  }

  predicate HoldsAll(mem: Mem, a: Word, words: seq<Word>)
    ensures HoldsAll(mem, a, words) <==> Holds(mem, a, words)
  {
    forall k | 0 <= k < |words| :: Read(mem, Plus(a, 4 * k)) == words[k]
  }

  datatype Entry = Entry(size: Word, picOffset: Word, symbol: string)

  /** The first binary whose stubs span the address. */
  function FindStubs(bins: seq<Bin>, pc: Word): (found: Option<(Stubs, Word)>)
    ensures found.Some? ==> found.value.0.addr <= pc < found.value.0.addr as int + found.value.0.size
  {
    if bins == [] then None
    else if bins[0].stubs.Some? && bins[0].stubs.value.addr <= pc < bins[0].stubs.value.addr as int + bins[0].stubs.value.size then
      var stubs := bins[0].stubs.value;
      Some((stubs, if bins[0].lazyPointers.Some? then Plus(bins[0].lazyPointers.value, -(stubs.addr as int)) else 0))
    else FindStubs(bins[1..], pc)
  }

  /** The stub at an address; `None` where looking it up panics. */
  function StubAt(bins: seq<Bin>, pc: Word): (e: Option<Entry>)
    ensures e.Some? ==> IsEntrySize(e.value.size)
  {
    match FindStubs(bins, pc)
    case None => None
    case Some((stubs, picOffset)) =>
      var offset: nat := pc as int - stubs.addr;
      if !IsEntrySize(stubs.entrySize) || offset % stubs.entrySize != 0 then None
      else
        var i := offset / stubs.entrySize;
        if i >= |stubs.symbols| || stubs.symbols[i].None? then None
        else Some(Entry(stubs.entrySize, picOffset, stubs.symbols[i].value))
  }

  // ---------------------------------------------------------------- linking

  function FirstExport(bins: seq<Bin>, symbol: string): Option<(Word, bool)> {
    if bins == [] then None
    else if symbol in bins[0].exports then Some((bins[0].exports[symbol], bins[0].isLibstdcxx))
    else FirstExport(bins[1..], symbol)
  }

  predicate Contains(s: string, t: string) {
    exists i | 0 <= i <= |s| :: t <= s[i..]
  }

  /** Mangled names of C++ constructors. */
  predicate NeedsReturnThisWrapper(symbol: string) {
    "__Z" <= symbol && (Contains(symbol, "C1E") || Contains(symbol, "C2E"))
  }

  const PUSH_R0_LR: Word := 0xe92d4001
  const LOAD_R12: Word := 0xe59fc004
  const BLX_R12: Word := 0xe12fff3c
  const POP_R0_PC: Word := 0xe8bd8001

  function WrapperWords(target: Word): seq<Word> {
    [PUSH_R0_LR, LOAD_R12, BLX_R12, POP_R0_PC, target]
  }

  /** The distance to the pointers, or-ed into a one-word stub, does not change its instruction. */
  predicate Links(e: Entry) {
    e.size == 4 ==> LeavesInstruction(e.picOffset)
  }

  /** The block is what the allocator would return. */
  function LazyLink(env: Env, d: Linker, pc: Word, block: Word): (Outcome, Linker) {
    match StubAt(env.bins, pc)
    case None => (Panicked, d)
    case Some(e) =>
      if e.symbol in d.nonLazy then
        (Resume, d.(mem := LinkedStub(d.mem, pc, e.size, e.picOffset, d.nonLazy[e.symbol])))
      else match FirstExport(env.bins, e.symbol)
        case Some((addr, isLibstdcxx)) =>
          if isLibstdcxx && NeedsReturnThisWrapper(e.symbol) then
            var wrapped := Wrapped(d, e.symbol, addr, block);
            (Resume, wrapped.1.(mem := LinkedStub(wrapped.1.mem, pc, e.size, e.picOffset, wrapped.0)))
          else (Resume, d.(mem := LinkedStub(d.mem, pc, e.size, e.picOffset, addr)))
        case None =>
          if e.symbol !in env.host then (Panicked, d)
          else match NextSvc(|d.linked|, e.size)
            case None => (Panicked, d)
            case Some(svc) =>
              var linked := d.(linked := d.linked + [e.symbol], mem := d.mem[pc := EncodeSvc(svc)]);
              if e.size != 4 && Read(linked.mem, Plus(pc, 4)) != RET then (Panicked, linked)
              else (CallHost(e.symbol), linked)
  }

  /** The wrapper of a symbol, made when there is none yet. */
  function Wrapped(d: Linker, symbol: string, target: Word, block: Word): (Word, Linker) {
    if symbol in d.wrappers then (d.wrappers[symbol] - d.wrappers[symbol] % 2, d)
    else
      (block - block % 2,
       d.(mem := WriteWords(d.mem, block, WrapperWords(target)), wrappers := d.wrappers[symbol := block - block % 2]))
  }

  function Handle(env: Env, d: Linker, pc: Word, svc: Word, block: Word): (Outcome, Linker) {
    if svc == SVC_LAZY_LINK || svc == SVC_LAZY_LINK_RET_FLAG then LazyLink(env, d, pc, block)
    else match IndexOf(svc)
      case None => (Panicked, d)
      case Some(i) => if i < |d.linked| then (CallHost(d.linked[i]), d) else (Panicked, d)
  }

  /** Makes a guest function that calls a host function; `None` when the numbers have run out. */
  function MakeFunction(d: Linker, symbol: string, block: Word): Option<Linker> {
    match NextSvc(|d.linked|, 8)
    case None => None
    case Some(svc) =>
      Some(d.(linked := d.linked + [symbol], mem := WriteWords(d.mem, block, [EncodeSvc(svc), RET])))
  }

  datatype ProcAddress = Address(addr: Word) | NoSuchFunction | Exhausted

  function GetProcAddress(env: Env, d: Linker, symbol: string, block: Word): (ProcAddress, Linker) {
    if symbol !in env.host then (NoSuchFunction, d)
    else if symbol in d.nonLazy then (Address(d.nonLazy[symbol]), d)
    else match MakeFunction(d, symbol, block)
      case None => (Exhausted, d)
      case Some(made) => (Address(block), made.(nonLazy := made.nonLazy[symbol := block]))
  }

  // ---------------------------------------------------------------- the linker object

  class Dyld {
    const env: Env
    var mem: Mem
    var linkedHostFunctions: seq<string>
    var nonLazyHostFunctions: map<string, Word>
    var returnThisWrappers: map<string, Word>

    constructor (env: Env, mem: Mem)
      ensures this.env == env && View() == Linker(mem, [], map[], map[])
    {
      this.env, this.mem := env, mem;
      linkedHostFunctions, nonLazyHostFunctions, returnThisWrappers := [], map[], map[];
    }

    function View(): Linker
      reads this
    {
      Linker(mem, linkedHostFunctions, nonLazyHostFunctions, returnThisWrappers)
    }

    /** Fails where the emulator panics: on an unknown entry size or unexpected instructions. */
    method SetupLazyLinking(stubs: Stubs) returns (ok: bool)
      requires Fits(stubs)
      modifies `mem
      ensures ok <==>
        && IsEntrySize(stubs.entrySize) && stubs.size % stubs.entrySize == 0
        && SetUp(old(mem), stubs, Entries(stubs)).Some?
      ensures ok ==> Some(mem) == SetUp(old(mem), stubs, Entries(stubs))
    {
      var entrySize := stubs.entrySize;
      if !IsEntrySize(entrySize) || stubs.size % entrySize != 0 {
        return false;
      }
      var expected := ExpectedWords(entrySize);
      var n := stubs.size / entrySize;
      for i := 0 to n
        invariant Some(mem) == SetUp(old(mem), stubs, i)
      {
        EntryInSection(stubs, i);
        var ptr: Word := stubs.addr + i * entrySize;
        for j := 0 to |expected|
          invariant forall k | 0 <= k < j :: Read(mem, Plus(ptr, 4 * k)) == expected[k]
        {
          if Read(mem, Plus(ptr, 4 * j)) != expected[j] {
            SetUpStops(old(mem), stubs, i + 1, n);
            return false;
          }
        }
        mem := WriteWords(mem, ptr, StubWords(entrySize));
      }
      return true;
    }

    method RestoreInstructions(svcPc: Word, instructions: seq<Word>)
      modifies `mem
      ensures mem == WriteWords(old(mem), svcPc, instructions)
    {
      hide Plus;
      PlusPlus(svcPc, 0, 0);
      for i := 0 to |instructions|
        invariant WriteWords(old(mem), svcPc, instructions) == WriteWords(mem, Plus(svcPc, 4 * i), instructions[i..])
      {
        mem := mem[Plus(svcPc, 4 * i) := instructions[i]];
        PlusPlus(svcPc, 4 * i, 4);
        assert instructions[i..][1..] == instructions[i + 1..];
      }
    }

    /** The part of the initial linking that concerns stubs. */
    method SetupAllBinaries() returns (ok: bool)
      requires forall bin <- env.bins :: bin.stubs.Some? ==> Fits(bin.stubs.value)
      modifies `mem
      ensures ok <==> SetUpAll(old(mem), env.bins, |env.bins|).Some?
      ensures ok ==> Some(mem) == SetUpAll(old(mem), env.bins, |env.bins|)
    {
      hide SetUp;
      for i := 0 to |env.bins|
        invariant Some(mem) == SetUpAll(old(mem), env.bins, i)
      {
        var stubs := env.bins[i].stubs;
        assert env.bins[i] in env.bins;
        if stubs.Some? {
          var done := SetupLazyLinking(stubs.value);
          if !done {
            SetUpAllStops(old(mem), env.bins, i + 1, |env.bins|);
            return false;
          }
        }
      }
      return true;
    }

    /** Restores the stub, then points its pointer to the function. */
    method LinkByRestoringStub(linkedFunction: Word, svcPc: Word, entrySize: Word, picOffset: Word)
      requires IsEntrySize(entrySize)
      modifies `mem
      ensures mem == LinkedStub(old(mem), svcPc, entrySize, picOffset, linkedFunction)
    {
      if entrySize == 4 {
        OneWordBits(picOffset);
        mem := mem[svcPc := BitOr(LOAD_PC_FROM_LITERAL, picOffset)];
      } else {
        RestoreInstructions(svcPc, if entrySize == 12 then ABSOLUTE_STUB else PIC_STUB);
      }
      assert mem == WriteWords(old(mem), svcPc, RestoredWords(entrySize, picOffset));
      var laSymbolPtr := LaSymbolPtr(svcPc, entrySize, picOffset);
      mem := mem[laSymbolPtr := linkedFunction];
    }

    /** Where the pointer of a restored stub is. */
    method LaSymbolPtr(svcPc: Word, entrySize: Word, ghost picOffset: Word) returns (laSymbolPtr: Word)
      requires IsEntrySize(entrySize)
      requires entrySize == 4 ==> Read(mem, svcPc) == OneWordStub(picOffset)
      ensures laSymbolPtr == SlotOf(mem, svcPc, entrySize, picOffset)
    {
      if entrySize == 12 {
        return Read(mem, Plus(svcPc, 4 * 2));
      }
      if entrySize == 4 {
        var offset: int := Read(mem, svcPc) % 0x1000;
        return Plus(svcPc, offset + 8);
      }
      var offset := Read(mem, Plus(svcPc, 4 * 3));
      return Plus(svcPc, offset as int + 12);
    }

    method DoLazyLink(svcPc: Word, block: Word) returns (r: Outcome)
      modifies this
      ensures (r, View()) == LazyLink(env, old(View()), svcPc, block)
    {
      hide LinkedStub, WriteWords, StubAt, FirstExport, NeedsReturnThisWrapper, WrapperWords, Plus, Read;
      var found := StubAt(env.bins, svcPc);
      if found.None? {
        return Panicked;
      }
      var e := found.value;
      if e.symbol in nonLazyHostFunctions {
        LinkByRestoringStub(nonLazyHostFunctions[e.symbol], svcPc, e.size, e.picOffset);
        return Resume;
      }
      var exported := FirstExport(env.bins, e.symbol);
      if exported.Some? {
        var addr := exported.value.0;
        if exported.value.1 && NeedsReturnThisWrapper(e.symbol) {
          if e.symbol !in returnThisWrappers {
            mem := WriteWords(mem, block, WrapperWords(addr));
            returnThisWrappers := returnThisWrappers[e.symbol := block - block % 2];
          }
          addr := returnThisWrappers[e.symbol] - returnThisWrappers[e.symbol] % 2;
        }
        LinkByRestoringStub(addr, svcPc, e.size, e.picOffset);
        return Resume;
      }
      if e.symbol in env.host {
        var svc := NextSvc(|linkedHostFunctions|, e.size);
        if svc.None? {
          return Panicked;
        }
        linkedHostFunctions := linkedHostFunctions + [e.symbol];
        mem := mem[svcPc := EncodeSvc(svc.value)];
        if e.size != 4 && Read(mem, Plus(svcPc, 4)) != RET {
          return Panicked;
        }
        return CallHost(e.symbol);
      }
      return Panicked;
    }

    method GetSvcHandler(svcPc: Word, svc: Word, block: Word) returns (r: Outcome)
      modifies this
      ensures (r, View()) == Handle(env, old(View()), svcPc, svc, block)
    {
      if svc == SVC_LAZY_LINK || svc == SVC_LAZY_LINK_RET_FLAG {
        r := DoLazyLink(svcPc, block);
        return;
      }
      if svc == SVC_THREAD_EXIT || svc == SVC_RETURN_TO_HOST {
        return Panicked;
      }
      var idx: int := (if HasRetFlag(svc) then svc - SVC_LAZY_LINK_RET_FLAG else svc) as int - SVC_LINKED_FUNCTIONS_BASE;
      if idx < 0 || idx >= |linkedHostFunctions| {
        return Panicked;
      }
      return CallHost(linkedHostFunctions[idx]);
    }

    method CreateGuestFunction(symbol: string, block: Word) returns (address: Option<Word>)
      modifies `linkedHostFunctions, `mem
      ensures address.Some? <==> MakeFunction(old(View()), symbol, block).Some?
      ensures address.Some? ==> address.value == block && Some(View()) == MakeFunction(old(View()), symbol, block)
      ensures address.None? ==> View() == old(View())
    {
      var idx := |linkedHostFunctions|;
      if idx + 3 >= 0x100_0000 {
        return None;
      }
      linkedHostFunctions := linkedHostFunctions + [symbol];
      mem := WriteWords(mem, block, [EncodeSvc(idx + 3), RET]);
      return Some(block);
    }

    method CreateProcAddress(symbol: string, block: Word) returns (r: ProcAddress)
      modifies this
      ensures (r, View()) == GetProcAddress(env, old(View()), symbol, block)
    {
      if symbol !in env.host {
        return NoSuchFunction;
      }
      if symbol in nonLazyHostFunctions {
        return Address(nonLazyHostFunctions[symbol]);
      }
      var made := CreateGuestFunction(symbol, block);
      if made.None? {
        return Exhausted;
      }
      nonLazyHostFunctions := nonLazyHostFunctions[symbol := block];
      return Address(made.value);
    }
  }

  lemma {:induction false} SetUpAllStops(mem: Mem, bins: seq<Bin>, i: nat, n: nat)
    requires i <= n <= |bins| && SetUpAll(mem, bins, i).None?
    ensures SetUpAll(mem, bins, n).None?
  {
    if i < n {
      SetUpAllStops(mem, bins, i, n - 1);
    }
  }

  lemma {:induction false} SetUpStops(mem: Mem, stubs: Stubs, i: nat, n: nat)
    requires IsEntrySize(stubs.entrySize) && Fits(stubs) && i <= n <= Entries(stubs)
    requires SetUp(mem, stubs, i).None?
    ensures SetUp(mem, stubs, n).None?
  {
    if i < n {
      SetUpStops(mem, stubs, i, n - 1);
    }
  }
}
