/**
 What calling a stub does: before and after it is linked, for every state a run can reach, and
 that the run starts out right.
 */
module StubMeaning {
  import opened Wrappers
  import opened A32
  import opened Dyld
  import opened StubRuns

  // ---------------------------------------------------------------- the start

  /** The entry at `a` held the original instructions and now traps to the linker. */
  ghost predicate IsSetUp(m: Mem, m': Mem, size: Word, a: Word) {
    && Holds(m, a, ExpectedWords(size))
    && Holds(m', a, StubWords(size))
    && (size == 12 ==> Read(m', Plus(a, 8)) == Read(m, Plus(a, 8)))
    && (size == 16 ==> Read(m', Plus(a, 12)) == Read(m, Plus(a, 12)))
  }

  lemma EntryOrder(stubs: Stubs, i: nat, j: nat)
    requires IsEntrySize(stubs.entrySize) && i < j
    ensures EntryAddr(stubs, i) + stubs.entrySize <= EntryAddr(stubs, j)
  {
    if stubs.entrySize == 4 {
    } else if stubs.entrySize == 12 {
    } else {
    }
  }

  /** Later changes elsewhere leave an entry set up. */
  lemma SetUpAfter(m: Mem, m': Mem, n': Mem, size: Word, a: Word)
    requires IsEntrySize(size) && a + size <= 0x1_0000_0000 && IsSetUp(m, m', size, a)
    requires forall w: Word | a <= w < a as int + size :: SameAt(m', n', w)
    ensures IsSetUp(m, n', size, a)
  {
    hide Holds, Plus, Read;
    PlusIs(a, 8);
    PlusIs(a, 12);
    HoldsStill(m', n', a, StubWords(size));
    assert size != 4 ==> SameAt(m', n', Plus(a, 8));
    assert size == 16 ==> SameAt(m', n', Plus(a, 12));
  }

  /** So do earlier ones. */
  lemma SetUpBefore(m: Mem, n: Mem, n': Mem, size: Word, a: Word)
    requires IsEntrySize(size) && a + size <= 0x1_0000_0000 && IsSetUp(n, n', size, a)
    requires forall w: Word | a <= w < a as int + size :: SameAt(m, n, w)
    ensures IsSetUp(m, n', size, a)
  {
    hide Plus;
    PlusIs(a, 8);
    PlusIs(a, 12);
    assert size != 4 ==> SameAt(m, n, Plus(a, 8));
    assert size == 16 ==> SameAt(m, n, Plus(a, 12));
    assert forall w: Word | a <= w < a as int + size :: SameAt(n, m, w) by {
      assert forall w: Word :: SameAt(n, m, w) <==> SameAt(m, n, w);
    }
    hide Holds, Read;
    HoldsStill(n, m, a, ExpectedWords(size));
  }

  lemma EntrySetUp(m: Mem, size: Word, a: Word)
    requires IsEntrySize(size) && a + size <= 0x1_0000_0000 && Holds(m, a, ExpectedWords(size))
    ensures IsSetUp(m, WriteWords(m, a, StubWords(size)), size, a)
    ensures forall w: Word | !(a <= w < a as int + size) :: SameAt(m, WriteWords(m, a, StubWords(size)), w)
  {
    var words := StubWords(size);
    assert 4 * |words| <= size;
    hide Holds, Plus, WriteWords, ExpectedWords;
    PlusIs(a, 8);
    PlusIs(a, 12);
    Untouched(m, a, words);
    WrittenHolds(m, a, words);
  }

  /** Every entry of a section is set up, and nothing outside of the entries is touched. */
  lemma {:induction false} SectionSetUp(m: Mem, stubs: Stubs, n: nat, i: nat)
    requires IsProper(stubs) && i < n <= Entries(stubs) && SetUp(m, stubs, n).Some?
    ensures stubs.addr <= EntryAddr(stubs, i) < 0x1_0000_0000 && EntryAddr(stubs, i) + stubs.entrySize <= 0x1_0000_0000
    ensures IsSetUp(m, SetUp(m, stubs, n).value, stubs.entrySize, EntryAddr(stubs, i))
    decreases n
  {
    var before := SetUp(m, stubs, n - 1).value;
    EntryInSection(stubs, n - 1);
    EntryInSection(stubs, i);
    var a: Word := EntryAddr(stubs, n - 1);
    var b: Word := EntryAddr(stubs, i);
    var after := SetUp(m, stubs, n).value;
    SectionOnly(m, stubs, n - 1);
    hide SetUp, IsSetUp, WriteWords, EntryAddr, Holds;
    assert HoldsAll(before, a, ExpectedWords(stubs.entrySize)) && after == WriteWords(before, a, StubWords(stubs.entrySize)) by {
      LastEntry(m, stubs, n);
    }
    EntrySetUp(before, stubs.entrySize, a);
    if i < n - 1 {
      SectionSetUp(m, stubs, n - 1, i);
      EntryOrder(stubs, i, n - 1);
      SetUpAfter(m, before, after, stubs.entrySize, b);
    } else {
      SetUpBefore(m, before, after, stubs.entrySize, b);
    }
  }

  lemma LastEntry(m: Mem, stubs: Stubs, n: nat)
    requires IsProper(stubs) && 0 < n <= Entries(stubs) && SetUp(m, stubs, n).Some?
    ensures SetUp(m, stubs, n - 1).Some? && 0 <= EntryAddr(stubs, n - 1) < 0x1_0000_0000
    ensures HoldsAll(SetUp(m, stubs, n - 1).value, EntryAddr(stubs, n - 1), ExpectedWords(stubs.entrySize))
    ensures SetUp(m, stubs, n).value == WriteWords(SetUp(m, stubs, n - 1).value, EntryAddr(stubs, n - 1), StubWords(stubs.entrySize))
  {
    EntryInSection(stubs, n - 1);
  }

  lemma {:induction false} SectionOnly(m: Mem, stubs: Stubs, n: nat)
    requires IsProper(stubs) && n <= Entries(stubs) && SetUp(m, stubs, n).Some?
    ensures forall w: Word | !(stubs.addr <= w < EntryAddr(stubs, n)) :: SameAt(m, SetUp(m, stubs, n).value, w)
  {
    if n > 0 {
      SectionOnly(m, stubs, n - 1);
      LastEntry(m, stubs, n);
      EntryInSection(stubs, n - 1);
      hide SetUp, WriteWords, EntryAddr, HoldsAll, IsSetUp;
      var before, after := SetUp(m, stubs, n - 1).value, SetUp(m, stubs, n).value;
      EntrySetUp(before, stubs.entrySize, EntryAddr(stubs, n - 1));
      forall w: Word | !(stubs.addr <= w < EntryAddr(stubs, n)) ensures SameAt(m, after, w) {
        assert SameAt(m, before, w) && SameAt(before, after, w);
      }
    }
  }

  /** The entries of the first `n` binaries are set up. */
  ghost predicate AllSetUp(bins: seq<Bin>, m: Mem, m': Mem, n: nat)
    requires n <= |bins|
  {
    forall j, a: Word | 0 <= j < n && IsEntry(bins[j], a) :: IsSetUp(m, m', bins[j].stubs.value.entrySize, a)
  }

  predicate IsEntry(bin: Bin, a: Word) {
    && bin.stubs.Some? && IsProper(bin.stubs.value) && InSection(bin.stubs.value, a)
    && (a - bin.stubs.value.addr) % bin.stubs.value.entrySize == 0
  }

  lemma EntryIndex(stubs: Stubs, a: Word)
    requires IsProper(stubs) && InSection(stubs, a) && (a - stubs.addr) % stubs.entrySize == 0
    ensures
      var i := (a - stubs.addr) / stubs.entrySize;
      0 <= i < Entries(stubs) && EntryAddr(stubs, i) == a
  {
    if stubs.entrySize == 4 {
    } else if stubs.entrySize == 12 {
    } else {
    }
  }

  lemma OneBinary(bins: seq<Bin>, m: Mem, j: nat, a: Word)
    requires j < |bins| && IsEntry(bins[j], a) && SetUp(m, bins[j].stubs.value, Entries(bins[j].stubs.value)).Some?
    ensures a + bins[j].stubs.value.entrySize <= bins[j].stubs.value.addr as int + bins[j].stubs.value.size
    ensures IsSetUp(m, SetUp(m, bins[j].stubs.value, Entries(bins[j].stubs.value)).value, bins[j].stubs.value.entrySize, a)
  {
    hide SetUp;
    var stubs := bins[j].stubs.value;
    EntryIndex(stubs, a);
    EndsInSection(stubs, a);
    SectionSetUp(m, stubs, Entries(stubs), (a - stubs.addr) / stubs.entrySize);
  }

  ghost predicate ProperSections(env: Env) {
    && (forall i | 0 <= i < |env.bins| && env.bins[i].stubs.Some? :: IsProper(env.bins[i].stubs.value))
    && SectionsApart(env)
  }

  lemma SectionDisjoint(env: Env, i: nat, j: nat, w: Word)
    requires ProperSections(env) && i < |env.bins| && j < |env.bins| && i != j
    requires env.bins[i].stubs.Some? && env.bins[j].stubs.Some? && InSection(env.bins[i].stubs.value, w)
    ensures !InSection(env.bins[j].stubs.value, w)
  {
    if i < j {
    } else {
    }
  }

  ghost predicate InEarlier(bins: seq<Bin>, n: nat, w: Word)
    requires n <= |bins|
  {
    exists j :: 0 <= j < n && bins[j].stubs.Some? && InSection(bins[j].stubs.value, w)
  }

  lemma {:induction false} BinariesSetUp(env: Env, m: Mem, n: nat)
    requires ProperSections(env) && n <= |env.bins| && SetUpAll(m, env.bins, n).Some?
    ensures AllSetUp(env.bins, m, SetUpAll(m, env.bins, n).value, n)
    ensures forall w: Word | !InEarlier(env.bins, n, w) :: SameAt(m, SetUpAll(m, env.bins, n).value, w)
  {
    if n > 0 {
      BinariesSetUp(env, m, n - 1);
      var before, after := SetUpAll(m, env.bins, n - 1).value, SetUpAll(m, env.bins, n).value;
      if env.bins[n - 1].stubs.Some? {
        var stubs := env.bins[n - 1].stubs.value;
        assert Some(after) == SetUp(before, stubs, Entries(stubs));
        hide SetUp, SetUpAll;
        SectionTouched(before, stubs);
        forall j, a: Word | 0 <= j < n && IsEntry(env.bins[j], a)
          ensures IsSetUp(m, after, env.bins[j].stubs.value.entrySize, a)
        {
          EntryStaysSetUp(env, m, before, after, n, j, a);
        }
        forall w: Word | !InEarlier(env.bins, n, w) ensures SameAt(m, after, w) {
          assert !InEarlier(env.bins, n - 1, w) && !InSection(stubs, w);
        }
      }
    }
  }

  lemma SectionTouched(m: Mem, stubs: Stubs)
    requires IsProper(stubs) && SetUp(m, stubs, Entries(stubs)).Some?
    ensures forall w: Word | !InSection(stubs, w) :: SameAt(m, SetUp(m, stubs, Entries(stubs)).value, w)
  {
    hide SetUp;
    SectionOnly(m, stubs, Entries(stubs));
    assert EntryAddr(stubs, Entries(stubs)) == stubs.addr + stubs.size by {
      if stubs.entrySize == 4 {
      } else if stubs.entrySize == 12 {
      } else {
      }
    }
  }

  lemma EntryStaysSetUp(env: Env, m: Mem, before: Mem, after: Mem, n: nat, j: nat, a: Word)
    requires ProperSections(env) && j < n <= |env.bins| && IsEntry(env.bins[j], a) && env.bins[n - 1].stubs.Some?
    requires AllSetUp(env.bins, m, before, n - 1)
    requires forall w: Word | !InEarlier(env.bins, n - 1, w) :: SameAt(m, before, w)
    requires SetUp(before, env.bins[n - 1].stubs.value, Entries(env.bins[n - 1].stubs.value)) == Some(after)
    requires forall w: Word | !InSection(env.bins[n - 1].stubs.value, w) :: SameAt(before, after, w)
    ensures IsSetUp(m, after, env.bins[j].stubs.value.entrySize, a)
  {
    hide SetUp, IsSetUp, ProperSections, IsProper, InEarlier, SameAt, InSection;
    var stubs := env.bins[j].stubs.value;
    SectionFits(stubs);
    EntryWords(stubs, a);
    if j < n - 1 {
      forall w: Word | a <= w < a as int + stubs.entrySize ensures SameAt(before, after, w) {
        SectionDisjoint(env, j, n - 1, w);
      }
      SetUpAfter(m, before, after, stubs.entrySize, a);
    } else {
      forall w: Word | a <= w < a as int + stubs.entrySize ensures SameAt(m, before, w) {
        NotEarlier(env, n - 1, w);
      }
      OneBinary(env.bins, before, j, a);
      SetUpBefore(m, before, after, stubs.entrySize, a);
    }
  }

  lemma EntryWords(stubs: Stubs, a: Word)
    requires IsProper(stubs) && InSection(stubs, a) && (a - stubs.addr) % stubs.entrySize == 0
    ensures a + stubs.entrySize <= 0x1_0000_0000
    ensures forall w: Word | a <= w < a as int + stubs.entrySize :: InSection(stubs, w)
  {
    EndsInSection(stubs, a);
  }

  lemma SectionFits(stubs: Stubs)
    requires IsProper(stubs)
    ensures IsEntrySize(stubs.entrySize) && stubs.addr + stubs.size <= 0x1_0000_0000
  {
  }

  lemma NotEarlier(env: Env, n: nat, w: Word)
    requires ProperSections(env) && n < |env.bins| && env.bins[n].stubs.Some? && InSection(env.bins[n].stubs.value, w)
    ensures !InEarlier(env.bins, n, w)
  {
    forall j | 0 <= j < n && env.bins[j].stubs.Some? ensures !InSection(env.bins[j].stubs.value, w) {
      SectionDisjoint(env, n, j, w);
    }
  }

  /** After initial linking every stub traps to the linker, having held the original instructions. */
  lemma StartsUnbound(env: Env, m0: Mem)
    requires Layout(env, m0) && SetUpAll(m0, env.bins, |env.bins|).Some?
    ensures Inv(env, m0, Linker(SetUpAll(m0, env.bins, |env.bins|).value, [], map[], map[]), NOTHING_YET)
    ensures forall a: Word | StubAt(env.bins, a).Some? :: Holds(m0, a, ExpectedWords(StubAt(env.bins, a).value.size))
  {
    BinariesSetUp(env, m0, |env.bins|);
    var m := SetUpAll(m0, env.bins, |env.bins|).value;
    var d := Linker(m, [], map[], map[]);
    forall a: Word | StubAt(env.bins, a).Some?
      ensures StubHolds(env, m0, d, a, Unbound) && Holds(m0, a, ExpectedWords(StubAt(env.bins, a).value.size))
    {
      StubInSection(env, m0, a);
      hide StubAt, SetUpAll, Layout, Slot, Holds;
      var stubs := FindStubs(env.bins, a).value.0;
      var j :| 0 <= j < |env.bins| && env.bins[j].stubs == Some(stubs);
      assert IsEntry(env.bins[j], a);
      assert IsSetUp(m0, m, stubs.entrySize, a);
    }
    hide StubAt, SetUpAll, Layout, Slot, StubHolds;
    assert forall w: Word :: !InBlock(NOTHING_YET, w);
  }

  // ---------------------------------------------------------------- calling a stub

  function StepsOf(size: Word): nat {
    if size == 4 then 1 else if size == 12 then 2 else 3
  }

  /** The words of a stub linked to a guest address, and its pointer as the words now say. */
  lemma GuestFacts(env: Env, m0: Mem, d: Linker, a: Word, target: Word)
    requires StubAt(env.bins, a).Some? && Links(StubAt(env.bins, a).value) && StubHolds(env, m0, d, a, Guest(target))
    ensures
      var e := StubAt(env.bins, a).value;
      && IsEntrySize(e.size) && Holds(d.mem, a, RestoredWords(e.size, e.picOffset))
      && Read(d.mem, SlotOf(d.mem, a, e.size, e.picOffset)) == target
      && (e.size == 12 ==> Read(d.mem, Plus(a, 8)) == Read(m0, Plus(a, 8)))
      && (e.size == 16 ==> Read(d.mem, Plus(a, 12)) == Read(m0, Plus(a, 12)))
  {
    hide StubAt, Holds, Plus, Read;
  }

  /** A stub linked to a guest address goes there, leaving memory and registers but r12 alone. */
  lemma GuestStubReaches(env: Env, m0: Mem, d: Linker, l: Ledger, a: Word, target: Word, cpu: Cpu)
    requires Layout(env, m0) && Inv(env, m0, d, l) && StubAt(env.bins, a).Some? && Bound(l, a) == Guest(target)
    requires cpu.Valid() && !cpu.thumb && cpu.regs[PC] == a
    ensures
      var o := Steps(cpu, d.mem, StepsOf(StubAt(env.bins, a).value.size));
      o.Next? && o.mem == d.mem && KeepsRegisters(cpu, o.cpu) && IsAt(o.cpu, target)
  {
    hide StubAt, Layout, StubHolds, Slot, Read, Holds, SlotOf, RestoredWords, Steps, KeepsRegisters, IsAt, Inv;
    GuestStub(env, m0, d, l, a);
    GuestFacts(env, m0, d, a, target);
    RestoredReaches(d.mem, StubAt(env.bins, a).value, a, target, cpu);
  }

  lemma GuestStub(env: Env, m0: Mem, d: Linker, l: Ledger, a: Word)
    requires Layout(env, m0) && Inv(env, m0, d, l) && StubAt(env.bins, a).Some?
    ensures Links(StubAt(env.bins, a).value) && StubHolds(env, m0, d, a, Bound(l, a))
  {
  }

  lemma RestoredReaches(mem: Mem, e: Entry, a: Word, target: Word, cpu: Cpu)
    requires IsEntrySize(e.size) && Links(e) && Holds(mem, a, RestoredWords(e.size, e.picOffset))
    requires Read(mem, SlotOf(mem, a, e.size, e.picOffset)) == target
    requires cpu.Valid() && !cpu.thumb && cpu.regs[PC] == a
    ensures
      var o := Steps(cpu, mem, StepsOf(e.size));
      o.Next? && o.mem == mem && KeepsRegisters(cpu, o.cpu) && IsAt(o.cpu, target)
  {
    hide Steps, KeepsRegisters, IsAt, Plus, Read, Holds;
    PlusPlus(a, 0, 0);
    if e.size == 4 {
      HoldsWord(mem, a, RestoredWords(e.size, e.picOffset), 0);
      RunsOneWordStub(cpu, mem, e.picOffset);
    } else if e.size == 12 {
      RunsAbsoluteStub(cpu, mem);
    } else {
      RunsPicStub(cpu, mem);
    }
  }

  /** What the emulator does once the host function has returned. */
  function Returned(cpu: Cpu, mem: Mem, svc: Word): A32.Outcome
    requires cpu.Valid()
  {
    if HasRetFlag(svc) then Next(Branch(cpu, cpu.regs[LR]), mem) else Step(cpu, mem)
  }

  lemma CallDecodes(env: Env, d: Linker, w: Word, size: Word, symbol: string, pc: Word, block: Word)
    requires CallsHost(d, w, size, symbol) && |d.linked| <= 0x7f_fffd
    ensures Decode(w).Svc? && Handle(env, d, pc, Decode(w).imm, block) == (CallHost(symbol), d)
    ensures HasRetFlag(Decode(w).imm) <==> size == 4
  {
    hide StubAt, LazyLink;
    var i :| 0 <= i < |d.linked| && d.linked[i] == symbol && IsNumber(i, size, w);
    NumbersDecode(i, size);
    DecodeEncodeSvc(NextSvc(i, size).value);
  }

  /**
   A stub linked to the host calls that function and, whatever the function did to the other
   registers and to memory outside of the stub, then returns to the caller.
   */
  lemma HostStubCalls(
    env: Env, m0: Mem, d: Linker, l: Ledger, a: Word, symbol: string, cpu: Cpu, block: Word, cpu': Cpu, mem': Mem)
    requires Layout(env, m0) && Inv(env, m0, d, l) && StubAt(env.bins, a).Some? && Bound(l, a) == Host(symbol)
    requires |d.linked| <= 0x7f_fffd
    requires cpu.Valid() && !cpu.thumb && cpu.regs[PC] == a
    requires cpu'.Valid() && !cpu'.thumb && cpu'.regs[PC] == Plus(a, 4) && Read(mem', Plus(a, 4)) == Read(d.mem, Plus(a, 4))
    ensures Step(cpu, d.mem).Trapped?
    ensures
      var o := Step(cpu, d.mem);
      && o.mem == d.mem && o.cpu.regs == cpu.regs[PC := Plus(a, 4)]
      && Handle(env, d, a, o.svc, block) == (CallHost(symbol), d)
      && Returned(cpu', mem', o.svc) == Next(Branch(cpu', cpu'.regs[LR]), mem')
  {
    StubHoldsAt(env, m0, d, l, a);
    var size := StubAt(env.bins, a).value.size;
    CallDecodes(env, d, Read(d.mem, a), size, symbol, a, block);
    hide StubAt, Inv, Layout, Handle, HasRetFlag, CallsHost;
    if size != 4 {
      RetReturns(cpu', mem');
    }
  }

  lemma RetReturns(cpu: Cpu, mem: Mem)
    requires cpu.Valid() && !cpu.thumb && Read(mem, cpu.regs[PC]) == RET
    ensures Step(cpu, mem) == Next(Branch(cpu, cpu.regs[LR]), mem)
  {
    assert Decode(RET) == BranchToLr;
  }

  /** A made function calls the host function it was made for, and returns. */
  lemma FunctionCalls(
    env: Env, m0: Mem, d: Linker, l: Ledger, p: Word, cpu: Cpu, block: Word, cpu': Cpu, mem': Mem)
    requires Layout(env, m0) && Inv(env, m0, d, l) && p in l.functions && |d.linked| <= 0x7f_fffd
    requires cpu.Valid() && !cpu.thumb && cpu.regs[PC] == p
    requires cpu'.Valid() && !cpu'.thumb && cpu'.regs[PC] == Plus(p, 4) && Read(mem', Plus(p, 4)) == Read(d.mem, Plus(p, 4))
    ensures Step(cpu, d.mem).Trapped?
    ensures
      var o := Step(cpu, d.mem);
      && o.mem == d.mem && o.cpu.regs == cpu.regs[PC := Plus(p, 4)]
      && Handle(env, d, p, o.svc, block) == (CallHost(l.functions[p]), d)
      && Returned(cpu', mem', o.svc) == Next(Branch(cpu', cpu'.regs[LR]), mem')
  {
    assert FunctionHolds(d, p, l.functions[p]);
    hide StubAt, Inv, Layout;
    CallDecodes(env, d, Read(d.mem, p), 8, l.functions[p], p, block);
    hide Handle, HasRetFlag, CallsHost;
    RetReturns(cpu', mem');
  }

  /** An unlinked stub traps to the linker with its own address. */
  lemma UnboundStubTraps(env: Env, m0: Mem, d: Linker, l: Ledger, a: Word, cpu: Cpu, block: Word)
    requires Layout(env, m0) && Inv(env, m0, d, l) && StubAt(env.bins, a).Some? && Bound(l, a) == Unbound
    requires |d.linked| <= 0x7f_fffd && cpu.Valid() && !cpu.thumb && cpu.regs[PC] == a
    ensures Step(cpu, d.mem).Trapped?
    ensures
      var o := Step(cpu, d.mem);
      o.cpu.regs[PC] == Plus(a, 4) && Handle(env, d, a, o.svc, block) == LazyLink(env, d, a, block)
  {
    StubHoldsAt(env, m0, d, l, a);
    TrapsWhileUnbound(env, m0, d, a, Unbound);
    hide StubAt, Inv, Layout, LazyLink, StubHolds;
  }

  /**
   Whatever happens after a stub has been linked to a guest address, calling it still goes there;
   after it has been linked to a host function, calling it still calls that function.
   */
  lemma LinkedForGood(env: Env, m0: Mem, d: Linker, l: Ledger, events: seq<Event>, a: Word, cpu: Cpu, block: Word)
    requires Layout(env, m0) && Inv(env, m0, d, l) && Runs(env, m0, d, l, events)
    requires |After(env, m0, d, l, events).0.linked| <= 0x7f_fffd
    requires StubAt(env.bins, a).Some? && cpu.Valid() && !cpu.thumb && cpu.regs[PC] == a
    ensures
      var mem := After(env, m0, d, l, events).0.mem;
      Bound(l, a).Guest? ==>
        var o := Steps(cpu, mem, StepsOf(StubAt(env.bins, a).value.size));
        o.Next? && o.mem == mem && KeepsRegisters(cpu, o.cpu) && IsAt(o.cpu, Bound(l, a).target)
    ensures
      var d' := After(env, m0, d, l, events).0;
      Bound(l, a).Host? ==>
        var o := Step(cpu, d'.mem);
        o.Trapped? && Handle(env, d', a, o.svc, block) == (CallHost(Bound(l, a).symbol), d')
  {
    RunKeeps(env, m0, d, l, events);
    var (d', l') := After(env, m0, d, l, events);
    assert Bound(l, a) != Unbound ==> Bound(l', a) == Bound(l, a);
    if Bound(l, a).Guest? {
      GuestStubReaches(env, m0, d', l', a, Bound(l, a).target, cpu);
    } else if Bound(l, a).Host? {
      hide Inv, Layout, StubAt, Runs, After;
      HostStubCalls(env, m0, d', l', a, Bound(l, a).symbol, cpu, block,
        cpu.(regs := cpu.regs[PC := Plus(a, 4)]), d'.mem);
    }
  }

  // ---------------------------------------------------------------- the original instructions

  /** Linking a two- or three-word stub to a guest address gives it back its original words. */
  lemma RestoredIsOriginal(env: Env, m0: Mem, d: Linker, l: Ledger, a: Word, w: Word)
    requires Layout(env, m0) && Inv(env, m0, d, l) && StubAt(env.bins, a).Some? && Bound(l, a).Guest?
    requires SetUpAll(m0, env.bins, |env.bins|).Some?
    requires StubAt(env.bins, a).value.size != 4 && w % 4 == 0 && a <= w < a as int + StubAt(env.bins, a).value.size
    ensures Read(d.mem, w) == Read(m0, w)
  {
    hide StubAt, Inv, Layout, Slot, SetUpAll, Read, StubHolds, Holds, SlotOf, Plus, FindStubs, Bound, RestoredWords, ExpectedWords;
    StubBounds(env, m0, a);
    OriginalFacts(env, m0, a);
    GuestStub(env, m0, d, l, a);
    GuestFacts(env, m0, d, a, Bound(l, a).target);
    SameWords(d.mem, m0, StubAt(env.bins, a).value, a, w);
  }

  lemma SameWords(mem: Mem, m0: Mem, e: Entry, a: Word, w: Word)
    requires e.size == 12 || e.size == 16
    requires Holds(mem, a, RestoredWords(e.size, e.picOffset)) && Holds(m0, a, ExpectedWords(e.size))
    requires e.size == 12 ==> Read(mem, Plus(a, 8)) == Read(m0, Plus(a, 8))
    requires e.size == 16 ==> Read(mem, Plus(a, 12)) == Read(m0, Plus(a, 12))
    requires a % 4 == 0 && w % 4 == 0 && a <= w < a as int + e.size
    ensures Read(mem, w) == Read(m0, w)
  {
    var k := (w - a) / 4;
    assert w == a + 4 * k;
    PlusIs(a, 4 * k);
    var words := ExpectedWords(e.size);
    assert words == RestoredWords(e.size, e.picOffset) && |words| == e.size / 4 - 1;
    hide *;
    if k < |words| {
      HoldsWord(m0, a, words, k);
      HoldsWord(mem, a, words, k);
    }
  }

  lemma StubBounds(env: Env, m0: Mem, a: Word)
    requires Layout(env, m0) && StubAt(env.bins, a).Some?
    ensures a % 4 == 0 && Links(StubAt(env.bins, a).value)
  {
    hide StubAt, FindStubs, SlotOf;
    StubInSection(env, m0, a);
  }

  lemma OriginalFacts(env: Env, m0: Mem, a: Word)
    requires Layout(env, m0) && StubAt(env.bins, a).Some? && SetUpAll(m0, env.bins, |env.bins|).Some?
    ensures Holds(m0, a, ExpectedWords(StubAt(env.bins, a).value.size))
  {
    hide StubAt, SetUpAll, Inv, Holds;
    StartsUnbound(env, m0);
  }

  lemma HoldsWord(mem: Mem, a: Word, words: seq<Word>, k: nat)
    requires Holds(mem, a, words) && k < |words|
    ensures Read(mem, Plus(a, 4 * k)) == words[k]
  {
  }

  /**
   Of the one-word stubs the original word is not kept. The pointer that linking writes to, and
   that the restored word then loads, is two entries after the stub's own in the pointer section.
   */
  lemma OneWordSlot(env: Env, m0: Mem, a: Word, lazy: Word, own: Word)
    requires StubAt(env.bins, a).Some? && StubAt(env.bins, a).value.size == 4
    requires StubAt(env.bins, a).value.picOffset < 0x1000
    requires
      var stubs := FindStubs(env.bins, a).value.0;
      && StubAt(env.bins, a).value.picOffset == Plus(lazy, -(stubs.addr as int))
      && own < 0x1000 && Plus(a, own as int + 8) == Plus(lazy, a - stubs.addr)
    ensures Slot(env, m0, a) == Plus(lazy, a - FindStubs(env.bins, a).value.0.addr + 4 * 2)
    ensures RestoredWords(4, StubAt(env.bins, a).value.picOffset) != [LOAD_PC_FROM_LITERAL + own]
  {
    StubIsAligned(env.bins, a);
    var pic: Word := StubAt(env.bins, a).value.picOffset;
    assert Slot(env, m0, a) == Plus(a, pic as int % 0x1000 + 8);
    assert RestoredWords(4, pic) == [OneWordStub(pic)];
    hide *;
    SlotShift(a, lazy, FindStubs(env.bins, a).value.0.addr, own, pic);
  }

  /**
   So, with one pointer for each stub, exactly the last two stubs of a section use a word beyond the
   pointer section.
   */
  lemma LastSlotsOutside(env: Env, m0: Mem, a: Word, lazy: Word)
    requires StubAt(env.bins, a).Some? && StubAt(env.bins, a).value.size == 4
    requires StubAt(env.bins, a).value.picOffset < 0x1000
    requires
      var stubs := FindStubs(env.bins, a).value.0;
      && stubs.size % 4 == 0 && lazy + stubs.size + 8 <= 0x1_0000_0000
      && StubAt(env.bins, a).value.picOffset == Plus(lazy, -(stubs.addr as int))
    ensures
      var stubs := FindStubs(env.bins, a).value.0;
      var i, n := (a - stubs.addr) / 4, stubs.size / 4;
      && 0 <= i < n
      && (lazy <= Slot(env, m0, a) < lazy as int + stubs.size <==> i < n - 2)
  {
    StubIsAligned(env.bins, a);
    var stubs := FindStubs(env.bins, a).value.0;
    var pic: Word := StubAt(env.bins, a).value.picOffset;
    assert Slot(env, m0, a) == Plus(a, pic as int % 0x1000 + 8);
    hide *;
    SlotShift(a, lazy, stubs.addr, 0, pic);
    PlusIs(lazy, a - stubs.addr + 8);
  }

  lemma SlotShift(a: Word, lazy: Word, addr: Word, own: Word, pic: Word)
    requires pic < 0x1000 && pic == Plus(lazy, -(addr as int))
    ensures Plus(a, pic as int % 0x1000 + 8) == Plus(lazy, a - addr + 4 * 2)
    ensures Plus(a, own as int + 8) == Plus(lazy, a - addr) ==> OneWordStub(pic) != LOAD_PC_FROM_LITERAL + own
  {
    PlusShift(a, lazy, addr);
    hide Plus;
    assert pic as int % 0x1000 == pic;
    OneWordStubDecodes(pic);
    hide *;
  }

  lemma PlusShift(a: Word, lazy: Word, addr: Word)
    ensures Plus(a, Plus(lazy, -(addr as int)) as int + 8) == Plus(lazy, a - addr + 4 * 2) != Plus(lazy, a - addr)
  {
    var pic := Plus(lazy, -(addr as int));
    assert pic == lazy - addr || pic == lazy as int - addr + 0x1_0000_0000;
  }

  // ---------------------------------------------------------------- constructors

  /** Entering a wrapper saves `this` and the return address and calls the wrapped function. */
  lemma WrapperEnters(mem: Mem, p: Word, target: Word, cpu: Cpu)
    requires Holds(mem, p, WrapperWords(target)) && p + 20 <= 0x1_0000_0000
    requires cpu.Valid() && !cpu.thumb && cpu.regs[PC] == p
    requires 8 <= cpu.regs[SP] && (cpu.regs[SP] <= p || p + 28 <= cpu.regs[SP])
    ensures
      var o := Steps(cpu, mem, 3);
      && o.Next? && IsAt(o.cpu, target)
      && o.cpu.regs[0] == cpu.regs[0] && o.cpu.regs[LR] == p + 12 && o.cpu.regs[SP] == cpu.regs[SP] - 8
      && Read(o.mem, o.cpu.regs[SP]) == cpu.regs[0] && Read(o.mem, Plus(o.cpu.regs[SP], 4)) == cpu.regs[LR]
      && Holds(o.mem, p, WrapperWords(target))
  {
    var sp: Word := cpu.regs[SP] - 8;
    var m := WriteWords(mem, sp, [cpu.regs[0], cpu.regs[LR]]);
    WrapperAfterPush(mem, p, target, sp, cpu.regs[0], cpu.regs[LR]);
    hide WriteWords, Holds, Decode, Plus, Read, Steps;
    assert Plus(cpu.regs[SP], -8) == sp by { PlusIs(sp, 8); PlusPlus(cpu.regs[SP], -8, 8); }
    WrapperPlaces(p);
    hide Step;
    PushStep(cpu, mem);
    var c := cpu.(regs := cpu.regs[PC := p + 4][SP := sp]);
    LoadStep(c, m, 12, 15, 4);
    var d := c.(regs := c.regs[PC := p + 8][12 := target]);
    BlxStep(d, m);
    FirstOfThree(cpu, mem, m, c, d, Branch(d.(regs := d.regs[LR := p + 12]), target));
  }

  lemma WrapperPlaces(p: Word)
    requires p + 20 <= 0x1_0000_0000
    ensures Plus(p, 4) == p + 4 && Plus(p, 8) == p + 8 && Plus(p, 12) == p + 12 && Plus(p, 16) == p + 16
    ensures Plus(p + 4, 4) == p + 8 && Plus(p + 8, 4) == p + 12 && Plus(p + 4, 8) == p + 12 && Plus(p + 12, 4) == p + 16
  {
    PlusIs(p, 4);
    PlusIs(p, 8);
    PlusIs(p, 12);
    PlusIs(p, 16);
    PlusPlus(p, 4, 4);
    PlusPlus(p, 4, 8);
    PlusPlus(p, 8, 4);
    PlusPlus(p, 12, 4);
    hide Plus;
  }

  lemma PushStep(cpu: Cpu, mem: Mem)
    requires cpu.Valid() && !cpu.thumb && Decode(Read(mem, cpu.regs[PC])) == PushR0Lr
    ensures
      var sp := Plus(cpu.regs[SP], -8);
      Step(cpu, mem) == Next(cpu.(regs := cpu.regs[PC := Plus(cpu.regs[PC], 4)][SP := sp]),
                             WriteWords(mem, sp, [cpu.regs[0], cpu.regs[LR]]))
  {
    hide Decode, WriteWords;
  }

  lemma BlxStep(cpu: Cpu, mem: Mem)
    requires cpu.Valid() && !cpu.thumb && Decode(Read(mem, cpu.regs[PC])) == BranchLink(12)
    ensures Step(cpu, mem) == Next(Branch(cpu.(regs := cpu.regs[LR := Plus(cpu.regs[PC], 4)]), cpu.regs[12]), mem)
  {
    hide Decode;
  }

  /** The wrapper's instructions, before and after the first of them has pushed two registers. */
  lemma WrapperAfterPush(mem: Mem, p: Word, target: Word, sp: Word, self: Word, lr: Word)
    requires Holds(mem, p, WrapperWords(target)) && p + 20 <= 0x1_0000_0000
    requires sp + 8 <= p || (p + 20 <= sp && sp + 8 <= 0x1_0000_0000)
    ensures
      var m := WriteWords(mem, sp, [self, lr]);
      && Decode(Read(mem, p)) == PushR0Lr && Decode(Read(m, Plus(p, 4))) == Load(12, 15, 4)
      && Decode(Read(m, Plus(p, 8))) == BranchLink(12) && Read(m, Plus(p, 16)) == target
      && Read(m, sp) == self && Read(m, Plus(sp, 4)) == lr && Holds(m, p, WrapperWords(target))
  {
    hide WriteWords, Holds, Plus, Read, Decode;
    var words := WrapperWords(target);
    var m := WriteWords(mem, sp, [self, lr]);
    WrapperUntouched(mem, p, target, sp, self, lr);
    PlusPlus(sp, 0, 0);
    PlusPlus(p, 0, 0);
    WrittenHolds(mem, sp, [self, lr]);
    HoldsWord(mem, p, words, 0);
    HoldsWord(m, p, words, 1);
    HoldsWord(m, p, words, 2);
    HoldsWord(m, p, words, 4);
    HoldsWord(m, sp, [self, lr], 0);
    HoldsWord(m, sp, [self, lr], 1);
    WrapperDecodes();
  }

  lemma WrapperDecodes()
    ensures Decode(PUSH_R0_LR) == PushR0Lr && Decode(LOAD_R12) == Load(12, 15, 4) && Decode(BLX_R12) == BranchLink(12)
  {
  }

  lemma WrapperUntouched(mem: Mem, p: Word, target: Word, sp: Word, self: Word, lr: Word)
    requires Holds(mem, p, WrapperWords(target)) && p + 20 <= 0x1_0000_0000
    requires sp + 8 <= p || (p + 20 <= sp && sp + 8 <= 0x1_0000_0000)
    ensures Holds(WriteWords(mem, sp, [self, lr]), p, WrapperWords(target))
  {
    hide WriteWords, Holds, Read;
    Untouched(mem, sp, [self, lr]);
    var words := WrapperWords(target);
    assert |words| == 5;
    hide WrapperWords;
    HoldsStill(mem, WriteWords(mem, sp, [self, lr]), p, words);
  }

  lemma FirstOfThree(cpu: Cpu, mem: Mem, m: Mem, c: Cpu, d: Cpu, e: Cpu)
    requires cpu.Valid() && c.Valid() && d.Valid() && e.Valid()
    requires Step(cpu, mem) == Next(c, m) && Step(c, m) == Next(d, m) && Step(d, m) == Next(e, m)
    ensures Steps(cpu, mem, 3) == Next(e, m)
  {
    hide Step;
    assert Steps(cpu, mem, 3) == Steps(c, m, 2) == Steps(d, m, 1) == Steps(e, m, 0);
  }

  /** When the wrapped function returns, the wrapper returns `this` to the caller. */
  lemma WrapperLeaves(mem: Mem, p: Word, target: Word, cpu: Cpu, self: Word, lr: Word)
    requires Holds(mem, p, WrapperWords(target)) && p + 20 <= 0x1_0000_0000
    requires cpu.Valid() && !cpu.thumb && cpu.regs[PC] == p + 12
    requires Read(mem, cpu.regs[SP]) == self && Read(mem, Plus(cpu.regs[SP], 4)) == lr
    ensures
      var o := Step(cpu, mem);
      && o.Next? && o.mem == mem && IsAt(o.cpu, lr)
      && o.cpu.regs[0] == self && o.cpu.regs[SP] == Plus(cpu.regs[SP], 8)
      && forall r | 0 < r < 13 || r == LR :: o.cpu.regs[r] == cpu.regs[r]
  {
    assert Read(mem, Plus(p, 4 * 3)) == WrapperWords(target)[3];
    assert Decode(POP_R0_PC) == PopR0Pc;
  }
}
