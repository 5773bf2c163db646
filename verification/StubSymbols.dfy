/**
 Which symbol a stub stands for, in terms of the tables of the binaries, and that it is this symbol
 whose function a stub reaches, now and after everything that happens later.
 */
module StubSymbols {
  import opened Wrappers
  import opened A32
  import opened Dyld
  import opened StubRuns
  import opened StubMeaning

  // ---------------------------------------------------------------- stubs

  /**
   `a` is the address of entry `i` of the stubs of binary `j`, no earlier binary has stubs there, and
   the entry has the symbol.
   */
  ghost predicate StandsFor(bins: seq<Bin>, a: Word, j: int, i: int, symbol: string) {
    && 0 <= j < |bins| && bins[j].stubs.Some?
    && var stubs := bins[j].stubs.value;
    && IsEntrySize(stubs.entrySize)
    && 0 <= i < |stubs.symbols| && stubs.symbols[i] == Some(symbol)
    && a == stubs.addr + i * stubs.entrySize && a < stubs.addr as int + stubs.size
    && forall k | 0 <= k < j && bins[k].stubs.Some? ::
         !(bins[k].stubs.value.addr <= a < bins[k].stubs.value.addr as int + bins[k].stubs.value.size)
  }

  lemma EntryIndex(size: Word, i: nat, offset: nat)
    requires IsEntrySize(size)
    ensures offset == i * size <==> offset / size == i && offset % size == 0
  {
    if size == 4 {
      assert offset == 4 * (offset / 4) + offset % 4;
    } else if size == 12 {
      assert offset == 12 * (offset / 12) + offset % 12;
    } else {
      assert offset == 16 * (offset / 16) + offset % 16;
    }
  }

  /** The distance from the stubs to the lazy symbol pointers, modulo 2^32, or 0 when there are none. */
  function Distance(bin: Bin): Word
    requires bin.stubs.Some?
  {
    if bin.lazyPointers.None? then 0 else Plus(bin.lazyPointers.value, -(bin.stubs.value.addr as int))
  }

  /** Looking up the stubs finds the first binary that has some at the address. */
  lemma {:induction false} FindsFirst(bins: seq<Bin>, a: Word, j: nat)
    requires j < |bins| && bins[j].stubs.Some? && InSection(bins[j].stubs.value, a)
    requires forall k | 0 <= k < j && bins[k].stubs.Some? :: !InSection(bins[k].stubs.value, a)
    ensures FindStubs(bins, a) == Some((bins[j].stubs.value, Distance(bins[j])))
  {
    if j > 0 {
      assert forall k | 0 <= k < j - 1 && bins[1..][k].stubs.Some? :: bins[1..][k] == bins[k + 1];
      FindsFirst(bins[1..], a, j - 1);
    }
  }

  lemma {:induction false} FoundFirst(bins: seq<Bin>, a: Word) returns (j: nat)
    requires FindStubs(bins, a).Some?
    ensures j < |bins| && bins[j].stubs.Some? && InSection(bins[j].stubs.value, a)
    ensures forall k | 0 <= k < j && bins[k].stubs.Some? :: !InSection(bins[k].stubs.value, a)
  {
    if bins[0].stubs.Some? && InSection(bins[0].stubs.value, a) {
      j := 0;
    } else {
      j := FoundFirst(bins[1..], a);
      assert forall k | 1 <= k < j + 1 :: bins[k] == bins[1..][k - 1];
      j := j + 1;
    }
  }

  /** The stub found at an address is the entry there of the first binary that has stubs there. */
  lemma StubIsEntry(bins: seq<Bin>, a: Word, j: int, i: int, symbol: string)
    requires StandsFor(bins, a, j, i, symbol)
    ensures StubAt(bins, a) == Some(Entry(bins[j].stubs.value.entrySize, Distance(bins[j]), symbol))
  {
    var stubs := bins[j].stubs.value;
    EntryIndex(stubs.entrySize, i, a - stubs.addr);
    assert InSection(stubs, a) by { assert i * stubs.entrySize >= 0; }
    FindsFirst(bins, a, j);
  }

  /** And there is such an entry whenever a stub is found. */
  lemma StubFound(bins: seq<Bin>, a: Word) returns (j: int, i: int)
    requires StubAt(bins, a).Some?
    ensures StandsFor(bins, a, j, i, StubAt(bins, a).value.symbol)
  {
    j := FoundFirst(bins, a);
    FindsFirst(bins, a, j);
    var stubs := bins[j].stubs.value;
    i := (a - stubs.addr) / stubs.entrySize;
    EntryIndex(stubs.entrySize, i, a - stubs.addr);
  }

  lemma StubExactly(bins: seq<Bin>, a: Word, symbol: string)
    ensures StubAt(bins, a).Some? && StubAt(bins, a).value.symbol == symbol <==> exists j, i :: StandsFor(bins, a, j, i, symbol)
  {
    if StubAt(bins, a).Some? {
      var j, i := StubFound(bins, a);
    }
    if j, i :| StandsFor(bins, a, j, i, symbol) {
      StubIsEntry(bins, a, j, i, symbol);
    }
  }

  // ---------------------------------------------------------------- exports

  /** Binary `k` is the first to export the symbol. */
  ghost predicate ExportsFirst(bins: seq<Bin>, symbol: string, k: int) {
    && 0 <= k < |bins| && symbol in bins[k].exports
    && forall n | 0 <= n < k :: symbol !in bins[n].exports
  }

  lemma {:induction false} FirstExportIs(bins: seq<Bin>, symbol: string, k: int)
    requires ExportsFirst(bins, symbol, k)
    ensures FirstExport(bins, symbol) == Some((bins[k].exports[symbol], bins[k].isLibstdcxx))
    decreases k
  {
    if k > 0 {
      assert forall n | 0 <= n < k :: bins[1..][n] == bins[n + 1];
      assert ExportsFirst(bins[1..], symbol, k - 1);
      FirstExportIs(bins[1..], symbol, k - 1);
    }
  }

  lemma {:induction false} FirstExportFound(bins: seq<Bin>, symbol: string) returns (k: int)
    requires FirstExport(bins, symbol).Some?
    ensures ExportsFirst(bins, symbol, k)
  {
    if symbol in bins[0].exports {
      k := 0;
    } else {
      k := FirstExportFound(bins[1..], symbol);
      assert forall n | 1 <= n < k + 1 :: bins[n] == bins[1..][n - 1];
      k := k + 1;
    }
  }

  /** A symbol resolves to the first binary in order that exports it. */
  lemma FirstExportExactly(bins: seq<Bin>, symbol: string)
    ensures FirstExport(bins, symbol).Some? <==> exists k :: 0 <= k < |bins| && symbol in bins[k].exports
    ensures forall k | ExportsFirst(bins, symbol, k) ::
      FirstExport(bins, symbol) == Some((bins[k].exports[symbol], bins[k].isLibstdcxx))
  {
    if FirstExport(bins, symbol).Some? {
      var k := FirstExportFound(bins, symbol);
    }
    if k :| 0 <= k < |bins| && symbol in bins[k].exports {
      var first := EarliestExport(bins, symbol, k);
      FirstExportIs(bins, symbol, first);
    }
    forall k | ExportsFirst(bins, symbol, k)
      ensures FirstExport(bins, symbol) == Some((bins[k].exports[symbol], bins[k].isLibstdcxx))
    {
      FirstExportIs(bins, symbol, k);
    }
  }

  lemma EarliestExport(bins: seq<Bin>, symbol: string, k: nat) returns (first: nat)
    requires k < |bins| && symbol in bins[k].exports
    ensures ExportsFirst(bins, symbol, first)
  {
    first := k;
    if n: nat :| n < k && symbol in bins[n].exports {
      first := EarliestExport(bins, symbol, n);
    }
  }

  ghost predicate HasInside(s: string, t: string) {
    exists a: string, b: string :: s == a + t + b
  }

  lemma PartAt(s: string, t: string, i: nat)
    requires i <= |s| && t <= s[i..]
    ensures s == s[..i] + t + s[i..][|t|..]
  {
    assert s == s[..i] + s[i..] && s[i..] == t + s[i..][|t|..];
  }

  lemma PartFrom(a: string, t: string, b: string)
    ensures t <= (a + t + b)[|a|..]
  {
    assert (a + t + b)[|a|..] == t + b;
  }

  lemma ContainsExactly(s: string, t: string)
    ensures Contains(s, t) <==> HasInside(s, t)
  {
    if Contains(s, t) {
      var i :| 0 <= i <= |s| && t <= s[i..];
      PartAt(s, t, i);
    }
    if HasInside(s, t) {
      var a: string, b: string :| s == a + t + b;
      PartFrom(a, t, b);
    }
  }

  /** Names of C++ constructors: they start with `__Z`, and somewhere have `C1E` or `C2E`. */
  lemma WrapperNames(symbol: string)
    ensures NeedsReturnThisWrapper(symbol) <==> "__Z" <= symbol && (HasInside(symbol, "C1E") || HasInside(symbol, "C2E"))
  {
    hide Contains, HasInside;
    ContainsExactly(symbol, "C1E");
    ContainsExactly(symbol, "C2E");
  }

  // ---------------------------------------------------------------- linking

  /**
   How a stub is linked: to the function made for its symbol before, else to the first export, behind
   a wrapper for constructors of libstdc++, else to the host's function under a new number.
   */
  lemma LinksSymbol(env: Env, d: Linker, a: Word, block: Word, j: int, i: int, symbol: string)
    requires StandsFor(env.bins, a, j, i, symbol)
    ensures
      var (r, d') := LazyLink(env, d, a, block);
      var size, distance := env.bins[j].stubs.value.entrySize, Distance(env.bins[j]);
      if symbol in d.nonLazy then
        r == Resume && d' == d.(mem := LinkedStub(d.mem, a, size, distance, d.nonLazy[symbol]))
      else if exists k :: ExportsFirst(env.bins, symbol, k) then
        forall k | ExportsFirst(env.bins, symbol, k) ::
          && r == Resume
          && if env.bins[k].isLibstdcxx && NeedsReturnThisWrapper(symbol) then
               var (wrapper, wrapping) := Wrapped(d, symbol, env.bins[k].exports[symbol], block);
               d' == wrapping.(mem := LinkedStub(wrapping.mem, a, size, distance, wrapper))
             else d' == d.(mem := LinkedStub(d.mem, a, size, distance, env.bins[k].exports[symbol]))
      else if symbol in env.host && NextSvc(|d.linked|, size).Some? then
        && d'.linked == d.linked + [symbol] && d'.nonLazy == d.nonLazy && d'.wrappers == d.wrappers
        && d'.mem == d.mem[a := EncodeSvc(NextSvc(|d.linked|, size).value)]
        && r == if size != 4 && Read(d'.mem, Plus(a, 4)) != RET then Panicked else CallHost(symbol)
      else r == Panicked && d' == d
  {
    StubIsEntry(env.bins, a, j, i, symbol);
    FirstExportExactly(env.bins, symbol);
    if FirstExport(env.bins, symbol).Some? {
      var k := FirstExportFound(env.bins, symbol);
    }
    hide StubAt, FirstExport, LinkedStub, NeedsReturnThisWrapper, Wrapped, Plus, Read, NextSvc;
  }

  /** Elsewhere than at a stub the linker panics. */
  lemma LinksOnlyStubs(env: Env, d: Linker, a: Word, block: Word)
    requires !exists j, i, symbol :: StandsFor(env.bins, a, j, i, symbol)
    ensures LazyLink(env, d, a, block) == (Panicked, d)
  {
    if StubAt(env.bins, a).Some? {
      StubExactly(env.bins, a, StubAt(env.bins, a).value.symbol);
    }
  }

  /** What entry `i` of binary `j` may be bound to is what its symbol resolves to. */
  lemma BoundToItsSymbol(env: Env, l: Ledger, a: Word, j: int, i: int, symbol: string)
    requires StandsFor(env.bins, a, j, i, symbol)
    ensures StubAt(env.bins, a).Some?
    ensures BoundRightly(env, l, a) <==>
      match Bound(l, a)
      case Unbound => true
      case Host(s) => s == symbol && symbol in env.host && forall k | 0 <= k < |env.bins| :: symbol !in env.bins[k].exports
      case Guest(t) =>
        || (t in l.functions && l.functions[t] == symbol)
        || exists k :: ExportsFirst(env.bins, symbol, k) &&
             if env.bins[k].isLibstdcxx && NeedsReturnThisWrapper(symbol)
             then t in l.wraps && l.wraps[t] == env.bins[k].exports[symbol] else t == env.bins[k].exports[symbol]
  {
    StubIsEntry(env.bins, a, j, i, symbol);
    FirstExportExactly(env.bins, symbol);
    if FirstExport(env.bins, symbol).Some? {
      var k := FirstExportFound(env.bins, symbol);
    }
    hide StubAt, FirstExport, NeedsReturnThisWrapper;
  }

  /**
   Whatever happens after entry `i` of binary `j` has been linked, calling it goes to the function of
   `symbols[i]`: to the one made for it, to its first export or a wrapper around that, or, by number,
   to the host's.
   */
  lemma LinkedToItsSymbol(
    env: Env, m0: Mem, d: Linker, l: Ledger, events: seq<Event>, a: Word, j: int, i: int, symbol: string, cpu: Cpu,
    block: Word)
    requires Layout(env, m0) && Inv(env, m0, d, l) && Runs(env, m0, d, l, events)
    requires |After(env, m0, d, l, events).0.linked| <= 0x7f_fffd
    requires StandsFor(env.bins, a, j, i, symbol) && cpu.Valid() && !cpu.thumb && cpu.regs[PC] == a
    ensures
      var (d', l') := After(env, m0, d, l, events);
      match Bound(l, a)
      case Unbound => true
      case Host(_) =>
        var o := Step(cpu, d'.mem);
        o.Trapped? && Handle(env, d', a, o.svc, block) == (CallHost(symbol), d')
      case Guest(t) =>
        var o := Steps(cpu, d'.mem, StepsOf(env.bins[j].stubs.value.entrySize));
        && o.Next? && o.mem == d'.mem && KeepsRegisters(cpu, o.cpu) && IsAt(o.cpu, t)
        && ((t in l'.functions && l'.functions[t] == symbol) ||
            exists k :: ExportsFirst(env.bins, symbol, k) &&
              if env.bins[k].isLibstdcxx && NeedsReturnThisWrapper(symbol)
              then t in l'.wraps && l'.wraps[t] == env.bins[k].exports[symbol] else t == env.bins[k].exports[symbol])
  {
    StubIsEntry(env.bins, a, j, i, symbol);
    LinkedForGood(env, m0, d, l, events, a, cpu, block);
    RunKeeps(env, m0, d, l, events);
    var (d', l') := After(env, m0, d, l, events);
    StubsBoundRightly(env, m0, d, l, a);
    StubsBoundRightly(env, m0, d', l', a);
    BoundToItsSymbol(env, l, a, j, i, symbol);
    BoundToItsSymbol(env, l', a, j, i, symbol);
    assert Bound(l, a) != Unbound ==> Bound(l', a) == Bound(l, a);
    hide *;
  }

  lemma StubsBoundRightly(env: Env, m0: Mem, d: Linker, l: Ledger, a: Word)
    requires Layout(env, m0) && Inv(env, m0, d, l) && StubAt(env.bins, a).Some?
    ensures BoundRightly(env, l, a)
  {
    hide StubAt, Layout, BoundRightly;
  }

  // ---------------------------------------------------------------- preparing stubs

  /** Entry `i` holds the instructions a stub of its size starts with; nothing is expected of one word. */
  ghost predicate HoldsExpected(m: Mem, stubs: Stubs, i: nat)
    requires IsProper(stubs) && i < Entries(stubs)
  {
    EntryInSection(stubs, i);
    var a: Word := EntryAddr(stubs, i);
    match stubs.entrySize
    case 12 => Read(m, a) == 0xe59fc000 && Read(m, Plus(a, 4)) == 0xe59cf000
    case 16 => Read(m, a) == 0xe59fc004 && Read(m, Plus(a, 4)) == 0xe08fc00c && Read(m, Plus(a, 8)) == 0xe59cf000
    case _ => true
  }

  lemma ExpectedAre(m: Mem, stubs: Stubs, i: nat)
    requires IsProper(stubs) && i < Entries(stubs)
    ensures 0 <= EntryAddr(stubs, i) && EntryAddr(stubs, i) + stubs.entrySize <= 0x1_0000_0000
    ensures HoldsExpected(m, stubs, i) <==> Holds(m, EntryAddr(stubs, i), ExpectedWords(stubs.entrySize))
  {
    EntryInSection(stubs, i);
    var a: Word := EntryAddr(stubs, i);
    PlusPlus(a, 0, 0);
    hide Plus, Read, EntryAddr, Entries;
    var words := ExpectedWords(stubs.entrySize);
    if HoldsExpected(m, stubs, i) {
      forall k | 0 <= k < |words| ensures Read(m, Plus(a, 4 * k)) == words[k] {
        assert k == 0 || k == 1 || k == 2;
      }
    }
    if Holds(m, a, words) && stubs.entrySize != 4 {
      assert Read(m, Plus(a, 4 * 0)) == words[0] && Read(m, Plus(a, 4 * 1)) == words[1];
      assert stubs.entrySize == 16 ==> Read(m, Plus(a, 4 * 2)) == words[2];
    }
  }

  lemma ExpectedStay(m: Mem, m': Mem, size: Word, a: Word)
    requires IsEntrySize(size) && a + size <= 0x1_0000_0000 && Holds(m, a, ExpectedWords(size))
    requires forall w: Word | a <= w < a as int + size :: Read(m, w) == Read(m', w)
    ensures Holds(m', a, ExpectedWords(size))
  {
    hide Read, Holds, Plus;
    assert 4 * |ExpectedWords(size)| <= size;
    HoldsStill(m, m', a, ExpectedWords(size));
  }

  /** Preparing the stubs of a section succeeds exactly when each holds what is expected. */
  lemma {:induction false} SetUpExactly(m: Mem, stubs: Stubs, n: nat)
    requires IsProper(stubs) && n <= Entries(stubs)
    ensures SetUp(m, stubs, n).Some? <==> forall i | 0 <= i < n :: HoldsExpected(m, stubs, i)
  {
    if n > 0 {
      SetUpExactly(m, stubs, n - 1);
      ExpectedAre(m, stubs, n - 1);
      if SetUp(m, stubs, n - 1).Some? {
        LastSetUp(m, stubs, n);
      }
      assert SetUp(m, stubs, n - 1).None? ==> SetUp(m, stubs, n).None?;
      hide SetUp, HoldsExpected, Holds, EntryAddr;
    }
  }

  lemma LastSetUp(m: Mem, stubs: Stubs, n: nat)
    requires IsProper(stubs) && 0 < n <= Entries(stubs) && SetUp(m, stubs, n - 1).Some?
    ensures 0 <= EntryAddr(stubs, n - 1) && EntryAddr(stubs, n - 1) + stubs.entrySize <= 0x1_0000_0000
    ensures SetUp(m, stubs, n).Some? <==> Holds(m, EntryAddr(stubs, n - 1), ExpectedWords(stubs.entrySize))
  {
    var before := SetUp(m, stubs, n - 1).value;
    SectionOnly(m, stubs, n - 1);
    EntryInSection(stubs, n - 1);
    var a: Word := EntryAddr(stubs, n - 1);
    assert SetUp(m, stubs, n).Some? <==> HoldsAll(before, a, ExpectedWords(stubs.entrySize));
    forall w: Word | a <= w < a as int + stubs.entrySize ensures Read(m, w) == Read(before, w) {
      assert SameAt(m, before, w);
    }
    hide SetUp, Holds, ExpectedWords, EntryAddr;
    if Holds(m, a, ExpectedWords(stubs.entrySize)) {
      ExpectedStay(m, before, stubs.entrySize, a);
    }
    if Holds(before, a, ExpectedWords(stubs.entrySize)) {
      ExpectedStay(before, m, stubs.entrySize, a);
    }
  }

  // ---------------------------------------------------------------- numbers and addresses

  /** There are numbers for 0x7ffffd functions called from one-word stubs, and for 0xfffffd others. */
  lemma NumbersRunOut(count: nat, entrySize: Word)
    ensures NextSvc(count, entrySize).Some? <==> count < if entrySize == 4 then 0x7f_fffd else 0xff_fffd
  {
  }

  /** What the 24 bits of a supervisor call stand for: with the top bit taken off, all but the three reserved numbers. */
  lemma NumberExactly(svc: Word, i: nat)
    requires svc < 0x100_0000
    ensures IndexOf(svc) == Some(i) <==> i < 0x7f_fffd && (svc == i + 3 || svc == 0x80_0000 + i + 3)
    ensures IndexOf(svc).None? <==> svc in {0, 1, 2, 0x80_0000, 0x80_0001, 0x80_0002}
  {
    if svc < 0x80_0000 {
      assert svc / 0x80_0000 == 0;
    } else {
      assert svc / 0x80_0000 == 1;
    }
  }

  /** The address of a function the host has is found while numbers last, and is the same ever after. */
  lemma AddressReplies(env: Env, d: Linker, symbol: string, block: Word, later: Word)
    ensures
      var (r, d') := GetProcAddress(env, d, symbol, block);
      && (r == NoSuchFunction <==> symbol !in env.host)
      && (r == Exhausted <==> symbol in env.host && symbol !in d.nonLazy && |d.linked| >= 0xff_fffd)
      && (!r.Address? ==> d' == d)
      && (r.Address? ==>
        && symbol in d'.nonLazy && d'.nonLazy[symbol] == r.addr
        && (if symbol in d.nonLazy then d' == d
            else r.addr == block && d'.linked == d.linked + [symbol] && d'.wrappers == d.wrappers)
        && (forall other <- d.nonLazy :: other in d'.nonLazy && d'.nonLazy[other] == d.nonLazy[other])
        && GetProcAddress(env, d', symbol, later) == (r, d'))
  {
    NumbersRunOut(|d.linked|, 8);
    hide WriteWords;
  }
}
