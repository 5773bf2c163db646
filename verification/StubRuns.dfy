/**
 Runs of the dynamic linker: over any sequence of calls of stubs, creations of functions and
 other stores, every stub keeps meaning what it was linked to.
 */
module StubRuns {
  import opened Wrappers
  import opened A32
  import opened Dyld

  /** What a stub has been linked to. */
  datatype Binding = Unbound | Guest(target: Word) | Host(symbol: string)

  /** What has been linked and made: bindings by stub, made functions, wrappers by address. */
  datatype Ledger = Ledger(bindings: map<Word, Binding>, functions: map<Word, string>, wraps: map<Word, Word>)

  const NOTHING_YET := Ledger(map[], map[], map[])

  function Bound(l: Ledger, a: Word): Binding {
    if a in l.bindings then l.bindings[a] else Unbound
  }

  // ---------------------------------------------------------------- the layout

  ghost predicate InSomeSection(env: Env, w: Word) {
    exists i :: 0 <= i < |env.bins| && env.bins[i].stubs.Some? && InSection(env.bins[i].stubs.value, w)
  }

  ghost predicate SectionsApart(env: Env) {
    forall i, j | 0 <= i < j < |env.bins| && env.bins[i].stubs.Some? && env.bins[j].stubs.Some? ::
      forall w: Word :: !(InSection(env.bins[i].stubs.value, w) && InSection(env.bins[j].stubs.value, w))
  }

  /** The pointer of a stub, in the memory as loaded. */
  function Slot(env: Env, m0: Mem, a: Word): Word
    requires StubAt(env.bins, a).Some?
  {
    var e := StubAt(env.bins, a).value;
    SlotOf(m0, a, e.size, e.picOffset)
  }

  /** Stub sections do not overlap; pointers are distinct and outside of them; one-word stubs keep their instruction. */
  ghost predicate Layout(env: Env, m0: Mem) {
    && (forall i | 0 <= i < |env.bins| && env.bins[i].stubs.Some? :: IsProper(env.bins[i].stubs.value))
    && SectionsApart(env)
    && (forall a: Word | StubAt(env.bins, a).Some? ::
          && Links(StubAt(env.bins, a).value)
          && Slot(env, m0, a) % 4 == 0
          && !InSomeSection(env, Slot(env, m0, a)))
    && (forall a: Word, b: Word | StubAt(env.bins, a).Some? && StubAt(env.bins, b).Some? && a != b :: Slot(env, m0, a) != Slot(env, m0, b))
  }

  lemma {:induction false} FoundInBins(bins: seq<Bin>, pc: Word)
    requires FindStubs(bins, pc).Some?
    ensures exists i :: 0 <= i < |bins| && bins[i].stubs == Some(FindStubs(bins, pc).value.0) && InSection(FindStubs(bins, pc).value.0, pc)
  {
    if !(bins[0].stubs.Some? && InSection(bins[0].stubs.value, pc)) {
      FoundInBins(bins[1..], pc);
      var i :| 0 <= i < |bins| - 1 && bins[1..][i].stubs == Some(FindStubs(bins, pc).value.0);
      assert bins[i + 1] == bins[1..][i];
    }
  }

  /** A stub lies within its section, at a multiple of its size. */
  lemma StubInSection(env: Env, m0: Mem, a: Word)
    requires Layout(env, m0) && StubAt(env.bins, a).Some?
    ensures
      var stubs := FindStubs(env.bins, a).value.0;
      var size := StubAt(env.bins, a).value.size;
      && (exists i :: 0 <= i < |env.bins| && env.bins[i].stubs == Some(stubs))
      && IsProper(stubs) && stubs.entrySize == size && (a - stubs.addr) % size == 0 && a % 4 == 0
      && stubs.addr <= a && a + size <= stubs.addr + stubs.size
  {
    FoundInBins(env.bins, a);
    StubIsAligned(env.bins, a);
    hide StubAt, FindStubs, SlotOf, Slot, IsFree, SectionsApart, Links;
    var stubs := FindStubs(env.bins, a).value.0;
    var i :| 0 <= i < |env.bins| && env.bins[i].stubs == Some(stubs);
    assert IsProper(stubs);
    EndsInSection(stubs, a);
  }

  lemma StubIsAligned(bins: seq<Bin>, a: Word)
    requires StubAt(bins, a).Some?
    ensures FindStubs(bins, a).Some?
    ensures
      var stubs := FindStubs(bins, a).value.0;
      stubs.entrySize == StubAt(bins, a).value.size && (a - stubs.addr) % stubs.entrySize == 0
  {
    hide FindStubs;
  }

  lemma EvenIfAligned(n: int)
    requires n % 4 == 0
    ensures n % 2 == 0
  {
    var q := n / 4;
    assert n == 2 * (2 * q);
  }

  lemma SumIsAligned(m: int, n: int)
    requires m % 4 == 0 && n % 4 == 0
    ensures (m + n) % 4 == 0
  {
    assert m + n == 4 * (m / 4 + n / 4);
  }

  lemma FourTimes(m: int, q: int)
    requires m == 4 * q
    ensures m % 4 == 0
  {
  }

  lemma FoursApart(m: nat, n: nat)
    requires m % 4 == 0 && n % 4 == 0
    ensures m < n ==> m + 4 <= n
  {
    assert m == 4 * (m / 4) && n == 4 * (n / 4);
  }

  lemma TwelvesApart(m: nat, n: nat)
    requires m % 12 == 0 && n % 12 == 0
    ensures (m < n ==> m + 12 <= n) && m % 4 == 0
  {
    assert m == 12 * (m / 12) && n == 12 * (n / 12);
    FourTimes(m, 3 * (m / 12));
  }

  lemma SixteensApart(m: nat, n: nat)
    requires m % 16 == 0 && n % 16 == 0
    ensures (m < n ==> m + 16 <= n) && m % 4 == 0
  {
    assert m == 16 * (m / 16) && n == 16 * (n / 16);
    FourTimes(m, 4 * (m / 16));
  }

  /** Multiples of an entry size that are not equal differ by at least that size. */
  lemma MultiplesApart(m: nat, n: nat, size: nat)
    requires (size == 4 || size == 12 || size == 16) && m % size == 0 && n % size == 0
    ensures m < n ==> m + size <= n
    ensures m % 4 == 0
  {
    if size == 4 {
      FoursApart(m, n);
    } else if size == 12 {
      TwelvesApart(m, n);
    } else {
      SixteensApart(m, n);
    }
  }

  lemma EndsInSection(stubs: Stubs, a: Word)
    requires IsProper(stubs) && InSection(stubs, a) && (a - stubs.addr) % stubs.entrySize == 0
    ensures a % 4 == 0 && a + stubs.entrySize <= stubs.addr + stubs.size
  {
    MultiplesApart(a - stubs.addr, stubs.size, stubs.entrySize);
    SumIsAligned(a - stubs.addr, stubs.addr);
  }

  /** The words a stub depends on: its own and its pointer. */
  ghost predicate Owns(env: Env, m0: Mem, a: Word, w: Word)
    requires StubAt(env.bins, a).Some?
  {
    a <= w < a as int + StubAt(env.bins, a).value.size || w == Slot(env, m0, a)
  }

  lemma StubsApart(env: Env, m0: Mem, a: Word, b: Word, w: Word)
    requires Layout(env, m0) && StubAt(env.bins, a).Some? && StubAt(env.bins, b).Some? && a != b
    ensures !(Owns(env, m0, a, w) && Owns(env, m0, b, w))
  {
    hide StubAt, Slot, FindStubs, SlotOf, Layout, InSection, InSomeSection;
    StubIsAligned(env.bins, a);
    StubIsAligned(env.bins, b);
    StubInSection(env, m0, a);
    StubInSection(env, m0, b);
    var s, t := FindStubs(env.bins, a).value.0, FindStubs(env.bins, b).value.0;
    var sizeA, sizeB := StubAt(env.bins, a).value.size, StubAt(env.bins, b).value.size;
    if a <= w < a as int + sizeA {
      OwnWord(env, m0, a, w);
      if b <= w < b as int + sizeB {
        OwnWord(env, m0, b, w);
        SectionsMeet(env, m0, s, t, w);
        SameSection(s, a, b, w);
      } else {
        SlotsApart(env, m0, b, b, w);
      }
    } else {
      if b <= w < b as int + sizeB {
        OwnWord(env, m0, b, w);
        SlotsApart(env, m0, a, a, w);
      } else {
        SlotsApart(env, m0, a, b, w);
      }
    }
  }

  /** The stub's own words lie in its section. */
  lemma OwnWord(env: Env, m0: Mem, a: Word, w: Word)
    requires Layout(env, m0) && StubAt(env.bins, a).Some? && a <= w < a as int + StubAt(env.bins, a).value.size
    ensures FindStubs(env.bins, a).Some? && InSection(FindStubs(env.bins, a).value.0, w) && InSomeSection(env, w)
  {
    StubInSection(env, m0, a);
    hide StubAt, FindStubs, Layout;
    var s := FindStubs(env.bins, a).value.0;
    var i :| 0 <= i < |env.bins| && env.bins[i].stubs == Some(s);
    assert InSection(s, w);
  }

  lemma SectionsMeet(env: Env, m0: Mem, s: Stubs, t: Stubs, w: Word)
    requires Layout(env, m0) && InSection(s, w) && InSection(t, w)
    requires exists i :: 0 <= i < |env.bins| && env.bins[i].stubs == Some(s)
    requires exists i :: 0 <= i < |env.bins| && env.bins[i].stubs == Some(t)
    ensures s == t
  {
    hide StubAt, InSection, Slot, IsProper, InSomeSection;
    var i :| 0 <= i < |env.bins| && env.bins[i].stubs == Some(s);
    var j :| 0 <= j < |env.bins| && env.bins[j].stubs == Some(t);
    assert i < j || j < i || i == j;
  }

  /** A pointer lies in no section, and belongs to one stub. */
  lemma SlotsApart(env: Env, m0: Mem, a: Word, b: Word, w: Word)
    requires Layout(env, m0) && StubAt(env.bins, a).Some? && StubAt(env.bins, b).Some?
    ensures w == Slot(env, m0, a) ==> !InSomeSection(env, w)
    ensures a != b ==> !(w == Slot(env, m0, a) && w == Slot(env, m0, b))
  {
    hide StubAt, Slot, InSomeSection, SectionsApart, IsProper;
  }

  lemma SameSection(s: Stubs, a: Word, b: Word, w: Word)
    requires IsEntrySize(s.entrySize) && s.addr <= a && s.addr <= b
    requires (a - s.addr) % s.entrySize == 0 && (b - s.addr) % s.entrySize == 0
    requires a <= w < a as int + s.entrySize && b <= w < b as int + s.entrySize
    ensures a == b
  {
    MultiplesApart(a - s.addr, b - s.addr, s.entrySize);
    MultiplesApart(b - s.addr, a - s.addr, s.entrySize);
  }

  // ---------------------------------------------------------------- what a stub holds

  /** The word calls the host function of this name. */
  ghost predicate CallsHost(d: Linker, w: Word, size: Word, symbol: string) {
    exists i :: 0 <= i < |d.linked| && d.linked[i] == symbol && IsNumber(i, size, w)
  }

  predicate IsNumber(i: nat, size: Word, w: Word) {
    NextSvc(i, size).Some? && w == EncodeSvc(NextSvc(i, size).value)
  }

  ghost predicate StubHolds(env: Env, m0: Mem, d: Linker, a: Word, binding: Binding)
    requires StubAt(env.bins, a).Some? && Links(StubAt(env.bins, a).value)
  {
    var e := StubAt(env.bins, a).value;
    && (e.size == 12 ==> Read(d.mem, Plus(a, 8)) == Read(m0, Plus(a, 8)))
    && (e.size == 16 ==> Read(d.mem, Plus(a, 12)) == Read(m0, Plus(a, 12)))
    && match binding
       case Unbound => Holds(d.mem, a, StubWords(e.size))
       case Guest(target) =>
         Holds(d.mem, a, RestoredWords(e.size, e.picOffset)) && Read(d.mem, Slot(env, m0, a)) == target
       case Host(symbol) => CallsHost(d, Read(d.mem, a), e.size, symbol) && (e.size != 4 ==> Read(d.mem, Plus(a, 4)) == RET)
  }

  ghost predicate FunctionHolds(d: Linker, p: Word, symbol: string) {
    CallsHost(d, Read(d.mem, p), 8, symbol) && Read(d.mem, Plus(p, 4)) == RET
  }

  /** A stub is bound to what its symbol stands for. */
  ghost predicate BoundRightly(env: Env, l: Ledger, a: Word)
    requires StubAt(env.bins, a).Some?
  {
    var symbol := StubAt(env.bins, a).value.symbol;
    match Bound(l, a)
    case Unbound => true
    case Host(s) => s == symbol && symbol in env.host && FirstExport(env.bins, symbol).None?
    case Guest(t) =>
      || (t in l.functions && l.functions[t] == symbol)
      || (FirstExport(env.bins, symbol).Some? &&
          var (addr, isLibstdcxx) := FirstExport(env.bins, symbol).value;
          if isLibstdcxx && NeedsReturnThisWrapper(symbol) then t in l.wraps && l.wraps[t] == addr else t == addr)
  }

  /** A block holding code made by the linker. */
  predicate InBlock(l: Ledger, w: Word) {
    || (exists p <- l.functions :: p <= w < p as int + 8)
    || (exists p <- l.wraps :: p <= w < p as int + 20)
  }

  ghost predicate IsFree(env: Env, m0: Mem, w: Word) {
    && !InSomeSection(env, w)
    && forall a: Word | StubAt(env.bins, a).Some? :: Slot(env, m0, a) != w
  }

  /** Blocks come from an allocator: apart from the stubs, their pointers and earlier blocks. */
  ghost predicate IsFresh(env: Env, m0: Mem, l: Ledger, block: Word) {
    && block % 4 == 0 && block + 20 <= 0x1_0000_0000
    && forall w: Word | block <= w < block as int + 20 :: IsFree(env, m0, w) && !InBlock(l, w)
  }

  ghost predicate BlocksAligned(l: Ledger) {
    && (forall p <- l.functions :: IsBlock(p, 8))
    && (forall p <- l.wraps :: IsBlock(p, 20))
  }

  predicate IsBlock(p: Word, size: nat) {
    p % 4 == 0 && p + size <= 0x1_0000_0000
  }

  ghost predicate BlocksApart(env: Env, m0: Mem, l: Ledger) {
    && BlocksAligned(l)
    && (forall w: Word | InBlock(l, w) :: IsFree(env, m0, w))
    && (forall p, q | p in l.functions && q in l.functions && p < q :: p + 8 <= q)
    && (forall p, q | p in l.wraps && q in l.wraps && p < q :: p + 20 <= q)
    && (forall p, q | p in l.functions && q in l.wraps :: p + 8 <= q || q + 20 <= p)
  }

  ghost predicate StubsHold(env: Env, m0: Mem, d: Linker, l: Ledger)
    requires Layout(env, m0)
  {
    forall a: Word | StubAt(env.bins, a).Some? :: StubHolds(env, m0, d, a, Bound(l, a))
  }

  ghost predicate StubsRight(env: Env, l: Ledger) {
    forall a: Word | StubAt(env.bins, a).Some? :: BoundRightly(env, l, a)
  }

  ghost predicate FunctionsHold(d: Linker, functions: map<Word, string>) {
    forall p <- functions :: FunctionHolds(d, p, functions[p])
  }

  ghost predicate WrapsHold(mem: Mem, wraps: map<Word, Word>) {
    forall p <- wraps :: Holds(mem, p, WrapperWords(wraps[p]))
  }

  /** The linker's own tables name what has been made. */
  ghost predicate TablesRight(env: Env, d: Linker, l: Ledger) {
    && (forall s <- d.nonLazy :: d.nonLazy[s] in l.functions && l.functions[d.nonLazy[s]] == s)
    && (forall s <- d.wrappers :: d.wrappers[s] in l.wraps && FirstExport(env.bins, s) == Some((l.wraps[d.wrappers[s]], true)))
  }

  ghost predicate Inv(env: Env, m0: Mem, d: Linker, l: Ledger)
    requires Layout(env, m0)
  {
    && StubsHold(env, m0, d, l) && StubsRight(env, l) && FunctionsHold(d, l.functions) && WrapsHold(d.mem, l.wraps)
    && TablesRight(env, d, l) && BlocksApart(env, m0, l)
  }

  // ---------------------------------------------------------------- events

  datatype Event =
    | Execute(pc: Word, block: Word)
    | Create(symbol: string, block: Word)
    | LookUp(symbol: string, block: Word)
    | Store(w: Word, value: Word)

  /** The guest does not overwrite what the linker depends on. */
  ghost predicate Allowed(env: Env, m0: Mem, l: Ledger, ev: Event) {
    match ev
    case Store(w, _) => w % 4 == 0 && IsFree(env, m0, w) && !InBlock(l, w)
    case _ => IsFresh(env, m0, l, ev.block)
  }

  /** What an event does; `None` when the emulator panics. */
  function Perform(env: Env, d: Linker, ev: Event): Option<Linker>
  {
    match ev
    case Execute(pc, block) =>
      var i := Decode(Read(d.mem, pc));
      if !i.Svc? then Some(d)
      else
        var (r, d') := Handle(env, d, pc, i.imm, block);
        if r.Panicked? then None else Some(d')
    case Create(symbol, block) => MakeFunction(d, symbol, block)
    case LookUp(symbol, block) =>
      var (r, d') := GetProcAddress(env, d, symbol, block);
      if r.Exhausted? then None else Some(d')
    case Store(w, value) => Some(d.(mem := d.mem[w := value]))
  }

  /** What is known after the stub at `pc` has been linked. */
  function LinkedLedger(env: Env, d: Linker, l: Ledger, pc: Word, block: Word): Ledger
    requires StubAt(env.bins, pc).Some?
  {
    var symbol := StubAt(env.bins, pc).value.symbol;
    if symbol in d.nonLazy then l.(bindings := l.bindings[pc := Guest(d.nonLazy[symbol])])
    else match FirstExport(env.bins, symbol)
      case Some((addr, isLibstdcxx)) =>
        if isLibstdcxx && NeedsReturnThisWrapper(symbol) then
          if symbol in d.wrappers then l.(bindings := l.bindings[pc := Guest(d.wrappers[symbol])])
          else l.(bindings := l.bindings[pc := Guest(block)], wraps := l.wraps[block := addr])
        else l.(bindings := l.bindings[pc := Guest(addr)])
      case None => l.(bindings := l.bindings[pc := Host(symbol)])
  }

  function NextLedger(env: Env, d: Linker, l: Ledger, ev: Event): Ledger {
    match ev
    case Execute(pc, block) =>
      var i := Decode(Read(d.mem, pc));
      if i.Svc? && (i.imm == SVC_LAZY_LINK || i.imm == SVC_LAZY_LINK_RET_FLAG) && StubAt(env.bins, pc).Some? then
        LinkedLedger(env, d, l, pc, block)
      else l
    case Create(symbol, block) => l.(functions := l.functions[block := symbol])
    case LookUp(symbol, block) =>
      if symbol !in env.host || symbol in d.nonLazy then l else l.(functions := l.functions[block := symbol])
    case Store(_, _) => l
  }

  // ---------------------------------------------------------------- frames

  /** Only these words may differ. */
  ghost predicate SameExcept(m: Mem, m': Mem, changed: iset<Word>) {
    forall w: Word | w !in changed :: Read(m', w) == Read(m, w)
  }

  ghost predicate SameAt(m: Mem, m': Mem, w: Word) {
    Read(m, w) == Read(m', w)
  }

  ghost predicate Grows(d: Linker, d': Linker) {
    d.linked <= d'.linked
  }

  lemma CallsHostStill(d: Linker, d': Linker, w: Word, size: Word, symbol: string)
    requires Grows(d, d') && CallsHost(d, w, size, symbol)
    ensures CallsHost(d', w, size, symbol)
  {
    hide IsNumber;
    var i :| 0 <= i < |d.linked| && d.linked[i] == symbol && IsNumber(i, size, w);
    assert d'.linked[i] == symbol;
  }

  lemma PlusIs(a: Word, n: nat)
    ensures a + n < 0x1_0000_0000 ==> Plus(a, n) == a + n
  {
  }

  lemma HoldsStill(m: Mem, m': Mem, a: Word, words: seq<Word>)
    requires a + 4 * |words| <= 0x1_0000_0000 && Holds(m, a, words)
    requires forall w: Word | a <= w < a as int + 4 * |words| :: SameAt(m, m', w)
    ensures Holds(m', a, words)
  {
    forall k | 0 <= k < |words| ensures Read(m', Plus(a, 4 * k)) == words[k] {
      assert SameAt(m, m', Plus(a, 4 * k));
    }
  }

  lemma StubFrame(env: Env, m0: Mem, d: Linker, d': Linker, a: Word, binding: Binding)
    requires Layout(env, m0) && StubAt(env.bins, a).Some? && StubHolds(env, m0, d, a, binding) && Grows(d, d')
    requires forall w: Word | Owns(env, m0, a, w) :: SameAt(d.mem, d'.mem, w)
    ensures StubHolds(env, m0, d', a, binding)
  {
    StubInSection(env, m0, a);
    hide StubAt, Slot, SlotOf, Layout, FindStubs, Holds, CallsHost, Plus, Read, WriteWords, Grows;
    var e := StubAt(env.bins, a).value;
    PlusIs(a, 4);
    PlusIs(a, 8);
    PlusIs(a, 12);
    assert Owns(env, m0, a, a) && Owns(env, m0, a, Slot(env, m0, a));
    assert SameAt(d.mem, d'.mem, a) && SameAt(d.mem, d'.mem, Slot(env, m0, a));
    if e.size != 4 {
      assert Owns(env, m0, a, Plus(a, 4)) && Owns(env, m0, a, Plus(a, 8));
      assert SameAt(d.mem, d'.mem, Plus(a, 4)) && SameAt(d.mem, d'.mem, Plus(a, 8));
    }
    if e.size == 16 {
      assert Owns(env, m0, a, Plus(a, 12)) && SameAt(d.mem, d'.mem, Plus(a, 12));
    }
    if binding.Unbound? {
      HoldsStill(d.mem, d'.mem, a, StubWords(e.size));
    } else if binding.Guest? {
      HoldsStill(d.mem, d'.mem, a, RestoredWords(e.size, e.picOffset));
    } else {
      CallsHostStill(d, d', Read(d.mem, a), e.size, binding.symbol);
    }
  }

  lemma FunctionFrame(d: Linker, d': Linker, p: Word, symbol: string)
    requires FunctionHolds(d, p, symbol) && Grows(d, d') && p + 8 <= 0x1_0000_0000
    requires SameAt(d.mem, d'.mem, p) && SameAt(d.mem, d'.mem, Plus(p, 4))
    ensures FunctionHolds(d', p, symbol)
  {
    CallsHostStill(d, d', Read(d.mem, p), 8, symbol);
  }

  /** Nothing changes for stubs and code that do not contain a changed word. */
  lemma Unaffected(env: Env, m0: Mem, d: Linker, d': Linker, l: Ledger, changed: iset<Word>, at: Option<Word>)
    requires Layout(env, m0) && Inv(env, m0, d, l) && Grows(d, d') && SameExcept(d.mem, d'.mem, changed)
    requires forall w <- changed :: !InBlock(l, w)
    requires forall w <- changed :: IsFree(env, m0, w) || (at.Some? && StubAt(env.bins, at.value).Some? && Owns(env, m0, at.value, w))
    ensures forall a: Word | StubAt(env.bins, a).Some? && Some(a) != at :: StubHolds(env, m0, d', a, Bound(l, a))
    ensures FunctionsHold(d', l.functions) && WrapsHold(d'.mem, l.wraps)
  {
    forall a: Word | StubAt(env.bins, a).Some? && Some(a) != at ensures StubHolds(env, m0, d', a, Bound(l, a)) {
      StubUnaffected(env, m0, d, d', l, changed, at, a);
    }
    hide StubAt, Layout, StubHolds, FunctionHolds, Holds, IsFree, Owns, Slot, InBlock;
    forall p | p in l.functions ensures FunctionHolds(d', p, l.functions[p]) {
      FunctionUnaffected(d, d', l, changed, p);
    }
    forall p | p in l.wraps ensures Holds(d'.mem, p, WrapperWords(l.wraps[p])) {
      WrapUnaffected(d, d', l, changed, p);
    }
  }

  lemma FunctionUnaffected(d: Linker, d': Linker, l: Ledger, changed: iset<Word>, p: Word)
    requires p in l.functions && p + 8 <= 0x1_0000_0000 && FunctionHolds(d, p, l.functions[p])
    requires Grows(d, d') && SameExcept(d.mem, d'.mem, changed) && forall w <- changed :: !InBlock(l, w)
    ensures FunctionHolds(d', p, l.functions[p])
  {
    PlusIs(p, 4);
    hide FunctionHolds, Plus;
    assert InBlock(l, p) && InBlock(l, Plus(p, 4));
    FunctionFrame(d, d', p, l.functions[p]);
  }

  lemma WrapUnaffected(d: Linker, d': Linker, l: Ledger, changed: iset<Word>, p: Word)
    requires p in l.wraps && p + 20 <= 0x1_0000_0000 && Holds(d.mem, p, WrapperWords(l.wraps[p]))
    requires SameExcept(d.mem, d'.mem, changed) && forall w <- changed :: !InBlock(l, w)
    ensures Holds(d'.mem, p, WrapperWords(l.wraps[p]))
  {
    hide Holds;
    forall w: Word | p <= w < p as int + 20 ensures SameAt(d.mem, d'.mem, w) {
      assert InBlock(l, w);
    }
    HoldsStill(d.mem, d'.mem, p, WrapperWords(l.wraps[p]));
  }

  lemma OwnedIsNotFree(env: Env, m0: Mem, a: Word, w: Word)
    requires Layout(env, m0) && StubAt(env.bins, a).Some? && Owns(env, m0, a, w)
    ensures !IsFree(env, m0, w)
  {
    StubInSection(env, m0, a);
    hide StubAt, Layout, FindStubs, SlotOf;
    var stubs := FindStubs(env.bins, a).value.0;
    var i :| 0 <= i < |env.bins| && env.bins[i].stubs == Some(stubs);
    assert w == Slot(env, m0, a) || InSection(stubs, w);
  }

  lemma StubUnaffected(
    env: Env, m0: Mem, d: Linker, d': Linker, l: Ledger, changed: iset<Word>, at: Option<Word>, a: Word)
    requires Layout(env, m0) && StubAt(env.bins, a).Some? && Some(a) != at
    requires StubHolds(env, m0, d, a, Bound(l, a)) && Grows(d, d') && SameExcept(d.mem, d'.mem, changed)
    requires forall w <- changed :: IsFree(env, m0, w) || (at.Some? && StubAt(env.bins, at.value).Some? && Owns(env, m0, at.value, w))
    ensures StubHolds(env, m0, d', a, Bound(l, a))
  {
    StubInSection(env, m0, a);
    hide StubAt, Layout, StubHolds, Slot, SlotOf, FindStubs, Owns, IsFree;
    forall w: Word | Owns(env, m0, a, w) ensures SameAt(d.mem, d'.mem, w) {
      OwnedIsNotFree(env, m0, a, w);
      if at.Some? && StubAt(env.bins, at.value).Some? {
        StubsApart(env, m0, a, at.value, w);
      }
    }
    StubFrame(env, m0, d, d', a, Bound(l, a));
  }

  // ---------------------------------------------------------------- single changes

  lemma {:induction false} Untouched(mem: Mem, a: Word, words: seq<Word>)
    requires a + 4 * |words| <= 0x1_0000_0000
    ensures forall w: Word | !(a <= w < a as int + 4 * |words|) :: Read(WriteWords(mem, a, words), w) == Read(mem, w)
  {
    forall w: Word | !(a <= w < a as int + 4 * |words|) ensures Read(WriteWords(mem, a, words), w) == Read(mem, w) {
      ReadWritten(mem, a, words, w);
    }
  }

  ghost function Owned(env: Env, m0: Mem, a: Word): iset<Word>
    requires StubAt(env.bins, a).Some?
  {
    iset w: Word | Owns(env, m0, a, w)
  }

  /** Restoring a stub leaves the word that says where its pointer is. */
  lemma RestoresStub(env: Env, m0: Mem, d: Linker, a: Word, binding: Binding)
    requires Layout(env, m0) && StubAt(env.bins, a).Some? && StubHolds(env, m0, d, a, binding)
    ensures
      var e := StubAt(env.bins, a).value;
      var words := RestoredWords(e.size, e.picOffset);
      var restored := WriteWords(d.mem, a, words);
      && Holds(restored, a, words) && a + 4 * |words| <= a + e.size <= 0x1_0000_0000
      && (forall w: Word | !(a <= w < a as int + 4 * |words|) :: Read(restored, w) == Read(d.mem, w))
      && (e.size == 12 ==> Read(restored, Plus(a, 8)) == Read(m0, Plus(a, 8)))
      && (e.size == 16 ==> Read(restored, Plus(a, 12)) == Read(m0, Plus(a, 12)))
      && SlotOf(restored, a, e.size, e.picOffset) == Slot(env, m0, a)
  {
    StubInSection(env, m0, a);
    hide StubAt, Layout, FindStubs, Holds, WriteWords, CallsHost, Read, Plus;
    var e := StubAt(env.bins, a).value;
    var words := RestoredWords(e.size, e.picOffset);
    Untouched(d.mem, a, words);
    WrittenHolds(d.mem, a, words);
    PlusIs(a, 8);
    PlusIs(a, 12);
  }

  /** Linking to a guest address touches only the stub's own words and pointer. */
  lemma LinkTouchesOwned(env: Env, m0: Mem, d: Linker, a: Word, binding: Binding, target: Word)
    requires Layout(env, m0) && StubAt(env.bins, a).Some? && StubHolds(env, m0, d, a, binding)
    ensures
      var e := StubAt(env.bins, a).value;
      SameExcept(d.mem, LinkedStub(d.mem, a, e.size, e.picOffset, target), Owned(env, m0, a))
  {
    RestoresStub(env, m0, d, a, binding);
    hide StubAt, Layout, FindStubs, Holds, WriteWords, CallsHost, RestoredWords, SlotOf, Slot, Plus, Links, StubHolds;
  }

  lemma LinksToGuest(env: Env, m0: Mem, d: Linker, a: Word, binding: Binding, target: Word)
    requires Layout(env, m0) && StubAt(env.bins, a).Some? && StubHolds(env, m0, d, a, binding)
    ensures
      var e := StubAt(env.bins, a).value;
      StubHolds(env, m0, d.(mem := LinkedStub(d.mem, a, e.size, e.picOffset, target)), a, Guest(target))
  {
    RestoresStub(env, m0, d, a, binding);
    SlotOutside(env, m0, a);
    var e := StubAt(env.bins, a).value;
    var words := RestoredWords(e.size, e.picOffset);
    var restored := WriteWords(d.mem, a, words);
    PlusIs(a, 8);
    PlusIs(a, 12);
    var slot := Slot(env, m0, a);
    var m' := restored[slot := target];
    assert forall w: Word :: w != slot ==> SameAt(restored, m', w);
    assert Read(m', slot) == target;
    hide StubAt, Layout, FindStubs, Holds, WriteWords, CallsHost, RestoredWords, SlotOf, Slot, Plus, Links;
    HoldsStill(restored, m', a, words);
  }

  lemma SlotOutside(env: Env, m0: Mem, a: Word)
    requires Layout(env, m0) && StubAt(env.bins, a).Some?
    ensures !(a <= Slot(env, m0, a) < a as int + StubAt(env.bins, a).value.size)
  {
    StubInSection(env, m0, a);
    hide StubAt, FindStubs, SlotOf, Slot;
    var stubs := FindStubs(env.bins, a).value.0;
    var i :| 0 <= i < |env.bins| && env.bins[i].stubs == Some(stubs);
    var slot := Slot(env, m0, a);
    assert InSection(stubs, slot) ==> InSomeSection(env, slot);
  }

  /** Linking to the host touches only the stub's first word. */
  lemma LinksToHost(env: Env, m0: Mem, d: Linker, a: Word, binding: Binding, symbol: string)
    requires Layout(env, m0) && StubAt(env.bins, a).Some? && StubHolds(env, m0, d, a, binding)
    requires NextSvc(|d.linked|, StubAt(env.bins, a).value.size).Some?
    requires StubAt(env.bins, a).value.size != 4 ==> Read(d.mem, Plus(a, 4)) == RET
    ensures
      var svc := NextSvc(|d.linked|, StubAt(env.bins, a).value.size).value;
      var d' := d.(linked := d.linked + [symbol], mem := d.mem[a := EncodeSvc(svc)]);
      && SameExcept(d.mem, d'.mem, iset{a})
      && StubHolds(env, m0, d', a, Host(symbol))
  {
    StubInSection(env, m0, a);
    hide StubAt, Layout, FindStubs, Holds, WriteWords, Slot;
    var size := StubAt(env.bins, a).value.size;
    var svc := NextSvc(|d.linked|, size).value;
    var d' := d.(linked := d.linked + [symbol], mem := d.mem[a := EncodeSvc(svc)]);
    PlusIs(a, 4);
    PlusIs(a, 8);
    PlusIs(a, 12);
    assert d'.linked[|d.linked|] == symbol && IsNumber(|d.linked|, size, EncodeSvc(svc));
  }

  /** A stub still traps to the linker exactly while it is unbound. */
  lemma TrapsWhileUnbound(env: Env, m0: Mem, d: Linker, a: Word, binding: Binding)
    requires Layout(env, m0) && StubAt(env.bins, a).Some? && StubHolds(env, m0, d, a, binding)
    requires |d.linked| <= 0x7f_fffd
    ensures
      var i := Decode(Read(d.mem, a));
      (i.Svc? && (i.imm == SVC_LAZY_LINK || i.imm == SVC_LAZY_LINK_RET_FLAG)) <==> binding == Unbound
  {
    StubInSection(env, m0, a);
    hide StubAt, Layout, FindStubs, Slot, Decode;
    var e := StubAt(env.bins, a).value;
    PlusIs(a, 0);
    match binding {
      case Unbound =>
        assert Read(d.mem, Plus(a, 4 * 0)) == StubWords(e.size)[0];
        DecodeEncodeSvc(SVC_LAZY_LINK);
        DecodeEncodeSvc(SVC_LAZY_LINK_RET_FLAG);
      case Guest(_) =>
        assert Read(d.mem, Plus(a, 4 * 0)) == RestoredWords(e.size, e.picOffset)[0];
        RestoredIsNoTrap(e);
      case Host(symbol) =>
        var i :| 0 <= i < |d.linked| && d.linked[i] == symbol && IsNumber(i, e.size, Read(d.mem, a));
        NumbersDecode(i, e.size);
        DecodeEncodeSvc(NextSvc(i, e.size).value);
    }
  }

  lemma RestoredIsNoTrap(e: Entry)
    requires IsEntrySize(e.size) && Links(e)
    ensures !Decode(RestoredWords(e.size, e.picOffset)[0]).Svc?
  {
    if e.size == 4 {
      OneWordStubDecodes(e.picOffset);
    }
  }

  // ---------------------------------------------------------------- the invariant is kept

  /** Nothing known is forgotten. */
  ghost predicate Extends(l: Ledger, l': Ledger) {
    && (forall a | a in l.bindings && l.bindings[a] != Unbound :: Bound(l', a) == l.bindings[a])
    && (forall p <- l.functions :: p in l'.functions && l'.functions[p] == l.functions[p])
    && (forall p <- l.wraps :: p in l'.wraps && l'.wraps[p] == l.wraps[p])
  }

  lemma RightlyStill(env: Env, l: Ledger, l': Ledger, a: Word)
    requires StubAt(env.bins, a).Some? && BoundRightly(env, l, a) && Extends(l, l') && Bound(l', a) == Bound(l, a)
    ensures BoundRightly(env, l', a)
  {
    hide StubAt, FirstExport, NeedsReturnThisWrapper;
  }

  lemma BoundGuestKeeps(env: Env, m0: Mem, d: Linker, l: Ledger, a: Word, target: Word)
    requires Layout(env, m0) && Inv(env, m0, d, l) && StubAt(env.bins, a).Some? && Bound(l, a) == Unbound
    requires BoundRightly(env, l.(bindings := l.bindings[a := Guest(target)]), a)
    ensures
      var e := StubAt(env.bins, a).value;
      var d' := d.(mem := LinkedStub(d.mem, a, e.size, e.picOffset, target));
      var l' := l.(bindings := l.bindings[a := Guest(target)]);
      Inv(env, m0, d', l') && Extends(l, l')
  {
    LinksToGuest(env, m0, d, a, Unbound, target);
    LinkTouchesOwned(env, m0, d, a, Unbound, target);
    var e := StubAt(env.bins, a).value;
    var d' := d.(mem := LinkedStub(d.mem, a, e.size, e.picOffset, target));
    var l' := l.(bindings := l.bindings[a := Guest(target)]);
    Rebound(env, m0, d, d', l, l', a, Owned(env, m0, a));
  }

  /** Binding one stub, when only what it owns has changed. */
  lemma Rebound(env: Env, m0: Mem, d: Linker, d': Linker, l: Ledger, l': Ledger, a: Word, changed: iset<Word>)
    requires Layout(env, m0) && Inv(env, m0, d, l) && StubAt(env.bins, a).Some? && Bound(l, a) == Unbound
    requires Grows(d, d') && d'.nonLazy == d.nonLazy && d'.wrappers == d.wrappers
    requires a in l'.bindings && l' == l.(bindings := l.bindings[a := l'.bindings[a]])
    requires SameExcept(d.mem, d'.mem, changed) && changed <= Owned(env, m0, a)
    requires StubHolds(env, m0, d', a, Bound(l', a)) && BoundRightly(env, l', a)
    ensures Inv(env, m0, d', l') && Extends(l, l')
  {
    hide StubAt, Layout, StubHolds, BoundRightly, FunctionHolds, Holds, Slot, FirstExport, WriteWords, LinkedStub;
    forall w | w in changed ensures !InBlock(l, w) && Owns(env, m0, a, w) {
      OwnedIsNotFree(env, m0, a, w);
    }
    Unaffected(env, m0, d, d', l, changed, Some(a));
    assert Extends(l, l');
    assert StubsHold(env, m0, d', l');
    forall b: Word | StubAt(env.bins, b).Some? ensures BoundRightly(env, l', b) {
      if b != a {
        RightlyStill(env, l, l', b);
      }
    }
    SameBlocks(env, m0, l, l');
  }

  lemma SameBlocks(env: Env, m0: Mem, l: Ledger, l': Ledger)
    requires BlocksApart(env, m0, l) && l'.functions == l.functions && l'.wraps == l.wraps
    ensures BlocksApart(env, m0, l')
  {
    hide IsFree;
    assert forall w :: InBlock(l', w) <==> InBlock(l, w);
  }

  lemma BoundHostKeeps(env: Env, m0: Mem, d: Linker, l: Ledger, a: Word)
    requires Layout(env, m0) && Inv(env, m0, d, l) && StubAt(env.bins, a).Some? && Bound(l, a) == Unbound
    requires NextSvc(|d.linked|, StubAt(env.bins, a).value.size).Some?
    requires StubAt(env.bins, a).value.symbol in env.host && FirstExport(env.bins, StubAt(env.bins, a).value.symbol).None?
    requires StubAt(env.bins, a).value.size != 4 ==> Read(d.mem, Plus(a, 4)) == RET
    ensures
      var e := StubAt(env.bins, a).value;
      var d' := d.(linked := d.linked + [e.symbol], mem := d.mem[a := EncodeSvc(NextSvc(|d.linked|, e.size).value)]);
      var l' := l.(bindings := l.bindings[a := Host(e.symbol)]);
      Inv(env, m0, d', l') && Extends(l, l')
  {
    var e := StubAt(env.bins, a).value;
    LinksToHost(env, m0, d, a, Unbound, e.symbol);
    var d' := d.(linked := d.linked + [e.symbol], mem := d.mem[a := EncodeSvc(NextSvc(|d.linked|, e.size).value)]);
    var l' := l.(bindings := l.bindings[a := Host(e.symbol)]);
    assert Owns(env, m0, a, a);
    Rebound(env, m0, d, d', l, l', a, iset{a});
  }

  // ---------------------------------------------------------------- new code

  ghost function Block(block: Word, size: nat): iset<Word> {
    iset w: Word | InRange(block, size, w)
  }

  predicate InRange(block: Word, size: nat, w: Word) {
    block <= w < block as int + size
  }

  /** Writing into a fresh block leaves everything known as it is. */
  lemma FreshKeeps(env: Env, m0: Mem, d: Linker, d': Linker, l: Ledger, l': Ledger, block: Word)
    requires Layout(env, m0) && Inv(env, m0, d, l) && IsFresh(env, m0, l, block)
    requires Grows(d, d') && SameExcept(d.mem, d'.mem, Block(block, 20))
    requires l'.bindings == l.bindings && Extends(l, l')
    ensures StubsHold(env, m0, d', l') && StubsRight(env, l') && FunctionsHold(d', l.functions) && WrapsHold(d'.mem, l.wraps)
  {
    hide StubAt, Layout, StubHolds, BoundRightly, FunctionHolds, Holds, Slot, FirstExport, InBlock, IsFree;
    Unaffected(env, m0, d, d', l, Block(block, 20), None);
    forall a: Word | StubAt(env.bins, a).Some? ensures BoundRightly(env, l', a) {
      RightlyStill(env, l, l', a);
    }
  }

  lemma NewFunctionApart(env: Env, m0: Mem, l: Ledger, block: Word, symbol: string)
    requires BlocksApart(env, m0, l) && IsFresh(env, m0, l, block)
    ensures block !in l.functions
    ensures BlocksApart(env, m0, l.(functions := l.functions[block := symbol]))
  {
    hide IsFree;
    var l' := l.(functions := l.functions[block := symbol]);
    assert forall w: Word :: InBlock(l', w) ==> InBlock(l, w) || block <= w < block as int + 8;
    assert block in Block(block, 20) && !InBlock(l, block);
    forall p | p in l.functions ensures p + 8 <= block || block + 8 <= p {
      assert InBlock(l, p) && !InBlock(l, block);
      FreshApart(env, m0, l, block, p, 8);
    }
    forall q | q in l.wraps ensures block + 8 <= q || q + 20 <= block {
      FreshApart(env, m0, l, block, q, 20);
    }
  }

  lemma FreshApart(env: Env, m0: Mem, l: Ledger, block: Word, p: Word, size: nat)
    requires IsFresh(env, m0, l, block) && (size == 8 || size == 20)
    requires if size == 8 then p in l.functions else p in l.wraps
    ensures p + size <= block || block + 20 <= p
  {
    hide IsFree;
    assert p <= block < p as int + size ==> InBlock(l, block);
    assert block <= p < block as int + 20 ==> InBlock(l, p);
  }

  lemma NewWrapApart(env: Env, m0: Mem, l: Ledger, block: Word, target: Word)
    requires BlocksApart(env, m0, l) && IsFresh(env, m0, l, block)
    ensures block !in l.wraps
    ensures BlocksApart(env, m0, l.(wraps := l.wraps[block := target]))
  {
    hide IsFree;
    var l' := l.(wraps := l.wraps[block := target]);
    assert forall w: Word :: InBlock(l', w) ==> InBlock(l, w) || block <= w < block as int + 20;
    forall p | p in l.functions ensures p + 8 <= block || block + 20 <= p {
      FreshApart(env, m0, l, block, p, 8);
    }
    forall q | q in l.wraps ensures block + 20 <= q || q + 20 <= block {
      FreshApart(env, m0, l, block, q, 20);
    }
  }

  lemma MadeFunctionHolds(d: Linker, symbol: string, block: Word)
    requires block + 20 <= 0x1_0000_0000 && MakeFunction(d, symbol, block).Some?
    ensures
      var d' := MakeFunction(d, symbol, block).value;
      && Grows(d, d') && SameExcept(d.mem, d'.mem, Block(block, 20)) && FunctionHolds(d', block, symbol)
      && d'.nonLazy == d.nonLazy && d'.wrappers == d.wrappers
  {
    var svc := NextSvc(|d.linked|, 8).value;
    var words := [EncodeSvc(svc), RET];
    var d' := MakeFunction(d, symbol, block).value;
    Untouched(d.mem, block, words);
    WrittenHolds(d.mem, block, words);
    PlusIs(block, 0);
    hide WriteWords, EncodeSvc;
    assert Read(d'.mem, Plus(block, 4 * 0)) == words[0] && Read(d'.mem, Plus(block, 4 * 1)) == words[1];
    assert d'.linked[|d.linked|] == symbol && IsNumber(|d.linked|, 8, words[0]);
  }

  lemma CreateKeeps(env: Env, m0: Mem, d: Linker, l: Ledger, symbol: string, block: Word)
    requires Layout(env, m0) && Inv(env, m0, d, l) && IsFresh(env, m0, l, block)
    requires MakeFunction(d, symbol, block).Some?
    ensures
      var l' := l.(functions := l.functions[block := symbol]);
      Inv(env, m0, MakeFunction(d, symbol, block).value, l') && Extends(l, l')
  {
    MadeFunctionHolds(d, symbol, block);
    NewFunctionApart(env, m0, l, block, symbol);
    hide StubsHold, StubsRight, WrapsHold, FunctionsHold, FunctionHolds, TablesRight, IsFresh, BlocksApart, MakeFunction, Layout, SameExcept, Block, Extends;
    var d' := MakeFunction(d, symbol, block).value;
    var l' := l.(functions := l.functions[block := symbol]);
    LedgerGrows(l, l', block);
    TablesStill(env, d, d', l, l');
    FreshKeeps(env, m0, d, d', l, l', block);
    FunctionAdded(d', l.functions, block, symbol);
  }

  lemma LedgerGrows(l: Ledger, l': Ledger, block: Word)
    requires l'.bindings == l.bindings
    requires l'.functions == l.functions || (block in l'.functions && block !in l.functions && l'.functions == l.functions[block := l'.functions[block]])
    requires l'.wraps == l.wraps || (block in l'.wraps && block !in l.wraps && l'.wraps == l.wraps[block := l'.wraps[block]])
    ensures Extends(l, l')
  {
  }

  lemma TablesStill(env: Env, d: Linker, d': Linker, l: Ledger, l': Ledger)
    requires TablesRight(env, d, l) && Extends(l, l') && d'.nonLazy == d.nonLazy && d'.wrappers == d.wrappers
    ensures TablesRight(env, d', l')
  {
    hide FirstExport;
  }

  lemma FunctionAdded(d: Linker, functions: map<Word, string>, block: Word, symbol: string)
    requires FunctionsHold(d, functions) && FunctionHolds(d, block, symbol)
    ensures FunctionsHold(d, functions[block := symbol])
  {
    hide FunctionHolds;
  }

  lemma WrapAdded(mem: Mem, wraps: map<Word, Word>, block: Word, target: Word)
    requires WrapsHold(mem, wraps) && Holds(mem, block, WrapperWords(target))
    ensures WrapsHold(mem, wraps[block := target])
  {
    hide Holds;
  }

  lemma LookUpKeeps(env: Env, m0: Mem, d: Linker, l: Ledger, symbol: string, block: Word)
    requires Layout(env, m0) && Inv(env, m0, d, l) && IsFresh(env, m0, l, block)
    requires !GetProcAddress(env, d, symbol, block).0.Exhausted?
    ensures
      var l' := NextLedger(env, d, l, LookUp(symbol, block));
      Inv(env, m0, GetProcAddress(env, d, symbol, block).1, l') && Extends(l, l')
  {
    if symbol in env.host && symbol !in d.nonLazy {
      CreateKeeps(env, m0, d, l, symbol, block);
      NamedAfterwards(env, m0, MakeFunction(d, symbol, block).value, l.(functions := l.functions[block := symbol]), symbol, block);
    }
  }

  /** Naming a made function. */
  lemma NamedAfterwards(env: Env, m0: Mem, d: Linker, l: Ledger, symbol: string, block: Word)
    requires Layout(env, m0) && Inv(env, m0, d, l) && block in l.functions && l.functions[block] == symbol
    ensures Inv(env, m0, d.(nonLazy := d.nonLazy[symbol := block]), l)
  {
    hide StubsHold, StubsRight, FunctionsHold, WrapsHold, BlocksApart, Layout, FirstExport;
    SameHolds(env, m0, d, d.(nonLazy := d.nonLazy[symbol := block]), l);
  }

  lemma SameHolds(env: Env, m0: Mem, d: Linker, d': Linker, l: Ledger)
    requires Layout(env, m0) && d'.mem == d.mem && d'.linked == d.linked
    requires StubsHold(env, m0, d, l) && FunctionsHold(d, l.functions) && WrapsHold(d.mem, l.wraps)
    ensures StubsHold(env, m0, d', l) && FunctionsHold(d', l.functions) && WrapsHold(d'.mem, l.wraps)
  {
    forall a: Word | StubAt(env.bins, a).Some? ensures StubHolds(env, m0, d', a, Bound(l, a)) {
      hide Slot, Holds, StubAt, CallsHost;
      if Bound(l, a).Host? {
        CallsHostStill(d, d', Read(d.mem, a), StubAt(env.bins, a).value.size, Bound(l, a).symbol);
      }
    }
    hide Layout, StubAt;
    forall p | p in l.functions ensures FunctionHolds(d', p, l.functions[p]) {
      CallsHostStill(d, d', Read(d.mem, p), 8, l.functions[p]);
    }
  }

  lemma WrappedKeeps(env: Env, m0: Mem, d: Linker, l: Ledger, symbol: string, target: Word, block: Word)
    requires Layout(env, m0) && Inv(env, m0, d, l) && IsFresh(env, m0, l, block)
    requires symbol !in d.wrappers && FirstExport(env.bins, symbol) == Some((target, true))
    ensures
      var l' := l.(wraps := l.wraps[block := target]);
      Wrapped(d, symbol, target, block).0 == block && Inv(env, m0, Wrapped(d, symbol, target, block).1, l') && Extends(l, l')
  {
    WrapperWritten(d.mem, block, target);
    NewWrapApart(env, m0, l, block, target);
    hide StubsHold, StubsRight, FunctionsHold, WrapsHold, Holds, IsFresh, BlocksApart, Layout, WriteWords, WrapperWords, FirstExport, TablesRight, Extends, SameExcept, Block, Grows;
    var l' := l.(wraps := l.wraps[block := target]);
    WrappedIs(env, m0, d, l, symbol, target, block);
    hide Wrapped;
    var d1 := d.(mem := WriteWords(d.mem, block, WrapperWords(target)));
    var d' := Wrapped(d, symbol, target, block).1;
    assert Grows(d, d');
    LedgerGrows(l, l', block);
    TablesStill(env, d, d1, l, l');
    TableAdded(env, d1, l', symbol, block);
    FreshKeeps(env, m0, d, d', l, l', block);
    WrapAdded(d'.mem, l.wraps, block, target);
  }

  lemma WrappedIs(env: Env, m0: Mem, d: Linker, l: Ledger, symbol: string, target: Word, block: Word)
    requires symbol !in d.wrappers && IsFresh(env, m0, l, block)
    ensures Wrapped(d, symbol, target, block) ==
      (block, d.(mem := WriteWords(d.mem, block, WrapperWords(target))).(wrappers := d.wrappers[symbol := block]))
  {
    EvenIfAligned(block);
    hide WriteWords, WrapperWords, IsFresh;
  }

  lemma WrapperWritten(mem: Mem, block: Word, target: Word)
    requires block + 20 <= 0x1_0000_0000
    ensures
      var m' := WriteWords(mem, block, WrapperWords(target));
      SameExcept(mem, m', Block(block, 20)) && Holds(m', block, WrapperWords(target))
  {
    Untouched(mem, block, WrapperWords(target));
    WrittenHolds(mem, block, WrapperWords(target));
    assert |WrapperWords(target)| == 5;
    hide WriteWords, WrapperWords, Holds;
  }

  lemma TableAdded(env: Env, d: Linker, l: Ledger, symbol: string, block: Word)
    requires TablesRight(env, d, l) && block in l.wraps && FirstExport(env.bins, symbol) == Some((l.wraps[block], true))
    ensures TablesRight(env, d.(wrappers := d.wrappers[symbol := block]), l)
  {
    hide FirstExport;
  }

  lemma StoreKeeps(env: Env, m0: Mem, d: Linker, l: Ledger, w: Word, value: Word)
    requires Layout(env, m0) && Inv(env, m0, d, l) && IsFree(env, m0, w) && !InBlock(l, w)
    ensures Inv(env, m0, d.(mem := d.mem[w := value]), l)
  {
    hide StubAt, Layout, StubHolds, BoundRightly, FunctionHolds, Holds, Slot, FirstExport, InBlock, IsFree, BlocksApart;
    Unaffected(env, m0, d, d.(mem := d.mem[w := value]), l, iset{w}, None);
  }

  // ---------------------------------------------------------------- runs

  lemma LinkKeeps(env: Env, m0: Mem, d: Linker, l: Ledger, a: Word, block: Word)
    requires Layout(env, m0) && Inv(env, m0, d, l) && IsFresh(env, m0, l, block)
    requires StubAt(env.bins, a).Some? && Bound(l, a) == Unbound && !LazyLink(env, d, a, block).0.Panicked?
    ensures
      var l' := LinkedLedger(env, d, l, a, block);
      Inv(env, m0, LazyLink(env, d, a, block).1, l') && Extends(l, l')
  {
    hide Inv, IsFresh, Extends, StubAt, FirstExport, NeedsReturnThisWrapper, LinkedStub, WriteWords, WrapperWords, Slot, Bound, Wrapped, BoundRightly, Read, SectionsApart, InSomeSection;
    var e := StubAt(env.bins, a).value;
    if e.symbol in d.nonLazy {
      NamedFunction(env, m0, d, l, e.symbol);
      FunctionIsRight(env, l, a, d.nonLazy[e.symbol]);
      BoundGuestKeeps(env, m0, d, l, a, d.nonLazy[e.symbol]);
    } else if FirstExport(env.bins, e.symbol).Some? {
      var (addr, isLibstdcxx) := FirstExport(env.bins, e.symbol).value;
      if isLibstdcxx && NeedsReturnThisWrapper(e.symbol) {
        LinkToWrapperKeeps(env, m0, d, l, a, addr, block);
      } else {
        ExportIsRight(env, l, a, addr);
        BoundGuestKeeps(env, m0, d, l, a, addr);
      }
    } else {
      HostWordAfter(d, a, e);
      BoundHostKeeps(env, m0, d, l, a);
    }
  }

  lemma LinkToWrapperKeeps(env: Env, m0: Mem, d: Linker, l: Ledger, a: Word, addr: Word, block: Word)
    requires Layout(env, m0) && Inv(env, m0, d, l) && IsFresh(env, m0, l, block)
    requires StubAt(env.bins, a).Some? && Bound(l, a) == Unbound
    requires FirstExport(env.bins, StubAt(env.bins, a).value.symbol) == Some((addr, true))
    requires NeedsReturnThisWrapper(StubAt(env.bins, a).value.symbol) && StubAt(env.bins, a).value.symbol !in d.nonLazy
    ensures
      var e := StubAt(env.bins, a).value;
      var (target, d1) := Wrapped(d, e.symbol, addr, block);
      var l' := LinkedLedger(env, d, l, a, block);
      Inv(env, m0, d1.(mem := LinkedStub(d1.mem, a, e.size, e.picOffset, target)), l') && Extends(l, l')
  {
    hide Inv, IsFresh, Extends, StubAt, FirstExport, NeedsReturnThisWrapper, LinkedStub, WriteWords, WrapperWords, Slot, BoundRightly, Read, SectionsApart, InSomeSection;
    var symbol := StubAt(env.bins, a).value.symbol;
    if symbol in d.wrappers {
      NamedWrapper(env, m0, d, l, symbol);
      WrapperIsRight(env, l, a, d.wrappers[symbol]);
      BoundGuestKeeps(env, m0, d, l, a, d.wrappers[symbol]);
    } else {
      var l1 := l.(wraps := l.wraps[block := addr]);
      WrappedKeeps(env, m0, d, l, symbol, addr, block);
      WrapperIsRight(env, l1, a, block);
      BoundGuestKeeps(env, m0, Wrapped(d, symbol, addr, block).1, l1, a, block);
      ExtendsAgain(l, l1, LinkedLedger(env, d, l, a, block));
    }
  }

  lemma FunctionIsRight(env: Env, l: Ledger, a: Word, target: Word)
    requires StubAt(env.bins, a).Some? && target in l.functions && l.functions[target] == StubAt(env.bins, a).value.symbol
    ensures BoundRightly(env, l.(bindings := l.bindings[a := Guest(target)]), a)
  {
  }

  lemma ExportIsRight(env: Env, l: Ledger, a: Word, target: Word)
    requires StubAt(env.bins, a).Some?
    requires
      var symbol := StubAt(env.bins, a).value.symbol;
      FirstExport(env.bins, symbol).Some? && FirstExport(env.bins, symbol).value.0 == target &&
      !(FirstExport(env.bins, symbol).value.1 && NeedsReturnThisWrapper(symbol))
    ensures BoundRightly(env, l.(bindings := l.bindings[a := Guest(target)]), a)
  {
  }

  lemma WrapperIsRight(env: Env, l: Ledger, a: Word, target: Word)
    requires StubAt(env.bins, a).Some? && target in l.wraps
    requires NeedsReturnThisWrapper(StubAt(env.bins, a).value.symbol)
    requires FirstExport(env.bins, StubAt(env.bins, a).value.symbol) == Some((l.wraps[target], true))
    ensures BoundRightly(env, l.(bindings := l.bindings[a := Guest(target)]), a)
  {
  }

  lemma NamedFunction(env: Env, m0: Mem, d: Linker, l: Ledger, symbol: string)
    requires Layout(env, m0) && Inv(env, m0, d, l) && symbol in d.nonLazy
    ensures d.nonLazy[symbol] in l.functions && l.functions[d.nonLazy[symbol]] == symbol
  {
  }

  lemma NamedWrapper(env: Env, m0: Mem, d: Linker, l: Ledger, symbol: string)
    requires Layout(env, m0) && Inv(env, m0, d, l) && symbol in d.wrappers
    ensures d.wrappers[symbol] in l.wraps && FirstExport(env.bins, symbol) == Some((l.wraps[d.wrappers[symbol]], true))
    ensures d.wrappers[symbol] % 2 == 0
  {
    BlockAligned(env, m0, l, d.wrappers[symbol]);
    hide BlocksApart, StubsHold, StubsRight, FunctionsHold, WrapsHold, Layout, FirstExport;
  }

  lemma BlockAligned(env: Env, m0: Mem, l: Ledger, p: Word)
    requires BlocksApart(env, m0, l)
    ensures p in l.wraps ==> p % 2 == 0
  {
    hide InBlock, IsFree;
    assert BlocksAligned(l);
    assert p in l.wraps ==> IsBlock(p, 20);
    if p in l.wraps {
      EvenIfAligned(p);
    }
  }

  lemma ExtendsAgain(l: Ledger, l1: Ledger, l2: Ledger)
    requires Extends(l, l1) && Extends(l1, l2)
    ensures Extends(l, l2)
  {
  }

  lemma HostWordAfter(d: Linker, a: Word, e: Entry)
    requires NextSvc(|d.linked|, e.size).Some?
    ensures Plus(a, 4) != a
    ensures Read(d.mem[a := EncodeSvc(NextSvc(|d.linked|, e.size).value)], Plus(a, 4)) == Read(d.mem, Plus(a, 4))
  {
  }

  /** One event keeps the invariant, while fewer than 0x7ffffd host functions are linked. */
  lemma PerformKeeps(env: Env, m0: Mem, d: Linker, l: Ledger, ev: Event)
    requires Layout(env, m0) && Inv(env, m0, d, l) && Allowed(env, m0, l, ev)
    requires Perform(env, d, ev).Some? && |Perform(env, d, ev).value.linked| <= 0x7f_fffd
    ensures Inv(env, m0, Perform(env, d, ev).value, NextLedger(env, d, l, ev))
    ensures Extends(l, NextLedger(env, d, l, ev)) && Grows(d, Perform(env, d, ev).value)
  {
    PerformGrows(env, d, ev);
    match ev {
      case Execute(pc, block) =>
        var i := Decode(Read(d.mem, pc));
        if i.Svc? && (i.imm == SVC_LAZY_LINK || i.imm == SVC_LAZY_LINK_RET_FLAG) {
          assert StubAt(env.bins, pc).Some?;
          StubHoldsAt(env, m0, d, l, pc);
          TrapsWhileUnbound(env, m0, d, pc, Bound(l, pc));
          LinkKeeps(env, m0, d, l, pc, block);
        }
      case Create(symbol, block) => CreateKeeps(env, m0, d, l, symbol, block);
      case LookUp(symbol, block) => LookUpKeeps(env, m0, d, l, symbol, block);
      case Store(w, value) => StoreKeeps(env, m0, d, l, w, value);
    }
  }

  lemma StubHoldsAt(env: Env, m0: Mem, d: Linker, l: Ledger, a: Word)
    requires Layout(env, m0) && StubsHold(env, m0, d, l) && StubAt(env.bins, a).Some?
    ensures StubHolds(env, m0, d, a, Bound(l, a))
  {
  }

  lemma PerformGrows(env: Env, d: Linker, ev: Event)
    requires Perform(env, d, ev).Some?
    ensures Grows(d, Perform(env, d, ev).value)
  {
    hide StubAt, WriteWords, LinkedStub, FirstExport, NeedsReturnThisWrapper, Decode, WrapperWords, IndexOf;
  }

  /** The events are allowed and none panics. */
  ghost predicate Runs(env: Env, m0: Mem, d: Linker, l: Ledger, events: seq<Event>)
    requires Layout(env, m0)
    decreases |events|
  {
    events == [] ||
    (Allowed(env, m0, l, events[0]) && Perform(env, d, events[0]).Some? &&
     Runs(env, m0, Perform(env, d, events[0]).value, NextLedger(env, d, l, events[0]), events[1..]))
  }

  ghost function After(env: Env, m0: Mem, d: Linker, l: Ledger, events: seq<Event>): (Linker, Ledger)
    requires Layout(env, m0) && Runs(env, m0, d, l, events)
    decreases |events|
  {
    if events == [] then (d, l)
    else After(env, m0, Perform(env, d, events[0]).value, NextLedger(env, d, l, events[0]), events[1..])
  }

  lemma {:induction false} RunGrows(env: Env, m0: Mem, d: Linker, l: Ledger, events: seq<Event>)
    requires Layout(env, m0) && Runs(env, m0, d, l, events)
    ensures Grows(d, After(env, m0, d, l, events).0)
    decreases |events|
  {
    if events != [] {
      PerformGrows(env, d, events[0]);
      RunGrows(env, m0, Perform(env, d, events[0]).value, NextLedger(env, d, l, events[0]), events[1..]);
    }
  }

  /** After every run, stubs and code hold what they were bound to, and nothing bound is rebound. */
  lemma {:induction false} RunKeeps(env: Env, m0: Mem, d: Linker, l: Ledger, events: seq<Event>)
    requires Layout(env, m0) && Inv(env, m0, d, l) && Runs(env, m0, d, l, events)
    requires |After(env, m0, d, l, events).0.linked| <= 0x7f_fffd
    ensures
      var (d', l') := After(env, m0, d, l, events);
      Inv(env, m0, d', l') && Extends(l, l') && Grows(d, d')
    decreases |events|
  {
    hide Inv, Perform, NextLedger, Allowed, StubAt, Slot, SectionsApart, InSomeSection;
    if events != [] {
      var d1, l1 := Perform(env, d, events[0]).value, NextLedger(env, d, l, events[0]);
      RunGrows(env, m0, d1, l1, events[1..]);
      PerformKeeps(env, m0, d, l, events[0]);
      RunKeeps(env, m0, d1, l1, events[1..]);
    }
  }
}
