/**
 Passing arguments between host and guest functions: the first four words in registers, the rest
 on the stack. The stack pointer is a multiple of four, and memory is taken by words.
 */
module Abi {
  import opened Wrappers
  import opened A32

  const FRAME_POINTER := 7

  // ---------------------------------------------------------------- argument types

  datatype Kind =
    | Unsigned8 | Signed8 | Unsigned16 | Signed16 | Unsigned32 | Signed32 | Boolean | Unsigned64 | Signed64
    | Raw(count: nat)

  /** Floating-point numbers, pointers and structures are passed as raw words. */
  datatype Arg = Number(kind: Kind, value: int) | RawWords(words: seq<Word>)

  const TWO_32 := 0x1_0000_0000
  const TWO_64 := 0x1_0000_0000_0000_0000

  function RegCount(kind: Kind): nat {
    match kind
    case Unsigned64 => 2
    case Signed64 => 2
    case Raw(count) => count
    case _ => 1
  }

  function KindOf(a: Arg): Kind {
    match a
    case Number(kind, _) => kind
    case RawWords(words) => Raw(|words|)
  }

  /** The value is one of its type. */
  predicate InRange(a: Arg) {
    match a
    case RawWords(words) => |words| <= 16
    case Number(kind, v) =>
      match kind
      case Unsigned8 => 0 <= v < 0x100
      case Signed8 => -0x80 <= v < 0x80
      case Unsigned16 => 0 <= v < 0x1_0000
      case Signed16 => -0x8000 <= v < 0x8000
      case Unsigned32 => 0 <= v < TWO_32
      case Signed32 => -0x8000_0000 <= v < 0x8000_0000
      case Boolean => 0 <= v < 2
      case Unsigned64 => 0 <= v < TWO_64
      case Signed64 => -0x8000_0000_0000_0000 <= v < 0x8000_0000_0000_0000
      case Raw(_) => false
  }

  /** The signed number with the same low bits. */
  function Signed(v: int, range: int): int
    requires range > 0
  {
    var low := v % range;
    if low >= range / 2 then low - range else low
  }

  /** Smaller integers are extended to 32 bits according to their sign. */
  function ToRegs(a: Arg): (words: seq<Word>)
    requires InRange(a)
    ensures |words| == RegCount(KindOf(a))
  {
    match a
    case RawWords(words) => words
    case Number(kind, v) =>
      if kind.Unsigned64? || kind.Signed64? then
        var bits := v % TWO_64;
        [bits % TWO_32, bits / TWO_32]
      else [v % TWO_32]
  }

  /** Casts to a smaller integer keep the low bits. */
  function FromRegs(kind: Kind, regs: seq<Word>): Arg
    requires |regs| == RegCount(kind)
  {
    match kind
    case Unsigned8 => Number(kind, regs[0] as int % 0x100)
    case Signed8 => Number(kind, Signed(regs[0], 0x100))
    case Unsigned16 => Number(kind, regs[0] as int % 0x1_0000)
    case Signed16 => Number(kind, Signed(regs[0], 0x1_0000))
    case Unsigned32 => Number(kind, regs[0])
    case Signed32 => Number(kind, Signed(regs[0], TWO_32))
    case Boolean => Number(kind, if regs[0] != 0 then 1 else 0)
    case Unsigned64 => Number(kind, regs[0] as int + TWO_32 * (regs[1] as int))
    case Signed64 => Number(kind, Signed(regs[0] as int + TWO_32 * (regs[1] as int), TWO_64))
    case Raw(_) => RawWords(regs)
  }

  /** Every value survives being put into registers. */
  lemma FromToRegs(a: Arg)
    requires InRange(a)
    ensures FromRegs(KindOf(a), ToRegs(a)) == a
  {
    if a.Number? {
      if a.kind.Unsigned64? || a.kind.Signed64? {
        WideRoundTrip(a.value);
      } else {
        NarrowRoundTrip(a.value);
      }
    }
  }

  lemma WideRoundTrip(v: int)
    ensures
      var bits := v % TWO_64;
      bits % TWO_32 + TWO_32 * (bits / TWO_32) == bits && 0 <= bits / TWO_32 < TWO_32
    ensures 0 <= v < TWO_64 ==> v % TWO_64 == v
    ensures -0x8000_0000_0000_0000 <= v < 0x8000_0000_0000_0000 ==> Signed(v % TWO_64, TWO_64) == v
  {
    if -0x8000_0000_0000_0000 <= v < 0 {
      assert v % TWO_64 == v + TWO_64;
    }
  }

  lemma NarrowRoundTrip(v: int)
    ensures 0 <= v < TWO_32 ==> v % TWO_32 == v
    ensures -0x8000_0000 <= v < 0x8000_0000 ==> Signed(v % TWO_32, TWO_32) == v
    ensures -0x80 <= v < 0x80 ==> Signed(v % TWO_32, 0x100) == v
    ensures -0x8000 <= v < 0x8000 ==> Signed(v % TWO_32, 0x1_0000) == v
  {
    if -0x8000_0000 <= v < 0 {
      assert v % TWO_32 == v + TWO_32;
      assert -0x8000 <= v ==> (v + TWO_32) % 0x1_0000 == v + 0x1_0000;
      assert -0x80 <= v ==> (v + TWO_32) % 0x100 == v + 0x100;
    }
  }

  // ---------------------------------------------------------------- words of arguments

  datatype State = State(regs: seq<Word>, mem: Mem, thumb: bool) {
    predicate Valid() {
      |regs| == 16
    }
  }

  /** The `i`th word of the arguments. */
  function ArgWord(regs: seq<Word>, mem: Mem, stackPtr: Word, i: nat): Word
    requires |regs| == 16
  {
    if i < 4 then regs[i] else Read(mem, Plus(stackPtr, 4 * (i - 4)))
  }

  function ArgWords(regs: seq<Word>, mem: Mem, stackPtr: Word, offset: nat, n: nat): (words: seq<Word>)
    requires |regs| == 16
    ensures |words| == n
  {
    if n == 0 then [] else ArgWords(regs, mem, stackPtr, offset, n - 1) + [ArgWord(regs, mem, stackPtr, offset + n - 1)]
  }

  function PutWord(s: State, i: nat, w: Word): (s': State)
    requires s.Valid()
    ensures s'.Valid()
  {
    if i < 4 then s.(regs := s.regs[i := w]) else s.(mem := s.mem[Plus(s.regs[SP], 4 * (i - 4)) := w])
  }

  /** Puts words in place from the `offset`th on. */
  function PutWords(s: State, offset: nat, words: seq<Word>): (s': State)
    requires s.Valid()
    ensures s'.Valid()
    decreases |words|
  {
    if words == [] then s else PutWord(PutWords(s, offset, words[..|words| - 1]), offset + |words| - 1, Last(words))
  }

  function AllWords(args: seq<Arg>): seq<Word>
    requires forall a <- args :: InRange(a)
  {
    if args == [] then [] else AllWords(args[..|args| - 1]) + ToRegs(Last(args))
  }

  function RegSum(kinds: seq<Kind>): nat {
    if kinds == [] then 0 else RegSum(kinds[..|kinds| - 1]) + RegCount(Last(kinds))
  }

  function Kinds(args: seq<Arg>): (kinds: seq<Kind>)
    ensures |kinds| == |args|
  {
    if args == [] then [] else Kinds(args[..|args| - 1]) + [KindOf(Last(args))]
  }

  /** Reads arguments of these types, one after the other. */
  function ReadArgs(regs: seq<Word>, mem: Mem, stackPtr: Word, offset: nat, kinds: seq<Kind>): seq<Arg>
    requires |regs| == 16
  {
    if kinds == [] then []
    else
      var init := kinds[..|kinds| - 1];
      var n := RegCount(Last(kinds));
      ReadArgs(regs, mem, stackPtr, offset, init) + [FromRegs(Last(kinds), ArgWords(regs, mem, stackPtr, offset + RegSum(init), n))]
  }

  /** Below these, words on the stack do not meet each other. */
  const MAX_WORDS: nat := 0x4000_0000

  // ---------------------------------------------------------------- what is put is found

  lemma DifferentWords(sp: Word, i: nat, j: nat)
    requires i < MAX_WORDS && j < MAX_WORDS && i != j
    ensures Plus(sp, 4 * i) != Plus(sp, 4 * j)
  {
  }

  lemma PutWordFound(s: State, i: nat, w: Word, j: nat)
    requires s.Valid() && i < MAX_WORDS && j < MAX_WORDS
    ensures
      var s' := PutWord(s, i, w);
      && s'.regs[4..] == s.regs[4..] && s'.thumb == s.thumb
      && ArgWord(s'.regs, s'.mem, s.regs[SP], j) == if i == j then w else ArgWord(s.regs, s.mem, s.regs[SP], j)
  {
    hide Plus;
    if i >= 4 && j >= 4 && i != j {
      DifferentWords(s.regs[SP], i - 4, j - 4);
    }
  }

  lemma {:induction false} PutWordsFound(s: State, offset: nat, words: seq<Word>, j: nat)
    requires s.Valid() && offset + |words| <= MAX_WORDS && j < MAX_WORDS
    ensures
      var s' := PutWords(s, offset, words);
      && s'.regs[4..] == s.regs[4..] && s'.thumb == s.thumb
      && ArgWord(s'.regs, s'.mem, s.regs[SP], j) ==
           if offset <= j < offset + |words| then words[j - offset] else ArgWord(s.regs, s.mem, s.regs[SP], j)
    decreases |words|
  {
    if words != [] {
      hide ArgWord, PutWord;
      var init := words[..|words| - 1];
      PutWordsFound(s, offset, init, j);
      var before := PutWords(s, offset, init);
      assert before.regs[4..][SP - 4] == s.regs[4..][SP - 4];
      PutWordFound(before, offset + |words| - 1, Last(words), j);
    }
  }

  lemma {:induction false} PutJoins(s: State, offset: nat, a: seq<Word>, b: seq<Word>)
    requires s.Valid()
    ensures PutWords(s, offset, a + b) == PutWords(PutWords(s, offset, a), offset + |a|, b)
  {
    if b == [] {
      assert a + b == a;
    } else {
      assert (a + b)[..|a + b| - 1] == a + b[..|b| - 1];
      PutJoins(s, offset, a, b[..|b| - 1]);
    }
  }

  lemma {:induction false} ArgWordsAre(regs: seq<Word>, mem: Mem, stackPtr: Word, offset: nat, words: seq<Word>)
    requires |regs| == 16
    requires forall i | 0 <= i < |words| :: ArgWord(regs, mem, stackPtr, offset + i) == words[i]
    ensures ArgWords(regs, mem, stackPtr, offset, |words|) == words
  {
    if words != [] {
      hide ArgWord;
      ArgWordsAre(regs, mem, stackPtr, offset, words[..|words| - 1]);
      assert words == words[..|words| - 1] + [Last(words)];
    }
  }

  lemma {:induction false} AllWordsSize(args: seq<Arg>)
    requires forall a <- args :: InRange(a)
    ensures |AllWords(args)| == RegSum(Kinds(args))
  {
    if args != [] {
      AllWordsSize(args[..|args| - 1]);
      assert Kinds(args)[..|args| - 1] == Kinds(args[..|args| - 1]);
    }
  }

  /** Where the words of the arguments are, the arguments are read. */
  lemma {:induction false} ReadsArgs(regs: seq<Word>, mem: Mem, stackPtr: Word, offset: nat, args: seq<Arg>)
    requires |regs| == 16 && forall a <- args :: InRange(a)
    requires ArgWords(regs, mem, stackPtr, offset, |AllWords(args)|) == AllWords(args)
    ensures ReadArgs(regs, mem, stackPtr, offset, Kinds(args)) == args
  {
    if args != [] {
      var init, a := args[..|args| - 1], Last(args);
      Unfolded(args);
      hide *;
      WordsOfLast(regs, mem, stackPtr, offset, init, a);
      ReadsArgs(regs, mem, stackPtr, offset, init);
      ReadsLast(regs, mem, stackPtr, offset, init, a);
    }
  }

  lemma Unfolded(args: seq<Arg>)
    requires args != [] && forall a <- args :: InRange(a)
    ensures
      var init, a := args[..|args| - 1], Last(args);
      && args == init + [a] && InRange(a) && (forall b <- init :: InRange(b))
      && AllWords(args) == AllWords(init) + ToRegs(a) && Kinds(args) == Kinds(init) + [KindOf(a)]
  {
    assert Last(args) in args;
  }

  lemma OneMorePut(s: State, offset: nat, words: seq<Word>, w: Word)
    requires s.Valid()
    ensures PutWords(s, offset, words + [w]) == PutWord(PutWords(s, offset, words), offset + |words|, w)
  {
    assert (words + [w])[..|words|] == words;
  }

  lemma NoWords(s: State, offset: nat)
    requires s.Valid()
    ensures AllWords([]) == [] && PutWords(s, offset, []) == s
  {
  }

  lemma ReadsLast(regs: seq<Word>, mem: Mem, stackPtr: Word, offset: nat, init: seq<Arg>, a: Arg)
    requires |regs| == 16 && InRange(a) && forall b <- init :: InRange(b)
    requires ReadArgs(regs, mem, stackPtr, offset, Kinds(init)) == init
    requires ArgWords(regs, mem, stackPtr, offset + |AllWords(init)|, |ToRegs(a)|) == ToRegs(a)
    ensures ReadArgs(regs, mem, stackPtr, offset, Kinds(init) + [KindOf(a)]) == init + [a]
  {
    hide *;
    AllWordsSize(init);
    FromToRegs(a);
    OneMoreRead(regs, mem, stackPtr, offset, Kinds(init), KindOf(a));
  }

  lemma WordsOfLast(regs: seq<Word>, mem: Mem, stackPtr: Word, offset: nat, init: seq<Arg>, a: Arg)
    requires |regs| == 16 && InRange(a) && forall b <- init :: InRange(b)
    requires
      var words := AllWords(init) + ToRegs(a);
      ArgWords(regs, mem, stackPtr, offset, |words|) == words
    ensures ArgWords(regs, mem, stackPtr, offset, |AllWords(init)|) == AllWords(init)
    ensures ArgWords(regs, mem, stackPtr, offset + |AllWords(init)|, |ToRegs(a)|) == ToRegs(a)
  {
    hide *;
    var m, n := |AllWords(init)|, |ToRegs(a)|;
    ArgWordsSplit(regs, mem, stackPtr, offset, m, n);
    BothHalves(ArgWords(regs, mem, stackPtr, offset, m), ArgWords(regs, mem, stackPtr, offset + m, n), AllWords(init), ToRegs(a));
  }

  lemma OneMoreRead(regs: seq<Word>, mem: Mem, stackPtr: Word, offset: nat, kinds: seq<Kind>, kind: Kind)
    requires |regs| == 16
    ensures ReadArgs(regs, mem, stackPtr, offset, kinds + [kind]) ==
      ReadArgs(regs, mem, stackPtr, offset, kinds)
      + [FromRegs(kind, ArgWords(regs, mem, stackPtr, offset + RegSum(kinds), RegCount(kind)))]
  {
    hide ArgWords, FromRegs, RegCount;
    assert (kinds + [kind])[..|kinds|] == kinds;
  }

  lemma BothHalves(a: seq<Word>, b: seq<Word>, c: seq<Word>, d: seq<Word>)
    requires a + b == c + d && |a| == |c|
    ensures a == c && b == d
  {
    assert a == (a + b)[..|a|] && b == (a + b)[|a|..];
    assert c == (c + d)[..|c|] && d == (c + d)[|c|..];
  }

  lemma {:induction false} ArgWordsSplit(regs: seq<Word>, mem: Mem, stackPtr: Word, offset: nat, m: nat, n: nat)
    requires |regs| == 16
    ensures ArgWords(regs, mem, stackPtr, offset, m + n) ==
      ArgWords(regs, mem, stackPtr, offset, m) + ArgWords(regs, mem, stackPtr, offset + m, n)
  {
    if n > 0 {
      ArgWordsSplit(regs, mem, stackPtr, offset, m, n - 1);
    }
  }

  /** Whatever the types and wherever a value is split, the arguments written are the arguments read. */
  lemma RoundTrip(s: State, offset: nat, args: seq<Arg>)
    requires s.Valid() && (forall a <- args :: InRange(a)) && offset + |AllWords(args)| <= MAX_WORDS
    ensures
      var s' := PutWords(s, offset, AllWords(args));
      && s'.regs[4..] == s.regs[4..]
      && ReadArgs(s'.regs, s'.mem, s'.regs[SP], offset, Kinds(args)) == args
  {
    var words := AllWords(args);
    var s' := PutWords(s, offset, words);
    assert |s.regs| == 16 && |s'.regs| == 16;
    hide *;
    PutAllFound(s, offset, words);
    ArgWordsAre(s'.regs, s'.mem, s.regs[SP], offset, words);
    ReadsArgs(s'.regs, s'.mem, s.regs[SP], offset, args);
  }

  lemma PutAllFound(s: State, offset: nat, words: seq<Word>)
    requires s.Valid() && offset + |words| <= MAX_WORDS
    ensures
      var s' := PutWords(s, offset, words);
      && s'.regs[4..] == s.regs[4..] && s'.regs[SP] == s.regs[SP]
      && forall i | 0 <= i < |words| :: ArgWord(s'.regs, s'.mem, s.regs[SP], offset + i) == words[i]
  {
    hide PutWords, ArgWord;
    var s' := PutWords(s, offset, words);
    PutWordsFound(s, offset, words, 0);
    assert s'.regs[4..][SP - 4] == s.regs[4..][SP - 4];
    forall i | 0 <= i < |words| ensures ArgWord(s'.regs, s'.mem, s.regs[SP], offset + i) == words[i] {
      PutWordsFound(s, offset, words, offset + i);
    }
  }

  /** Variable arguments are read on from where the named ones end. */
  lemma {:induction false} VariableArguments(regs: seq<Word>, mem: Mem, stackPtr: Word, offset: nat, named: seq<Kind>, more: seq<Kind>)
    requires |regs| == 16
    ensures ReadArgs(regs, mem, stackPtr, offset, named + more) ==
      ReadArgs(regs, mem, stackPtr, offset, named) + ReadArgs(regs, mem, stackPtr, offset + RegSum(named), more)
    ensures RegSum(named + more) == RegSum(named) + RegSum(more)
  {
    if more == [] {
      assert named + more == named;
    } else {
      var init, kind := more[..|more| - 1], Last(more);
      assert named + more == named + init + [kind] && more == init + [kind];
      VariableArguments(regs, mem, stackPtr, offset, named, init);
      OneVariableArgument(regs, mem, stackPtr, offset, named, init, kind);
    }
  }

  lemma OneVariableArgument(regs: seq<Word>, mem: Mem, stackPtr: Word, offset: nat, named: seq<Kind>, init: seq<Kind>, kind: Kind)
    requires |regs| == 16
    requires ReadArgs(regs, mem, stackPtr, offset, named + init) ==
      ReadArgs(regs, mem, stackPtr, offset, named) + ReadArgs(regs, mem, stackPtr, offset + RegSum(named), init)
    requires RegSum(named + init) == RegSum(named) + RegSum(init)
    ensures ReadArgs(regs, mem, stackPtr, offset, named + init + [kind]) ==
      ReadArgs(regs, mem, stackPtr, offset, named) + ReadArgs(regs, mem, stackPtr, offset + RegSum(named), init + [kind])
    ensures RegSum(named + init + [kind]) == RegSum(named) + RegSum(init + [kind])
  {
    RegSumOneMore(named + init, kind);
    RegSumOneMore(init, kind);
    hide *;
    OneMoreRead(regs, mem, stackPtr, offset, named + init, kind);
    OneMoreRead(regs, mem, stackPtr, offset + RegSum(named), init, kind);
  }

  lemma RegSumOneMore(kinds: seq<Kind>, kind: Kind)
    ensures RegSum(kinds + [kind]) == RegSum(kinds) + RegCount(kind)
  {
    assert (kinds + [kind])[..|kinds|] == kinds;
  }

  /** A variable argument list passed as a pointer reads only memory, from the pointer on. */
  lemma ListByPointer(regs: seq<Word>, mem: Mem, pointer: Word, args: seq<Arg>)
    requires |regs| == 16 && forall a <- args :: InRange(a)
    requires forall i | 0 <= i < |AllWords(args)| :: Read(mem, Plus(pointer, 4 * i)) == AllWords(args)[i]
    ensures ReadArgs(regs, mem, pointer, 4, Kinds(args)) == args
  {
    hide Plus, Read;
    var words := AllWords(args);
    forall i | 0 <= i < |words| ensures ArgWord(regs, mem, pointer, 4 + i) == words[i] {
      assert 4 * (4 + i - 4) == 4 * i;
      assert Read(mem, Plus(pointer, 4 * i)) == words[i];
    }
    ArgWordsAre(regs, mem, pointer, 4, words);
    ReadsArgs(regs, mem, pointer, 4, args);
  }

  // ---------------------------------------------------------------- where words go

  function StackWords(sum: nat): nat {
    if sum > 4 then sum - 4 else 0
  }

  /** Only words of the block of `n` words at `at` may differ. */
  ghost predicate OnlyWithin(mem: Mem, mem': Mem, at: Word, n: nat) {
    forall w: Word :: Read(mem', w) != Read(mem, w) ==> exists k: nat :: k < n && w == Plus(at, 4 * k)
  }

  lemma {:induction false} PutStaysWithin(s: State, offset: nat, words: seq<Word>)
    requires s.Valid()
    ensures OnlyWithin(s.mem, PutWords(s, offset, words).mem, s.regs[SP], StackWords(offset + |words|))
    ensures PutWords(s, offset, words).regs[4..] == s.regs[4..]
    decreases |words|
  {
    if words != [] {
      hide Plus;
      var init, i := words[..|words| - 1], offset + |words| - 1;
      PutStaysWithin(s, offset, init);
      var before := PutWords(s, offset, init);
      assert before.regs[4..][SP - 4] == s.regs[4..][SP - 4];
      forall w: Word | Read(PutWord(before, i, Last(words)).mem, w) != Read(s.mem, w)
        ensures exists k: nat :: k < StackWords(offset + |words|) && w == Plus(s.regs[SP], 4 * k)
      {
        if Read(before.mem, w) != Read(s.mem, w) {
          var k: nat :| k < StackWords(offset + |init|) && w == Plus(s.regs[SP], 4 * k);
          assert k < StackWords(offset + |words|);
        } else {
          assert i >= 4 && w == Plus(s.regs[SP], 4 * (i - 4));
        }
      }
    }
  }

  // ---------------------------------------------------------------- calling guest functions

  function Extended(s: State, sum: nat): (s': State)
    requires s.Valid()
    ensures s'.Valid()
  {
    s.(regs := s.regs[SP := Plus(s.regs[SP], -4 * StackWords(sum))])
  }

  /** Execution continues at `target`, whose low bit selects the instruction set. */
  function BranchTo(s: State, target: Word): (s': State)
    requires s.Valid()
    ensures s'.Valid()
  {
    State(s.regs[PC := target - target % 2], s.mem, target % 2 == 1)
  }

  /** A frame holding the old frame pointer and return address. */
  function Framed(s: State, oldLr: Word): (s': State)
    requires s.Valid()
    ensures s'.Valid()
  {
    var sp := Plus(s.regs[SP], -8);
    State(s.regs[SP := sp][FRAME_POINTER := sp], s.mem[sp := s.regs[FRAME_POINTER]][Plus(sp, 4) := oldLr], s.thumb)
  }

  /** The state in which the guest function starts. */
  function GuestEntry(s: State, target: Word, returnRoutine: Word, args: seq<Arg>): (s': State)
    requires s.Valid() && forall a <- args :: InRange(a)
    ensures s'.Valid()
  {
    var branched := BranchTo(s, target);
    var linked := branched.(regs := branched.regs[LR := returnRoutine]);
    PutWords(Extended(Framed(linked, s.regs[LR]), |AllWords(args)|), 0, AllWords(args))
  }

  /** The state after the call, when the guest function has left `after`. */
  function GuestReturn(s: State, after: State): (s': State)
    requires s.Valid() && after.Valid()
    ensures s'.Valid()
  {
    var pc: Word := if s.thumb && s.regs[PC] % 2 == 0 then s.regs[PC] + 1 else s.regs[PC];
    var back := BranchTo(after, pc);
    back.(regs := back.regs[LR := s.regs[LR]][SP := s.regs[SP]][FRAME_POINTER := s.regs[FRAME_POINTER]])
  }

  /** The guest function finds its arguments. */
  lemma GuestFindsArguments(s: State, target: Word, returnRoutine: Word, args: seq<Arg>)
    requires s.Valid() && (forall a <- args :: InRange(a)) && |AllWords(args)| + 2 <= MAX_WORDS
    ensures
      var e := GuestEntry(s, target, returnRoutine, args);
      ReadArgs(e.regs, e.mem, e.regs[SP], 0, Kinds(args)) == args
  {
    hide PutWords, ReadArgs, Kinds, AllWords, BranchTo, Framed, Extended, InRange;
    RoundTrip(BeforeArguments(s, target, returnRoutine, |AllWords(args)|), 0, args);
  }

  /** It starts where it should, with a frame that links to its caller's and with the other registers as they were. */
  lemma GuestFindsFrame(s: State, target: Word, returnRoutine: Word, args: seq<Arg>)
    requires s.Valid() && (forall a <- args :: InRange(a)) && |AllWords(args)| + 2 <= MAX_WORDS
    ensures
      var e := GuestEntry(s, target, returnRoutine, args);
      var n := StackWords(|AllWords(args)|);
      var sp := Plus(s.regs[SP], -4 * n - 8);
      && e.regs[SP] == sp && e.regs[FRAME_POINTER] == Plus(sp, 4 * n) && e.regs[LR] == returnRoutine
      && e.regs[PC] == target - target % 2 && (e.thumb <==> target % 2 == 1)
      && Read(e.mem, Plus(sp, 4 * n)) == s.regs[FRAME_POINTER] && Read(e.mem, Plus(sp, 4 * (n + 1))) == s.regs[LR]
      && (forall r | 4 <= r < 13 && r != FRAME_POINTER :: e.regs[r] == s.regs[r])
  {
    var words := AllWords(args);
    var before := BeforeArguments(s, target, returnRoutine, |words|);
    assert GuestEntry(s, target, returnRoutine, args) == PutWords(before, 0, words);
    hide PutWords, AllWords, BeforeArguments, GuestEntry, InRange, StackWords, Plus, Read;
    BeforeArgumentsIs(s, target, returnRoutine, |words|);
    FrameUntouched(before, words);
    PutKeepsOthers(before, words);
  }

  /** All that is written lies in the words reserved below the caller's stack pointer. */
  lemma EntryWithin(s: State, target: Word, returnRoutine: Word, words: seq<Word>)
    requires s.Valid() && |words| + 2 <= MAX_WORDS
    ensures
      var n := StackWords(|words|);
      var entry := PutWords(BeforeArguments(s, target, returnRoutine, |words|), 0, words);
      OnlyWithin(s.mem, entry.mem, Plus(s.regs[SP], -4 * n - 8), n + 2)
  {
    hide Plus, Read, OnlyWithin, PutWords, BeforeArguments, StackWords;
    BeforeArgumentsIs(s, target, returnRoutine, |words|);
    var before := BeforeArguments(s, target, returnRoutine, |words|);
    WritesWithin(before, words);
    WithinFrame(s.mem, before.mem, s.regs[FRAME_POINTER], s.regs[LR], PutWords(before, 0, words).mem, before.regs[SP], StackWords(|words|));
  }

  lemma GuestCallWritesBelow(s: State, target: Word, returnRoutine: Word, args: seq<Arg>)
    requires s.Valid() && (forall a <- args :: InRange(a)) && |AllWords(args)| + 2 <= MAX_WORDS
    ensures
      var n := StackWords(|AllWords(args)|);
      OnlyWithin(s.mem, GuestEntry(s, target, returnRoutine, args).mem, Plus(s.regs[SP], -4 * n - 8), n + 2)
  {
    var words := AllWords(args);
    assert GuestEntry(s, target, returnRoutine, args) == PutWords(BeforeArguments(s, target, returnRoutine, |words|), 0, words);
    hide *;
    EntryWithin(s, target, returnRoutine, words);
  }

  lemma PutKeepsOthers(s: State, words: seq<Word>)
    requires s.Valid()
    ensures forall r | 4 <= r < 16 :: PutWords(s, 0, words).regs[r] == s.regs[r]
    ensures PutWords(s, 0, words).thumb == s.thumb
  {
    PutStaysWithin(s, 0, words);
    PutKeepsMode(s, 0, words);
    hide OnlyWithin, PutWords;
    HighRegisters(PutWords(s, 0, words).regs, s.regs);
  }

  /** All but the arguments of `GuestEntry`. */
  function BeforeArguments(s: State, target: Word, returnRoutine: Word, sum: nat): (s': State)
    requires s.Valid()
    ensures s'.Valid()
  {
    var branched := BranchTo(s, target);
    Extended(Framed(branched.(regs := branched.regs[LR := returnRoutine]), s.regs[LR]), sum)
  }

  lemma BeforeArgumentsIs(s: State, target: Word, returnRoutine: Word, sum: nat)
    requires s.Valid()
    ensures
      var e := BeforeArguments(s, target, returnRoutine, sum);
      var n := StackWords(sum);
      var sp := Plus(s.regs[SP], -4 * n - 8);
      && e.regs[SP] == sp && e.regs[FRAME_POINTER] == Plus(sp, 4 * n) && e.regs[LR] == returnRoutine
      && e.regs[PC] == target - target % 2 && (e.thumb <==> target % 2 == 1)
      && (forall r | 4 <= r < 13 && r != FRAME_POINTER :: e.regs[r] == s.regs[r])
      && e.mem == s.mem[Plus(sp, 4 * n) := s.regs[FRAME_POINTER]][Plus(sp, 4 * (n + 1)) := s.regs[LR]]
      && Read(e.mem, Plus(sp, 4 * n)) == s.regs[FRAME_POINTER] && Read(e.mem, Plus(sp, 4 * (n + 1))) == s.regs[LR]
  {
    FrameAddresses(s.regs[SP], StackWords(sum));
    hide Plus;
  }

  lemma HighRegisters(regs: seq<Word>, regs': seq<Word>)
    requires |regs| == |regs'| == 16 && regs[4..] == regs'[4..]
    ensures forall r | 4 <= r < 16 :: regs[r] == regs'[r]
  {
    forall r | 4 <= r < 16 ensures regs[r] == regs'[r] {
      assert regs[r] == regs[4..][r - 4] && regs'[r] == regs'[4..][r - 4];
    }
  }

  lemma {:induction false} PutKeepsMode(s: State, offset: nat, words: seq<Word>)
    requires s.Valid()
    ensures PutWords(s, offset, words).thumb == s.thumb
    decreases |words|
  {
    if words != [] {
      PutKeepsMode(s, offset, words[..|words| - 1]);
    }
  }

  /** Two words above the arguments and the arguments. */
  lemma WithinFrame(mem: Mem, framed: Mem, fp: Word, lr: Word, mem': Mem, sp: Word, n: nat)
    requires framed == mem[Plus(sp, 4 * n) := fp][Plus(sp, 4 * (n + 1)) := lr]
    requires OnlyWithin(framed, mem', sp, n)
    ensures OnlyWithin(mem, mem', sp, n + 2)
  {
    hide Plus;
    forall w: Word | Read(mem', w) != Read(mem, w) ensures exists k: nat :: k < n + 2 && w == Plus(sp, 4 * k) {
      if Read(mem', w) != Read(framed, w) {
        var k: nat :| k < n && w == Plus(sp, 4 * k);
        assert k < n + 2;
      } else {
        assert w == Plus(sp, 4 * n) || w == Plus(sp, 4 * (n + 1));
      }
    }
  }

  lemma PlusMoves(a: Word)
    ensures Plus(a, 4) != a
  {
  }

  lemma FrameAddresses(sp: Word, n: nat)
    ensures
      var framed := Plus(sp, -8);
      var extended := Plus(framed, -4 * n);
      && extended == Plus(sp, -4 * n - 8)
      && Plus(extended, 4 * n) == framed && Plus(extended, 4 * (n + 1)) == Plus(framed, 4) && Plus(framed, 4) != framed
  {
    PlusPlus(sp, -8, -4 * n);
    PlusPlus(Plus(sp, -8), -4 * n, 4 * n);
    PlusPlus(Plus(sp, -8), -4 * n, 4 * (n + 1));
    PlusMoves(Plus(sp, -8));
    hide Plus;
  }

  lemma WritesWithin(s: State, words: seq<Word>)
    requires s.Valid()
    ensures OnlyWithin(s.mem, PutWords(s, 0, words).mem, s.regs[SP], StackWords(|words|))
  {
    PutStaysWithin(s, 0, words);
    hide OnlyWithin, PutWords, StackWords;
  }

  lemma OutsideStays(mem: Mem, mem': Mem, at: Word, n: nat, w: Word)
    requires OnlyWithin(mem, mem', at, n) && forall k: nat | k < n :: w != Plus(at, 4 * k)
    ensures Read(mem', w) == Read(mem, w)
  {
    hide Plus;
  }

  lemma FrameAbove(sp: Word, n: nat)
    requires n + 2 <= MAX_WORDS
    ensures forall k: nat | k < n :: Plus(sp, 4 * n) != Plus(sp, 4 * k) && Plus(sp, 4 * (n + 1)) != Plus(sp, 4 * k)
  {
    hide Plus;
    forall k: nat | k < n ensures Plus(sp, 4 * n) != Plus(sp, 4 * k) && Plus(sp, 4 * (n + 1)) != Plus(sp, 4 * k) {
      DifferentWords(sp, n, k);
      DifferentWords(sp, n + 1, k);
    }
  }

  /** Arguments on the stack do not reach the words above them. */
  lemma FrameUntouched(s: State, words: seq<Word>)
    requires s.Valid() && |words| + 2 <= MAX_WORDS
    ensures
      var n := StackWords(|words|);
      var e := PutWords(s, 0, words);
      && Read(e.mem, Plus(s.regs[SP], 4 * n)) == Read(s.mem, Plus(s.regs[SP], 4 * n))
      && Read(e.mem, Plus(s.regs[SP], 4 * (n + 1))) == Read(s.mem, Plus(s.regs[SP], 4 * (n + 1)))
  {
    var n: nat := StackWords(|words|);
    var sp := s.regs[SP];
    var mem' := PutWords(s, 0, words).mem;
    WritesWithin(s, words);
    hide PutWords, OnlyWithin, Plus, Read, StackWords;
    FrameAbove(sp, n);
    OutsideStays(s.mem, mem', sp, n, Plus(sp, 4 * n));
    OutsideStays(s.mem, mem', sp, n, Plus(sp, 4 * (n + 1)));
  }

  /** Whatever the function does, the caller gets back its place, its stack and its frame. */
  lemma CallerIsRestored(s: State, after: State)
    requires s.Valid() && after.Valid() && s.regs[PC] % 2 == 0
    ensures
      var s' := GuestReturn(s, after);
      && s'.mem == after.mem && (s'.thumb <==> s.thumb)
      && (forall r | r == PC || r == LR || r == SP || r == FRAME_POINTER :: s'.regs[r] == s.regs[r])
      && (forall r | 0 <= r < 13 && r != FRAME_POINTER :: s'.regs[r] == after.regs[r])
  {
  }

  // ---------------------------------------------------------------- calling host functions

  /** The state in which a host function called as if it were a guest function starts. */
  function HostEntry(s: State, retWords: Option<nat>, args: seq<Arg>): (s': State)
    requires s.Valid() && forall a <- args :: InRange(a)
    ensures s'.Valid()
  {
    var words := AllWords(args);
    match retWords
    case None => PutWords(Extended(s, |words|), 0, words)
    case Some(n) =>
      var ptr := Plus(s.regs[SP], -4 * n);
      var reserved := PutWord(s.(regs := s.regs[SP := ptr]), 0, ptr);
      PutWords(Extended(reserved, |words|), 1, words)
  }

  /** With a result in memory, its pointer is the first argument, and the others are found after it. */
  lemma ResultInMemory(s: State, n: nat, args: seq<Arg>)
    requires s.Valid() && (forall a <- args :: InRange(a)) && |AllWords(args)| + 1 <= MAX_WORDS
    ensures
      var e := HostEntry(s, Some(n), args);
      && ArgWord(e.regs, e.mem, e.regs[SP], 0) == Plus(s.regs[SP], -4 * n)
      && ReadArgs(e.regs, e.mem, e.regs[SP], 1, Kinds(args)) == args
  {
    var words := AllWords(args);
    var extended := WithPointer(s, n, |words|);
    assert extended.regs[0] == Plus(s.regs[SP], -4 * n);
    hide Plus, PutWords, ReadArgs, Kinds, AllWords, InRange, OnlyWithin;
    RoundTrip(extended, 1, args);
    PutWordsFound(extended, 1, words, 0);
  }

  /** The state before the arguments are written. */
  function WithPointer(s: State, n: nat, sum: nat): (s': State)
    requires s.Valid()
    ensures s'.Valid()
  {
    var ptr := Plus(s.regs[SP], -4 * n);
    Extended(PutWord(s.(regs := s.regs[SP := ptr]), 0, ptr), sum)
  }

  /**
   The pointer takes the first register but is not counted when stack is reserved: the last word
   of the arguments is written into the buffer for the result exactly when the arguments take four
   words or more.
   */
  lemma ArgumentsReachResult(s: State, n: nat, args: seq<Arg>)
    requires s.Valid() && (forall a <- args :: InRange(a)) && |AllWords(args)| + 1 <= MAX_WORDS
    ensures
      var e := HostEntry(s, Some(n), args);
      var ptr := Plus(s.regs[SP], -4 * n);
      var sum := |AllWords(args)|;
      && (sum < 4 ==> e.mem == s.mem)
      && (sum >= 4 ==> ptr == Plus(e.regs[SP], 4 * StackWords(sum)) && Read(e.mem, ptr) == Last(AllWords(args)))
  {
    var words := AllWords(args);
    var ptr := Plus(s.regs[SP], -4 * n);
    var extended := WithPointer(s, n, |words|);
    var e := PutWords(extended, 1, words);
    PlusPlus(ptr, -4 * StackWords(|words|), 4 * StackWords(|words|));
    assert extended.mem == s.mem && Plus(extended.regs[SP], 4 * StackWords(|words|)) == ptr;
    hide Plus, PutWord, PutWords, AllWords, InRange, OnlyWithin, Read, WithPointer;
    if |words| >= 4 {
      PutWordsFound(extended, 1, words, |words|);
      HighRegisters(e.regs, extended.regs);
      assert 4 * (|words| - 4) == 4 * StackWords(|words|);
    } else {
      FewWords(extended, 1, words);
    }
  }

  lemma {:induction false} FewWords(s: State, offset: nat, words: seq<Word>)
    requires s.Valid() && offset + |words| <= 4
    ensures PutWords(s, offset, words).mem == s.mem
    decreases |words|
  {
    if words != [] {
      FewWords(s, offset, words[..|words| - 1]);
    }
  }

  /** Without a result in memory only the words reserved on the stack are written. */
  lemma ResultInRegisters(s: State, args: seq<Arg>)
    requires s.Valid() && (forall a <- args :: InRange(a)) && |AllWords(args)| <= MAX_WORDS
    ensures
      var e := HostEntry(s, None, args);
      && ReadArgs(e.regs, e.mem, e.regs[SP], 0, Kinds(args)) == args
      && e.regs[SP] == Plus(s.regs[SP], -4 * StackWords(|AllWords(args)|))
      && OnlyWithin(s.mem, e.mem, e.regs[SP], StackWords(|AllWords(args)|))
  {
    var words := AllWords(args);
    var extended := Extended(s, |words|);
    hide Plus, PutWord, ReadArgs, Kinds;
    RoundTrip(extended, 0, args);
    PutStaysWithin(extended, 0, words);
    assert PutWords(extended, 0, words).regs[4..][SP - 4] == extended.regs[4..][SP - 4];
  }

  // ---------------------------------------------------------------- the machine

  lemma PrefixGrows(words: seq<Word>, i: nat)
    requires i <= |words|
    ensures i < |words| ==> words[..i + 1] == words[..i] + [words[i]]
    ensures words[..|words|] == words
  {
  }

  class Machine {
    var regs: seq<Word>
    var mem: Mem
    var thumb: bool

    constructor (s: State)
      ensures View() == s
    {
      regs, mem, thumb := s.regs, s.mem, s.thumb;
    }

    function View(): State
      reads this
    {
      State(regs, mem, thumb)
    }

    ghost predicate Valid()
      reads this
    {
      View().Valid()
    }

    method WriteNextArg(regOffset: nat, arg: Arg) returns (next: nat)
      requires Valid() && InRange(arg)
      modifies `regs, `mem
      ensures Valid() && next == regOffset + RegCount(KindOf(arg))
      ensures View() == PutWords(old(View()), regOffset, ToRegs(arg))
    {
      var fakeRegs := ToRegs(arg);
      next := regOffset;
      NoWords(View(), regOffset);
      hide PutWords, ToRegs, InRange, Plus;
      for i := 0 to |fakeRegs|
        invariant Valid() && next == regOffset + i
        invariant View() == PutWords(old(View()), regOffset, fakeRegs[..i])
      {
        PrefixGrows(fakeRegs, i);
        OneMorePut(old(View()), regOffset, fakeRegs[..i], fakeRegs[i]);
        if next < 4 {
          regs := regs[next := fakeRegs[i]];
        } else {
          mem := mem[Plus(regs[SP], 4 * (next - 4)) := fakeRegs[i]];
        }
        next := next + 1;
      }
      PrefixGrows(fakeRegs, |fakeRegs|);
    }

    method ReadNextArg(regOffset: nat, kind: Kind, stackPtr: Word) returns (arg: Arg, next: nat)
      requires Valid()
      ensures next == regOffset + RegCount(kind)
      ensures arg == FromRegs(kind, ArgWords(regs, mem, stackPtr, regOffset, RegCount(kind)))
    {
      var fakeRegs: seq<Word> := [];
      next := regOffset;
      for i := 0 to RegCount(kind)
        invariant next == regOffset + i && fakeRegs == ArgWords(regs, mem, stackPtr, regOffset, i)
      {
        var word := if next < 4 then regs[next] else Read(mem, Plus(stackPtr, 4 * (next - 4)));
        fakeRegs := fakeRegs + [word];
        next := next + 1;
      }
      arg := FromRegs(kind, fakeRegs);
    }

    method ExtendStackForArgs(regCountSum: nat) returns (previousSp: Word)
      requires Valid()
      modifies `regs
      ensures Valid() && previousSp == old(regs[SP]) && View() == Extended(old(View()), regCountSum)
    {
      previousSp := regs[SP];
      PlusPlus(regs[SP], 0, 0);
      if regCountSum > 4 {
        regs := regs[SP := Plus(previousSp, -4 * (regCountSum - 4))];
      }
    }

    method WriteArgs(regOffset: nat, args: seq<Arg>)
      requires Valid() && forall a <- args :: InRange(a)
      modifies `regs, `mem
      ensures Valid() && View() == PutWords(old(View()), regOffset, AllWords(args))
    {
      hide PutWords, AllWords, ToRegs, InRange;
      var next := regOffset;
      NoWords(old(View()), regOffset);
      for i := 0 to |args|
        invariant Valid() && next == regOffset + |AllWords(args[..i])|
        invariant View() == PutWords(old(View()), regOffset, AllWords(args[..i]))
      {
        assert args[..i + 1][..i] == args[..i];
        Unfolded(args[..i + 1]);
        PutJoins(old(View()), regOffset, AllWords(args[..i]), ToRegs(args[i]));
        next := WriteNextArg(next, args[i]);
      }
      assert args[..|args|] == args;
    }

    method BranchWithLink(target: Word, newLr: Word) returns (oldPc: Word, oldLr: Word)
      requires Valid()
      modifies `regs, `thumb
      ensures Valid() && oldLr == old(regs[LR])
      ensures oldPc == if old(thumb) && old(regs[PC]) % 2 == 0 then old(regs[PC]) + 1 else old(regs[PC])
      ensures View() == BranchTo(old(View()), target).(regs := BranchTo(old(View()), target).regs[LR := newLr])
    {
      oldPc := if thumb && regs[PC] % 2 == 0 then regs[PC] + 1 else regs[PC];
      oldLr := regs[LR];
      Branch(target);
      regs := regs[LR := newLr];
    }

    method Branch(target: Word)
      requires Valid()
      modifies `regs, `thumb
      ensures Valid() && View() == BranchTo(old(View()), target)
    {
      regs, thumb := regs[PC := target - target % 2], target % 2 == 1;
    }

    method PushFrame(oldLr: Word)
      requires Valid()
      modifies `regs, `mem
      ensures Valid() && View() == Framed(old(View()), oldLr)
    {
      var oldFp := regs[FRAME_POINTER];
      regs := regs[SP := Plus(regs[SP], -8)];
      regs := regs[FRAME_POINTER := regs[SP]];
      mem := mem[regs[SP] := oldFp];
      mem := mem[Plus(regs[SP], 4) := oldLr];
    }

    /** Calls a guest function; `guest` stands for what it does until it returns. */
    method CallGuest(target: Word, returnRoutine: Word, args: seq<Arg>, guest: State -> State)
      requires Valid() && (forall a <- args :: InRange(a)) && forall s: State :: s.Valid() ==> guest(s).Valid()
      modifies this
      ensures Valid() && View() == GuestReturn(old(View()), guest(GuestEntry(old(View()), target, returnRoutine, args)))
    {
      hide PutWords, AllWords, Framed, Extended, BranchTo, InRange, Plus;
      var oldSp, oldFp := regs[SP], regs[FRAME_POINTER];
      var oldPc, oldLr := BranchWithLink(target, returnRoutine);
      PushFrame(oldLr);
      var _ := ExtendStackForArgs(|AllWords(args)|);
      WriteArgs(0, args);
      ghost var entry := View();
      assert entry == GuestEntry(old(View()), target, returnRoutine, args);
      var after := guest(View());
      regs, mem, thumb := after.regs, after.mem, after.thumb;
      Branch(oldPc);
      regs := regs[LR := oldLr];
      regs := regs[SP := oldSp];
      regs := regs[FRAME_POINTER := oldFp];
    }

    /** Calls a host function as if it were a guest function, up to its result. */
    method CallHost(retWords: Option<nat>, args: seq<Arg>, host: State -> State) returns (ghost entry: State)
      requires Valid() && (forall a <- args :: InRange(a)) && forall s: State :: s.Valid() ==> host(s).Valid()
      modifies this
      ensures Valid() && entry == HostEntry(old(View()), retWords, args) && entry.Valid() && host(entry).Valid()
      ensures View() == host(entry).(regs := host(entry).regs[SP := old(regs[SP])])
    {
      var regOffset := 0;
      if retWords.Some? {
        regs := regs[SP := Plus(regs[SP], -4 * retWords.value)];
        regs := regs[0 := regs[SP]];
        regOffset := 1;
        PlusPlus(old(regs[SP]), -4 * retWords.value, 4 * retWords.value);
      }
      var oldSp := ExtendStackForArgs(|AllWords(args)|);
      WriteArgs(regOffset, args);
      entry := View();
      var after := host(View());
      regs, mem, thumb := after.regs, after.mem, after.thumb;
      regs := regs[SP := oldSp];
      if retWords.Some? {
        regs := regs[SP := Plus(regs[SP], 4 * retWords.value)];
      }
    }
  }
}
