/**
 Where each word of the arguments goes, and which words a number takes: its low word first, in
 two's complement, the first four words of a call in r0 to r3 and the rest on the stack.
 */
module AbiWords {
  import opened Wrappers
  import opened A32
  import opened Abi

  // ---------------------------------------------------------------- the words of one argument

  /** A number takes one word, or two if it has 64 bits, the low one first; negative ones are in two's complement. */
  lemma NumberWords(kind: Kind, v: int)
    requires InRange(Number(kind, v))
    ensures
      var words := ToRegs(Number(kind, v));
      if kind.Unsigned64? || kind.Signed64? then
        |words| == 2 && words[0] as int + 0x1_0000_0000 * (words[1] as int) == if v < 0 then v + 0x1_0000_0000_0000_0000 else v
      else |words| == 1 && words[0] as int == if v < 0 then v + 0x1_0000_0000 else v
  {
    if v < 0 {
      assert v % TWO_64 == v + TWO_64;
      assert -TWO_32 <= v ==> v % TWO_32 == v + TWO_32;
    }
    WideRoundTrip(v);
  }

  /** How many numbers there are of a kind. */
  ghost function RangeOf(kind: Kind): int
    requires !kind.Raw?
    ensures RangeOf(kind) > 0
  {
    match kind
    case Unsigned8 => 0x100
    case Signed8 => 0x100
    case Unsigned16 => 0x1_0000
    case Signed16 => 0x1_0000
    case Unsigned32 => 0x1_0000_0000
    case Signed32 => 0x1_0000_0000
    case Boolean => 2
    case Unsigned64 => 0x1_0000_0000_0000_0000
    case Signed64 => 0x1_0000_0000_0000_0000
  }

  ghost predicate IsSigned(kind: Kind) {
    kind.Signed8? || kind.Signed16? || kind.Signed32? || kind.Signed64?
  }

  ghost function BitsOf(words: seq<Word>): int
    requires words != []
  {
    words[0] as int + if |words| == 2 then 0x1_0000_0000 * (words[1] as int) else 0
  }

  /** The number of that kind with the same low bits. */
  lemma NumberReadAs(kind: Kind, words: seq<Word>)
    requires |words| == RegCount(kind) && !kind.Raw? && !kind.Boolean?
    ensures FromRegs(kind, words) ==
      Number(kind, if IsSigned(kind) then Signed(BitsOf(words), RangeOf(kind)) else BitsOf(words) % RangeOf(kind))
  {
    hide Signed;
  }

  lemma SignedInRange(v: int, range: int)
    requires range > 0 && range % 2 == 0
    ensures -range / 2 <= Signed(v, range) < range / 2
    ensures v == Signed(v, range) + (v / range + if v % range >= range / 2 then 1 else 0) * range
  {
    SameLowBits(v, range);
  }

  lemma SameLowBits(bits: int, range: int)
    requires range > 0
    ensures bits == bits % range + bits / range * range
    ensures bits == Signed(bits, range) + (bits / range + if bits % range >= range / 2 then 1 else 0) * range
  {
  }

  ghost predicate SameLow(bits: int, v: int, range: int) {
    exists k: int :: bits == v + k * range
  }

  /** Whatever the words, a number of the kind is read that has the same low bits; a truth value tells whether the word is zero. */
  lemma NumberRead(kind: Kind, words: seq<Word>)
    requires |words| == RegCount(kind) && !kind.Raw?
    ensures
      var a := FromRegs(kind, words);
      && a.Number? && a.kind == kind && InRange(a)
      && if kind.Boolean? then a.value == 1 <==> words[0] != 0 else SameLow(BitsOf(words), a.value, RangeOf(kind))
  {
    if !kind.Boolean? {
      NumberReadAs(kind, words);
      var bits, range := BitsOf(words), RangeOf(kind);
      SignedInRange(bits, range);
      SameLowBits(bits, range);
      hide FromRegs, Signed, BitsOf;
      assert SameLow(bits, Signed(bits, range), range);
      assert SameLow(bits, bits % range, range);
      hide SameLow;
    }
  }

  lemma RawRead(words: seq<Word>)
    ensures FromRegs(Raw(|words|), words) == RawWords(words)
    ensures InRange(RawWords(words)) ==> ToRegs(RawWords(words)) == words
  {
  }

  lemma LastOfJoin(a: seq<Arg>, b: seq<Arg>)
    requires b != [] && (forall x <- a :: InRange(x)) && (forall x <- b :: InRange(x))
    ensures InRange(Last(b)) && b == b[..|b| - 1] + [Last(b)] && a + b == a + b[..|b| - 1] + [Last(b)]
    ensures forall x <- b[..|b| - 1] :: InRange(x)
    ensures forall x <- a + b[..|b| - 1] :: InRange(x)
  {
    hide InRange;
    assert Last(b) in b;
    assert forall x <- b[..|b| - 1] :: x in b;
    assert forall x <- a + b[..|b| - 1] :: x in a || x in b;
  }

  /** The words of several arguments come in their order. */
  lemma {:induction false} AllWordsJoin(a: seq<Arg>, b: seq<Arg>)
    requires (forall x <- a :: InRange(x)) && (forall x <- b :: InRange(x)) && forall x <- a + b :: InRange(x)
    ensures AllWords(a + b) == AllWords(a) + AllWords(b)
    decreases |b|
  {
    if b == [] {
      assert a + b == a;
    } else {
      hide *;
      LastOfJoin(a, b);
      AllWordsJoin(a, b[..|b| - 1]);
      OneMoreArgument(a + b[..|b| - 1], Last(b));
      OneMoreArgument(b[..|b| - 1], Last(b));
    }
  }

  lemma OneMoreArgument(init: seq<Arg>, last: Arg)
    requires (forall x <- init :: InRange(x)) && InRange(last)
    ensures AllWords(init + [last]) == AllWords(init) + ToRegs(last)
  {
    hide InRange, ToRegs;
    assert (init + [last])[..|init|] == init;
  }

  lemma WordsOfOne(a: Arg)
    requires InRange(a)
    ensures AllWords([a]) == ToRegs(a)
  {
    assert [a][..0] == [];
  }

  // ---------------------------------------------------------------- where the words of a call are

  /** The `i`th word of a call: in a register, or on the stack from the stack pointer on. */
  ghost predicate IsAt(s: State, i: nat, w: Word)
    requires s.Valid()
  {
    if i <= 3 then s.regs[i] == w else Read(s.mem, Plus(s.regs[13], 4 * (i - 4))) == w
  }

  lemma PutAt(s: State, offset: nat, words: seq<Word>, i: nat)
    requires s.Valid() && offset + |words| <= MAX_WORDS && i < |words|
    ensures IsAt(PutWords(s, offset, words), offset + i, words[i])
    ensures PutWords(s, offset, words).regs[13] == s.regs[13]
  {
    hide Plus, Read;
    PutWordsFound(s, offset, words, offset + i);
    var s' := PutWords(s, offset, words);
    assert s'.regs[4..][9] == s.regs[4..][9];
  }

  /** A guest function finds word `i` of its arguments in its place, above a stack pointer moved by all that is on the stack. */
  lemma GuestWordAt(s: State, target: Word, returnRoutine: Word, args: seq<Arg>, i: nat)
    requires s.Valid() && (forall a <- args :: InRange(a)) && |AllWords(args)| + 2 <= MAX_WORDS && i < |AllWords(args)|
    ensures
      var e, sum := GuestEntry(s, target, returnRoutine, args), |AllWords(args)|;
      && IsAt(e, i, AllWords(args)[i])
      && e.regs[13] == Plus(s.regs[13], -8 - if sum > 4 then 4 * (sum - 4) else 0)
  {
    var words := AllWords(args);
    var before := BeforeArguments(s, target, returnRoutine, |words|);
    assert GuestEntry(s, target, returnRoutine, args) == PutWords(before, 0, words);
    BeforeArgumentsIs(s, target, returnRoutine, |words|);
    hide PutWords, AllWords, BeforeArguments, GuestEntry, InRange, Plus, Read, IsAt;
    PutAt(before, 0, words, i);
  }

  /** A host function called in the same way does too, behind the pointer to its result if that is in memory. */
  lemma HostWordAt(s: State, retWords: Option<nat>, args: seq<Arg>, i: nat)
    requires s.Valid() && (forall a <- args :: InRange(a)) && |AllWords(args)| + 1 <= MAX_WORDS && i < |AllWords(args)|
    ensures
      var e := HostEntry(s, retWords, args);
      IsAt(e, if retWords.Some? then 1 + i else i, AllWords(args)[i])
    ensures retWords.Some? ==> IsAt(HostEntry(s, retWords, args), 0, Plus(s.regs[13], -4 * retWords.value))
  {
    var words := AllWords(args);
    match retWords {
      case None =>
        hide AllWords, InRange, Plus, Read, IsAt, PutWords;
        PutAt(Extended(s, |words|), 0, words, i);
      case Some(n) =>
        var start := WithPointer(s, n, |words|);
        assert HostEntry(s, retWords, args) == PutWords(start, 1, words) && start.regs[0] == Plus(s.regs[13], -4 * n);
        hide AllWords, InRange, Plus, Read, PutWords, WithPointer, HostEntry;
        PutWordsFound(start, 1, words, 0);
        hide ArgWord, IsAt;
        PutAt(start, 1, words, i);
    }
  }
}
