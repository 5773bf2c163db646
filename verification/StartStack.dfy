/**
 The stack of the main thread as the entry point of an app finds it: argument count, pointers,
 and the strings they point to, built backwards from the top of the address space.
 */
module StartStack {
  import opened Wrappers

  type Byte = b: int | 0 <= b < 256

  const STACK_BASE: nat := 0x1_0000_0000
  const MAIN_THREAD_STACK_SIZE: nat := 1024 * 1024

  // ---------------------------------------------------------------- bytes and words

  function LittleEndian(w: int): (bytes: seq<Byte>)
    ensures |bytes| == 4
  {
    [w % 0x100, w / 0x100 % 0x100, w / 0x1_0000 % 0x100, w / 0x100_0000 % 0x100]
  }

  function WordOf(bytes: seq<Byte>): int
    requires |bytes| == 4
  {
    bytes[0] as int + 0x100 * (bytes[1] as int) + 0x1_0000 * (bytes[2] as int) + 0x100_0000 * (bytes[3] as int)
  }

  lemma WordOfLittleEndian(w: int)
    requires 0 <= w < 0x1_0000_0000
    ensures WordOf(LittleEndian(w)) == w
  {
    assert w / 0x1_0000 == w / 0x100 / 0x100 && w / 0x100_0000 == w / 0x1_0000 / 0x100;
  }

  ghost function Pow256(k: nat): (p: nat)
    ensures p > 0
  {
    if k == 0 then 1 else 256 * Pow256(k - 1)
  }

  /** The bytes of a word are those of its value to the base 256, the lowest first, and no other four bytes make it. */
  lemma LittleEndianExactly(w: int, bytes: seq<Byte>)
    requires 0 <= w < 0x1_0000_0000 && |bytes| == 4
    ensures forall k: nat | k < 4 :: LittleEndian(w)[k] == w / Pow256(k) % 256
    ensures WordOf(bytes) == w <==> bytes == LittleEndian(w)
  {
    assert Pow256(1) == 0x100;
    assert Pow256(2) == 0x1_0000;
    assert Pow256(3) == 0x100_0000;
    WordOfLittleEndian(w);
    LittleEndianOfWord(bytes);
  }

  lemma LittleEndianOfWord(bytes: seq<Byte>)
    requires |bytes| == 4
    ensures LittleEndian(WordOf(bytes)) == bytes
  {
    var a, b, c, d := bytes[0], bytes[1], bytes[2], bytes[3];
    var z := c as int + 0x100 * (d as int);
    var y := b as int + 0x100 * z;
    var w := WordOf(bytes);
    assert w == a as int + 0x100 * y && w / 0x100 == y && w % 0x100 == a;
    assert y / 0x100 == z && y % 0x100 == b && w / 0x1_0000 == z;
    assert z / 0x100 == d && z % 0x100 == c && w / 0x100_0000 == d;
  }

  function AllLittleEndian(words: seq<int>): (bytes: seq<Byte>)
    ensures |bytes| == 4 * |words|
  {
    if words == [] then [] else LittleEndian(words[0]) + AllLittleEndian(words[1..])
  }

  lemma {:induction false} WordAt(words: seq<int>, rest: seq<Byte>, i: nat)
    requires i < |words| && 0 <= words[i] < 0x1_0000_0000
    ensures WordOf((AllLittleEndian(words) + rest)[4 * i..4 * i + 4]) == words[i]
  {
    var all := AllLittleEndian(words) + rest;
    var tail := AllLittleEndian(words[1..]) + rest;
    assert all == LittleEndian(words[0]) + tail;
    if i == 0 {
      assert all[0..4] == LittleEndian(words[0]);
      WordOfLittleEndian(words[0]);
    } else {
      WordAt(words[1..], rest, i - 1);
      assert all[4 * i..4 * i + 4] == tail[4 * (i - 1)..4 * (i - 1) + 4];
    }
  }

  function Reversed<T>(s: seq<T>): (r: seq<T>)
    ensures |r| == |s|
  {
    seq(|s|, i requires 0 <= i < |s| => s[|s| - 1 - i])
  }

  lemma ReversedPush<T>(s: seq<T>, x: T)
    ensures Reversed(s + [x]) == [x] + Reversed(s)
  {
  }

  lemma ReversedTwice<T>(s: seq<T>)
    ensures Reversed(Reversed(s)) == s
  {
  }

  // ---------------------------------------------------------------- the layout

  /** The strings from the top of the stack down, each with its terminator. */
  function Strings(strings: seq<seq<Byte>>): seq<Byte> {
    if strings == [] then [] else Last(strings) + [0] + Strings(strings[..|strings| - 1])
  }

  /** The address of the last string. */
  function Pointer(strings: seq<seq<Byte>>): int {
    STACK_BASE - |Strings(strings)|
  }

  /** The addresses of the strings from the `from`th on. */
  function Pointers(strings: seq<seq<Byte>>, from: nat): (ptrs: seq<int>)
    requires from <= |strings|
    ensures |ptrs| == |strings| - from
  {
    if |strings| == from then [] else Pointers(strings[..|strings| - 1], from) + [Pointer(strings)]
  }

  lemma {:induction false} PointersAt(strings: seq<seq<Byte>>, from: nat, i: nat)
    requires from <= i < |strings|
    ensures Pointers(strings, from)[i - from] == Pointer(strings[..i + 1])
  {
    if i < |strings| - 1 {
      PointersAt(strings[..|strings| - 1], from, i);
      assert strings[..|strings| - 1][..i + 1] == strings[..i + 1];
    } else {
      assert strings[..i + 1] == strings;
    }
  }

  function Table(argv: seq<seq<Byte>>, envp: seq<seq<Byte>>, apple: seq<seq<Byte>>): seq<int> {
    [|argv|] + Pointers(argv, 0) + Pointers(argv + envp, |argv|) + [0] + Pointers(argv + envp + apple, |argv + envp|) + [0]
  }

  function Padding(n: nat): seq<Byte> {
    seq(if n % 4 != 0 then 4 - n % 4 else 0, _ => 0)
  }

  /** The number of bytes needed. */
  function Height(argv: seq<seq<Byte>>, envp: seq<seq<Byte>>, apple: seq<seq<Byte>>): nat {
    var n := |Strings(argv + envp + apple)|;
    4 * |Table(argv, envp, apple)| + |Padding(n)| + n
  }

  function Image(argv: seq<seq<Byte>>, envp: seq<seq<Byte>>, apple: seq<seq<Byte>>): (image: seq<Byte>)
    ensures |image| == Height(argv, envp, apple)
  {
    var strings := Strings(argv + envp + apple);
    AllLittleEndian(Table(argv, envp, apple)) + (Padding(|strings|) + strings)
  }

  lemma {:induction false} StringsGrow(strings: seq<seq<Byte>>, n: nat)
    requires n <= |strings|
    ensures |Strings(strings[..n])| + (|strings| - n) <= |Strings(strings)|
  {
    if n < |strings| {
      var init := strings[..|strings| - 1];
      assert strings[..n] == init[..n];
      StringsGrow(init, n);
    } else {
      assert strings[..n] == strings;
    }
  }

  /** The bytes the strings take with their terminators. */
  ghost function TotalLength(strings: seq<seq<Byte>>): nat {
    if strings == [] then 0 else |strings[0]| + 1 + TotalLength(strings[1..])
  }

  lemma {:induction false} TotalOfInit(strings: seq<seq<Byte>>)
    requires strings != []
    ensures TotalLength(strings) == TotalLength(strings[..|strings| - 1]) + |Last(strings)| + 1
  {
    if |strings| > 1 {
      TotalOfInit(strings[1..]);
      assert strings[1..][..|strings| - 2] == strings[..|strings| - 1][1..];
    }
  }

  lemma {:induction false} StringsLength(strings: seq<seq<Byte>>)
    ensures |Strings(strings)| == TotalLength(strings)
  {
    if strings != [] {
      StringsLength(strings[..|strings| - 1]);
      TotalOfInit(strings);
    }
  }

  lemma TableLength(argv: seq<seq<Byte>>, envp: seq<seq<Byte>>, apple: seq<seq<Byte>>)
    ensures |Table(argv, envp, apple)| == |argv| + |envp| + |apple| + 3
  {
    hide Pointers;
  }

  /** What is needed is three words more than there are strings, and the strings, in whole words. */
  lemma HeightExactly(argv: seq<seq<Byte>>, envp: seq<seq<Byte>>, apple: seq<seq<Byte>>)
    ensures
      var bytes := 4 * (|argv| + |envp| + |apple| + 3) + TotalLength(argv + envp + apple);
      bytes <= Height(argv, envp, apple) < bytes + 4 && Height(argv, envp, apple) % 4 == 0
  {
    hide Table, Strings, TotalLength, Padding;
    var n := |Strings(argv + envp + apple)|;
    TableLength(argv, envp, apple);
    StringsLength(argv + envp + apple);
    Padded(n);
    WholeWords(|Table(argv, envp, apple)|, |Padding(n)|, n);
  }

  lemma WholeWords(words: nat, padding: nat, n: nat)
    requires padding < 4 && (padding + n) % 4 == 0
    ensures
      var all := 4 * words + padding + n;
      4 * words + n <= all < 4 * words + n + 4 && all % 4 == 0
  {
    assert 4 * words % 4 == 0;
  }

  lemma Padded(n: nat)
    ensures |Padding(n)| < 4 && (|Padding(n)| + n) % 4 == 0
  {
  }

  // ---------------------------------------------------------------- pushing

  /** `reversed` grows by the terminator and the bytes of the string, last byte first. */
  method PushString(s: seq<Byte>, reversed: seq<Byte>, ptrs: seq<int>) returns (ok: bool, reversed': seq<Byte>, ptrs': seq<int>)
    ensures Reversed(reversed') == s + [0] + Reversed(reversed)
    ensures ok <==> |reversed| + |s| + 1 <= STACK_BASE
    ensures ptrs' == if ok then ptrs + [STACK_BASE - |reversed'|] else ptrs
  {
    reversed', ptrs' := reversed + [0], ptrs;
    ReversedPush(reversed, 0);
    var backwards := Reversed(s);
    for i := 0 to |backwards|
      invariant |reversed'| == |reversed| + 1 + i
      invariant Reversed(reversed') == Reversed(backwards[..i]) + [0] + Reversed(reversed)
    {
      ReversedPush(reversed', backwards[i]);
      ReversedPush(backwards[..i], backwards[i]);
      assert backwards[..i + 1] == backwards[..i] + [backwards[i]];
      reversed' := reversed' + [backwards[i]];
    }
    assert backwards[..|backwards|] == backwards;
    ReversedTwice(s);
    ok := |reversed'| <= STACK_BASE;
    if ok {
      ptrs' := ptrs' + [STACK_BASE - |reversed'|];
    }
  }

  lemma OneMoreString(strings: seq<seq<Byte>>, s: seq<Byte>, from: nat)
    requires from <= |strings|
    ensures Strings(strings + [s]) == s + [0] + Strings(strings)
    ensures Pointers(strings + [s], from) == Pointers(strings, from) + [STACK_BASE - |Strings(strings + [s])|]
  {
    assert (strings + [s])[..|strings|] == strings;
  }

  /** The strings pushed after `n` more than were already there. */
  ghost function PushedSoFar(before: seq<seq<Byte>>, strings: seq<seq<Byte>>, n: nat): seq<seq<Byte>>
    requires n <= |strings|
  {
    before + strings[..n]
  }

  lemma PushedAtEnds(before: seq<seq<Byte>>, strings: seq<seq<Byte>>)
    ensures PushedSoFar(before, strings, 0) == before && PushedSoFar(before, strings, |strings|) == before + strings
    ensures Pointers(before, |before|) == []
  {
    assert strings[..|strings|] == strings;
  }

  lemma PushedOne(before: seq<seq<Byte>>, strings: seq<seq<Byte>>, i: nat, ptrs: seq<int>)
    requires i < |strings|
    ensures
      var so, next := PushedSoFar(before, strings, i), PushedSoFar(before, strings, i + 1);
      && Strings(next) == strings[i] + [0] + Strings(so)
      && ptrs + Pointers(next, |before|) == ptrs + Pointers(so, |before|) + [STACK_BASE - |Strings(next)|]
      && |Strings(next)| <= |Strings(before + strings)|
  {
    var so, next := PushedSoFar(before, strings, i), PushedSoFar(before, strings, i + 1);
    assert next == so + [strings[i]];
    PrefixOfAll(before, strings, i + 1);
    StringsGrow(before + strings, |before| + i + 1);
    OneMoreString(so, strings[i], |before|);
    Associates(ptrs, Pointers(so, |before|), [STACK_BASE - |Strings(next)|]);
    hide *;
  }

  lemma PrefixOfAll(before: seq<seq<Byte>>, strings: seq<seq<Byte>>, n: nat)
    requires n <= |strings|
    ensures PushedSoFar(before, strings, n) == (before + strings)[..|before| + n]
  {
  }

  /** Pushes a list of strings after those already there. */
  method PushAll(ghost before: seq<seq<Byte>>, strings: seq<seq<Byte>>, reversed: seq<Byte>, ptrs: seq<int>)
    returns (ok: bool, reversed': seq<Byte>, ptrs': seq<int>)
    requires Reversed(reversed) == Strings(before) && |reversed| <= STACK_BASE
    ensures ok ==> Reversed(reversed') == Strings(before + strings) && |reversed'| <= STACK_BASE
    ensures ok ==> ptrs' == ptrs + Pointers(before + strings, |before|)
    ensures !ok ==> |Strings(before + strings)| > STACK_BASE
  {
    ok, reversed', ptrs' := true, reversed, ptrs;
    PushedAtEnds(before, strings);
    assert ptrs + [] == ptrs;
    hide *;
    for i := 0 to |strings|
      invariant ok && Reversed(reversed') == Strings(PushedSoFar(before, strings, i)) && |reversed'| <= STACK_BASE
      invariant ptrs' == ptrs + Pointers(PushedSoFar(before, strings, i), |before|)
    {
      PushedOne(before, strings, i, ptrs);
      ok, reversed', ptrs' := PushString(strings[i], reversed', ptrs');
      assert |reversed'| == |Strings(PushedSoFar(before, strings, i + 1))|;
      if !ok {
        return;
      }
    }
  }

  // ---------------------------------------------------------------- the image

  /**
   Lays out the stack at the end of the address space. It fails, as an assertion does, exactly
   when the stack would fill the space set aside for it.
   */
  method PrepStackForStart(argv: seq<seq<Byte>>, envp: seq<seq<Byte>>, apple: seq<seq<Byte>>, stack: array<Byte>)
    returns (sp: Option<int>)
    requires stack.Length == MAIN_THREAD_STACK_SIZE
    modifies stack
    ensures sp.Some? <==> Height(argv, envp, apple) < MAIN_THREAD_STACK_SIZE
    ensures sp.Some? ==>
      var height := Height(argv, envp, apple);
      && sp.value == STACK_BASE - height
      && stack[stack.Length - height..] == Image(argv, envp, apple)
      && stack[..stack.Length - height] == old(stack[..stack.Length - height])
    ensures sp.None? ==> stack[..] == old(stack[..])
  {
    HeightAtLeast(argv, envp, apple);
    assert Strings([]) == [];
    hide Strings, Pointers, AllLittleEndian;
    if |argv| > 0x7fff_ffff {
      return None;
    }
    var reversed: seq<Byte>, ptrs: seq<int> := [], [|argv|];
    var ok;
    assert Reversed(reversed) == Strings([]);
    assert [] + argv == argv;
    ok, reversed, ptrs := PushAll([], argv, reversed, ptrs);
    if !ok {
      return None;
    }
    ok, reversed, ptrs := PushAll(argv, envp, reversed, ptrs);
    if !ok {
      return None;
    }
    ptrs := ptrs + [0];
    ok, reversed, ptrs := PushAll(argv + envp, apple, reversed, ptrs);
    if !ok {
      return None;
    }
    ptrs := ptrs + [0];
    ghost var strings := Strings(argv + envp + apple);
    assert ptrs == Table(argv, envp, apple);

    var misalignedBy := |reversed| % 4;
    var padBy := if misalignedBy != 0 then 4 - misalignedBy else 0;
    var padding: seq<Byte> := seq(padBy, _ => 0);
    assert padding == Padding(|strings|);
    ZerosPushed(reversed, padding);
    reversed := reversed + padding;
    reversed := PushTable(ptrs, reversed);
    var height := |reversed|;
    if height >= MAIN_THREAD_STACK_SIZE {
      return None;
    }
    Fill(stack, reversed);
    return Some(STACK_BASE - height);
  }

  lemma ZerosPushed(s: seq<Byte>, zeros: seq<Byte>)
    requires forall i | 0 <= i < |zeros| :: zeros[i] == 0
    ensures Reversed(s + zeros) == zeros + Reversed(s)
  {
  }

  /** Puts the words of the table, last one first and most significant byte first. */
  method PushTable(ptrs: seq<int>, reversed: seq<Byte>) returns (reversed': seq<Byte>)
    ensures Reversed(reversed') == AllLittleEndian(ptrs) + Reversed(reversed)
  {
    reversed' := reversed;
    assert ptrs[|ptrs|..] == [] && AllLittleEndian([]) + Reversed(reversed) == Reversed(reversed);
    hide AllLittleEndian, Reversed, LittleEndian;
    for i := 0 to |ptrs|
      invariant Reversed(reversed') == AllLittleEndian(ptrs[|ptrs| - i..]) + Reversed(reversed)
    {
      var ptr := ptrs[|ptrs| - 1 - i];
      var bytes := LittleEndian(ptr);
      FourPushed(reversed', bytes);
      TableGrows(ptrs, |ptrs| - 1 - i);
      Associates(bytes, AllLittleEndian(ptrs[|ptrs| - i..]), Reversed(reversed));
      reversed' := reversed' + [bytes[3], bytes[2], bytes[1], bytes[0]];
    }
    assert ptrs[|ptrs| - |ptrs|..] == ptrs;
  }

  lemma FourPushed(s: seq<Byte>, bytes: seq<Byte>)
    requires |bytes| == 4
    ensures Reversed(s + [bytes[3], bytes[2], bytes[1], bytes[0]]) == bytes + Reversed(s)
  {
  }

  lemma TableGrows(ptrs: seq<int>, i: nat)
    requires i < |ptrs|
    ensures AllLittleEndian(ptrs[i..]) == LittleEndian(ptrs[i]) + AllLittleEndian(ptrs[i + 1..])
  {
    assert ptrs[i..][1..] == ptrs[i + 1..];
  }

  /** Copies the reversed data, reversing it, to the end of the stack. */
  method Fill(stack: array<Byte>, reversed: seq<Byte>)
    requires |reversed| <= stack.Length
    modifies stack
    ensures stack[stack.Length - |reversed|..] == Reversed(reversed)
    ensures stack[..stack.Length - |reversed|] == old(stack[..stack.Length - |reversed|])
  {
    var height := |reversed|;
    var base := stack.Length - height;
    for i := 0 to height
      invariant forall k | base <= k < base + i :: stack[k] == reversed[height - 1 - (k - base)]
      invariant forall k | 0 <= k < base :: stack[k] == old(stack[k])
    {
      stack[base + i] := reversed[height - i - 1];
    }
  }

  /** The parts are no larger than the whole. */
  lemma HeightAtLeast(argv: seq<seq<Byte>>, envp: seq<seq<Byte>>, apple: seq<seq<Byte>>)
    ensures |argv| <= Height(argv, envp, apple)
    ensures |Strings(argv)| <= Height(argv, envp, apple) && |Strings(argv + envp)| <= Height(argv, envp, apple)
    ensures |Strings(argv + envp + apple)| <= Height(argv, envp, apple)
  {
    var all := argv + envp + apple;
    assert all[..|argv|] == argv && all[..|argv + envp|] == argv + envp;
    StringsGrow(all, |argv|);
    StringsGrow(all, |argv + envp|);
  }

  // ---------------------------------------------------------------- what the program finds

  /** The `i`th word from the stack pointer on. */
  function Entry(region: seq<Byte>, i: nat): int
    requires 4 * i + 4 <= |region|
  {
    WordOf(region[4 * i..4 * i + 4])
  }

  /** A pointer, above the table of `n` words, to a terminated copy of the string. */
  ghost predicate PointsTo(region: seq<Byte>, n: nat, p: int, s: seq<Byte>) {
    var start := p - (STACK_BASE - |region|);
    4 * n <= start && start + |s| + 1 <= |region| && region[start..start + |s| + 1] == s + [0]
  }

  lemma {:induction false} StringFound(strings: seq<seq<Byte>>, i: nat)
    requires i < |strings|
    ensures
      var offset := |Strings(strings)| - |Strings(strings[..i + 1])|;
      && 0 <= offset && offset + |strings[i]| + 1 <= |Strings(strings)|
      && Strings(strings)[offset..offset + |strings[i]| + 1] == strings[i] + [0]
  {
    var init := strings[..|strings| - 1];
    if i == |strings| - 1 {
      assert strings[..i + 1] == strings;
    } else {
      StringFound(init, i);
      assert strings[..i + 1] == init[..i + 1];
      var head := Last(strings) + [0];
      var offset := |Strings(init)| - |Strings(strings[..i + 1])|;
      var n := |strings[i]| + 1;
      assert Strings(strings) == head + Strings(init);
      SliceAfter(head, Strings(init), offset, offset + n);
    }
  }

  lemma SliceAfter<T>(a: seq<T>, b: seq<T>, from: nat, to: nat)
    requires from <= to <= |b|
    ensures (a + b)[|a| + from..|a| + to] == b[from..to]
  {
  }

  /** The pointer to the `i`th string leads to it. */
  lemma PointerPoints(words: seq<int>, padding: seq<Byte>, strings: seq<seq<Byte>>, i: nat)
    requires i < |strings| && 4 * |words| + |padding| + |Strings(strings)| < STACK_BASE
    ensures
      var p := Pointer(strings[..i + 1]);
      && PointsTo(AllLittleEndian(words) + (padding + Strings(strings)), |words|, p, strings[i])
      && 0 < p < 0x1_0000_0000
  {
    hide Strings, AllLittleEndian, PointsTo;
    StringFound(strings, i);
    StringFits(strings, i);
    PlacedString(AllLittleEndian(words), padding, Strings(strings), |words|,
      |Strings(strings)| - |Strings(strings[..i + 1])|, strings[i]);
  }

  lemma StringFits(strings: seq<seq<Byte>>, i: nat)
    requires i < |strings|
    ensures 0 < |Strings(strings[..i + 1])| <= |Strings(strings)|
  {
    StringsGrow(strings, i + 1);
  }

  lemma PlacedString(table: seq<Byte>, padding: seq<Byte>, all: seq<Byte>, n: nat, offset: nat, s: seq<Byte>)
    requires |table| == 4 * n && offset + |s| + 1 <= |all| && all[offset..offset + |s| + 1] == s + [0]
    ensures PointsTo(table + (padding + all), n, STACK_BASE - |all| + offset, s)
  {
    hide PointsTo;
    Associates(table, padding, all);
    SlicePoints(table + padding, all, n, offset, s);
  }

  lemma Associates<T>(a: seq<T>, b: seq<T>, c: seq<T>)
    ensures a + (b + c) == a + b + c
  {
  }

  lemma SlicePoints(head: seq<Byte>, all: seq<Byte>, n: nat, offset: nat, s: seq<Byte>)
    requires 4 * n <= |head| && offset + |s| + 1 <= |all| && all[offset..offset + |s| + 1] == s + [0]
    ensures PointsTo(head + all, n, STACK_BASE - |all| + offset, s)
  {
    SliceAfter(head, all, offset, offset + |s| + 1);
    assert |head + all| == |head| + |all|;
  }

  /** The entries of the table are found where they belong. */
  lemma EntryFound(argv: seq<seq<Byte>>, envp: seq<seq<Byte>>, apple: seq<seq<Byte>>, i: nat)
    requires i < |Table(argv, envp, apple)| && 0 <= Table(argv, envp, apple)[i] < 0x1_0000_0000
    ensures 4 * i + 4 <= |Image(argv, envp, apple)| && Entry(Image(argv, envp, apple), i) == Table(argv, envp, apple)[i]
  {
    hide Table, Strings, Padding;
    var strings := Strings(argv + envp + apple);
    WordAt(Table(argv, envp, apple), Padding(|strings|) + strings, i);
  }

  function EntryOf(argv: seq<seq<Byte>>, envp: seq<seq<Byte>>, i: nat): nat {
    if i < |argv| + |envp| then 1 + i else 2 + i
  }

  /** The entry of the `i`th string, of whichever list, points to it. */
  lemma StringEntry(argv: seq<seq<Byte>>, envp: seq<seq<Byte>>, apple: seq<seq<Byte>>, i: nat)
    requires i < |argv| + |envp| + |apple| && Height(argv, envp, apple) < MAIN_THREAD_STACK_SIZE
    ensures
      var image := Image(argv, envp, apple);
      var e := EntryOf(argv, envp, i);
      && 4 * e + 4 <= |image| && Entry(image, e) != 0
      && PointsTo(image, |argv| + |envp| + |apple| + 3, Entry(image, e), (argv + envp + apple)[i])
  {
    var all := argv + envp + apple;
    TableEnds(argv, envp, apple);
    TableEntry(argv, envp, apple, i);
    PointerPoints(Table(argv, envp, apple), Padding(|Strings(all)|), all, i);
    hide Table, Strings, Padding, PointsTo, Entry;
    EntryFound(argv, envp, apple, EntryOf(argv, envp, i));
  }

  /**
   What the app reads from the stack pointer on: the number of arguments, a pointer to each
   argument and to each environment string, a null pointer, a pointer to each further string, and a
   null pointer. Every pointer leads to its string, above the table. Between arguments and
   environment there is no null pointer, so the argument array ends in one exactly when the
   environment is empty.
   */
  lemma ProgramFindsArguments(argv: seq<seq<Byte>>, envp: seq<seq<Byte>>, apple: seq<seq<Byte>>)
    requires Height(argv, envp, apple) < MAIN_THREAD_STACK_SIZE
    ensures
      var image := Image(argv, envp, apple);
      var n, m, k := |argv|, |envp|, |apple|;
      var size := n + m + k + 3;
      && (STACK_BASE - |image|) % 4 == 0 && 4 * size <= |image|
      && Entry(image, 0) == n
      && (forall i | 0 <= i < n :: PointsTo(image, size, Entry(image, 1 + i), argv[i]))
      && (forall i | 0 <= i < m :: PointsTo(image, size, Entry(image, 1 + n + i), envp[i]))
      && Entry(image, 1 + n + m) == 0
      && (forall i | 0 <= i < k :: PointsTo(image, size, Entry(image, 2 + n + m + i), apple[i]))
      && Entry(image, 2 + n + m + k) == 0
      && (Entry(image, 1 + n) == 0 <==> envp == [])
  {
    var image := Image(argv, envp, apple);
    var n, m, k := |argv|, |envp|, |apple|;
    TableEnds(argv, envp, apple);
    hide Strings, Padding, PointsTo, Entry, Image, Table;
    EntryFound(argv, envp, apple, 0);
    EntryFound(argv, envp, apple, 1 + n + m);
    EntryFound(argv, envp, apple, 2 + n + m + k);
    var all := argv + envp + apple;
    forall i | 0 <= i < n ensures PointsTo(image, n + m + k + 3, Entry(image, 1 + i), argv[i]) {
      StringEntry(argv, envp, apple, i);
      assert all[i] == argv[i];
    }
    forall i | 0 <= i < m ensures PointsTo(image, n + m + k + 3, Entry(image, 1 + n + i), envp[i]) && Entry(image, 1 + n + i) != 0 {
      StringEntry(argv, envp, apple, n + i);
      assert all[n + i] == envp[i];
    }
    forall i | 0 <= i < k ensures PointsTo(image, n + m + k + 3, Entry(image, 2 + n + m + i), apple[i]) {
      StringEntry(argv, envp, apple, n + m + i);
      assert all[n + m + i] == apple[i];
    }
    if m > 0 {
      StringEntry(argv, envp, apple, n);
    }
  }

  lemma TableEntry(argv: seq<seq<Byte>>, envp: seq<seq<Byte>>, apple: seq<seq<Byte>>, i: nat)
    requires i < |argv| + |envp| + |apple|
    ensures Table(argv, envp, apple)[EntryOf(argv, envp, i)] == Pointer((argv + envp + apple)[..i + 1])
  {
    var all := argv + envp + apple;
    hide Pointer, Pointers;
    if i < |argv| {
      PointersAt(argv, 0, i);
      assert argv[..i + 1] == all[..i + 1];
    } else if i < |argv| + |envp| {
      PointersAt(argv + envp, |argv|, i);
      assert (argv + envp)[..i + 1] == all[..i + 1];
    } else {
      PointersAt(all, |argv + envp|, i);
    }
  }

  lemma TableEnds(argv: seq<seq<Byte>>, envp: seq<seq<Byte>>, apple: seq<seq<Byte>>)
    ensures
      var words := Table(argv, envp, apple);
      var n, m, k := |argv|, |envp|, |apple|;
      |words| == n + m + k + 3 && words[0] == n && words[1 + n + m] == 0 && words[2 + n + m + k] == 0
    ensures Height(argv, envp, apple) % 4 == 0
    ensures |argv| <= Height(argv, envp, apple)
  {
    hide Strings, Pointers;
  }

  /** The strings do not overlap: each ends where the one pushed before it starts. */
  lemma StringsApart(strings: seq<seq<Byte>>, i: nat)
    requires i < |strings|
    ensures Pointer(strings[..i + 1]) + |strings[i]| + 1 == Pointer(strings[..i])
    ensures Pointer(strings[..0]) == STACK_BASE
  {
    assert strings[..i + 1][..i] == strings[..i] && Last(strings[..i + 1]) == strings[i];
  }
}
