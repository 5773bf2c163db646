/**
 The text of the debugger protocol, character by character: the sum of a packet, the packets in a
 buffer, the digits of registers and memory, and the text a packet may hold.
 */
module GdbText {
  import opened Wrappers
  import opened Gdb

  // ---------------------------------------------------------------- the sum of a packet

  /** The codes of the characters, added up. */
  ghost function CodeSum(s: string): nat {
    if s == "" then 0 else s[0] as nat + CodeSum(s[1..])
  }

  lemma {:induction false} CodeSumOfInit(s: string)
    requires s != ""
    ensures CodeSum(s) == CodeSum(s[..|s| - 1]) + Last(s) as nat
  {
    if |s| > 1 {
      CodeSumOfInit(s[1..]);
      assert s[1..][..|s| - 2] == s[..|s| - 1][1..];
    }
  }

  lemma SumModulo(a: nat, b: nat)
    ensures (a % 256 + b) % 256 == (a + b) % 256
  {
  }

  /** The checksum is the sum of the codes, modulo 256. */
  lemma {:induction false} ChecksumIsSum(body: string)
    ensures Checksum(body) == CodeSum(body) % 256
  {
    if body != "" {
      ChecksumIsSum(body[..|body| - 1]);
      CodeSumOfInit(body);
      SumModulo(CodeSum(body[..|body| - 1]), Last(body) as nat);
    }
  }

  // ---------------------------------------------------------------- digits

  ghost function HexDigit(n: nat): char
    requires n < 16
  {
    if n < 10 then ('0' as nat + n) as char else ('a' as nat + n - 10) as char
  }

  ghost function TwoDigits(b: nat): string
    requires b < 256
  {
    [HexDigit(b / 16), HexDigit(b % 16)]
  }

  /** The value of a digit, in either case. */
  ghost predicate HasValue(c: char, v: nat) {
    v < 16 && (c == HexDigit(v) || (v >= 10 && c as nat == 'A' as nat + v - 10))
  }

  lemma DigitExactly(n: nat)
    requires n < 16
    ensures Digit(n) == HexDigit(n)
  {
  }

  lemma DigitValueExactly(c: char, v: nat)
    ensures DigitValue(c) == Some(v) <==> HasValue(c, v)
  {
  }

  lemma HexOfByte(b: nat)
    requires b < 256
    ensures Hex(b, 2) == TwoDigits(b)
  {
    DigitExactly(b / 16);
    DigitExactly(b % 16);
    assert b / 16 % 16 == b / 16;
    assert Hex(b, 2) == Hex(b / 16, 1) + [Digit(b % 16)];
    assert Hex(b / 16, 1) == Hex(b / 16 / 16, 0) + [Digit(b / 16 % 16)];
  }

  /** What the two characters after the '#' are read as: the parser takes a plus sign and one digit too. */
  ghost predicate ReadAs(a: char, b: char, n: nat) {
    || (a == '+' && HasValue(b, n))
    || exists v: nat, w: nat :: HasValue(a, v) && HasValue(b, w) && n == 16 * v + w
  }

  /** Two digits, without a sign. */
  lemma ParseTwo(a: char, b: char)
    ensures ParseHex([a, b]) == match (DigitValue(a), DigitValue(b))
      case (Some(high), Some(low)) => Some(16 * high + low)
      case _ => None
  {
    assert [a, b][..1] == [a] && Last([a, b]) == b;
    ParseOne(a);
  }

  lemma TwoValues(a: char, b: char, n: nat)
    ensures ParseHex([a, b]) == Some(n) <==> exists v: nat, w: nat :: HasValue(a, v) && HasValue(b, w) && n == 16 * v + w
  {
    ParseTwo(a, b);
    hide ParseHex;
    if DigitValue(a).Some? && DigitValue(b).Some? {
      DigitValueExactly(a, DigitValue(a).value);
      DigitValueExactly(b, DigitValue(b).value);
    }
    forall v: nat, w: nat | HasValue(a, v) && HasValue(b, w) ensures DigitValue(a) == Some(v) && DigitValue(b) == Some(w) {
      DigitValueExactly(a, v);
      DigitValueExactly(b, w);
    }
    hide DigitValue, HasValue;
  }

  lemma ReadAsExactly(a: char, b: char, n: nat)
    ensures FromStrRadix([a, b]) == Some(n) <==> ReadAs(a, b, n)
  {
    assert [a, b][1..] == [b];
    ParseOne(b);
    DigitValueExactly(b, n);
    TwoValues(a, b, n);
    assert DigitValue('+').None?;
    forall v: nat ensures !HasValue('+', v) {
      DigitValueExactly('+', v);
    }
    hide ParseHex, DigitValue, HasValue;
  }

  lemma ParseOne(c: char)
    ensures ParseHex([c]) == DigitValue(c)
  {
    assert [c][..0] == "";
  }

  // ---------------------------------------------------------------- packets in a buffer

  /** A packet as it is sent: the body between '$' and '#', and the two digits of its sum. */
  lemma FramedExactly(body: string)
    ensures Framed(body) == "$" + body + "#" + TwoDigits(CodeSum(body) % 256)
  {
    ChecksumIsSum(body);
    HexOfByte(Checksum(body));
  }

  /** The buffer starts with a packet whose sum and text are right; `rest` follows. */
  ghost predicate StartsWithPacket(buffer: string, body: string, rest: string) {
    exists a, b :: IsPacket(buffer, body, rest, a, b)
  }

  ghost predicate IsPacket(buffer: string, body: string, rest: string, a: char, b: char) {
    && buffer == "$" + body + "#" + [a, b] + rest
    && '#' !in body && IsUtf8(body) && ReadAs(a, b, CodeSum(body) % 256)
  }

  /** The buffer starts with '$' and holds no '#', or fewer than two characters after the first. */
  ghost predicate IsIncomplete(buffer: string) {
    && buffer != "" && buffer[0] == '$'
    && forall i :: 0 <= i < |buffer| - 2 ==> buffer[i] != '#'
  }

  lemma {:induction false} FirstPosition(s: string, c: char)
    ensures Position(s, c) == |s| <==> c !in s
    ensures c in s ==> Position(s, c) < |s|
  {
    var p := Position(s, c);
    if p < |s| { assert s[p] in s; }
  }

  lemma PacketParts(body: string, rest: string, a: char, b: char)
    requires '#' !in body
    ensures
      var buffer := "$" + body + "#" + [a, b] + rest;
      && buffer[0] == '$' && Position(buffer, '#') == |body| + 1 && |body| + 4 <= |buffer|
      && buffer[1..|body| + 1] == body && buffer[|body| + 2..|body| + 4] == [a, b] && buffer[|body| + 4..] == rest
  {
    var buffer := "$" + body + "#" + [a, b] + rest;
    PositionIs(buffer, '#', |body| + 1);
  }

  lemma PacketPieces(buffer: string, end: nat)
    requires 1 <= end && end + 3 <= |buffer| && buffer[0] == '$' && buffer[end] == '#'
    ensures buffer == "$" + buffer[1..end] + "#" + [buffer[end + 1], buffer[end + 2]] + buffer[end + 3..]
    ensures buffer[end + 1..end + 3] == [buffer[end + 1], buffer[end + 2]]
  {
    assert buffer == buffer[..1] + buffer[1..end] + buffer[end..end + 1] + buffer[end + 1..end + 3] + buffer[end + 3..];
    assert buffer[..1] == "$" && buffer[end..end + 1] == "#";
    assert buffer[end + 1..end + 3] == [buffer[end + 1], buffer[end + 2]];
  }

  lemma PartsOfPacket(buffer: string, end: nat)
    requires buffer != "" && buffer[0] == '$' && end == Position(buffer, '#') && end + 3 <= |buffer|
    ensures 1 <= end && '#' !in buffer[1..end]
    ensures buffer == "$" + buffer[1..end] + "#" + [buffer[end + 1], buffer[end + 2]] + buffer[end + 3..]
    ensures buffer[end + 1..end + 3] == [buffer[end + 1], buffer[end + 2]]
  {
    hide Position;
    assert buffer[end] == '#' && end >= 1 && forall i | 0 <= i < end :: buffer[i] != '#';
    PacketPieces(buffer, end);
  }

  /** A reading gives a body exactly when the buffer starts with a sound packet, and takes just that. */
  lemma PacketExactly(r: Reader, body: string, rest: string)
    ensures NextReading(r) == (Packet(body), FillBuf(r).(buffer := rest)) <==> StartsWithPacket(FillBuf(r).buffer, body, rest)
  {
    var buffer := FillBuf(r).buffer;
    hide FillBuf, IsUtf8, FromStrRadix, ReadAs;
    ChecksumIsSum(body);
    hide Checksum, CodeSum;
    forall a, b | IsPacket(buffer, body, rest, a, b) ensures NextReading(r) == (Packet(body), FillBuf(r).(buffer := rest)) {
      PacketParts(body, rest, a, b);
      ReadAsExactly(a, b, CodeSum(body) % 256);
      hide Position;
    }
    if NextReading(r) == (Packet(body), FillBuf(r).(buffer := rest)) {
      var end := Position(buffer, '#');
      PartsOfPacket(buffer, end);
      ReadAsExactly(buffer[end + 1], buffer[end + 2], CodeSum(body) % 256);
      hide Position;
      assert IsPacket(buffer, body, rest, buffer[end + 1], buffer[end + 2]);
    }
  }

  /** A reading gives nothing when nothing is buffered, at an acknowledgment, and at a packet not all there. */
  lemma NoPacketExactly(r: Reader)
    ensures
      var (reading, r') := NextReading(r);
      var f := FillBuf(r);
      && (reading == NoPacket <==>
            || f.buffer == "" || f.buffer[0] == '+'
            || (IsIncomplete(f.buffer) && ('#' in f.buffer || |f.buffer| != CAPACITY)))
      && (reading == NoPacket ==>
            r' == if f.buffer != "" && f.buffer[0] == '+' then f.(buffer := f.buffer[1..]) else f)
      && (reading == Panicked ==> r' == f)
  {
    var buffer := FillBuf(r).buffer;
    FirstPosition(buffer, '#');
    hide FillBuf, IsUtf8, FromStrRadix, Checksum, Position;
    var end := Position(buffer, '#');
    if buffer != "" && end + 3 <= |buffer| {
      assert buffer[end] == '#';
    }
  }

  // ---------------------------------------------------------------- registers and memory

  ghost function Pow256(k: nat): (p: nat)
    ensures p > 0
  {
    if k == 0 then 1 else 256 * Pow256(k - 1)
  }

  /** Byte `k` of a number, from the least significant. */
  ghost function ByteNumber(w: nat, k: nat): (b: nat)
    ensures b < 256
  {
    w / Pow256(k) % 256
  }

  lemma SixteenTwice(n: nat, b: nat)
    requires b < 256
    ensures
      var m := 256 * n + b;
      m / 16 / 16 == n && m / 16 % 16 == b / 16 && m % 16 == b % 16
  {
    var m := 256 * n + b;
    assert m / 16 == 16 * n + b / 16;
  }

  lemma HexTwoMore(n: nat, b: nat, width: nat)
    requires b < 256
    ensures Hex(256 * n + b, width + 2) == Hex(n, width) + TwoDigits(b)
  {
    hide Hex, HexDigit, Digit;
    var m := 256 * n + b;
    SixteenTwice(n, b);
    DigitExactly(b / 16);
    DigitExactly(b % 16);
    HexStep(m, width + 1);
    HexStep(m / 16, width);
  }

  lemma HexStep(n: nat, width: nat)
    ensures Hex(n, width + 1) == Hex(n / 16, width) + [Digit(n % 16)]
  {
  }

  lemma ByteNumbers(w: Word)
    ensures forall k: nat | k < 4 :: ByteOf(w, k) == ByteNumber(w, k)
  {
    assert Pow256(1) == 0x100;
    assert Pow256(2) == 0x1_0000;
    assert Pow256(3) == 0x100_0000;
  }

  lemma HexThreeMore(a: nat, b: nat, c: nat, d: nat, width: nat)
    requires b < 256 && c < 256 && d < 256
    ensures Hex(d + 0x100 * c + 0x1_0000 * b + 0x100_0000 * a, width + 6) == Hex(a, width) + TwoDigits(b) + TwoDigits(c) + TwoDigits(d)
  {
    hide *;
    var n := 256 * a + b;
    HexTwoMore(a, b, width);
    HexTwoMore(n, c, width + 2);
    var m := 256 * n + c;
    HexTwoMore(m, d, width + 4);
    assert 256 * m + d == d + 0x100 * c + 0x1_0000 * b + 0x100_0000 * a;
  }

  lemma HexOfBytes(a: nat, b: nat, c: nat, d: nat)
    requires a < 256 && b < 256 && c < 256 && d < 256
    ensures Hex(d + 0x100 * c + 0x1_0000 * b + 0x100_0000 * a, 8) == TwoDigits(a) + TwoDigits(b) + TwoDigits(c) + TwoDigits(d)
  {
    hide *;
    HexOfByte(a);
    HexThreeMore(a, b, c, d, 2);
  }

  /** The four bytes of a word, the least significant first, in two digits each. */
  lemma WordTextExactly(w: Word)
    ensures WordText(w) ==
      TwoDigits(ByteNumber(w, 0)) + TwoDigits(ByteNumber(w, 1)) + TwoDigits(ByteNumber(w, 2)) + TwoDigits(ByteNumber(w, 3))
  {
    ByteNumbers(w);
    hide ByteOf, Hex, TwoDigits, ByteNumber;
    var a, b, c, d := ByteOf(w, 0), ByteOf(w, 1), ByteOf(w, 2), ByteOf(w, 3);
    HexOfBytes(a, b, c, d);
    assert WordText(w) == Hex(OfBytes(d, c, b, a), 8);
  }

  lemma SliceOfSlice(text: string, low: nat, a: nat, b: nat)
    requires low + 8 <= |text| && a <= b <= 8
    ensures text[low..low + 8][a..b] == text[low + a..low + b]
  {
    var part, piece := text[low..low + 8], text[low + a..low + b];
    assert |part[a..b]| == |piece|;
    assert forall j | 0 <= j < |piece| :: part[a..b][j] == part[a + j] == text[low + a + j] == piece[j];
  }

  lemma PieceOfFour(a: string, b: string, c: string, d: string, k: nat)
    requires |a| == 2 && |b| == 2 && |c| == 2 && |d| == 2 && k < 4
    ensures (a + b + c + d)[2 * k..2 * k + 2] == [a, b, c, d][k]
  {
    var all := a + b + c + d;
    assert all[0..2] == a && all[2..4] == b && all[4..6] == c && all[6..8] == d;
  }

  lemma PartOfPart(text: string, i: nat, a: string, b: string, c: string, d: string, k: nat)
    requires |a| == 2 && |b| == 2 && |c| == 2 && |d| == 2
    requires 8 * i + 8 <= |text| && text[8 * i..8 * i + 8] == a + b + c + d && k < 4
    ensures text[8 * i + 2 * k..8 * i + 2 * k + 2] == [a, b, c, d][k]
  {
    SliceOfSlice(text, 8 * i, 2 * k, 2 * k + 2);
    PieceOfFour(a, b, c, d, k);
  }

  ghost function BytesText(w: Word): seq<string> {
    [TwoDigits(ByteNumber(w, 0)), TwoDigits(ByteNumber(w, 1)), TwoDigits(ByteNumber(w, 2)), TwoDigits(ByteNumber(w, 3))]
  }

  lemma BytesTextAt(w: Word, k: nat)
    requires k < 4
    ensures BytesText(w)[k] == TwoDigits(ByteNumber(w, k))
  {
    hide TwoDigits, ByteNumber;
  }

  /** Each byte of each register is found where the protocol puts it. */
  lemma RegisterByte(regs: seq<Word>, i: nat, k: nat)
    requires i < |regs| && k < 4
    ensures RegistersText(regs)[8 * i + 2 * k..8 * i + 2 * k + 2] == TwoDigits(ByteNumber(regs[i], k))
  {
    RegisterAt(regs, i);
    WordTextExactly(regs[i]);
    BytesTextAt(regs[i], k);
    var parts := BytesText(regs[i]);
    hide RegistersText, WordText, ByteNumber;
    PartOfPart(RegistersText(regs), i, parts[0], parts[1], parts[2], parts[3], k);
    assert parts == [parts[0], parts[1], parts[2], parts[3]];
  }

  /** Each byte of memory is found where the protocol puts it. */
  lemma MemoryByte(data: seq<Byte>, i: nat)
    requires i < |data|
    ensures DataText(data)[2 * i..2 * i + 2] == TwoDigits(data[i])
  {
    ByteAt(data, i);
    HexOfByte(data[i]);
  }

  // ---------------------------------------------------------------- reading a register back

  ghost predicate TwoRead(a: char, b: char, n: nat) {
    exists v: nat, w: nat :: HasValue(a, v) && HasValue(b, w) && n == 16 * v + w
  }

  lemma TwoReadExactly(a: char, b: char, n: nat)
    ensures match ParseHex([a, b])
      case Some(m) => m < 256 && (TwoRead(a, b, n) <==> n == m)
      case None => !TwoRead(a, b, n)
  {
    TwoValues(a, b, n);
    ParseTwo(a, b);
    hide ParseHex;
  }

  lemma ParseMore(s: string, c: char)
    ensures ParseHex(s + [c]) == match (ParseHex(s), DigitValue(c))
      case (Some(high), Some(low)) => Some(16 * high + low)
      case _ => None
  {
    assert (s + [c])[..|s|] == s;
  }

  lemma ParseTwoMore(s: string, a: char, b: char)
    ensures ParseHex(s + [a, b]) == match (ParseHex(s), ParseHex([a, b]))
      case (Some(high), Some(low)) => Some(256 * high + low)
      case _ => None
  {
    hide ParseHex;
    ParseTwo(a, b);
    ParseMore(s, a);
    ParseMore(s + [a], b);
    assert s + [a] + [b] == s + [a, b];
  }

  lemma EightCharacters(s: string)
    requires |s| == 8
    ensures s == [s[0], s[1]] + [s[2], s[3]] + [s[4], s[5]] + [s[6], s[7]]
  {
  }

  ghost predicate EightRead(s: string, a: nat, b: nat, c: nat, d: nat)
    requires |s| == 8
  {
    TwoRead(s[0], s[1], a) && TwoRead(s[2], s[3], b) && TwoRead(s[4], s[5], c) && TwoRead(s[6], s[7], d)
  }

  lemma ParseEight(s: string)
    requires |s| == 8
    ensures ParseHex(s) == match (ParseHex([s[0], s[1]]), ParseHex([s[2], s[3]]), ParseHex([s[4], s[5]]), ParseHex([s[6], s[7]]))
      case (Some(a), Some(b), Some(c), Some(d)) => Some(d + 0x100 * c + 0x1_0000 * b + 0x100_0000 * a)
      case _ => None
  {
    hide ParseHex;
    EightCharacters(s);
    ParseTwoMore([s[0], s[1]], s[2], s[3]);
    ParseTwoMore([s[0], s[1]] + [s[2], s[3]], s[4], s[5]);
    ParseTwoMore([s[0], s[1]] + [s[2], s[3]] + [s[4], s[5]], s[6], s[7]);
  }

  lemma SameBytes(w: Word, a: Byte, b: Byte, c: Byte, d: Byte)
    ensures OfBytes(d, c, b, a) == Swapped(w) <==>
      a == ByteNumber(w, 0) && b == ByteNumber(w, 1) && c == ByteNumber(w, 2) && d == ByteNumber(w, 3)
  {
    ByteNumbers(w);
    WordOfBytes(d, c, b, a);
    WordOfBytes(ByteOf(w, 3), ByteOf(w, 2), ByteOf(w, 1), ByteOf(w, 0));
    hide ByteOf, OfBytes, ByteNumber;
  }

  lemma PlainDigits(s: string)
    requires |s| > 0 && s[0] != '+'
    ensures FromStrRadix(s) == ParseHex(s)
  {
    hide ParseHex;
  }

  lemma TwoReadIs(a: char, b: char, n: nat)
    ensures TwoRead(a, b, n) <==> ParseHex([a, b]) == Some(n)
    ensures ParseHex([a, b]).Some? ==> ParseHex([a, b]).value < 256
  {
    TwoReadExactly(a, b, n);
    hide ParseHex, TwoRead;
  }

  lemma EightReadIs(s: string, a: nat, b: nat, c: nat, d: nat)
    requires |s| == 8
    ensures EightRead(s, a, b, c, d) <==>
      && ParseHex([s[0], s[1]]) == Some(a) && ParseHex([s[2], s[3]]) == Some(b)
      && ParseHex([s[4], s[5]]) == Some(c) && ParseHex([s[6], s[7]]) == Some(d)
  {
    hide ParseHex, TwoRead;
    TwoReadIs(s[0], s[1], a);
    TwoReadIs(s[2], s[3], b);
    TwoReadIs(s[4], s[5], c);
    TwoReadIs(s[6], s[7], d);
  }

  lemma WordIs(w: Word, a: nat, b: nat, c: nat, d: nat)
    requires a < 256 && b < 256 && c < 256 && d < 256
    ensures d + 0x100 * c + 0x1_0000 * b + 0x100_0000 * a == Swapped(w) as int <==>
      a == ByteNumber(w, 0) && b == ByteNumber(w, 1) && c == ByteNumber(w, 2) && d == ByteNumber(w, 3)
  {
    hide ByteNumber, Swapped;
    SameBytes(w, a, b, c, d);
  }

  lemma EightDigits(s: string, w: Word)
    requires |s| == 8
    ensures ParseHex(s) == Some(Swapped(w) as int) <==>
      EightRead(s, ByteNumber(w, 0), ByteNumber(w, 1), ByteNumber(w, 2), ByteNumber(w, 3))
  {
    hide *;
    ParseEight(s);
    EightReadIs(s, ByteNumber(w, 0), ByteNumber(w, 1), ByteNumber(w, 2), ByteNumber(w, 3));
    var a, b, c, d := ParseHex([s[0], s[1]]), ParseHex([s[2], s[3]]), ParseHex([s[4], s[5]]), ParseHex([s[6], s[7]]);
    if a.Some? && b.Some? && c.Some? && d.Some? {
      TwoReadIs(s[0], s[1], a.value);
      TwoReadIs(s[2], s[3], b.value);
      TwoReadIs(s[4], s[5], c.value);
      TwoReadIs(s[6], s[7], d.value);
      WordIs(w, a.value, b.value, c.value, d.value);
    }
  }

  /** A register takes the bytes from the four pairs of digits, the least significant first. */
  lemma RegisterRead(s: string, w: Word)
    requires |s| == 8 && s[0] != '+'
    ensures FromStrRadix(s) == Some(Swapped(w) as int) <==>
      EightRead(s, ByteNumber(w, 0), ByteNumber(w, 1), ByteNumber(w, 2), ByteNumber(w, 3))
  {
    hide *;
    PlainDigits(s);
    EightDigits(s, w);
  }

  lemma {:induction false} ParseAfterZero(s: string)
    ensures ParseHex("0" + s) == ParseHex(s)
  {
    if s == "" {
      ParseOne('0');
      assert "0" + s == "0";
    } else {
      assert ("0" + s)[..|s|] == "0" + s[..|s| - 1];
      ParseAfterZero(s[..|s| - 1]);
    }
  }

  /** A plus sign in front is read like a zero. */
  lemma PlusIsZero(s: string)
    requires s != ""
    ensures FromStrRadix("+" + s) == FromStrRadix("0" + s)
  {
    ParseAfterZero(s);
    hide ParseHex;
    assert ("+" + s)[1..] == s;
  }

  // ---------------------------------------------------------------- the target description

  /** As many characters as asked for, marked 'm'; or all that are left, marked 'l', if these are fewer. */
  lemma TransferExactly(document: string, offset: nat, length: nat)
    ensures Transfer(document, offset, length) ==
      if offset > |document| then "E00"
      else if offset + length <= |document| then "m" + document[offset..offset + length]
      else "l" + document[offset..]
  {
    if offset <= |document| {
      assert document[offset..][..|document| - offset] == document[offset..];
      assert offset + length <= |document| ==> document[offset..][..length] == document[offset..offset + length];
    }
  }

  // ---------------------------------------------------------------- UTF-8

  ghost predicate IsScalar(c: nat) {
    c < 0xd800 || 0xe000 <= c < 0x11_0000
  }

  /** The bytes of a character in UTF-8. */
  ghost function Encoded(c: nat): (s: string)
    requires IsScalar(c)
    ensures 0 < |s| <= 4
  {
    if c < 0x80 then [c as char]
    else if c < 0x800 then [(0xc0 + c / 0x40) as char, Tail(c)]
    else if c < 0x1_0000 then [(0xe0 + c / 0x1000) as char, Tail(c / 0x40), Tail(c)]
    else [(0xf0 + c / 0x4_0000) as char, Tail(c / 0x1000), Tail(c / 0x40), Tail(c)]
  }

  ghost function Tail(c: nat): char {
    (0x80 + c % 0x40) as char
  }

  ghost predicate AreScalars(text: seq<nat>) {
    forall c <- text :: IsScalar(c)
  }

  ghost function EncodedAll(text: seq<nat>): string
    requires AreScalars(text)
  {
    if text == [] then "" else Encoded(text[0]) + EncodedAll(text[1..])
  }

  lemma OneByte(c: nat, s: string)
    requires c < 0x80 && Encoded(c) <= s
    ensures CharLength(s) == 1
  {
  }

  lemma TwoBytes(c: nat, s: string)
    requires 0x80 <= c < 0x800 && Encoded(c) <= s
    ensures CharLength(s) == 2
  {
    assert s[0] == Encoded(c)[0] && s[1] == Encoded(c)[1];
  }

  lemma ThreeBytes(c: nat, s: string)
    requires 0x800 <= c < 0x1_0000 && IsScalar(c) && Encoded(c) <= s
    ensures CharLength(s) == 3
  {
    assert s[0] == Encoded(c)[0] && s[1] == Encoded(c)[1] && s[2] == Encoded(c)[2];
    assert c / 0x1000 == 0 ==> 0x20 <= c / 0x40 % 0x40;
    assert c / 0x1000 == 13 ==> c / 0x40 % 0x40 < 0x20;
  }

  lemma FourBytes(c: nat, s: string)
    requires 0x1_0000 <= c < 0x11_0000 && Encoded(c) <= s
    ensures CharLength(s) == 4
  {
    assert s[0] == Encoded(c)[0] && s[1] == Encoded(c)[1] && s[2] == Encoded(c)[2] && s[3] == Encoded(c)[3];
    assert c / 0x4_0000 == 0 ==> 0x10 <= c / 0x1000 % 0x40;
    assert c / 0x4_0000 == 4 ==> c / 0x1000 % 0x40 < 0x10;
  }

  lemma EncodedHasLength(c: nat, s: string)
    requires IsScalar(c) && Encoded(c) <= s
    ensures CharLength(s) == |Encoded(c)|
  {
    if c < 0x80 { OneByte(c, s); }
    else if c < 0x800 { TwoBytes(c, s); }
    else if c < 0x1_0000 { ThreeBytes(c, s); }
    else { FourBytes(c, s); }
    hide CharLength, Tail;
  }

  lemma SixBits(high: nat, low: nat)
    requires low < 0x40
    ensures (0x40 * high + low) / 0x40 == high && (0x40 * high + low) % 0x40 == low
  {
  }

  lemma SixBitsAgain(c: nat)
    ensures c / 0x40 / 0x40 == c / 0x1000 && c / 0x1000 / 0x40 == c / 0x4_0000
  {
  }

  lemma DecodeTwo(s: string)
    requires CharLength(s) == 2
    ensures exists c :: IsScalar(c) && Encoded(c) == s[..2]
  {
    var c := 0x40 * (s[0] as nat - 0xc0) + (s[1] as nat - 0x80);
    SixBits(s[0] as nat - 0xc0, s[1] as nat - 0x80);
    hide CharLength;
    assert Encoded(c) == s[..2];
  }

  lemma DecodeThree(s: string)
    requires CharLength(s) == 3
    ensures exists c :: IsScalar(c) && Encoded(c) == s[..3]
  {
    var high := 0x40 * (s[0] as nat - 0xe0) + (s[1] as nat - 0x80);
    var c := 0x40 * high + (s[2] as nat - 0x80);
    SixBits(s[0] as nat - 0xe0, s[1] as nat - 0x80);
    SixBits(high, s[2] as nat - 0x80);
    SixBitsAgain(c);
    assert 0x800 <= c < 0x1_0000 && IsScalar(c);
    hide CharLength;
    assert Encoded(c) == s[..3];
  }

  lemma DecodeFour(s: string)
    requires CharLength(s) == 4
    ensures exists c :: IsScalar(c) && Encoded(c) == s[..4]
  {
    var top := 0x40 * (s[0] as nat - 0xf0) + (s[1] as nat - 0x80);
    var high := 0x40 * top + (s[2] as nat - 0x80);
    var c := 0x40 * high + (s[3] as nat - 0x80);
    SixBits(s[0] as nat - 0xf0, s[1] as nat - 0x80);
    SixBits(top, s[2] as nat - 0x80);
    SixBits(high, s[3] as nat - 0x80);
    SixBitsAgain(c);
    assert 0x1_0000 <= c < 0x11_0000;
    hide CharLength;
    assert Encoded(c) == s[..4];
  }

  lemma DecodesFirst(s: string)
    requires CharLength(s) > 0
    ensures exists c :: IsScalar(c) && Encoded(c) == s[..CharLength(s)]
  {
    match CharLength(s)
    case 1 => assert Encoded(s[0] as nat) == s[..1];
    case 2 => DecodeTwo(s);
    case 3 => DecodeThree(s);
    case _ =>
      assert CharLength(s) == 4;
      DecodeFour(s);
  }

  ghost predicate IsEncoding(s: string, text: seq<nat>) {
    AreScalars(text) && s == EncodedAll(text)
  }

  lemma EncodesMore(c: nat, rest: string, text: seq<nat>)
    requires IsScalar(c) && IsEncoding(rest, text)
    ensures IsEncoding(Encoded(c) + rest, [c] + text)
  {
    assert ([c] + text)[1..] == text;
    hide Encoded;
  }

  lemma FirstOfEncoding(s: string, text: seq<nat>)
    requires s != "" && IsEncoding(s, text)
    ensures text != [] && IsScalar(text[0])
    ensures Encoded(text[0]) <= s && IsEncoding(s[|Encoded(text[0])|..], text[1..])
  {
    assert s[|Encoded(text[0])|..] == EncodedAll(text[1..]);
  }

  lemma {:induction false} EncodingIsUtf8(s: string, text: seq<nat>)
    requires IsEncoding(s, text)
    ensures IsUtf8(s)
    decreases |text|
  {
    if s != "" {
      FirstOfEncoding(s, text);
      EncodedHasLength(text[0], s);
      hide CharLength, Encoded, EncodedAll, AreScalars;
      EncodingIsUtf8(s[|Encoded(text[0])|..], text[1..]);
    }
  }

  lemma {:induction false} Utf8IsEncoding(s: string)
    requires IsUtf8(s)
    ensures exists text :: IsEncoding(s, text)
    decreases |s|
  {
    if s == "" {
      assert IsEncoding(s, []);
    } else {
      DecodesFirst(s);
      var n := CharLength(s);
      assert IsUtf8(s[n..]);
      hide *;
      assert s == s[..n] + s[n..];
      var c :| IsScalar(c) && Encoded(c) == s[..n];
      Utf8IsEncoding(s[n..]);
      var text :| IsEncoding(s[n..], text);
      EncodesMore(c, s[n..], text);
    }
  }

  /** The text of a packet is accepted exactly when its bytes are the characters of some text in UTF-8. */
  lemma Utf8Exactly(s: string)
    ensures IsUtf8(s) <==> exists text :: IsEncoding(s, text)
  {
    if IsUtf8(s) {
      Utf8IsEncoding(s);
    }
    forall text | IsEncoding(s, text) ensures IsUtf8(s) {
      EncodingIsUtf8(s, text);
    }
  }
}
