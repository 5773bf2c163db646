/**
 The debugger's server side of the GDB Remote Serial Protocol: packets in a byte stream, and the
 encodings of registers, memory and the target description. Bytes are characters below 256.
 */
module Gdb {
  import opened Wrappers

  type Word = w: int | 0 <= w < 0x1_0000_0000
  type Byte = b: int | 0 <= b < 0x100

  // ---------------------------------------------------------------- hexadecimal

  const DIGITS := "0123456789abcdef"

  function Digit(n: nat): (c: char)
    requires n < 16
    ensures c != '#' && c != '$' && c != '+' && c as int < 256
  {
    DIGITS[n]
  }

  function DigitValue(c: char): (v: Option<nat>)
    ensures v.Some? ==> v.value < 16
  {
    if '0' <= c <= '9' then Some(c as int - '0' as int)
    else if 'a' <= c <= 'f' then Some(c as int - 'a' as int + 10)
    else if 'A' <= c <= 'F' then Some(c as int - 'A' as int + 10)
    else None
  }

  lemma DigitRoundTrip(n: nat)
    requires n < 16
    ensures DigitValue(Digit(n)) == Some(n)
  {
  }

  /** `n` in at least `width` digits, most significant first, for numbers that fit them. */
  function Hex(n: nat, width: nat): (s: string)
    ensures |s| == width
    ensures forall c <- s :: c != '#' && c != '+' && c as int < 256
  {
    if width == 0 then "" else Hex(n / 16, width - 1) + [Digit(n % 16)]
  }

  /** `None` on a character that is no digit. */
  function ParseHex(s: string): Option<nat> {
    if s == "" then Some(0)
    else match (ParseHex(s[..|s| - 1]), DigitValue(Last(s)))
      case (Some(high), Some(low)) => Some(16 * high + low)
      case _ => None
  }

  /** `from_str_radix`, which takes a plus sign before the digits. */
  function FromStrRadix(s: string): Option<nat> {
    var digits := if |s| > 1 && s[0] == '+' then s[1..] else s;
    if digits == "" then None else ParseHex(digits)
  }

  function Pow16(k: nat): nat {
    if k == 0 then 1 else 16 * Pow16(k - 1)
  }

  lemma {:induction false} DigitsRoundTrip(n: nat, width: nat)
    requires n < Pow16(width)
    ensures ParseHex(Hex(n, width)) == Some(n)
  {
    if width > 0 {
      DigitsRoundTrip(n / 16, width - 1);
      DigitRoundTrip(n % 16);
      assert Hex(n, width)[..width - 1] == Hex(n / 16, width - 1);
    }
  }

  lemma HexRoundTrip(n: nat, width: nat)
    requires 0 < width && n < Pow16(width)
    ensures FromStrRadix(Hex(n, width)) == Some(n)
  {
    DigitsRoundTrip(n, width);
    assert Hex(n, width)[0] in Hex(n, width);
  }

  lemma {:induction false} DigitsAreBelow(s: string)
    ensures ParseHex(s).Some? ==> ParseHex(s).value < Pow16(|s|)
  {
    if s != "" {
      DigitsAreBelow(s[..|s| - 1]);
    }
  }

  lemma ParsedIsBelow(s: string)
    ensures FromStrRadix(s).Some? ==> FromStrRadix(s).value < Pow16(|s|)
  {
    DigitsAreBelow(s);
    if s != "" {
      DigitsAreBelow(s[1..]);
    }
  }

  // ---------------------------------------------------------------- text

  predicate IsBetween(s: string, i: nat, lo: int, hi: int) {
    i < |s| && lo <= s[i] as int <= hi
  }

  /** How many bytes the first character takes in UTF-8; 0 when there is no well-formed one. */
  function CharLength(s: string): (n: nat)
    ensures n <= |s|
  {
    if IsBetween(s, 0, 0, 0x7f) then 1
    else if IsBetween(s, 0, 0xc2, 0xdf) then (if IsBetween(s, 1, 0x80, 0xbf) then 2 else 0)
    else if IsBetween(s, 0, 0xe0, 0xef) then
      var lo, hi := if s[0] as int == 0xe0 then 0xa0 else 0x80, if s[0] as int == 0xed then 0x9f else 0xbf;
      if IsBetween(s, 1, lo, hi) && IsBetween(s, 2, 0x80, 0xbf) then 3 else 0
    else if IsBetween(s, 0, 0xf0, 0xf4) then
      var lo, hi := if s[0] as int == 0xf0 then 0x90 else 0x80, if s[0] as int == 0xf4 then 0x8f else 0xbf;
      if IsBetween(s, 1, lo, hi) && IsBetween(s, 2, 0x80, 0xbf) && IsBetween(s, 3, 0x80, 0xbf) then 4 else 0
    else 0
  }

  /** `String::from_utf8` takes the bytes. */
  predicate IsUtf8(s: string)
    decreases |s|
  {
    s == "" || (CharLength(s) > 0 && IsUtf8(s[CharLength(s)..]))
  }

  // ---------------------------------------------------------------- packets

  function Checksum(body: string): (sum: nat)
    ensures sum < 256
  {
    if body == "" then 0 else (Checksum(body[..|body| - 1]) + Last(body) as int) % 256
  }

  /** A packet as `send_packet` writes it. */
  function Framed(body: string): string {
    "$" + body + "#" + Hex(Checksum(body), 2)
  }

  const CAPACITY: nat := 4096

  /** What is buffered, and what each further read of the connection will bring. */
  datatype Reader = Reader(buffer: string, incoming: seq<string>)

  datatype Reading = Packet(body: string) | NoPacket | Panicked

  /** Reads from the connection only when nothing is buffered. */
  function FillBuf(r: Reader): Reader {
    if r.buffer == "" && r.incoming != [] then Reader(r.incoming[0], r.incoming[1..]) else r
  }

  function Position(s: string, c: char): (p: nat)
    ensures p <= |s| && (p < |s| ==> s[p] == c)
    ensures forall i | 0 <= i < p :: s[i] != c
  {
    if s == "" || s[0] == c then 0 else 1 + Position(s[1..], c)
  }

  function NextReading(r: Reader): (Reading, Reader) {
    var f := FillBuf(r);
    if f.buffer == "" then (NoPacket, f)
    else if f.buffer[0] == '+' then (NoPacket, f.(buffer := f.buffer[1..]))
    else if f.buffer[0] != '$' then (Panicked, f)
    else
      var end := Position(f.buffer, '#');
      if end == |f.buffer| then (if |f.buffer| == CAPACITY then Panicked else NoPacket, f)
      else if end + 3 > |f.buffer| then (NoPacket, f)
      else
        var body := f.buffer[1..end];
        var sum := FromStrRadix(f.buffer[end + 1..end + 3]);
        if sum != Some(Checksum(body)) || !IsUtf8(body) then (Panicked, f) else (Packet(body), f.(buffer := f.buffer[end + 3..]))
  }

  /** The bodies found by `n` readings, one after the other, while none panics. */
  function Drain(r: Reader, n: nat): (seq<string>, Reader)
    decreases n
  {
    if n == 0 then ([], r)
    else
      var (reading, r') := NextReading(r);
      match reading
      case Panicked => ([], r')
      case NoPacket => Drain(r', n - 1)
      case Packet(body) => ([body] + Drain(r', n - 1).0, Drain(r', n - 1).1)
  }

  class GdbServer {
    var buffer: string
    var incoming: seq<string>
    var sent: string

    constructor (incoming: seq<string>)
      ensures View() == Reader("", incoming) && sent == ""
    {
      buffer, this.incoming, sent := "", incoming, "";
    }

    function View(): Reader
      reads this
    {
      Reader(buffer, incoming)
    }

    /** A packet is acknowledged. */
    method ReadPacket() returns (r: Reading)
      modifies this
      ensures (r, View()) == NextReading(old(View()))
      ensures sent == old(sent) + (if r.Packet? then "+" else "")
    {
      hide IsUtf8, Position, Checksum, FromStrRadix;
      if buffer == "" && incoming != [] {
        buffer, incoming := incoming[0], incoming[1..];
      }
      if buffer == "" {
        return NoPacket;
      }
      if buffer[0] == '+' {
        buffer := buffer[1..];
        return NoPacket;
      }
      if buffer[0] != '$' {
        return Panicked;
      }
      var bodyEnd := 0;
      while bodyEnd < |buffer| && buffer[bodyEnd] != '#'
        invariant bodyEnd <= |buffer| && forall i | 0 <= i < bodyEnd :: buffer[i] != '#'
      {
        bodyEnd := bodyEnd + 1;
      }
      assert bodyEnd == Position(buffer, '#');
      if bodyEnd == |buffer| {
        return if |buffer| == CAPACITY then Panicked else NoPacket;
      }
      if bodyEnd + 3 > |buffer| {
        return NoPacket;
      }
      var body := buffer[1..bodyEnd];
      var sum := ChecksumOf(body);
      if FromStrRadix(buffer[bodyEnd + 1..bodyEnd + 3]) != Some(sum) || !IsUtf8(body) {
        return Panicked;
      }
      buffer := buffer[bodyEnd + 3..];
      sent := sent + "+";
      return Packet(body);
    }

    method SendPacket(body: string)
      modifies `sent
      ensures sent == old(sent) + Framed(body)
    {
      var sum := ChecksumOf(body);
      sent := sent + ("$" + body + "#" + Hex(sum, 2));
    }

    method ChecksumOf(body: string) returns (sum: nat)
      ensures sum == Checksum(body)
    {
      sum := 0;
      for i := 0 to |body|
        invariant sum == Checksum(body[..i])
      {
        assert body[..i + 1][..i] == body[..i];
        sum := (sum + body[i] as int) % 256;
      }
      assert body[..|body|] == body;
    }
  }

  // ---------------------------------------------------------------- what a client sends

  datatype Message = Ack | Command(body: string)

  function Bytes(m: Message): (s: string)
    ensures |s| > 0
  {
    match m
    case Ack => "+"
    case Command(body) => Framed(body)
  }

  function Wire(messages: seq<Message>): string {
    if messages == [] then "" else Bytes(messages[0]) + Wire(messages[1..])
  }

  function Bodies(messages: seq<Message>): seq<string> {
    if messages == [] then []
    else (if messages[0].Command? then [messages[0].body] else []) + Bodies(messages[1..])
  }

  /** A body does not contain the byte that ends it, and is text. */
  predicate IsSendable(m: Message) {
    m.Command? ==> '#' !in m.body && IsUtf8(m.body)
  }

  predicate Sendable(messages: seq<Message>) {
    forall m <- messages :: IsSendable(m)
  }

  function Concat(chunks: seq<string>): string {
    if chunks == [] then "" else chunks[0] + Concat(chunks[1..])
  }

  /** Each read brings something, and no more than the buffer holds. */
  predicate AreChunks(chunks: seq<string>) {
    forall c <- chunks :: 0 < |c| <= CAPACITY
  }

  /** No message is divided between two reads. */
  predicate Aligned(messages: seq<Message>, buffer: string, chunks: seq<string>)
    decreases |chunks|, |buffer|
  {
    if buffer == "" then (if chunks == [] then messages == [] else Aligned(messages, chunks[0], chunks[1..]))
    else
      && messages != [] && |Bytes(messages[0])| <= |buffer|
      && Aligned(messages[1..], buffer[|Bytes(messages[0])|..], chunks)
  }

  /** How many messages come before the first that is divided. */
  function Intact(messages: seq<Message>, buffer: string, chunks: seq<string>): (count: nat)
    ensures count <= |messages|
    decreases |chunks|, |buffer|
  {
    if buffer == "" then (if chunks == [] then 0 else Intact(messages, chunks[0], chunks[1..]))
    else if messages != [] && |Bytes(messages[0])| <= |buffer| then
      1 + Intact(messages[1..], buffer[|Bytes(messages[0])|..], chunks)
    else 0
  }

  // ---------------------------------------------------------------- reading what was sent

  lemma FramedShape(body: string, rest: string)
    requires '#' !in body
    ensures
      var all := Framed(body) + rest;
      && all[0] == '$' && Position(all, '#') == |body| + 1 && |Framed(body)| == |body| + 4
      && all[1..|body| + 1] == body
      && all[|body| + 2..|body| + 4] == Hex(Checksum(body), 2)
      && all[|body| + 4..] == rest
  {
    var all := Framed(body) + rest;
    PositionIs(all, '#', |body| + 1);
  }

  lemma {:induction false} PositionIs(s: string, c: char, p: nat)
    requires p < |s| && s[p] == c && forall i | 0 <= i < p :: s[i] != c
    ensures Position(s, c) == p
  {
    if p > 0 {
      PositionIs(s[1..], c, p - 1);
    }
  }

  /** A message that is buffered whole is read, whatever follows it. */
  lemma ReadsWhole(m: Message, rest: string, incoming: seq<string>)
    requires IsSendable(m)
    ensures NextReading(Reader(Bytes(m) + rest, incoming)) ==
      (if m.Command? then Packet(m.body) else NoPacket, Reader(rest, incoming))
  {
    if m.Command? {
      FramedShape(m.body, rest);
      assert Pow16(2) == 256;
      HexRoundTrip(Checksum(m.body), 2);
    } else {
      assert ("+" + rest)[1..] == rest;
    }
  }

  lemma {:induction false} PositionInPrefix(s: string, c: char, n: nat)
    requires n <= |s|
    ensures Position(s[..n], c) == if Position(s, c) < n then Position(s, c) else n
  {
    if n > 0 && s[0] != c {
      assert s[..n][1..] == s[1..][..n - 1];
      PositionInPrefix(s[1..], c, n - 1);
    }
  }

  lemma PartOfFrame(body: string, buffer: string)
    requires '#' !in body && 0 < |buffer| < |Framed(body)| && buffer == Framed(body)[..|buffer|]
    ensures buffer[0] == '$'
    ensures Position(buffer, '#') == if |buffer| > |body| + 1 then |body| + 1 else |buffer|
    ensures |buffer| < |body| + 4
  {
    var all := Framed(body);
    FramedShape(body, "");
    assert all + "" == all;
    PositionInPrefix(all, '#', |buffer|);
    hide *;
  }

  /** A message that is buffered in part is not read, and neither is anything after it. */
  lemma PartIsStuck(m: Message, buffer: string, incoming: seq<string>)
    requires IsSendable(m)
    requires 0 < |buffer| < |Bytes(m)| && buffer == Bytes(m)[..|buffer|]
    ensures
      var (reading, r) := NextReading(Reader(buffer, incoming));
      r == Reader(buffer, incoming) && !reading.Packet?
  {
    if m.Command? {
      PartOfFrame(m.body, buffer);
    }
    hide IsUtf8, FromStrRadix, Checksum, Hex, Framed, Position;
  }

  lemma {:induction false} StuckForGood(r: Reader, n: nat)
    requires NextReading(r).1 == r && !NextReading(r).0.Packet?
    ensures Drain(r, n).0 == []
  {
    if n > 0 {
      StuckForGood(r, n - 1);
    }
  }

  /** Of two ways to divide a text, the shorter first part starts the longer one. */
  lemma SplitSooner(a: string, b: string, c: string, d: string)
    requires a + b == c + d && |a| <= |c|
    ensures c == a + c[|a|..] && c[|a|..] + d == b && a == c[..|a|]
  {
    assert a == (a + b)[..|a|] == (c + d)[..|a|] == c[..|a|];
    assert b == (a + b)[|a|..] == (c + d)[|a|..] == c[|a|..] + d;
  }

  lemma FirstMessage(messages: seq<Message>, buffer: string, chunks: seq<string>)
    requires buffer + Concat(chunks) == Wire(messages) && buffer != ""
    ensures messages != []
    ensures
      var first := Bytes(messages[0]);
      if |first| <= |buffer| then
        buffer == first + buffer[|first|..] && buffer[|first|..] + Concat(chunks) == Wire(messages[1..])
      else buffer == first[..|buffer|]
  {
    var all := buffer + Concat(chunks);
    assert messages != [] by {
      assert |all| > 0;
    }
    var first, rest := Bytes(messages[0]), Wire(messages[1..]);
    assert all == first + rest;
    hide *;
    if |first| <= |buffer| {
      SplitSooner(first, rest, buffer, Concat(chunks));
    } else {
      SplitSooner(buffer, Concat(chunks), first, rest);
    }
  }

  lemma FillsFirst(chunks: seq<string>, n: nat)
    requires AreChunks(chunks) && chunks != []
    ensures n > 0 ==> Drain(Reader("", chunks), n) == Drain(Reader(chunks[0], chunks[1..]), n)
    ensures "" + Concat(chunks) == chunks[0] + Concat(chunks[1..])
  {
    assert chunks[0] in chunks;
    assert NextReading(Reader("", chunks)) == NextReading(Reader(chunks[0], chunks[1..]));
  }

  /** When no message is divided, as many readings as messages find every command in its order. */
  lemma {:induction false} AlignedIsRead(messages: seq<Message>, buffer: string, chunks: seq<string>)
    requires buffer + Concat(chunks) == Wire(messages) && Sendable(messages) && AreChunks(chunks)
    requires Aligned(messages, buffer, chunks)
    ensures Drain(Reader(buffer, chunks), |messages|) == (Bodies(messages), Reader("", []))
    decreases |chunks|, |buffer|
  {
    hide NextReading, Drain, Bytes, Wire, Concat;
    if buffer == "" {
      if chunks == [] {
        assert Drain(Reader("", []), 0) == ([], Reader("", [])) by { DrainsNothing(); }
      } else {
        FillsFirst(chunks, |messages|);
        AlignedIsRead(messages, chunks[0], chunks[1..]);
        SomethingSent(messages, chunks[0], chunks[1..]);
      }
    } else {
      FirstMessage(messages, buffer, chunks);
      var m := messages[0];
      assert m in messages;
      var rest := buffer[|Bytes(m)|..];
      DrainsFirst(m, rest, chunks, |messages| - 1);
      AlignedIsRead(messages[1..], rest, chunks);
    }
  }

  lemma DrainsNothing()
    ensures forall r :: Drain(r, 0) == ([], r)
  {
  }

  lemma DrainsFirst(m: Message, rest: string, incoming: seq<string>, n: nat)
    requires IsSendable(m)
    ensures
      var (bodies, r) := Drain(Reader(rest, incoming), n);
      Drain(Reader(Bytes(m) + rest, incoming), n + 1) == ((if m.Command? then [m.body] else []) + bodies, r)
  {
    ReadsWhole(m, rest, incoming);
    hide NextReading, Bytes;
    assert [] + Drain(Reader(rest, incoming), n).0 == Drain(Reader(rest, incoming), n).0;
  }

  lemma SomethingSent(messages: seq<Message>, first: string, chunks: seq<string>)
    requires first != "" && first + Concat(chunks) == Wire(messages)
    ensures messages != []
  {
    assert |first + Concat(chunks)| > 0;
  }

  /** The first message that is divided is a command. */
  lemma {:induction false} DividedIsCommand(messages: seq<Message>, buffer: string, chunks: seq<string>)
    requires buffer + Concat(chunks) == Wire(messages) && AreChunks(chunks) && !Aligned(messages, buffer, chunks)
    ensures
      var k := Intact(messages, buffer, chunks);
      k < |messages| && messages[k].Command?
    decreases |chunks|, |buffer|
  {
    hide Wire, Concat;
    if buffer == "" {
      if chunks == [] {
        ConcatNothing();
        NothingSent(messages);
      } else {
        FillsFirst(chunks, 0);
        DividedIsCommand(messages, chunks[0], chunks[1..]);
      }
    } else {
      FirstMessage(messages, buffer, chunks);
      var first := Bytes(messages[0]);
      if |first| <= |buffer| {
        DividedIsCommand(messages[1..], buffer[|first|..], chunks);
      }
    }
  }

  lemma FillsIntact(messages: seq<Message>, chunks: seq<string>)
    requires chunks != []
    ensures Intact(messages, "", chunks) == Intact(messages, chunks[0], chunks[1..])
    ensures Aligned(messages, "", chunks) == Aligned(messages, chunks[0], chunks[1..])
  {
  }

  lemma FirstIntact(messages: seq<Message>, buffer: string, chunks: seq<string>)
    requires messages != [] && buffer != ""
    ensures
      var first := |Bytes(messages[0])|;
      if first <= |buffer| then
        && Intact(messages, buffer, chunks) == 1 + Intact(messages[1..], buffer[first..], chunks)
        && Aligned(messages, buffer, chunks) == Aligned(messages[1..], buffer[first..], chunks)
      else Intact(messages, buffer, chunks) == 0
  {
  }

  /** However often the reader tries, it gets the commands before that one, one message a reading. */
  lemma {:induction false} DrainsIntact(messages: seq<Message>, buffer: string, chunks: seq<string>, n: nat)
    requires buffer + Concat(chunks) == Wire(messages) && Sendable(messages) && AreChunks(chunks)
    requires !Aligned(messages, buffer, chunks)
    ensures
      var k := Intact(messages, buffer, chunks);
      Drain(Reader(buffer, chunks), n).0 == Bodies(messages[..if n < k then n else k])
    decreases |chunks|, |buffer|, 1
  {
    hide Drain, Bytes, Wire, Concat, Bodies, Sendable, AreChunks, Intact;
    FirstIsSendable(messages, chunks);
    if buffer != "" {
      DrainsBuffered(messages, buffer, chunks, n);
    } else if chunks == [] {
      ConcatNothing();
      NothingSent(messages);
    } else {
      FillsFirst(chunks, n);
      FillsIntact(messages, chunks);
      DrainsIntact(messages, chunks[0], chunks[1..], n);
      if n == 0 {
        DrainsNothing();
      }
    }
  }

  lemma {:induction false} DrainsBuffered(messages: seq<Message>, buffer: string, chunks: seq<string>, n: nat)
    requires buffer + Concat(chunks) == Wire(messages) && Sendable(messages) && AreChunks(chunks)
    requires !Aligned(messages, buffer, chunks) && buffer != ""
    ensures
      var k := Intact(messages, buffer, chunks);
      Drain(Reader(buffer, chunks), n).0 == Bodies(messages[..if n < k then n else k])
    decreases |chunks|, |buffer|, 0
  {
    hide *;
    FirstIsSendable(messages, chunks);
    FirstMessage(messages, buffer, chunks);
    FirstIntact(messages, buffer, chunks);
    var m := messages[0];
    if n == 0 || |Bytes(m)| > |buffer| {
      DrainsNone(messages, buffer, chunks, n);
    } else {
      DrainsWhole(messages, buffer[|Bytes(m)|..], chunks, n - 1);
    }
  }

  lemma DrainsNone(messages: seq<Message>, buffer: string, chunks: seq<string>, n: nat)
    requires messages != [] && IsSendable(messages[0]) && buffer != ""
    requires n == 0 || (|Bytes(messages[0])| > |buffer| && buffer == Bytes(messages[0])[..|buffer|])
    ensures Drain(Reader(buffer, chunks), n).0 == [] == Bodies(messages[..0])
  {
    assert messages[..0] == [];
    hide NextReading, Bytes;
    if n > 0 {
      PartIsStuck(messages[0], buffer, chunks);
      StuckForGood(Reader(buffer, chunks), n);
    }
  }

  lemma {:induction false} DrainsWhole(messages: seq<Message>, rest: string, chunks: seq<string>, n: nat)
    requires messages != [] && IsSendable(messages[0])
    requires rest + Concat(chunks) == Wire(messages[1..]) && Sendable(messages[1..]) && AreChunks(chunks)
    requires !Aligned(messages[1..], rest, chunks)
    ensures
      var k := Intact(messages[1..], rest, chunks);
      Drain(Reader(Bytes(messages[0]) + rest, chunks), n + 1).0 == Bodies(messages[..(if n < k then n else k) + 1])
    decreases |chunks|, |rest|, 2
  {
    hide *;
    DrainsIntact(messages[1..], rest, chunks, n);
    var k := Intact(messages[1..], rest, chunks);
    DrainsFirstThen(messages, rest, chunks, n, if n < k then n else k);
  }

  /**
   When a message is divided it is a command, and it is lost with all that follows: however often
   the reader tries, it gets the commands before it and nothing else.
   */
  lemma DividedIsLost(messages: seq<Message>, buffer: string, chunks: seq<string>, n: nat)
    requires buffer + Concat(chunks) == Wire(messages) && Sendable(messages) && AreChunks(chunks)
    requires !Aligned(messages, buffer, chunks)
    ensures
      var k := Intact(messages, buffer, chunks);
      && k < |messages| && messages[k].Command?
      && Drain(Reader(buffer, chunks), n).0 == Bodies(messages[..if n < k then n else k])
      && |Drain(Reader(buffer, chunks), n).0| < |Bodies(messages)|
  {
    DividedIsCommand(messages, buffer, chunks);
    DrainsIntact(messages, buffer, chunks, n);
    var k := Intact(messages, buffer, chunks);
    FewerBodies(messages, k, if n < k then n else k);
  }

  lemma FirstIsSendable(messages: seq<Message>, chunks: seq<string>)
    requires Sendable(messages) && AreChunks(chunks)
    ensures messages != [] ==> Sendable(messages[1..]) && IsSendable(messages[0])
    ensures chunks != [] ==> AreChunks(chunks[1..]) && chunks[0] != ""
  {
    assert messages != [] ==> messages[0] in messages;
    assert chunks != [] ==> chunks[0] in chunks;
  }

  lemma DrainsFirstThen(messages: seq<Message>, rest: string, chunks: seq<string>, n: nat, k: nat)
    requires messages != [] && k < |messages| && IsSendable(messages[0])
    requires Drain(Reader(rest, chunks), n).0 == Bodies(messages[1..][..k])
    ensures Drain(Reader(Bytes(messages[0]) + rest, chunks), n + 1).0 == Bodies(messages[..k + 1])
  {
    hide Drain, Bytes, Bodies;
    DrainsFirst(messages[0], rest, chunks, n);
    BodiesOfFirst(messages, k);
  }

  lemma BodiesOfFirst(messages: seq<Message>, k: nat)
    requires k < |messages|
    ensures Bodies(messages[..k + 1]) ==
      (if messages[0].Command? then [messages[0].body] else []) + Bodies(messages[1..][..k])
  {
    assert messages[..k + 1][1..] == messages[1..][..k];
  }

  /** Without one of its commands a list of messages has fewer bodies. */
  lemma {:induction false} FewerBodies(messages: seq<Message>, k: nat, j: nat)
    requires j <= k < |messages| && messages[k].Command?
    ensures |Bodies(messages[..j])| < |Bodies(messages)|
  {
    if j > 0 {
      BodiesOfFirst(messages, j - 1);
      FewerBodies(messages[1..], k - 1, j - 1);
    } else if k > 0 {
      FewerBodies(messages[1..], k - 1, 0);
    }
  }

  lemma ConcatNothing()
    ensures "" + Concat([]) == ""
  {
  }

  lemma {:induction false} NothingSent(messages: seq<Message>)
    requires Wire(messages) == ""
    ensures messages == []
  {
  }

  /** All commands are read in the end exactly when no message is divided between two reads. */
  lemma ReadExactlyWhenAligned(messages: seq<Message>, chunks: seq<string>)
    requires Concat(chunks) == Wire(messages) && Sendable(messages) && AreChunks(chunks)
    ensures (exists n: nat :: Drain(Reader("", chunks), n).0 == Bodies(messages)) <==> Aligned(messages, "", chunks)
  {
    assert "" + Concat(chunks) == Concat(chunks);
    if Aligned(messages, "", chunks) {
      AlignedIsRead(messages, "", chunks);
    } else {
      forall n: nat ensures Drain(Reader("", chunks), n).0 != Bodies(messages) {
        DividedIsLost(messages, "", chunks, n);
      }
    }
  }

  // ---------------------------------------------------------------- registers and memory

  function OfBytes(a: Byte, b: Byte, c: Byte, d: Byte): Word {
    a as int + 0x100 * (b as int) + 0x1_0000 * (c as int) + 0x100_0000 * (d as int)
  }

  /** The `k`th byte, least significant first. */
  function ByteOf(w: Word, k: nat): Byte
    requires k < 4
  {
    match k
    case 0 => w as int % 0x100
    case 1 => w as int / 0x100 % 0x100
    case 2 => w as int / 0x1_0000 % 0x100
    case _ => w as int / 0x100_0000
  }

  /** The word with its bytes in the opposite order. */
  function Swapped(w: Word): Word {
    OfBytes(ByteOf(w, 3), ByteOf(w, 2), ByteOf(w, 1), ByteOf(w, 0))
  }

  lemma BytesOfWord(w: Word)
    ensures OfBytes(ByteOf(w, 0), ByteOf(w, 1), ByteOf(w, 2), ByteOf(w, 3)) == w
  {
    var x := w as int;
    assert x == x % 0x100 + 0x100 * (x / 0x100);
    assert x / 0x100 == x / 0x100 % 0x100 + 0x100 * (x / 0x100 / 0x100) && x / 0x100 / 0x100 == x / 0x1_0000;
    assert x / 0x1_0000 == x / 0x1_0000 % 0x100 + 0x100 * (x / 0x1_0000 / 0x100) && x / 0x1_0000 / 0x100 == x / 0x100_0000;
  }

  lemma WordOfBytes(a: Byte, b: Byte, c: Byte, d: Byte)
    ensures
      var w := OfBytes(a, b, c, d);
      ByteOf(w, 0) == a && ByteOf(w, 1) == b && ByteOf(w, 2) == c && ByteOf(w, 3) == d
  {
    var w := OfBytes(a, b, c, d) as int;
    var y := b as int + 0x100 * (c as int) + 0x1_0000 * (d as int);
    assert w == a as int + 0x100 * y && w / 0x100 == y;
    var z := c as int + 0x100 * (d as int);
    assert y == b as int + 0x100 * z && y / 0x100 == z && w / 0x1_0000 == z;
    assert z / 0x100 == d && w / 0x100_0000 == d;
  }

  lemma SwappedTwice(w: Word)
    ensures Swapped(Swapped(w)) == w
  {
    BytesOfWord(w);
    WordOfBytes(ByteOf(w, 3), ByteOf(w, 2), ByteOf(w, 1), ByteOf(w, 0));
    hide ByteOf, OfBytes;
  }

  function WordText(w: Word): string {
    Hex(Swapped(w), 8)
  }

  function RegistersText(regs: seq<Word>): (s: string)
    ensures |s| == 8 * |regs|
  {
    if regs == [] then "" else RegistersText(regs[..|regs| - 1]) + WordText(Last(regs))
  }

  lemma WordTextParses(w: Word)
    ensures FromStrRadix(WordText(w)) == Some(Swapped(w) as int)
  {
    assert Pow16(4) == 0x1_0000;
    assert Pow16(8) == 0x1_0000_0000;
    HexRoundTrip(Swapped(w), 8);
  }

  lemma {:induction false} RegisterAt(regs: seq<Word>, i: nat)
    requires i < |regs|
    ensures RegistersText(regs)[8 * i..8 * i + 8] == WordText(regs[i])
  {
    var init := regs[..|regs| - 1];
    if i < |regs| - 1 {
      RegisterAt(init, i);
      assert RegistersText(regs)[8 * i..8 * i + 8] == RegistersText(init)[8 * i..8 * i + 8];
    }
  }

  function DataText(data: seq<Byte>): (s: string)
    ensures |s| == 2 * |data|
  {
    if data == [] then "" else DataText(data[..|data| - 1]) + Hex(Last(data), 2)
  }

  lemma {:induction false} ByteAt(data: seq<Byte>, i: nat)
    requires i < |data|
    ensures DataText(data)[2 * i..2 * i + 2] == Hex(data[i], 2)
  {
    var init := data[..|data| - 1];
    if i < |data| - 1 {
      ByteAt(init, i);
      assert DataText(data)[2 * i..2 * i + 2] == DataText(init)[2 * i..2 * i + 2];
    }
  }

  /** The reply to `g`. */
  method ReadRegisters(regs: array<Word>) returns (packet: string)
    ensures packet == RegistersText(regs[..])
  {
    packet := "";
    for i := 0 to regs.Length
      invariant packet == RegistersText(regs[..i])
    {
      assert regs[..i + 1][..i] == regs[..i];
      packet := packet + Hex(Swapped(regs[i]), 8);
    }
    assert regs[..regs.Length] == regs[..];
  }

  /** What `G` does with its data; it panics when there is too little or it is not hexadecimal. */
  method WriteRegisters(regs: array<Word>, data: string) returns (ok: bool)
    modifies regs
    ensures forall values: seq<Word> :: |values| == regs.Length && data == RegistersText(values) ==> ok && regs[..] == values
    ensures ok ==> |data| == 8 * regs.Length && forall i | 0 <= i < regs.Length :: FromStrRadix(data[8 * i..8 * i + 8]) == Some(Swapped(regs[i]) as int)
  {
    if |data| != regs.Length * 4 * 2 {
      return false;
    }
    for i := 0 to regs.Length
      invariant forall k | 0 <= k < i :: FromStrRadix(data[8 * k..8 * k + 8]) == Some(Swapped(regs[k]) as int)
    {
      var word := FromStrRadix(data[i * 4 * 2..][..4 * 2]);
      assert data[i * 4 * 2..][..4 * 2] == data[8 * i..8 * i + 8];
      if word.None? {
        NoSuchRegisters(regs.Length, data, i);
        return false;
      }
      ParsedFits(data[8 * i..8 * i + 8]);
      SwappedTwice(word.value);
      regs[i] := Swapped(word.value);
    }
    ok := true;
    forall values: seq<Word> | |values| == regs.Length && data == RegistersText(values) ensures regs[..] == values {
      forall i | 0 <= i < regs.Length ensures regs[i] == values[i] {
        RegisterAt(values, i);
        WordTextParses(values[i]);
        SwappedTwice(values[i]);
        SwappedTwice(regs[i]);
      }
    }
  }

  lemma NoSuchRegisters(n: nat, data: string, i: nat)
    requires i < n && |data| == 8 * n && FromStrRadix(data[8 * i..8 * i + 8]).None?
    ensures forall values: seq<Word> :: |values| == n ==> data != RegistersText(values)
  {
    forall values: seq<Word> | |values| == n ensures data != RegistersText(values) {
      RegisterAt(values, i);
      WordTextParses(values[i]);
    }
  }

  lemma ParsedFits(s: string)
    requires |s| == 8
    ensures FromStrRadix(s).Some? ==> FromStrRadix(s).value < 0x1_0000_0000
  {
    ParsedIsBelow(s);
    assert Pow16(4) == 0x1_0000;
    assert Pow16(8) == 0x1_0000_0000;
  }

  /** The reply to `m` for memory that can be read. */
  method ReadMemory(data: seq<Byte>) returns (packet: string)
    ensures packet == DataText(data)
  {
    packet := "";
    for i := 0 to |data|
      invariant packet == DataText(data[..i])
    {
      assert data[..i + 1][..i] == data[..i];
      packet := packet + Hex(data[i], 2);
    }
    assert data[..|data|] == data;
  }

  /** What `M` does to the bytes it names; the data of a reply to `m` gives the bytes back. */
  method WriteMemory(dest: array<Byte>, data: string) returns (ok: bool)
    modifies dest
    ensures forall values: seq<Byte> :: |values| == dest.Length && data == DataText(values) ==> ok && dest[..] == values
    ensures ok ==> |data| == 2 * dest.Length && forall i | 0 <= i < dest.Length :: FromStrRadix(data[2 * i..2 * i + 2]) == Some(dest[i] as int)
  {
    if |data| != dest.Length * 2 {
      return false;
    }
    for i := 0 to dest.Length
      invariant forall k | 0 <= k < i :: FromStrRadix(data[2 * k..2 * k + 2]) == Some(dest[k] as int)
    {
      var byte := FromStrRadix(data[i * 2..][..2]);
      assert data[i * 2..][..2] == data[2 * i..2 * i + 2];
      if byte.None? {
        NoSuchBytes(dest.Length, data, i);
        return false;
      }
      ParsedIsBelow(data[2 * i..2 * i + 2]);
      assert Pow16(2) == 0x100;
      dest[i] := byte.value;
    }
    ok := true;
    forall values: seq<Byte> | |values| == dest.Length && data == DataText(values) ensures dest[..] == values {
      forall i | 0 <= i < dest.Length ensures dest[i] == values[i] {
        ByteTextParses(values, i);
      }
    }
  }

  lemma ByteTextParses(data: seq<Byte>, i: nat)
    requires i < |data|
    ensures FromStrRadix(DataText(data)[2 * i..2 * i + 2]) == Some(data[i] as int)
  {
    ByteAt(data, i);
    assert Pow16(2) == 0x100;
    HexRoundTrip(data[i], 2);
  }

  lemma NoSuchBytes(n: nat, data: string, i: nat)
    requires i < n && |data| == 2 * n && FromStrRadix(data[2 * i..2 * i + 2]).None?
    ensures forall values: seq<Byte> :: |values| == n ==> data != DataText(values)
  {
    forall values: seq<Byte> | |values| == n ensures data != DataText(values) {
      ByteTextParses(values, i);
    }
  }

  // ---------------------------------------------------------------- the target description

  /** The reply to a request for `length` bytes from `offset` on. */
  function Transfer(document: string, offset: nat, length: nat): string {
    if offset > |document| then "E00"
    else
      var bytes := document[offset..];
      var lengthRead := if length < |bytes| then length else |bytes|;
      (if lengthRead < length then "l" else "m") + bytes[..lengthRead]
  }

  /** A client that asks for more until it is told there is no more; `lengths` are what it asks for. */
  function Fetched(document: string, offset: nat, lengths: seq<nat>): Option<string>
    decreases |lengths|
  {
    if lengths == [] then None
    else
      var reply := Transfer(document, offset, lengths[0]);
      if reply[0] == 'l' then Some(reply[1..])
      else if reply[0] != 'm' then None
      else match Fetched(document, offset + |reply| - 1, lengths[1..])
        case None => None
        case Some(rest) => Some(reply[1..] + rest)
  }

  /** With positive lengths the client ends with the document, after at most one request more than its size. */
  lemma {:induction false} FetchesDocument(document: string, offset: nat, lengths: seq<nat>)
    requires offset <= |document| && |lengths| > |document| - offset && forall n <- lengths :: n > 0
    ensures Fetched(document, offset, lengths) == Some(document[offset..])
    decreases |lengths|
  {
    var n, more := lengths[0], lengths[1..];
    FirstRequest(lengths);
    hide *;
    if n <= |document| - offset {
      TransfersSome(document, offset, n);
      FetchesDocument(document, offset + n, more);
      FetchOneMore(document, offset, n, more, document[offset + n..]);
    } else {
      TransfersRest(document, offset, n);
      FetchLast(document, offset, n, more);
    }
  }

  lemma FirstRequest(lengths: seq<nat>)
    requires lengths != [] && forall n <- lengths :: n > 0
    ensures lengths == [lengths[0]] + lengths[1..] && lengths[0] > 0 && forall n <- lengths[1..] :: n > 0
  {
    assert lengths[0] in lengths && forall n <- lengths[1..] :: n in lengths;
  }

  lemma FetchOneMore(document: string, offset: nat, n: nat, more: seq<nat>, rest: string)
    requires |Transfer(document, offset, n)| == n + 1 && Transfer(document, offset, n)[0] == 'm'
    requires Fetched(document, offset + n, more) == Some(rest)
    ensures Fetched(document, offset, [n] + more) == Some(Transfer(document, offset, n)[1..] + rest)
  {
    hide Transfer;
    assert ([n] + more)[1..] == more;
  }

  lemma FetchLast(document: string, offset: nat, n: nat, more: seq<nat>)
    requires |Transfer(document, offset, n)| > 0 && Transfer(document, offset, n)[0] == 'l'
    ensures Fetched(document, offset, [n] + more) == Some(Transfer(document, offset, n)[1..])
  {
    hide Transfer;
  }

  lemma TransfersSome(document: string, offset: nat, n: nat)
    requires offset + n <= |document|
    ensures
      var reply := Transfer(document, offset, n);
      |reply| == n + 1 && reply[0] == 'm' && reply[1..] + document[offset + n..] == document[offset..]
  {
    assert Transfer(document, offset, n) == "m" + document[offset..offset + n];
  }

  lemma TransfersRest(document: string, offset: nat, n: nat)
    requires offset <= |document| < offset + n
    ensures
      var reply := Transfer(document, offset, n);
      |reply| > 0 && reply[0] == 'l' && reply[1..] == document[offset..]
  {
    assert Transfer(document, offset, n) == "l" + document[offset..];
  }

  /** A request for nothing is answered as if there were more. */
  lemma NothingRequested(document: string, offset: nat)
    requires offset <= |document|
    ensures Transfer(document, offset, 0) == "m"
  {
  }
}
