/**
  Packets of the GDB remote serial protocol (src/avr/avr_gdb.c): escaping, framing with a
  checksum, and acknowledgement, over the bytes of a connection.
 */
module Rsp {
  import opened Basics

  const BUF_MAX: nat := 16384

  const DOLLAR: byte := 0x24
  const HASH: byte := 0x23
  const STAR: byte := 0x2A
  const BRACE: byte := 0x7D
  const PLUS: byte := 0x2B
  const MINUS: byte := 0x2D
  const BREAK: byte := 0x03

  /** A byte that the reader, which keeps characters in an int8_t, takes for a failed read. */
  const LOST: byte := 0xFF

  // ---------- checksum and digits ----------

  function HexChar(d: nat): byte
    requires d < 16
  {
    HexDigit(d) as int
  }

  /** `hex`: the value of a hexadecimal digit; 0 for any other character. */
  function Hex(c: byte): (d: nat)
    ensures d < 16
  {
    var d := DigitOf(c as char);
    if d < 0 then 0 else d
  }

  lemma HexOfChar(d: nat)
    requires d < 16
    ensures Hex(HexChar(d)) == d && HexChar(d) != LOST
  {
  }

  // ---------- escaping ----------

  predicate Special(c: byte) {
    c == DOLLAR || c == HASH || c == STAR || c == BRACE
  }

  /** c ^ 0x20 */
  function Flip(c: byte): byte {
    if c / 32 % 2 == 0 then c + 32 else c - 32
  }

  /** That is: bit 5 is inverted, and the bits below and above it stay. */
  lemma FlipsBitFive(c: byte)
    ensures Bit(Flip(c), 5) == 1 - Bit(c, 5) && Flip(c) % 32 == c % 32 && Flip(c) / 64 == c / 64
  {
    assert Pow2(5) == 32;
  }

  function EscapeByte(c: byte): seq<byte> {
    if Special(c) then [BRACE, Flip(c)] else [c]
  }

  function Escape(s: seq<byte>): seq<byte>
    decreases |s|
  {
    if s == [] then [] else Escape(s[..|s| - 1]) + EscapeByte(s[|s| - 1])
  }

  /** The bytes that escaped data stand for; data that end in an escape take the byte after them. */
  function Unescape(s: seq<byte>, after: byte): seq<byte>
    decreases |s|
  {
    if s == [] then []
    else if s[0] != BRACE then [s[0]] + Unescape(s[1..], after)
    else if |s| == 1 then [Flip(after)]
    else [Flip(s[1])] + Unescape(s[2..], after)
  }

  /** No byte that the framing gives a meaning of its own. */
  predicate Plain(s: seq<byte>) {
    forall k :: 0 <= k < |s| ==> s[k] != DOLLAR && s[k] != HASH && s[k] != LOST
  }

  lemma {:induction false} EscapedIsPlain(s: seq<byte>)
    requires LOST !in s
    ensures Plain(Escape(s)) && STAR !in Escape(s)
    decreases |s|
  {
    if s != [] {
      EscapedIsPlain(s[..|s| - 1]);
    }
  }

  lemma {:induction false} EscapeFront(c: byte, s: seq<byte>)
    ensures Escape([c] + s) == EscapeByte(c) + Escape(s)
    decreases |s|
  {
    hide EscapeByte;
    if s == [] {
      assert [c] + s == [c] && [c][..0] == [];
    } else {
      EscapeFront(c, s[..|s| - 1]);
      assert ([c] + s)[..|s|] == [c] + s[..|s| - 1];
    }
  }

  /** Unescaping undoes escaping. */
  lemma {:induction false} UnescapeEscape(s: seq<byte>, after: byte)
    ensures Unescape(Escape(s), after) == s
    decreases |s|
  {
    if s != [] {
      EscapeFront(s[0], s[1..]);
      UnescapeEscape(s[1..], after);
      assert s == [s[0]] + s[1..];
      var e, t := EscapeByte(s[0]), Escape(s[1..]);
      assert (e + t)[|e|..] == t;
    }
  }

  // ---------- sending ----------

  /** The bytes of one transmission of a packet. */
  function Encode(body: seq<byte>): seq<byte> {
    var s := Escape(body);
    var c := Sum(s) % 256;
    [DOLLAR] + s + [HASH, HexChar(c / 16), HexChar(c % 16)]
  }

  function Repeat(s: seq<byte>, n: nat): seq<byte> {
    if n == 0 then [] else Repeat(s, n - 1) + s
  }

  /** The number of transmissions that answers ask for: up to the first '+' or the end of the connection. */
  function Transmissions(answers: seq<byte>): (n: nat)
    ensures n > 0
    decreases |answers|
  {
    if answers == [] || answers[0] == PLUS then 1 else 1 + Transmissions(answers[1..])
  }

  /** What is left to read after those answers. */
  function Unanswered(answers: seq<byte>): seq<byte>
    decreases |answers|
  {
    if answers == [] then [] else if answers[0] == PLUS then answers[1..] else Unanswered(answers[1..])
  }

  // ---------- receiving ----------

  datatype Start = NoStart(rest: seq<byte>) | BreakAt(rest: seq<byte>) | StartAt(rest: seq<byte>)

  /** What comes first: a packet's start, a break, or the end. */
  function FindStart(s: seq<byte>): (r: Start)
    ensures |r.rest| <= |s| && (!r.NoStart? ==> |r.rest| < |s|)
    decreases |s|
  {
    if s == [] then NoStart([])
    else if s[0] == LOST then NoStart(s[1..])
    else if s[0] == DOLLAR then StartAt(s[1..])
    else if s[0] == BREAK then BreakAt(s[1..])
    else FindStart(s[1..])
  }

  datatype Frame = NoFrame(rest: seq<byte>) | Overrun(rest: seq<byte>) | Framed(body: seq<byte>, rest: seq<byte>)

  /** The packet after its start, `body` being what was read of it. */
  function ReadFrame(s: seq<byte>, body: seq<byte>): (f: Frame)
    ensures |f.rest| <= |s|
    decreases |s|
  {
    if |body| >= BUF_MAX - 1 then Overrun(s)
    else if s == [] then NoFrame([])
    else if s[0] == LOST then NoFrame(s[1..])
    else if s[0] == DOLLAR then ReadFrame(s[1..], [])
    else if s[0] == HASH then Framed(body, s[1..])
    else ReadFrame(s[1..], body + [s[0]])
  }

  /** The checksum after a packet. */
  function ReadDigits(s: seq<byte>): (r: (Option<nat>, seq<byte>))
    ensures |r.1| <= |s|
  {
    if s == [] then (None, [])
    else if s[0] == LOST || |s| == 1 then (None, s[1..])
    else if s[1] == LOST then (None, s[2..])
    else (Some(16 * Hex(s[0]) + Hex(s[1])), s[2..])
  }

  /** A packet, or none when the connection fails; the answers sent; what is left to read. */
  datatype Received = Received(packet: Option<seq<byte>>, answers: seq<byte>, rest: seq<byte>)
  {
    function After(answer: seq<byte>): Received {
      this.(answers := answer + answers)
    }
  }

  /** One attempt to read a packet: it ends reading, or reading goes on after an answer. */
  datatype Attempt = Done(r: Received) | Again(answer: seq<byte>, rest: seq<byte>)

  function Try(s: seq<byte>): (a: Attempt)
    ensures a.Again? ==> |a.rest| < |s|
  {
    match FindStart(s)
    case NoStart(rest) => Done(Received(None, [], rest))
    case BreakAt(rest) => Done(Received(Some([BREAK]), [], rest))
    case StartAt(t) =>
      match ReadFrame(t, [])
      case NoFrame(rest) => Done(Received(None, [], rest))
      case Overrun(rest) => Again([], rest)
      case Framed(body, u) =>
        var (sum, rest) := ReadDigits(u);
        if sum.None? then Done(Received(None, [], rest))
        else if Sum(body) % 256 != sum.value then Again([MINUS], rest)
        else Done(Received(Some(body), [PLUS], rest))
  }

  function Receive(s: seq<byte>): Received
    decreases |s|
  {
    match Try(s)
    case Done(r) => r
    case Again(answer, rest) => Receive(rest).After(answer)
  }

  // ---------- the program ----------

  /** A packet buffer: `rsp_buf`. */
  class Buffer {
    const data: array<byte>
    var len: nat

    constructor ()
      ensures Valid() && fresh(data) && len == 0
    {
      data := new byte[BUF_MAX](_ => 0);
      len := 0;
    }

    ghost predicate Valid()
      reads this
    {
      data.Length == BUF_MAX && len < BUF_MAX
    }

    /** The packet in the buffer. */
    ghost function Contents(): seq<byte>
      requires Valid()
      reads this, data
    {
      data[..len]
    }

    /** `rsp_unescape`: the bytes move towards the front of the same array. */
    method Unescaped(n: nat) returns (m: nat)
      requires n < data.Length
      modifies data
      ensures m <= n && data[..m] == Unescape(old(data[..n]), old(data[n]))
    {
      hide Unescape;
      var from, to := 0, 0;
      ghost var s, after := data[..n], data[n];
      while from < n
        invariant 0 <= to <= from <= n + 1 && (from > n ==> to <= n)
        invariant forall k :: from <= k < data.Length ==> data[k] == old(data[k])
        invariant Unescape(s, after) == data[..to] + Unescape(s[if from < n then from else n..], after)
      {
        UnescapeNext(s, after, from);
        ghost var done := data[..to];
        if data[from] == BRACE {
          from := from + 1;
          data[to] := Flip(data[from]);
        } else {
          data[to] := data[from];
        }
        from := from + 1;
        to := to + 1;
        assert data[..to] == done + [data[to - 1]];
        Associates(done, [data[to - 1]], Unescape(s[if from < n then from else n..], after));
      }
      UnescapeNone(after);
      assert s[n..] == [] && data[..to] + [] == data[..to];
      m := to;
    }
  }

  lemma UnescapeNone(after: byte)
    ensures Unescape([], after) == []
  {
  }

  lemma UnescapeNext(s: seq<byte>, after: byte, k: nat)
    requires k < |s|
    ensures Unescape(s[k..], after) ==
      if s[k] != BRACE then [s[k]] + Unescape(s[k + 1..], after)
      else if k + 1 == |s| then [Flip(after)] + Unescape(s[|s|..], after)
      else [Flip(s[k + 1])] + Unescape(s[k + 2..], after)
  {
    assert s[k..][1..] == s[k + 1..];
    if k + 1 < |s| {
      assert s[k..][2..] == s[k + 2..];
    }
  }

  /** A connection: what is still to be read, and what was written. */
  class Link {
    var input: seq<byte>
    var output: seq<byte>

    constructor (bytes: seq<byte>)
      ensures input == bytes && output == []
    {
      input, output := bytes, [];
    }

    /** `get_rsp_char`: -1 at the end of the connection. */
    method GetChar() returns (c: int)
      modifies `input
      ensures if old(input) == [] then c == -1 && input == [] else c == old(input[0]) && input == old(input[1..])
    {
      if input == [] {
        return -1;
      }
      c := input[0];
      input := input[1..];
    }

    /** `get_rsp_char` as `get_packet` reads it, in an int8_t: the byte 0xFF is -1, too. */
    method GetSigned() returns (c: int)
      modifies `input
      ensures if old(input) == [] then c == -1 && input == []
              else c == (if old(input[0]) == LOST then -1 else old(input[0])) && input == old(input[1..])
    {
      c := GetChar();
      if c == LOST {
        c := -1;
      }
    }

    method PutChar(c: byte)
      modifies `output
      ensures output == old(output) + [c]
    {
      output := output + [c];
    }

    /** One byte of a packet's body, escaped if need be, and the checksum with it. */
    method PutEscaped(c0: byte, checksum0: byte) returns (checksum: byte)
      modifies `output
      ensures output == old(output) + EscapeByte(c0)
      ensures checksum == (checksum0 + Sum(EscapeByte(c0))) % 256
    {
      var c := c0;
      checksum := checksum0;
      if Special(c) {
        c := Flip(c);
        checksum := (checksum + BRACE) % 256;
        PutChar(BRACE);
        assert [BRACE, c][..1] == [BRACE] && [BRACE][..0] == [];
      } else {
        assert [c][..0] == [];
      }
      checksum := (checksum + c) % 256;
      PutChar(c);
    }

    method PutEnd(checksum: byte)
      modifies `output
      ensures output == old(output) + Tail(checksum)
    {
      PutChar(HASH);
      PutChar(HexChar(checksum / 16));
      PutChar(HexChar(checksum % 16));
    }

    /** One transmission of `put_packet`. */
    method Transmit(buf: Buffer)
      requires buf.Valid()
      modifies `output
      ensures output == old(output) + Encode(buf.Contents())
    {
      ghost var s, before := buf.Contents(), output;
      hide *;
      var checksum := 0;
      PutChar(DOLLAR);
      SentNone(s);
      var count := 0;
      while count < buf.len
        invariant 0 <= count <= buf.len
        invariant checksum == CheckOf(s, count) && output == before + Sent(s, count)
      {
        SentNext(s, count);
        Associates(before, Sent(s, count), EscapeByte(s[count]));
        checksum := PutEscaped(buf.data[count], checksum);
        assert buf.data[count] == s[count];
        count := count + 1;
      }
      PutEnd(checksum);
      SentAll(s);
      Associates(before, Sent(s, count), Tail(checksum));
    }

    /** `put_packet`: the packet is sent until it is acknowledged or the connection ends. */
    method PutPacket(buf: Buffer)
      requires buf.Valid()
      modifies this
      ensures output == old(output) + Repeat(Encode(buf.Contents()), Transmissions(old(input)))
      ensures input == Unanswered(old(input))
    {
      hide Encode;
      ghost var sent := 0;
      ghost var e := Encode(buf.Contents());
      while true
        invariant output == old(output) + Repeat(e, sent)
        invariant Transmissions(old(input)) == sent + Transmissions(input)
        invariant Unanswered(old(input)) == Unanswered(input)
        decreases |input|
      {
        label L:
        Transmit(buf);
        assert output == old(output) + Repeat(e, sent + 1);
        var ch := GetChar();
        sent := sent + 1;
        if ch == -1 || ch == PLUS {
          return;
        }
      }
    }

    /** `get_packet` up to the start of a packet: the character that ends the wait. */
    method WaitForStart() returns (ch: int)
      modifies `input
      ensures input == FindStart(old(input)).rest
      ensures match FindStart(old(input)) case NoStart(_) => ch == -1
          case BreakAt(_) => ch == BREAK case StartAt(_) => ch == DOLLAR
    {
      ghost var before := input;
      ch := GetSigned();
      while ch != DOLLAR
        invariant before == [] ==> ch == -1 && input == []
        invariant before != [] ==> ch == (if before[0] == LOST then -1 else before[0]) && input == before[1..]
        invariant FindStart(old(input)) == FindStart(before)
        decreases |before|
      {
        if ch == -1 || ch == BREAK {
          return;
        }
        before := input;
        ch := GetSigned();
      }
    }

    /** `get_packet` from the start of a packet to its end: the last character read, and the checksum. */
    method ReadBody(buf: Buffer) returns (ch: int, checksum: byte)
      requires buf.Valid()
      modifies `input, buf`len, buf.data
      ensures buf.Valid() && input == ReadFrame(old(input), []).rest
      ensures match ReadFrame(old(input), [])
              case NoFrame(_) => ch == -1
              case Overrun(_) => ch != -1 && ch != HASH
              case Framed(body, _) => ch == HASH && buf.Contents() == body && checksum == Sum(body) % 256
    {
      checksum := 0;
      ch := DOLLAR;
      var count := 0;
      ghost var body: seq<byte> := [];
      while count < BUF_MAX - 1
        invariant buf.Valid() && count == |body| <= BUF_MAX - 1 && buf.data[..count] == body
        invariant checksum == Sum(body) % 256 && ch != HASH && ch != -1
        invariant ReadFrame(old(input), []) == ReadFrame(input, body)
        decreases |input|
      {
        ch := GetSigned();
        if ch == -1 {
          return;
        }
        if ch == DOLLAR {
          checksum, count, body := 0, 0, [];
          continue;
        }
        if ch == HASH {
          break;
        }
        SumNext(body, ch);
        checksum := (checksum + ch) % 256;
        buf.data[count] := ch;
        count, body := count + 1, body + [ch];
      }
      buf.data[count] := 0;
      buf.len := count;
    }

    /** The two digits of a transmitted checksum; -1 when the connection fails. */
    method ReadChecksum() returns (xmitcsum: int)
      modifies `input
      ensures var (sum, rest) := ReadDigits(old(input));
              input == rest && xmitcsum == if sum.None? then -1 else sum.value
    {
      var ch := GetSigned();
      if ch == -1 {
        return -1;
      }
      xmitcsum := 16 * Hex(ch);
      ch := GetSigned();
      if ch == -1 {
        return -1;
      }
      xmitcsum := xmitcsum + Hex(ch);
    }

    /** One turn of `get_packet`. */
    method Attempted(buf: Buffer) returns (ended: bool, found: bool)
      requires buf.Valid()
      modifies this, buf`len, buf.data
      ensures buf.Valid()
      ensures
        match Try(old(input))
        case Done(r) =>
          && ended && input == r.rest && output == old(output) + r.answers
          && (found <==> r.packet.Some?) && (found ==> buf.Contents() == r.packet.value)
        case Again(answer, rest) => !ended && input == rest && output == old(output) + answer
    {
      hide FindStart, ReadFrame, ReadDigits, Sum;
      var ch := WaitForStart();
      if ch == -1 {
        return true, false;
      }
      if ch == BREAK {
        buf.data[0] := BREAK;
        buf.len := 1;
        return true, true;
      }
      var checksum;
      ch, checksum := ReadBody(buf);
      if ch == -1 {
        return true, false;
      }
      if ch == HASH {
        var xmitcsum := ReadChecksum();
        if xmitcsum == -1 {
          return true, false;
        }
        if checksum != xmitcsum {
          PutChar(MINUS);
        } else {
          PutChar(PLUS);
          return true, true;
        }
      }
      return false, false;
    }

    /** `get_packet`: packets are read until one has a valid checksum. */
    method GetPacket(buf: Buffer) returns (found: bool)
      requires buf.Valid()
      modifies this, buf`len, buf.data
      ensures var r := Receive(old(input));
              && buf.Valid() && input == r.rest && output == old(output) + r.answers
              && (found <==> r.packet.Some?) && (found ==> buf.Contents() == r.packet.value)
    {
      hide Try;
      ghost var sent: seq<byte> := [];
      while true
        invariant buf.Valid() && output == old(output) + sent
        invariant Receive(old(input)) == Receive(input).After(sent)
        decreases |input|
      {
        label L:
        var ended;
        ended, found := Attempted(buf);
        if ended {
          return;
        }
        ghost var answer := Try(old@L(input)).answer;
        Associates(old(output), sent, answer);
        Associates(sent, answer, Receive(input).answers);
        sent := sent + answer;
      }
    }
  }

  lemma EscapeNext(s: seq<byte>, k: nat)
    requires k < |s|
    ensures Escape(s[..k + 1]) == Escape(s[..k]) + EscapeByte(s[k])
  {
    hide EscapeByte;
    assert s[..k + 1][..k] == s[..k];
  }

  /** What follows a packet's body. */
  function Tail(c: byte): seq<byte> {
    [HASH, HexChar(c / 16), HexChar(c % 16)]
  }

  /** What was sent after k bytes of a body, and the checksum so far. */
  function Sent(s: seq<byte>, k: nat): seq<byte>
    requires k <= |s|
  {
    [DOLLAR] + Escape(s[..k])
  }

  function CheckOf(s: seq<byte>, k: nat): byte
    requires k <= |s|
  {
    Sum(Escape(s[..k])) % 256
  }

  lemma SentNone(s: seq<byte>)
    ensures Sent(s, 0) == [DOLLAR] && CheckOf(s, 0) == 0
  {
  }

  lemma SentNext(s: seq<byte>, k: nat)
    requires k < |s|
    ensures Sent(s, k + 1) == Sent(s, k) + EscapeByte(s[k])
    ensures CheckOf(s, k + 1) == (CheckOf(s, k) + Sum(EscapeByte(s[k]))) % 256
  {
    EscapeNext(s, k);
    var e, b := Escape(s[..k]), EscapeByte(s[k]);
    SumAppend(e, b);
    ModSum(Sum(e), Sum(b));
    Associates([DOLLAR], e, b);
    hide Escape, EscapeByte, Sum;
  }

  lemma ModSum(x: nat, y: nat)
    ensures (x + y) % 256 == (x % 256 + y) % 256
  {
  }

  lemma SentAll(s: seq<byte>)
    ensures Encode(s) == Sent(s, |s|) + Tail(CheckOf(s, |s|))
  {
    hide Escape, Sum, HexChar;
    assert s[..|s|] == s;
  }

  lemma SumNext(s: seq<byte>, c: byte)
    ensures Sum(s + [c]) % 256 == (Sum(s) % 256 + c) % 256
  {
    assert (s + [c])[..|s|] == s;
    ModSum(Sum(s), c);
  }

}
