/**
  What packets become over a connection: framing and its inverse, recovery from noise,
  broken and corrupted packets, and conversations of two ends.
 */
module RspFrames {
  import opened Basics
  import opened Rsp

  // ---------- waiting and reading ----------

  /** Bytes that a waiting reader ignores. */
  predicate Noise(s: seq<byte>) {
    forall k :: 0 <= k < |s| ==> s[k] != DOLLAR && s[k] != BREAK && s[k] != LOST
  }

  lemma {:induction false} NoiseIgnored(noise: seq<byte>, s: seq<byte>)
    requires Noise(noise)
    ensures FindStart(noise + s) == FindStart(s)
    decreases |noise|
  {
    if noise == [] {
      assert noise + s == s;
    } else {
      NoiseIgnored(noise[1..], s);
      assert (noise + s)[1..] == noise[1..] + s;
    }
  }

  /** A body without '$' and '#' is read up to the '#' after it. */
  lemma {:induction false} BodyRead(body: seq<byte>, s: seq<byte>, before: seq<byte>)
    requires Plain(body) && |before| + |body| < BUF_MAX - 1
    ensures ReadFrame(body + [HASH] + s, before) == Framed(before + body, s)
    decreases |body|
  {
    var t := body + [HASH] + s;
    if body == [] {
      assert t[0] == HASH && t[1..] == s;
      assert before + body == before;
    } else {
      assert t[0] == body[0] && t[1..] == body[1..] + [HASH] + s;
      BodyRead(body[1..], s, before + [body[0]]);
      assert before + body == before + [body[0]] + body[1..];
    }
  }

  /** Part of a packet that never ended: no '#', no loss. */
  predicate Broken(s: seq<byte>) {
    forall k :: 0 <= k < |s| ==> s[k] != HASH && s[k] != LOST
  }

  /** A new start makes the reader forget what it had read of a broken packet. */
  lemma {:induction false} StartForgets(part: seq<byte>, s: seq<byte>, before: seq<byte>)
    requires Broken(part) && |before| + |part| < BUF_MAX - 1
    ensures ReadFrame(part + [DOLLAR] + s, before) == ReadFrame(s, [])
    decreases |part|
  {
    var t := part + [DOLLAR] + s;
    if part == [] {
      assert t[0] == DOLLAR && t[1..] == s;
    } else {
      assert t[0] == part[0] && t[1..] == part[1..] + [DOLLAR] + s;
      StartForgets(part[1..], s, if part[0] == DOLLAR then [] else before + [part[0]]);
    }
  }

  lemma DigitsRead(c: byte, s: seq<byte>)
    ensures ReadDigits([HexChar(c / 16), HexChar(c % 16)] + s) == (Some(c as nat), s)
  {
    HexOfChar(c / 16);
    HexOfChar(c % 16);
    hide Hex, HexChar;
    var t := [HexChar(c / 16), HexChar(c % 16)] + s;
    assert t[2..] == s;
  }

  // ---------- one packet ----------

  /** A body whose packet fits the receiver's buffer and passes the reader. */
  predicate Sendable(body: seq<byte>) {
    LOST !in body && |Escape(body)| < BUF_MAX - 1
  }

  /** What a transmission is made of, from the reader's point of view. */
  lemma EncodeParts(body: seq<byte>, s: seq<byte>)
    ensures var e := Escape(body); var c := Sum(e) % 256;
            Encode(body) + s == [DOLLAR] + (e + [HASH] + ([HexChar(c / 16), HexChar(c % 16)] + s))
  {
    var e := Escape(body);
    Parts(e, HexChar(Sum(e) % 256 / 16), HexChar(Sum(e) % 256 % 16), s);
    hide Escape, Sum, HexChar;
  }

  lemma Parts(e: seq<byte>, h: byte, l: byte, s: seq<byte>)
    ensures [DOLLAR] + e + [HASH, h, l] + s == [DOLLAR] + (e + [HASH] + ([h, l] + s))
  {
  }

  lemma FrameReceived(body: seq<byte>, s: seq<byte>, t: seq<byte>)
    requires Sendable(body)
    requires FindStart(s).StartAt? && ReadFrame(FindStart(s).rest, []) == ReadFrame((Encode(body) + t)[1..], [])
    ensures Receive(s) == Received(Some(Escape(body)), [PLUS], t)
  {
    var e := Escape(body);
    var c := Sum(e) % 256;
    var u := [HexChar(c / 16), HexChar(c % 16)] + t;
    EscapedIsPlain(body);
    EncodeParts(body, t);
    assert (Encode(body) + t)[1..] == e + [HASH] + u;
    BodyRead(e, u, []);
    assert [] + e == e;
    DigitsRead(c, t);
    hide FindStart, ReadFrame, ReadDigits, Escape, Sum, Encode, HexChar;
  }

  /** The round trip: noise, then a packet; the receiver gets the escaped body, and from it the body. */
  lemma PacketReceived(noise: seq<byte>, body: seq<byte>, t: seq<byte>, after: byte)
    requires Noise(noise) && Sendable(body)
    ensures Receive(noise + Encode(body) + t) == Received(Some(Escape(body)), [PLUS], t)
    ensures Unescape(Escape(body), after) == body
  {
    UnescapeEscape(body, after);
    var p := Encode(body) + t;
    assert noise + Encode(body) + t == noise + p;
    NoiseIgnored(noise, p);
    assert p[0] == DOLLAR;
    hide Escape, ReadFrame, Encode, Noise;
    FrameReceived(body, noise + p, t);
  }

  /** Recovery: after noise and a packet that broke off, the next packet is received all the same. */
  lemma BrokenPacketSkipped(noise: seq<byte>, part: seq<byte>, body: seq<byte>, t: seq<byte>)
    requires Noise(noise) && Broken(part) && |part| < BUF_MAX - 1 && Sendable(body)
    ensures Receive(noise + [DOLLAR] + part + Encode(body) + t) == Received(Some(Escape(body)), [PLUS], t)
  {
    var p := Encode(body) + t;
    assert p[0] == DOLLAR && p == [DOLLAR] + p[1..];
    var s := noise + [DOLLAR] + part + Encode(body) + t;
    assert s == noise + ([DOLLAR] + part + p);
    NoiseIgnored(noise, [DOLLAR] + part + p);
    assert ([DOLLAR] + part + p)[1..] == part + [DOLLAR] + p[1..];
    StartForgets(part, p[1..], []);
    hide Escape, ReadFrame, Encode, Noise, Broken;
    FrameReceived(body, s, t);
  }

  // ---------- what else ends an attempt ----------

  /** A break is received as such, without an answer. */
  lemma BreakReceived(noise: seq<byte>, t: seq<byte>)
    requires Noise(noise)
    ensures Receive(noise + ([BREAK] + t)) == Received(Some([BREAK]), [], t)
  {
    NoiseIgnored(noise, [BREAK] + t);
    assert ([BREAK] + t)[0] == BREAK && ([BREAK] + t)[1..] == t;
  }

  /** What comes before the end of the connection, or before the byte that reads like it. */
  lemma {:induction false} PartRead(part: seq<byte>, s: seq<byte>, before: seq<byte>)
    requires Plain(part) && |before| + |part| < BUF_MAX - 1
    ensures ReadFrame(part, before) == NoFrame([])
    ensures ReadFrame(part + ([LOST] + s), before) == NoFrame(s)
    decreases |part|
  {
    var t := part + ([LOST] + s);
    if part == [] {
      assert t[0] == LOST && t[1..] == s;
    } else {
      assert t[0] == part[0] && t[1..] == part[1..] + ([LOST] + s);
      PartRead(part[1..], s, before + [part[0]]);
    }
  }

  /** A connection that ends in noise or in a packet yields nothing, and gets no answer. */
  lemma ConnectionLost(noise: seq<byte>, part: seq<byte>, t: seq<byte>)
    requires Noise(noise) && Plain(part) && |part| < BUF_MAX - 1
    ensures Receive(noise) == Received(None, [], [])
    ensures Receive(noise + ([LOST] + t)) == Received(None, [], t)
    ensures Receive(noise + ([DOLLAR] + part)) == Received(None, [], [])
    ensures Receive(noise + ([DOLLAR] + (part + ([LOST] + t)))) == Received(None, [], t)
  {
    NoiseIgnored(noise, []);
    assert noise + [] == noise;
    NoiseIgnored(noise, [LOST] + t);
    assert ([LOST] + t)[0] == LOST && ([LOST] + t)[1..] == t;
    var more := part + ([LOST] + t);
    NoiseIgnored(noise, [DOLLAR] + part);
    NoiseIgnored(noise, [DOLLAR] + more);
    assert ([DOLLAR] + part)[1..] == part && ([DOLLAR] + more)[1..] == more;
    PartRead(part, t, []);
    hide ReadFrame, ReadDigits, Noise;
  }

  lemma {:induction false} LongRead(body: seq<byte>, s: seq<byte>, before: seq<byte>)
    requires Plain(body) && |before| + |body| == BUF_MAX - 1
    ensures ReadFrame(body + s, before) == Overrun(s)
    decreases |body|
  {
    var t := body + s;
    if body == [] {
      assert t == s;
    } else {
      assert t[0] == body[0] && t[1..] == body[1..] + s;
      LongRead(body[1..], s, before + [body[0]]);
    }
  }

  /** A packet that fills the buffer is given up without an answer, and reading goes on where it was given up. */
  lemma OverrunSilent(noise: seq<byte>, body: seq<byte>, t: seq<byte>)
    requires Noise(noise) && Plain(body) && |body| == BUF_MAX - 1
    ensures Receive(noise + ([DOLLAR] + (body + t))) == Receive(t)
  {
    NoiseIgnored(noise, [DOLLAR] + (body + t));
    assert ([DOLLAR] + (body + t))[1..] == body + t;
    LongRead(body, t, []);
    hide ReadFrame, ReadDigits, Noise;
    assert [] + Receive(t).answers == Receive(t).answers;
  }

  // ---------- conversations ----------

  /** A transmission that arrived with a checksum that does not belong to its body. */
  datatype Corrupt = Corrupt(body: seq<byte>, high: byte, low: byte)
  {
    predicate Valid() {
      && Plain(body) && |body| < BUF_MAX - 1 && high != LOST && low != LOST
      && Sum(body) % 256 != 16 * Hex(high) + Hex(low)
    }

    function Bytes(): seq<byte> {
      [DOLLAR] + body + [HASH, high, low]
    }
  }

  /** A corrupted packet is refused, and reading goes on behind it. */
  lemma CorruptRefused(x: Corrupt, t: seq<byte>)
    requires x.Valid()
    ensures Receive(x.Bytes() + t) == Receive(t).After([MINUS])
  {
    hide ReadFrame, Sum, Hex, Plain;
    var u := [x.high, x.low] + t;
    Parts(x.body, x.high, x.low, t);
    var s := x.Bytes() + t;
    assert s[0] == DOLLAR && s[1..] == x.body + [HASH] + u;
    BodyRead(x.body, u, []);
    assert [] + x.body == x.body;
    assert u[2..] == t;
  }

  predicate AllValid(xs: seq<Corrupt>) {
    forall k :: 0 <= k < |xs| ==> xs[k].Valid()
  }

  /** The bytes of corrupted packets, one after the other. */
  function BytesOf(xs: seq<Corrupt>): seq<byte> {
    if xs == [] then [] else xs[0].Bytes() + BytesOf(xs[1..])
  }

  /** n refusals, then '+'. */
  function Answers(n: nat): seq<byte> {
    if n == 0 then [PLUS] else [MINUS] + Answers(n - 1)
  }

  lemma {:induction false} AnswersCount(n: nat)
    ensures Transmissions(Answers(n)) == n + 1 && Unanswered(Answers(n)) == []
  {
    if n > 0 {
      AnswersCount(n - 1);
      assert Answers(n)[1..] == Answers(n - 1);
    }
  }

  /**
    A packet that is corrupted any number of times before it arrives: each time it is refused,
    then it is received; and these answers make the sender transmit exactly that often.
   */
  lemma {:induction false} Conversation(xs: seq<Corrupt>, body: seq<byte>, t: seq<byte>)
    requires AllValid(xs) && Sendable(body)
    ensures Receive(BytesOf(xs) + (Encode(body) + t)) == Received(Some(Escape(body)), Answers(|xs|), t)
    ensures Transmissions(Answers(|xs|)) == |xs| + 1 && Unanswered(Answers(|xs|)) == []
    decreases |xs|
  {
    hide Receive, Escape, Encode, Sendable, Transmissions, Unanswered;
    AnswersCount(|xs|);
    var p := Encode(body) + t;
    if xs == [] {
      assert BytesOf(xs) + p == [] + Encode(body) + t;
      PacketReceived([], body, t, 0);
    } else {
      var rest := BytesOf(xs[1..]) + p;
      assert BytesOf(xs) + p == xs[0].Bytes() + rest;
      CorruptRefused(xs[0], rest);
      Conversation(xs[1..], body, t);
      hide BytesOf;
    }
  }

  // ---------- soundness ----------

  /** A complete packet with a valid checksum. */
  ghost predicate Certified(p: seq<byte>, h: byte, l: byte) {
    Plain(p) && |p| < BUF_MAX - 1 && Sum(p) % 256 == 16 * Hex(h) + Hex(l)
  }

  lemma {:induction false} StartLies(s: seq<byte>) returns (pre: seq<byte>)
    ensures match FindStart(s)
            case NoStart(_) => true
            case StartAt(rest) => s == pre + ([DOLLAR] + rest)
            case BreakAt(rest) => s == pre + ([BREAK] + rest)
    decreases |s|
  {
    pre := [];
    if s != [] && s[0] != LOST && s[0] != DOLLAR && s[0] != BREAK {
      var q := StartLies(s[1..]);
      pre := [s[0]] + q;
      assert s == [s[0]] + s[1..];
    }
  }

  /** A body between its start and '#', and what follows. */
  function Enclosed(p: seq<byte>, u: seq<byte>): seq<byte> {
    [DOLLAR] + p + [HASH] + u
  }

  /** The body that was read is in the input, between a start and '#'. */
  lemma {:induction false} FrameLies(s: seq<byte>, before: seq<byte>) returns (pre: seq<byte>)
    requires Plain(before)
    ensures var f := ReadFrame(s, before);
            f.Framed? ==> (Plain(f.body) && |f.body| < BUF_MAX - 1 &&
              [DOLLAR] + before + s == pre + Enclosed(f.body, f.rest))
    decreases |s|
  {
    pre := [];
    if |before| < BUF_MAX - 1 && s != [] && s[0] != LOST {
      var c, t := s[0], s[1..];
      assert s == [c] + t;
      if c == DOLLAR {
        pre := FrameLies(t, []);
        hide Plain, Enclosed;
        assert [DOLLAR] + [] == [c];
        var f := ReadFrame(t, []);
        if f.Framed? {
          Associates([DOLLAR] + before, pre, Enclosed(f.body, f.rest));
        }
        pre := [DOLLAR] + before + pre;
      } else if c == HASH {
        Associates([DOLLAR] + before, [c], t);
      } else {
        pre := FrameLies(t, before + [c]);
        hide Plain, Enclosed;
        Associates([DOLLAR] + before, [c], t);
        Associates([DOLLAR], before, [c]);
      }
    }
  }

  predicate EndsWith(s: seq<byte>, t: seq<byte>) {
    |t| <= |s| && s[|s| - |t|..] == t
  }

  lemma EndsTransitive(s: seq<byte>, t: seq<byte>, u: seq<byte>)
    requires EndsWith(s, t) && EndsWith(t, u)
    ensures EndsWith(s, u)
  {
    assert s[|s| - |u|..] == s[|s| - |t|..][|t| - |u|..];
  }

  lemma {:induction false} StartEnds(s: seq<byte>)
    ensures EndsWith(s, FindStart(s).rest)
    decreases |s|
  {
    if s != [] {
      assert EndsWith(s, s[1..]);
      StartEnds(s[1..]);
      EndsTransitive(s, s[1..], FindStart(s[1..]).rest);
    }
  }

  lemma {:induction false} FrameEnds(s: seq<byte>, before: seq<byte>)
    ensures EndsWith(s, ReadFrame(s, before).rest)
    decreases |s|
  {
    if s != [] && |before| < BUF_MAX - 1 {
      assert EndsWith(s, s[1..]);
      var more := if s[0] == DOLLAR then [] else before + [s[0]];
      FrameEnds(s[1..], more);
      EndsTransitive(s, s[1..], ReadFrame(s[1..], more).rest);
    }
  }

  /** The rest of a connection after a packet, its digits included. */
  lemma DigitsEnd(s: seq<byte>)
    ensures EndsWith(s, ReadDigits(s).1)
    ensures ReadDigits(s).0.Some? ==> s == [s[0], s[1]] + ReadDigits(s).1
  {
  }

  /** A packet, its checksum and what follows. */
  function Packet(p: seq<byte>, h: byte, l: byte, t: seq<byte>): seq<byte> {
    Enclosed(p, [h, l] + t)
  }

  /** A certified packet or a break stands in the input after `pre`. */
  ghost predicate StandsIn(s: seq<byte>, pre: seq<byte>, p: seq<byte>, h: byte, l: byte, t: seq<byte>) {
    || (Certified(p, h, l) && s == pre + Packet(p, h, l, t))
    || (p == [BREAK] && s == pre + ([BREAK] + t))
  }

  lemma Extended(s: seq<byte>, u: seq<byte>, pre: seq<byte>, p: seq<byte>, h: byte, l: byte, t: seq<byte>)
    requires EndsWith(s, u) && StandsIn(u, pre, p, h, l, t)
    ensures StandsIn(s, s[..|s| - |u|] + pre, p, h, l, t)
  {
    hide Certified, Packet;
    assert s == s[..|s| - |u|] + u;
    Associates(s[..|s| - |u|], pre, Packet(p, h, l, t));
    Associates(s[..|s| - |u|], pre, [BREAK] + t);
  }

  lemma FrameStands(s: seq<byte>, lead: seq<byte>, t: seq<byte>, inner: seq<byte>, p: seq<byte>, u: seq<byte>)
    requires s == lead + ([DOLLAR] + t) && [DOLLAR] + [] + t == inner + Enclosed(p, u)
    requires ReadDigits(u).0 == Some(Sum(p) % 256) && Plain(p) && |p| < BUF_MAX - 1
    ensures StandsIn(s, lead + inner, p, u[0], u[1], ReadDigits(u).1)
  {
    DigitsEnd(u);
    assert Certified(p, u[0], u[1]);
    hide Sum, Hex, Plain, Enclosed, ReadDigits, Certified;
    assert [DOLLAR] + [] == [DOLLAR];
    Associates(lead, inner, Enclosed(p, u));
  }

  /** Where reading goes on when the first thing found is no good packet. */
  function Later(s: seq<byte>): (u: seq<byte>)
    ensures |u| <= |s| && (FindStart(s).StartAt? ==> |u| < |s|)
  {
    var f := ReadFrame(FindStart(s).rest, []);
    if f.Framed? then ReadDigits(f.rest).1 else f.rest
  }

  lemma LaterEnds(s: seq<byte>)
    ensures EndsWith(s, Later(s))
  {
    var t := FindStart(s).rest;
    var f := ReadFrame(t, []);
    StartEnds(s);
    FrameEnds(t, []);
    DigitsEnd(f.rest);
    hide EndsWith, FindStart, ReadFrame, ReadDigits;
    EndsTransitive(s, t, f.rest);
    EndsTransitive(s, f.rest, ReadDigits(f.rest).1);
  }

  /** The cases of receiving. */
  lemma ReceiveCases(s: seq<byte>)
    ensures var st := FindStart(s); var f := ReadFrame(st.rest, []); var r := Receive(s);
            && (st.BreakAt? ==> r == Received(Some([BREAK]), [], st.rest))
            && (st.StartAt? && f.Framed? && ReadDigits(f.rest).0 == Some(Sum(f.body) % 256)
                ==> r == Received(Some(f.body), [PLUS], Later(s)))
            && (st.StartAt? && !(f.Framed? && ReadDigits(f.rest).0 == Some(Sum(f.body) % 256)) && r.packet.Some?
                ==> r.packet == Receive(Later(s)).packet && r.rest == Receive(Later(s)).rest)
            && (st.NoStart? ==> r.packet.None?)
  {
    hide FindStart, ReadFrame, ReadDigits, Sum;
  }

  /**
    Nothing but a complete packet with a valid checksum is ever received: it stands in the
    input, and reading goes on right behind it.  The only other result is a break.
   */
  lemma {:induction false} ReceivedIsCertified(s: seq<byte>) returns (pre: seq<byte>, h: byte, l: byte)
    requires Receive(s).packet.Some?
    ensures StandsIn(s, pre, Receive(s).packet.value, h, l, Receive(s).rest)
    decreases |s|
  {
    h, l := 0, 0;
    pre := StartLies(s);
    ReceiveCases(s);
    var st := FindStart(s);
    var inner := FrameLies(st.rest, []);
    var f := ReadFrame(st.rest, []);
    if st.BreakAt? {
      assert StandsIn(s, pre, [BREAK], h, l, st.rest);
    } else if f.Framed? && ReadDigits(f.rest).0 == Some(Sum(f.body) % 256) {
      FrameStands(s, pre, st.rest, inner, f.body, f.rest);
      pre, h, l := pre + inner, f.rest[0], f.rest[1];
    } else {
      var u := Later(s);
      LaterEnds(s);
      pre, h, l := ReceivedIsCertified(u);
      Extended(s, u, pre, Receive(u).packet.value, h, l, Receive(u).rest);
      pre := s[..|s| - |u|] + pre;
    }
    hide *;
  }

  lemma {:induction false} LostStays(body: seq<byte>)
    requires LOST in body
    ensures LOST in Escape(body)
    decreases |body|
  {
    var n := |body| - 1;
    var front, last := body[..n], body[n];
    assert Escape(body) == Escape(front) + EscapeByte(last);
    if last == LOST {
      assert EscapeByte(last)[0] == LOST;
    } else {
      LostStays(front);
    }
  }

  /**
    A packet that is transmitted once is received exactly when it holds no byte 0xFF
    and, escaped, is shorter than the buffer by more than one byte.
   */
  lemma ReceivedIff(body: seq<byte>, t: seq<byte>)
    ensures Receive(Encode(body) + t).packet == Some(Escape(body)) <==> Sendable(body)
  {
    hide Receive, Encode, Escape, Sum, Packet, Hex;
    var s := Encode(body) + t;
    if Sendable(body) {
      PacketReceived([], body, t, 0);
      assert [] + Encode(body) + t == s;
    }
    if Receive(s).packet == Some(Escape(body)) {
      var pre, h, l := ReceivedIsCertified(s);
      PlainSendable(body);
    }
  }

  /** An escaped body that a receiver can have got comes from one that can be sent. */
  lemma PlainSendable(body: seq<byte>)
    requires (Plain(Escape(body)) && |Escape(body)| < BUF_MAX - 1) || Escape(body) == [BREAK]
    ensures Sendable(body)
  {
    hide Escape;
    if LOST in body {
      LostStays(body);
      assert false;
    }
  }
}
