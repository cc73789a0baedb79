/**
  Which lines the reader of Intel HEX records accepts, and what it refuses
  (src/msim_ihex.c, `MSIM_IHEX_ReadRec`).
 */
module IHexLines {
  import opened Arithmetic
  import opened Basics
  import opened IHex

  // ---------- digits and bytes ----------

  lemma DigitBelow(c: char)
    ensures DigitOf(c) < 16
  {
  }

  /** The bytes that hexadecimal digits stand for, two digits each. */
  function BytesOf(t: string): (b: seq<byte>)
    requires AllHex(t)
    ensures |b| == |t| / 2
  {
    seq(|t| / 2, k requires 0 <= k < |t| / 2 =>
      DigitBelow(t[2 * k]);
      DigitBelow(t[2 * k + 1]);
      16 * DigitOf(t[2 * k]) + DigitOf(t[2 * k + 1]))
  }

  /** Digits alone have no space, sign or prefix in front of them. */
  lemma DigitsRead(h: string)
    requires h != "" && AllHex(h)
    ensures Strtol(h) == ParseDigits(h, 0)
  {
    assert DigitOf(h[0]) >= 0 && (|h| > 1 ==> DigitOf(h[1]) >= 0);
    hide ParseDigits;
  }

  /** One more digit. */
  lemma NextDigit(h: string, n: nat)
    requires AllHex(h) && 0 < n < |h|
    ensures AllHex(h[..n]) && ParseDigits(h[..n + 1], 0) == 16 * ParseDigits(h[..n], 0) + DigitOf(h[n])
  {
    ParseAppend(h[..n], h[n], 0);
    hide ParseDigits;
    assert h[..n + 1] == h[..n] + [h[n]];
  }

  lemma PairRead(h: string)
    requires |h| == 2 && AllHex(h)
    ensures Strtol(h) == 16 * DigitOf(h[0]) + DigitOf(h[1])
  {
    hide ParseDigits, Strtol, DigitOf;
    DigitsRead(h);
    NextDigit(h, 1);
    ParseDigit(h[0]);
    assert h[..1] == [h[0]] && h[..2] == h;
  }

  lemma FourRead(h: string)
    requires |h| == 4 && AllHex(h)
    ensures Strtol(h) == 256 * Strtol(h[..2]) + Strtol(h[2..])
  {
    hide ParseDigits, Strtol, DigitOf;
    PairRead(h[2..]);
    DigitsRead(h);
    DigitsRead(h[..2]);
    NextDigit(h, 2);
    NextDigit(h, 3);
    assert h[..4] == h;
  }

  lemma {:induction false} BytesAreRead(t: string)
    requires AllHex(t) && |t| % 2 == 0
    ensures ReadBytes(t) == BytesOf(t)
    decreases |t|
  {
    hide Strtol, DigitOf;
    if t != "" {
      var n := |t| - 2;
      BytesAreRead(t[..n]);
      LastByte(t);
      ReadBytesAppend(t[..n], t[n..]);
      hide BytesOf, ReadBytes, AllHex;
      assert t[..n] + t[n..] == t;
    }
  }

  lemma LastByte(t: string)
    requires AllHex(t) && |t| % 2 == 0 && t != ""
    ensures var n := |t| - 2;
            AllHex(t[..n]) && AllHex(t[n..]) && BytesOf(t) == BytesOf(t[..n]) + [Strtol(t[n..]) % 256]
  {
    hide DigitOf, Strtol;
    var n := |t| - 2;
    PairRead(t[n..]);
    DigitBelow(t[n]);
    DigitBelow(t[n + 1]);
    assert BytesOf(t)[n / 2] == Strtol(t[n..]);
  }

  lemma BytesOfSlice(t: string, i: nat, j: nat)
    requires AllHex(t) && i <= j <= |t| / 2
    ensures AllHex(t[2 * i..2 * j]) && BytesOf(t[2 * i..2 * j]) == BytesOf(t)[i..j]
  {
  }

  /** The byte at digit 2 * i. */
  lemma ByteRead(t: string, i: nat)
    requires AllHex(t) && i < |t| / 2
    ensures Strtol(t[2 * i..2 * i + 2]) == BytesOf(t)[i]
  {
    PairRead(t[2 * i..2 * i + 2]);
  }

  /** The address in the bytes of a line, high byte first. */
  function Address(b: seq<byte>): nat
    requires |b| >= 3
  {
    var high: nat, low: nat := b[1], b[2];
    256 * high + low
  }

  lemma AddressRead(t: string)
    requires AllHex(t) && |t| >= 6
    ensures Strtol(t[2..6]) == Address(BytesOf(t))
  {
    ByteRead(t, 1);
    ByteRead(t, 2);
    FourRead(t[2..6]);
    hide Strtol;
    assert t[2..6][..2] == t[2..4] && t[2..6][2..] == t[4..6];
  }

  // ---------- numbers as strtol reads them ----------

  predicate AllSpace(s: string) {
    forall k :: 0 <= k < |s| ==> s[k] == ' ' || 9 <= s[k] as int <= 13
  }

  /** What ends a number: the end of the text or a character that is no digit. */
  predicate NoDigit(rest: string) {
    rest == "" || DigitOf(rest[0]) < 0
  }

  lemma {:induction false} DigitsEnd(h: string, rest: string, acc: nat)
    requires AllHex(h) && NoDigit(rest)
    ensures ParseDigits(h + rest, acc) == ParseDigits(h, acc)
    decreases |h|
  {
    if h == "" {
      assert h + rest == rest;
    } else {
      assert (h + rest)[1..] == h[1..] + rest;
      DigitsEnd(h[1..], rest, 16 * acc + DigitOf(h[0]));
    }
  }

  lemma {:induction false} SpaceSkipped(space: string, s: string)
    requires AllSpace(space)
    ensures Strtol(space + s) == Strtol(s)
    decreases |space|
  {
    if space == "" {
      assert space + s == s;
    } else {
      assert (space + s)[1..] == space[1..] + s;
      SpaceSkipped(space[1..], s);
      assert IsSpace(space[0]);
    }
  }

  /** White space in front is skipped; then come a sign, a prefix and digits, and what follows them does not matter. */
  lemma NumberRead(space: string, sign: string, prefix: string, h: string, rest: string)
    requires AllSpace(space) && (sign == "" || sign == "+" || sign == "-")
    requires prefix == "" || prefix == "0x" || prefix == "0X"
    requires h != "" && AllHex(h) && NoDigit(rest) && (prefix == "" && h == "0" ==> rest == "")
    ensures
      var v: int := ParseDigits(h, 0);
      Strtol(space + (sign + (prefix + (h + rest)))) == if sign == "-" then -v else v
  {
    hide ParseDigits;
    var t := h + rest;
    var u := prefix + t;
    DigitsEnd(h, rest, 0);
    SpaceSkipped(space, sign + u);
    PrefixRead(prefix, h, rest);
    assert DigitOf(h[0]) >= 0 && t[0] == h[0];
    if sign == "" {
      assert sign + u == u;
    } else {
      assert (sign + u)[1..] == u;
    }
  }

  lemma PrefixRead(prefix: string, h: string, rest: string)
    requires prefix == "" || prefix == "0x" || prefix == "0X"
    requires h != "" && AllHex(h) && NoDigit(rest) && (prefix == "" && h == "0" ==> rest == "")
    ensures Unsigned(prefix + (h + rest)) == ParseDigits(h, 0)
  {
    hide ParseDigits;
    var t := h + rest;
    DigitsEnd(h, rest, 0);
    if prefix == "" {
      assert prefix + t == t;
      if |h| > 1 {
        assert DigitOf(h[1]) >= 0 && t[1] == h[1];
      }
    } else {
      assert (prefix + t)[2..] == t && t[0] == h[0];
    }
  }

  /** A line whose count is negative is not accepted. */
  lemma NegativeRefused(line: string, r0: Record)
    requires |line| >= 9 && Strtol(line[1..3]) < 0 && Strtol(line[1..3]) + WORD > MAX_DATA
    ensures ReadLine(line, r0).0 == InvalidRecord || ReadLine(line, r0).0 == Overrun
  {
    hide Strtol, ReadBytes, Checksum;
    var n := Strtol(line[1..3]);
    DivModUnique(n, WORD, -1, n + WORD);
  }

  // ---------- the lines that are accepted ----------

  /** A checksum makes the bytes of a line sum to zero, and only the right one does. */
  lemma ChecksumIff(n: nat, h: byte, l: byte, kind: nat, data: seq<byte>, c: byte)
    requires n == |data|
    ensures c == Checksum(kind, 256 * h + l, data) <==> (n + h + l + kind + Sum(data) + c) % 256 == 0
  {
    var address: nat := 256 * h + l;
    assert address / 256 == h;
    var sum := n + kind + address + h + Sum(data);
    var q, r := DivMod(-sum, 256);
    if c == r {
      DivModUnique(n + h + l + kind + Sum(data) + c, 256, -q - h, 0);
    }
    var p, z := DivMod(n + h + l + kind + Sum(data) + c, 256);
    if z == 0 {
      DivModUnique(-sum, 256, -p - h, c);
    }
  }

  /** The bytes of a line add up field by field. */
  lemma SumOfLine(b: seq<byte>, n: nat)
    requires |b| >= 5 + n
    ensures Sum(b[..5 + n]) == b[0] + b[1] + b[2] + b[3] + Sum(b[4..4 + n]) + b[4 + n]
  {
    assert b[..5 + n] == b[..4 + n] + [b[4 + n]];
    assert b[..4 + n] == b[..4] + b[4..4 + n];
    SumAppend(b[..4], b[4..4 + n]);
    SumNext(b[..4 + n], b[4 + n]);
    SumNext(b[..0], b[0]);
    SumNext(b[..1], b[1]);
    SumNext(b[..2], b[2]);
    SumNext(b[..3], b[3]);
    assert b[..1] == b[..0] + [b[0]] && b[..2] == b[..1] + [b[1]];
    assert b[..3] == b[..2] + [b[2]] && b[..4] == b[..3] + [b[3]];
  }

  lemma SumNext(s: seq<byte>, b: byte)
    ensures Sum(s + [b]) == Sum(s) + b
    ensures s == [] ==> Sum(s) == 0
  {
    assert (s + [b])[..|s|] == s;
  }

  /** The digits behind the colon are all there. */
  predicate Whole(t: string) {
    AllHex(t) && |t| >= 10 && var n: nat := BytesOf(t)[0]; |t| >= 10 + 2 * n
  }

  /**
    A line of digits that is as long as its count asks for is accepted if and only if its bytes,
    the checksum included, sum to zero; either way the record holds the fields at their places.
   */
  lemma AcceptedIff(t: string, r0: Record)
    requires Whole(t)
    ensures
      var b := BytesOf(t);
      var n: nat := b[0];
      var (code, r) := ReadLine(":" + t, r0);
      && code == (if Sum(b[..5 + n]) % 256 == 0 then Ok else InvalidRecord)
      && r.len == n && r.address == Address(b) && r.kind == b[3]
      && r.Data() == b[4..4 + n] && r.checksum == b[4 + n]
  {
    hide Strtol, ReadBytes, Checksum, AllHex, Sum, DigitOf;
    var b, line := BytesOf(t), ":" + t;
    var n: nat := b[0];
    FieldsRead(t);
    ChecksumIff(n, b[1], b[2], b[3], b[4..4 + n], b[4 + n]);
    SumOfLine(b, n);
    ColonSlices(t, n);
    ReadFields(line, n, Address(b), b[3], b[4..4 + n], b[4 + n], r0);
    hide BytesOf, ReadLine;
  }

  lemma ColonSlices(t: string, n: nat)
    requires |t| >= 10 + 2 * n
    ensures
      var line := ":" + t;
      && line[0] == ':' && line[1..3] == t[0..2] && line[3..7] == t[2..6] && line[7..9] == t[6..8]
      && line[9..9 + 2 * n] == t[8..8 + 2 * n] && line[9 + 2 * n..11 + 2 * n] == t[8 + 2 * n..10 + 2 * n]
  {
  }

  /** What the reader makes of the fields it finds. */
  lemma ReadFields(line: string, n: byte, address: nat, kind: byte, data: seq<byte>, c: byte, r0: Record)
    requires address < 0x1_0000 && |line| >= 11 + 2 * (n as nat) && line[0] == ':' && |data| == n
    requires Strtol(line[1..3]) == n && Strtol(line[3..7]) == address && Strtol(line[7..9]) == kind
    requires var m: nat := n;
             ReadBytes(line[9..9 + 2 * m]) == data && Strtol(line[9 + 2 * m..11 + 2 * m]) == c
    ensures
      var (code, r) := ReadLine(line, r0);
      && code == (if c == Checksum(kind, address, data) then Ok else InvalidRecord)
      && r.len == n && r.address == address && r.kind == kind && r.Data() == data && r.checksum == c
  {
    hide Strtol, ReadBytes, Checksum;
  }

  lemma FieldsRead(t: string)
    requires Whole(t)
    ensures
      var b := BytesOf(t);
      var n: nat := b[0];
      && Strtol(t[0..2]) == n && Strtol(t[2..6]) == Address(b) && Strtol(t[6..8]) == b[3]
      && ReadBytes(t[8..8 + 2 * n]) == b[4..4 + n] && Strtol(t[8 + 2 * n..10 + 2 * n]) == b[4 + n]
  {
    hide Strtol, ReadBytes, DigitOf;
    var b := BytesOf(t);
    var n: nat := b[0];
    ByteRead(t, 0);
    AddressRead(t);
    ByteRead(t, 3);
    ByteRead(t, 4 + n);
    BytesOfSlice(t, 4, 4 + n);
    BytesAreRead(t[8..8 + 2 * n]);
  }

  // ---------- lines in files ----------

  /** A line as fgets and the search for its end leave it. */
  predicate Unbroken(s: string) {
    '\0' !in s && '\r' !in s && '\n' !in s && |s| + 2 <= LINE_MAX
  }

  lemma {:induction false} CutUnbroken(s: string, rest: string)
    requires '\0' !in s && '\r' !in s && '\n' !in s
    ensures Cut(s + "\r" + rest) == s
    decreases |s|
  {
    var t := s + "\r" + rest;
    if s != "" {
      CutUnbroken(s[1..], rest);
      assert t[1..] == s[1..] + "\r" + rest;
    }
  }

  /** The first line of a file is read on its own. */
  lemma LineInFile(s: string, rest: string, r0: Record)
    requires Unbroken(s)
    ensures
      var (code, r) := ReadLine(s, r0);
      Read(s + "\r\n" + rest, r0) == Reading(code, r, rest)
  {
    hide LineLength, Cut, ReadLine;
    var file := s + "\r\n" + rest;
    LineFound(s + "\r", rest, LINE_MAX);
    CutUnbroken(s, "\n");
    assert file == s + "\r" + "\n" + rest;
    assert file[..|s| + 2] == s + "\r" + "\n";
  }

  lemma DigitsUnbroken(t: string)
    requires AllHex(t) && |t| + 3 <= LINE_MAX
    ensures Unbroken(":" + t)
  {
  }

  /** In a file: accepted if and only if the bytes sum to zero. */
  lemma LineAcceptedIff(t: string, rest: string, r0: Record)
    requires Whole(t) && |t| + 3 <= LINE_MAX
    ensures
      var x := Read(":" + t + "\r\n" + rest, r0);
      && x.rest == rest
      && x.code == if Sum(BytesOf(t)[..5 + BytesOf(t)[0] as nat]) % 256 == 0 then Ok else InvalidRecord
  {
    hide Sum, Read, ReadLine, BytesOf;
    AcceptedIff(t, r0);
    DigitsUnbroken(t);
    LineInFile(":" + t, rest, r0);
  }

  /** The other lines that are refused: empty, short, without a colon, and shorter than their count asks for. */
  lemma Refused(s: string, rest: string, r0: Record)
    requires Unbroken(s)
    ensures s == "" ==> Read(s + "\r\n" + rest, r0).code == Newline
    ensures s != "" && (|s| < 9 || s[0] != ':') ==> Read(s + "\r\n" + rest, r0).code == InvalidRecord
    ensures |s| >= 9 && s[0] == ':' && AllHex(s[1..]) && !Whole(s[1..]) ==>
      Read(s + "\r\n" + rest, r0).code == InvalidRecord
  {
    hide Read, Strtol, DigitOf, ReadBytes, ReadLine, Whole;
    LineInFile(s, rest, r0);
    if s == "" || |s| < 9 || s[0] != ':' {
      ShortRefused(s, r0);
    } else if AllHex(s[1..]) && !Whole(s[1..]) {
      IncompleteRefused(s, r0);
    }
  }

  lemma ShortRefused(s: string, r0: Record)
    requires s == "" || |s| < 9 || s[0] != ':'
    ensures ReadLine(s, r0).0 == if s == "" then Newline else InvalidRecord
  {
    hide Strtol, ReadBytes, Checksum;
  }

  lemma IncompleteRefused(s: string, r0: Record)
    requires |s| >= 9 && s[0] == ':' && AllHex(s[1..]) && !Whole(s[1..])
    ensures ReadLine(s, r0).0 == InvalidRecord
  {
    hide Strtol, DigitOf, ReadBytes, Checksum;
    ByteRead(s[1..], 0);
    assert s[1..][0..2] == s[1..3];
  }

  /** The end-of-file record as the standard gives it. */
  lemma EndText(r: Record)
    requires r.kind == 1 && r.address == 0 && r.len == 0
    ensures RecordText(r) == ":00000001FF\r\n"
  {
    hide Hex, HexBytes, Checksum;
    assert r.Data() == [];
    EndParts();
    NoHexBytes();
  }

  lemma EndParts()
    ensures Hex(0, 2) == "00" && Hex(0, 4) == "0000" && Hex(1, 2) == "01" && Hex(255, 2) == "FF"
    ensures Checksum(1, 0, []) == 255
  {
    HexLast(0, 3);
    HexLast(0, 2);
    HexLast(0, 1);
    HexLast(1, 1);
    HexLast(255, 1);
    assert Hex(0, 1) == "0" && Hex(15, 1) == "F";
    hide Hex;
  }

  // ---------- a byte that changed ----------

  lemma {:induction false} SumOfChanged(s: seq<byte>, k: nat, b: byte)
    requires k < |s|
    ensures Sum(s[k := b]) == Sum(s) - s[k] + b
    decreases |s|
  {
    var n := |s| - 1;
    if k < n {
      SumOfChanged(s[..n], k, b);
      assert s[k := b][..n] == s[..n][k := b];
    } else {
      assert s[k := b][..n] == s[..n];
    }
  }

  lemma BytesOfHex(x: seq<byte>)
    ensures AllHex(HexBytes(x)) && |HexBytes(x)| == 2 * |x| && BytesOf(HexBytes(x)) == x
  {
    BytesRead(x);
    BytesAreRead(HexBytes(x));
  }

  /** A written line in which one byte of address, type, data or checksum changed is not accepted. */
  lemma ChangedByteRefused(r: Record, k: nat, b: byte, rest: string, r0: Record)
    requires WellFormed(r) && 1 <= k < 5 + r.len && b != LineBytes(r.kind, r.address, r.Data())[k]
    ensures
      var x := LineBytes(r.kind, r.address, r.Data());
      && RecordText(r) == ":" + HexBytes(x) + "\r\n"
      && Read(":" + HexBytes(x[k := b]) + "\r\n" + rest, r0).code == InvalidRecord
  {
    hide HexBytes, Sum, Read, RecordText, LineText, Checksum, BytesOf;
    var x := LineBytes(r.kind, r.address, r.Data());
    TextOfLine(r);
    LineIsItsBytes(r);
    LineSumsToZero(r.kind, r.address, r.Data());
    SumOfChanged(x, k, b);
    BytesOfHex(x[k := b]);
    assert x[k := b][..5 + r.len] == x[k := b];
    LineAcceptedIff(HexBytes(x[k := b]), rest, r0);
    NotZero(Sum(x), b - x[k]);
  }

  lemma NotZero(sum: int, d: int)
    requires sum % 256 == 0 && -256 < d < 256 && d != 0
    ensures (sum + d) % 256 != 0
  {
    var q, r := DivMod(sum, 256);
    DivModUnique(sum + d, 256, if d < 0 then q - 1 else q, if d < 0 then d + 256 else d);
  }
}
