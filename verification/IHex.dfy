/**
  Intel HEX records (src/msim_ihex.c): the writer, the reader and the checksum,
  over the text of a file.
 */
module IHex {
  import opened Arithmetic
  import opened Basics

  const MAX_DATA: nat := 256
  const LINE_MAX: nat := 767

  /** A buffer for record data, as large as any record. */
  type Buffer = s: seq<byte> | |s| == MAX_DATA witness seq(MAX_DATA, _ => 0)

  /** A record; only the first `len` bytes of its buffer belong to it. */
  datatype Record = Record(kind: nat, address: nat, len: nat, buf: Buffer, checksum: byte)
  {
    function Data(): (d: seq<byte>)
      requires len <= MAX_DATA
    {
      buf[..len]
    }
  }

  datatype Code = Ok | Eof | Newline | InvalidRecord | InvalidArguments | Overrun

  // ---------- checksum ----------

  /** The two's complement of the sum of all fields. */
  function Checksum(kind: nat, address: nat, data: seq<byte>): byte {
    (-(|data| + kind + address + (address / 256) % 256 + Sum(data))) % 256
  }

  /** `MSIM_IHEX_CalcChecksum`. */
  method CalcChecksum(r: Record) returns (c: byte)
    requires r.len <= MAX_DATA
    ensures c == Checksum(r.kind, r.address, r.Data())
  {
    var sum := r.len;
    sum := sum + r.kind;
    sum := sum + r.address;
    sum := sum + (r.address / 256) % 256;
    var i := 0;
    while i < r.len
      invariant 0 <= i <= r.len
      invariant sum == r.len + r.kind + r.address + (r.address / 256) % 256 + Sum(r.buf[..i])
    {
      assert r.buf[..i + 1][..i] == r.buf[..i];
      sum := sum + r.buf[i];
      i := i + 1;
    }
    c := (-sum) % 256;
  }

  /** The bytes of a record's line: length, address, type, data, checksum. */
  function LineBytes(kind: byte, address: nat, data: seq<byte>): seq<byte>
    requires |data| < 256 && address < 0x1_0000
  {
    [|data|, address / 256, address % 256, kind] + data + [Checksum(kind, address, data)]
  }

  /** The bytes of every line sum to zero modulo 256. */
  lemma LineSumsToZero(kind: byte, address: nat, data: seq<byte>)
    requires |data| < 256 && address < 0x1_0000
    ensures Sum(LineBytes(kind, address, data)) % 256 == 0
  {
    var head: seq<byte> := [|data|, address / 256, address % 256, kind];
    var c := Checksum(kind, address, data);
    SumAppend(head + data, [c]);
    SumAppend(head, data);
    assert Sum([c]) == Sum([]) + c by { assert [c][..0] == []; }
    var h2: seq<byte> := [|data|, address / 256];
    SumAppend(h2, [address % 256, kind]);
    assert head == h2 + [address % 256, kind];
    assert [address % 256, kind][..1] == [address % 256] && h2[..1] == [|data|];
    assert [address % 256][..0] == [] && [|data|][..0] == [];
    assert Sum(head) == |data| + address / 256 + address % 256 + kind;
    ZeroSum(|data| + kind + Sum(data), address, c);
  }

  lemma ZeroSum(rest: nat, address: nat, c: byte)
    requires address < 0x1_0000 && c == (-(rest + address + (address / 256) % 256)) % 256
    ensures (rest + address / 256 + address % 256 + c) % 256 == 0
  {
    var h, l := address / 256, address % 256;
    var total := rest + address + h;
    assert address == 256 * h + l;
    var q, r := DivMod(-total, 256);
    assert rest + h + l + c == 256 * (-q - h);
    DivOfMultiple(256, -q - h);
  }

  // ---------- hexadecimal text ----------

  /** v in hexadecimal, without leading zeros. */
  function Digits(v: nat): (s: string)
    ensures s != ""
  {
    if v < 16 then [HexDigit(v)] else Digits(v / 16) + [HexDigit(v % 16)]
  }

  /** printf of v with "%X" and the given precision. */
  function Hex(v: nat, precision: nat): string {
    Pad(Digits(v), precision)
  }

  function Pad(s: string, precision: nat): (r: string)
    ensures |r| == if |s| < precision then precision else |s|
    decreases precision - |s|
  {
    if |s| >= precision then s else Pad("0" + s, precision)
  }

  /** The value of the leading hexadecimal digits of s, after a number acc. */
  function ParseDigits(s: string, acc: nat): nat {
    if s == "" || DigitOf(s[0]) < 0 then acc else ParseDigits(s[1..], 16 * acc + DigitOf(s[0]))
  }

  predicate IsSpace(c: char) {
    c == ' ' || '\t' <= c <= '\r'
  }

  /** strtol with base 16: white space, a sign, a prefix, digits. */
  function Strtol(s: string): int {
    if s != "" && IsSpace(s[0]) then Strtol(s[1..])
    else if s != "" && s[0] == '-' then var v: int := Unsigned(s[1..]); -v
    else if s != "" && s[0] == '+' then Unsigned(s[1..])
    else Unsigned(s)
  }

  function Unsigned(s: string): nat {
    if |s| > 2 && s[0] == '0' && (s[1] == 'x' || s[1] == 'X') && DigitOf(s[2]) >= 0 then ParseDigits(s[2..], 0)
    else ParseDigits(s, 0)
  }

  predicate AllHex(s: string) {
    forall k :: 0 <= k < |s| ==> DigitOf(s[k]) >= 0
  }

  lemma {:induction false} DigitsAreHex(v: nat)
    ensures AllHex(Digits(v))
  {
    if v >= 16 {
      DigitsAreHex(v / 16);
    }
  }

  lemma {:induction false} ParseAppend(s: string, c: char, acc: nat)
    requires AllHex(s) && DigitOf(c) >= 0
    ensures ParseDigits(s + [c], acc) == 16 * ParseDigits(s, acc) + DigitOf(c)
    decreases |s|
  {
    if s == "" {
      assert [c][1..] == "";
    } else {
      assert (s + [c])[1..] == s[1..] + [c];
      ParseAppend(s[1..], c, 16 * acc + DigitOf(s[0]));
    }
  }

  lemma HexDigitReads(d: nat)
    requires d < 16
    ensures DigitOf(HexDigit(d)) == d
  {
    assert HexDigit(d) == if d < 10 then '0' + d as char else 'A' + (d - 10) as char;
  }

  lemma ParseDigit(c: char)
    requires DigitOf(c) >= 0
    ensures ParseDigits([c], 0) == DigitOf(c)
  {
    assert [c][1..] == "";
  }

  lemma {:induction false} ParseOfDigits(v: nat)
    ensures ParseDigits(Digits(v), 0) == v
  {
    hide ParseDigits, AllHex, DigitOf, HexDigit;
    HexDigitReads(v % 16);
    if v < 16 {
      ParseDigit(HexDigit(v));
    } else {
      ParseOfDigits(v / 16);
      DigitsAreHex(v / 16);
      ParseAppend(Digits(v / 16), HexDigit(v % 16), 0);
    }
  }

  lemma {:induction false} PadKeeps(s: string, precision: nat)
    requires AllHex(s)
    ensures AllHex(Pad(s, precision)) && ParseDigits(Pad(s, precision), 0) == ParseDigits(s, 0)
    decreases precision - |s|
  {
    if |s| < precision {
      assert ("0" + s)[1..] == s;
      PadKeeps("0" + s, precision);
    }
  }

  lemma {:induction false} DigitsLength(v: nat, n: nat)
    requires n > 0 && v < Pow16(n)
    ensures |Digits(v)| <= n
    decreases n
  {
    if v >= 16 {
      DigitsLength(v / 16, n - 1);
    }
  }

  function Pow16(n: nat): (p: nat)
    ensures p > 0
  {
    if n == 0 then 1 else 16 * Pow16(n - 1)
  }

  /** A number that fits is printed in as many digits as asked for, and read back unchanged. */
  lemma HexReads(v: nat, n: nat)
    requires n > 0 && v < Pow16(n)
    ensures |Hex(v, n)| == n && AllHex(Hex(v, n)) && Strtol(Hex(v, n)) == v
  {
    DigitsLength(v, n);
    DigitsAreHex(v);
    ParseOfDigits(v);
    PadKeeps(Digits(v), n);
    var s := Hex(v, n);
    assert DigitOf(s[0]) >= 0 && (n > 1 ==> DigitOf(s[1]) >= 0);
  }

  // ---------- the writer ----------

  /** The bytes of a record in hexadecimal. */
  function HexBytes(data: seq<byte>): string {
    if data == [] then "" else HexBytes(data[..|data| - 1]) + Hex(data[|data| - 1], 2)
  }

  /** The line `MSIM_IHEX_WriteRec` prints. */
  function RecordText(r: Record): string
    requires r.len <= MAX_DATA
  {
    ":" + Hex(r.len, 2) + Hex(r.address, 4) + Hex(r.kind, 2) + HexBytes(r.Data()) +
    Hex(Checksum(r.kind, r.address, r.Data()), 2) + "\r\n"
  }

  /** `MSIM_IHEX_NewRec`: the data are copied into the record's buffer. */
  method NewRec(kind: nat, address: nat, data: seq<byte>, old_record: Record) returns (code: Code, r: Record)
    ensures |data| > MAX_DATA ==> code == InvalidArguments && r == old_record
    ensures |data| <= MAX_DATA ==>
      && code == Ok
      && r == Record(kind, address, |data|, data + old_record.buf[|data|..], Checksum(kind, address, data))
  {
    if |data| > MAX_DATA {
      return InvalidArguments, old_record;
    }
    r := Record(kind, address, |data|, data + old_record.buf[|data|..], old_record.checksum);
    assert r.Data() == data;
    var c := CalcChecksum(r);
    return Ok, r.(checksum := c);
  }

  method WriteData(r: Record) returns (text: string)
    requires r.len <= MAX_DATA
    ensures text == HexBytes(r.Data())
  {
    hide Hex;
    text := "";
    var i := 0;
    while i < r.len
      invariant 0 <= i <= r.len
      invariant text == HexBytes(r.buf[..i])
    {
      assert r.buf[..i + 1][..i] == r.buf[..i];
      text := text + Hex(r.buf[i], 2);
      i := i + 1;
    }
  }

  /** `MSIM_IHEX_WriteRec`, printing to the end of `file`. */
  method WriteRec(r: Record, file: string) returns (code: Code, out: string)
    ensures r.len > MAX_DATA ==> code == InvalidRecord && out == file
    ensures r.len <= MAX_DATA ==> code == Ok && out == file + RecordText(r)
  {
    hide Hex, HexBytes, Checksum;
    if r.len > MAX_DATA {
      return InvalidRecord, file;
    }
    var line := ":" + Hex(r.len, 2) + Hex(r.address, 4) + Hex(r.kind, 2);
    var data := WriteData(r);
    var c := CalcChecksum(r);
    line := line + data;
    line := line + Hex(c, 2) + "\r\n";
    return Ok, file + line;
  }

  // ---------- the reader ----------

  /** fgets: the next line with its newline, at most LINE_MAX characters of it. */
  function LineLength(s: string, n: nat): (k: nat)
    ensures k <= n && k <= |s|
    ensures n > 0 && s != "" ==> k > 0
    decreases n
  {
    if n == 0 || s == "" then 0 else if s[0] == '\n' then 1 else 1 + LineLength(s[1..], n - 1)
  }

  /** The line up to its end as a C string, or to its first line break. */
  function Cut(s: string): (t: string)
    ensures |t| <= |s| && t == s[..|t|]
  {
    if s == "" || s[0] == '\0' || s[0] == '\r' || s[0] == '\n' then "" else [s[0]] + Cut(s[1..])
  }

  datatype Reading = Reading(code: Code, r: Record, rest: string)

  /** What a line says, given as a C string; `r` is the record that is overwritten. */
  function ReadLine(line: string, r: Record): (Code, Record) {
    if line == "" then (Newline, r)
    else if |line| < 9 || line[0] != ':' then (InvalidRecord, r)
    else
      var count := Strtol(line[1..3]) % WORD;
      var r1 := r.(address := Strtol(line[3..7]) % 0x1_0000, kind := Strtol(line[7..9]) % WORD);
      if |line| < (11 + 2 * count) % WORD then (InvalidRecord, r1)
      else if |line| < 11 + 2 * count || count > MAX_DATA then (Overrun, r1)
      else
        var data := ReadBytes(line[9..9 + 2 * count]);
        var checksum := Strtol(line[9 + 2 * count..11 + 2 * count]) % 256;
        var r2 := r1.(len := count, buf := data + r.buf[count..], checksum := checksum);
        (if checksum == Checksum(r2.kind, r2.address, data) then Ok else InvalidRecord, r2)
  }

  function ReadBytes(s: string): (d: seq<byte>)
    requires |s| % 2 == 0
    ensures |d| == |s| / 2
  {
    if s == "" then []
    else ReadBytes(s[..|s| - 2]) + [Strtol(s[|s| - 2..]) % 256]
  }

  function Read(file: string, r: Record): Reading {
    if file == "" then Reading(Eof, r, "")
    else
      var n := LineLength(file, LINE_MAX);
      var (code, r') := ReadLine(Cut(file[..n]), r);
      Reading(code, r', file[n..])
  }

  /** The data bytes of a line, converted one by one into the record's buffer. */
  method ReadData(line: string, count: nat, buf0: Buffer) returns (buf: Buffer)
    requires count <= MAX_DATA && 9 + 2 * count <= |line|
    ensures buf == ReadBytes(line[9..9 + 2 * count]) + buf0[count..]
  {
    buf := buf0;
    var i := 0;
    while i < count
      invariant 0 <= i <= count
      invariant buf == ReadBytes(line[9..9 + 2 * i]) + buf0[i..]
    {
      ReadBytesNext(line, i);
      hide *;
      ghost var before := ReadBytes(line[9..9 + 2 * i]);
      var v := Strtol(line[9 + 2 * i..11 + 2 * i]) % 256;
      SetNext(before, buf0, v);
      buf := buf[i := v];
      i := i + 1;
    }
  }

  lemma SetNext(front: seq<byte>, s: seq<byte>, v: byte)
    requires |front| < |s|
    ensures (front + s[|front|..])[|front| := v] == front + [v] + s[|front| + 1..]
  {
  }

  lemma ReadBytesNext(line: string, i: nat)
    requires 11 + 2 * i <= |line|
    ensures ReadBytes(line[9..11 + 2 * i])
      == ReadBytes(line[9..9 + 2 * i]) + [Strtol(line[9 + 2 * i..11 + 2 * i]) % 256]
  {
    hide Strtol;
    var s := line[9..11 + 2 * i];
    assert s[..|s| - 2] == line[9..9 + 2 * i] && s[|s| - 2..] == line[9 + 2 * i..11 + 2 * i];
  }

  /** `MSIM_IHEX_ReadRec`, reading from the front of `file`. */
  method ReadRec(file: string, r0: Record) returns (code: Code, r: Record, rest: string)
    ensures Reading(code, r, rest) == Read(file, r0)
  {
    hide Strtol, Cut, LineLength, ReadBytes, Checksum;
    r := r0;
    if file == "" {
      return Eof, r, "";
    }
    var n := LineLength(file, LINE_MAX);
    rest := file[n..];
    var line := Cut(file[..n]);
    if line == "" {
      return Newline, r, rest;
    }
    if |line| < 1 + 2 + 4 + 2 {
      return InvalidRecord, r, rest;
    }
    if line[0] != ':' {
      return InvalidRecord, r, rest;
    }
    var count := Strtol(line[1..3]) % WORD;
    r := r.(address := Strtol(line[3..7]) % 0x1_0000);
    r := r.(kind := Strtol(line[7..9]) % WORD);
    if |line| < (1 + 2 + 4 + 2 + count * 2 + 2) % WORD {
      return InvalidRecord, r, rest;
    }
    if |line| < 11 + 2 * count || count > MAX_DATA {
      return Overrun, r, rest;
    }
    var buf := ReadData(line, count, r.buf);
    r := r.(len := count, buf := buf);
    r := r.(checksum := Strtol(line[9 + 2 * count..11 + 2 * count]) % 256);
    var c := CalcChecksum(r);
    assert r.Data() == ReadBytes(line[9..9 + 2 * count]);
    if r.checksum != c {
      return InvalidRecord, r, rest;
    }
    return Ok, r, rest;
  }

  // ---------- round trip ----------

  lemma {:induction false} LineFound(t: string, rest: string, n: nat)
    requires '\n' !in t && n > |t|
    ensures LineLength(t + "\n" + rest, n) == |t| + 1
    decreases |t|
  {
    var s := t + "\n" + rest;
    if t != "" {
      LineFound(t[1..], rest, n - 1);
      assert s[1..] == t[1..] + "\n" + rest;
    }
  }

  lemma CutFirst(c: char, s: string)
    requires c != '\0' && c != '\r' && c != '\n'
    ensures Cut([c] + s) == [c] + Cut(s)
  {
  }

  lemma {:induction false} CutFound(t: string, rest: string)
    requires AllHex(t)
    ensures Cut(t + "\r" + rest) == t
    decreases |t|
  {
    var s := t + "\r" + rest;
    if t != "" {
      CutFound(t[1..], rest);
      assert s[1..] == t[1..] + "\r" + rest;
    }
  }

  lemma ReadBytesAppend(s: string, h: string)
    requires |s| % 2 == 0 && |h| == 2
    ensures ReadBytes(s + h) == ReadBytes(s) + [Strtol(h) % 256]
  {
    hide Strtol;
    assert (s + h)[..|s|] == s && (s + h)[|s|..] == h;
  }

  lemma AllHexAppend(s: string, t: string)
    requires AllHex(s) && AllHex(t)
    ensures AllHex(s + t)
  {
  }

  lemma {:induction false} BytesRead(data: seq<byte>)
    ensures AllHex(HexBytes(data)) && |HexBytes(data)| == 2 * |data| && ReadBytes(HexBytes(data)) == data
    decreases |data|
  {
    hide Hex, Strtol, DigitOf;
    if data != [] {
      var n := |data| - 1;
      BytesRead(data[..n]);
      HexReads(data[n], 2);
      hide AllHex, ReadBytes;
      ReadBytesAppend(HexBytes(data[..n]), Hex(data[n], 2));
      AllHexAppend(HexBytes(data[..n]), Hex(data[n], 2));
      assert data == data[..n] + [data[n]];
    }
  }

  /** The hexadecimal digits of a line, after its colon. */
  function LineText(r: Record): string
    requires r.len <= MAX_DATA
  {
    Hex(r.len, 2) + Hex(r.address, 4) + Hex(r.kind, 2) + HexBytes(r.Data()) +
    Hex(Checksum(r.kind, r.address, r.Data()), 2)
  }

  /** A record whose fields fit the format and whose checksum is right. */
  predicate WellFormed(r: Record) {
    r.len < 256 && r.address < 0x1_0000 && r.kind < 256 && r.checksum == Checksum(r.kind, r.address, r.Data())
  }

  /** The fields a line holds, at their places in it. */
  ghost predicate Holds(line: string, r: Record)
    requires r.len <= MAX_DATA
  {
    && |line| == 11 + 2 * r.len && line[0] == ':'
    && Strtol(line[1..3]) == r.len && Strtol(line[3..7]) == r.address && Strtol(line[7..9]) == r.kind
    && ReadBytes(line[9..9 + 2 * r.len]) == r.Data()
    && Strtol(line[9 + 2 * r.len..11 + 2 * r.len]) == r.checksum
  }

  lemma Slices(h: string, a: string, k: string, d: string, c: string)
    requires |h| == 2 && |a| == 4 && |k| == 2 && |c| == 2
    ensures var line := ":" + (h + a + k + d + c);
            && line[1..3] == h && line[3..7] == a && line[7..9] == k
            && line[9..9 + |d|] == d && line[9 + |d|..11 + |d|] == c
  {
  }

  lemma FieldsAtPlaces(r: Record, h: string, a: string, k: string, d: string, c: string)
    requires r.len < 256 && |h| == 2 && |a| == 4 && |k| == 2 && |d| == 2 * r.len && |c| == 2
    requires Strtol(h) == r.len && Strtol(a) == r.address && Strtol(k) == r.kind
    requires ReadBytes(d) == r.Data() && Strtol(c) == r.checksum
    ensures Holds(":" + (h + a + k + d + c), r)
  {
    Slices(h, a, k, d, c);
    hide Strtol, ReadBytes;
  }

  lemma FieldsHeld(r: Record)
    requires WellFormed(r)
    ensures Holds(":" + LineText(r), r)
  {
    HexReads(r.len, 2);
    HexReads(r.address, 4);
    HexReads(r.kind, 2);
    HexReads(r.checksum, 2);
    BytesRead(r.Data());
    hide Hex, HexBytes, Strtol, ReadBytes, Checksum, DigitOf, AllHex, Holds;
    FieldsAtPlaces(r, Hex(r.len, 2), Hex(r.address, 4), Hex(r.kind, 2), HexBytes(r.Data()), Hex(r.checksum, 2));
  }

  lemma LineIsHex(r: Record)
    requires WellFormed(r)
    ensures AllHex(LineText(r))
  {
    HexReads(r.len, 2);
    HexReads(r.address, 4);
    HexReads(r.kind, 2);
    HexReads(r.checksum, 2);
    BytesRead(r.Data());
    hide Hex, HexBytes, Strtol, ReadBytes, Checksum, AllHex;
    AllHexAppend(Hex(r.len, 2), Hex(r.address, 4));
    AllHexAppend(Hex(r.len, 2) + Hex(r.address, 4), Hex(r.kind, 2));
    AllHexAppend(Hex(r.len, 2) + Hex(r.address, 4) + Hex(r.kind, 2), HexBytes(r.Data()));
    AllHexAppend(Hex(r.len, 2) + Hex(r.address, 4) + Hex(r.kind, 2) + HexBytes(r.Data()), Hex(r.checksum, 2));
  }

  lemma LineRead(line: string, r: Record, r0: Record)
    requires WellFormed(r) && Holds(line, r)
    ensures ReadLine(line, r0) == (Ok, r.(buf := r.Data() + r0.buf[r.len..]))
  {
    hide Strtol, ReadBytes, Checksum;
  }

  lemma {:induction false} PadAppend(s: string, c: char, n: nat)
    ensures Pad(s + [c], n + 1) == Pad(s, n) + [c]
    decreases n - |s|
  {
    if |s| < n {
      assert "0" + (s + [c]) == ("0" + s) + [c];
      PadAppend("0" + s, c, n);
    }
  }

  /** The last digit of a padded number. */
  lemma HexLast(v: nat, n: nat)
    requires n > 0
    ensures Hex(v, n + 1) == Hex(v / 16, n) + [HexDigit(v % 16)]
  {
    var c := HexDigit(v % 16);
    if v < 16 {
      assert Digits(v) == [c] && Digits(v / 16) == "0";
      PadAppend("0", c, n);
      assert "0" + [c] == ['0', c];
    } else {
      PadAppend(Digits(v / 16), c, n);
    }
  }

  /** An address is printed as its two bytes. */
  lemma HexOfAddress(a: nat)
    requires a < 0x1_0000
    ensures Hex(a, 4) == Hex(a / 256, 2) + Hex(a % 256, 2)
  {
    HexLast(a, 3);
    HexLast(a / 16, 2);
    HexLast(a % 256, 1);
    var h := a % 256 / 16;
    assert a / 16 % 16 == h && a / 16 / 16 == a / 256 && a % 256 % 16 == a % 16 && h < 16;
    assert Hex(h, 1) == [HexDigit(h)];
    hide Hex, HexDigit;
  }

  lemma NoHexBytes()
    ensures HexBytes([]) == ""
  {
  }

  lemma HexBytesSnoc(x: seq<byte>, b: byte)
    ensures HexBytes(x + [b]) == HexBytes(x) + Hex(b, 2)
  {
    hide Hex;
    assert (x + [b])[..|x|] == x;
  }

  lemma {:induction false} HexBytesAppend(x: seq<byte>, y: seq<byte>)
    ensures HexBytes(x + y) == HexBytes(x) + HexBytes(y)
    decreases |y|
  {
    hide HexBytes, Hex;
    if y == [] {
      assert HexBytes(y) == "" by { NoHexBytes(); }
      assert x + y == x;
    } else {
      var n := |y| - 1;
      HexBytesAppend(x, y[..n]);
      HexBytesSnoc(x + y[..n], y[n]);
      HexBytesSnoc(y[..n], y[n]);
      Associates(x, y[..n], [y[n]]);
      Associates(HexBytes(x), HexBytes(y[..n]), Hex(y[n], 2));
      assert y[..n] + [y[n]] == y;
    }
  }

  lemma HexOfByte(b: byte)
    ensures HexBytes([b]) == Hex(b, 2)
  {
    hide Hex;
    assert [b][..0] == [];
  }

  lemma HexOfBytes(x: seq<byte>, b: byte)
    ensures HexBytes(x + [b]) == HexBytes(x) + Hex(b, 2)
  {
    HexBytesAppend(x, [b]);
    HexOfByte(b);
  }

  lemma HexOfHead(n: byte, h: byte, l: byte, k: byte)
    ensures HexBytes([n, h, l, k]) == Hex(n, 2) + (Hex(h, 2) + Hex(l, 2)) + Hex(k, 2)
  {
    HexOfByte(n);
    HexOfBytes([n], h);
    HexOfBytes([n, h], l);
    HexOfBytes([n, h, l], k);
    hide Hex, HexBytes;
    assert [n] + [h] == [n, h] && [n, h] + [l] == [n, h, l] && [n, h, l] + [k] == [n, h, l, k];
  }

  /** A line is the hexadecimal text of its bytes, the ones that sum to zero. */
  lemma LineIsItsBytes(r: Record)
    requires WellFormed(r)
    ensures LineText(r) == HexBytes(LineBytes(r.kind, r.address, r.Data()))
  {
    var head: seq<byte> := [r.len, r.address / 256, r.address % 256, r.kind];
    HexOfAddress(r.address);
    HexOfHead(r.len, r.address / 256, r.address % 256, r.kind);
    HexBytesAppend(head, r.Data());
    HexOfBytes(head + r.Data(), r.checksum);
    hide Hex, HexBytes, Checksum;
  }

  lemma TextOfLine(r: Record)
    requires r.len <= MAX_DATA
    ensures RecordText(r) == ":" + LineText(r) + "\r\n"
  {
    hide Hex, HexBytes, Checksum;
  }

  lemma HexIsNoBreak(t: string)
    requires AllHex(t)
    ensures '\n' !in ":" + t + "\r"
  {
  }

  /** The line that reading finds in front of a file that begins with a written record. */
  lemma LineOfWritten(t: string, rest: string)
    requires AllHex(t) && |t| + 2 < LINE_MAX
    ensures var file := ":" + t + "\r\n" + rest;
            LineLength(file, LINE_MAX) == |t| + 3 && Cut(file[..|t| + 3]) == ":" + t && file[|t| + 3..] == rest
  {
    hide LineLength, Cut, AllHex, DigitOf;
    HexIsNoBreak(t);
    CutFound(t, "\n");
    LineFound(":" + t + "\r", rest, LINE_MAX);
    CutFirst(':', t + "\r" + "\n");
    var file := ":" + t + "\r\n" + rest;
    assert file == ":" + t + "\r" + "\n" + rest;
    assert file[..|t| + 3] == ":" + t + "\r\n";
    assert ":" + t + "\r\n" == [':'] + (t + "\r" + "\n");
  }

  /** Reading what was written gives the record back, and leaves the rest of the file. */
  lemma ReadOfWritten(r: Record, r0: Record, rest: string)
    requires WellFormed(r)
    ensures Read(RecordText(r) + rest, r0) == Reading(Ok, r.(buf := r.Data() + r0.buf[r.len..]), rest)
  {
    var t := LineText(r);
    TextOfLine(r);
    LineIsHex(r);
    FieldsHeld(r);
    LineRead(":" + t, r, r0);
    assert |t| == 10 + 2 * r.len;
    LineOfWritten(t, rest);
    hide Cut, LineLength, ReadLine, RecordText, LineText, AllHex, Holds, WellFormed;
  }
}
