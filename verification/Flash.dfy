/**
  Program memory in Intel HEX files (src/avr/avr_simcore.c): the loader, which reads a
  file twice to store its records and to verify them, and the saver.
 */
module Flash {
  import opened Basics
  import opened IHex

  type word = w: int | 0 <= w < 0x1_0000

  const PM_SIZE: nat := 262144

  /** The words of the program memory. */
  type Memory = m: seq<word> | |m| == PM_SIZE witness seq(PM_SIZE, _ => 0)

  // ---------- what a file means ----------

  /** The fields a record has once it was read without error. */
  predicate Fits(r: Record) {
    r.address < 0x1_0000 && r.len <= MAX_DATA
  }

  lemma ReadFits(file: string, r: Record)
    requires Read(file, r).code == Ok
    ensures Fits(Read(file, r).r) && |Read(file, r).rest| < |file|
  {
    hide Strtol, Cut, ReadBytes, Checksum;
  }

  function First(r: Record): nat {
    r.address / 2
  }

  function Words(r: Record): nat {
    (r.len + 1) / 2
  }

  predicate Covers(r: Record, i: nat) {
    First(r) <= i < First(r) + Words(r)
  }

  /** The k-th word of a record: low byte first. */
  function WordOf(r: Record, k: nat): word
    requires k < MAX_DATA / 2
  {
    var low: int, high: int := r.buf[2 * k], r.buf[2 * k + 1];
    256 * high + low
  }

  /** Memory after the words of a record were stored. */
  function Store(mem: Memory, r: Record): Memory
    requires Fits(r)
  {
    seq(PM_SIZE, i requires 0 <= i < PM_SIZE => if Covers(r, i) then WordOf(r, i - First(r)) else mem[i])
  }

  function Apply(mem: Memory, r: Record): Memory
    requires Fits(r)
  {
    if r.kind == 0 then Store(mem, r) else mem
  }

  /** Memory after the first pass over a file; `r` is the record left by what was read before. */
  function Load(file: string, r: Record, mem: Memory): Memory
    decreases |file|
  {
    var x := Read(file, r);
    if x.code != Ok then mem
    else
      ReadFits(file, r);
      Load(x.rest, x.r, Apply(mem, x.r))
  }

  /** The record left by the first pass over a file. */
  function LastRecord(file: string, r: Record): Record
    decreases |file|
  {
    var x := Read(file, r);
    if x.code != Ok then x.r
    else
      ReadFits(file, r);
      LastRecord(x.rest, x.r)
  }

  /** The bytes of memory that a record covers. */
  function BytesAt(mem: Memory, first: nat, len: nat): (d: seq<byte>)
    requires first < 0x8000 && len <= MAX_DATA
    ensures |d| == len
  {
    seq(len, j requires 0 <= j < len =>
      if j % 2 == 0 then mem[first + j / 2] % 256 else mem[first + j / 2] / 256)
  }

  /** Memory holds the bytes that the checksum of a record speaks of. */
  predicate Matches(mem: Memory, r: Record)
    requires Fits(r)
  {
    r.checksum == Checksum(r.kind, r.address, BytesAt(mem, First(r), r.len))
  }

  /** The second pass: every data record before the end of the file matches memory. */
  predicate Verified(file: string, r: Record, mem: Memory)
    decreases |file|
  {
    var x := Read(file, r);
    if x.code != Ok || x.r.kind == 1 then true
    else
      ReadFits(file, r);
      (x.r.kind == 0 ==> Matches(mem, x.r)) && Verified(x.rest, x.r, mem)
  }

  // ---------- the loader ----------

  /** The inner loop of the first pass. */
  method StoreRecord(mem: array<word>, r: Record)
    requires mem.Length == PM_SIZE && Fits(r)
    modifies mem
    ensures mem[..] == Store(old(mem[..]), r)
  {
    var j := 0;
    while j < r.len
      invariant 0 <= j <= r.len + 1 && j % 2 == 0
      invariant forall i :: 0 <= i < PM_SIZE ==>
        mem[i] == if First(r) <= i < First(r) + j / 2 then WordOf(r, i - First(r)) else old(mem[i])
    {
      var low: int, high: int := r.buf[j], r.buf[j + 1];
      mem[r.address / 2 + j / 2] := high * 256 + low;
      j := j + 2;
    }
  }

  /** The inner loop of the second pass, filling the data of the record to compare with. */
  method ReadBack(mem: array<word>, r: Record, buf0: Buffer) returns (buf: Buffer)
    requires mem.Length == PM_SIZE && Fits(r)
    ensures buf[..r.len] == BytesAt(mem[..], First(r), r.len)
  {
    buf := buf0;
    var j := 0;
    while j < r.len
      invariant 0 <= j <= r.len + 1 && j % 2 == 0
      invariant forall k :: 0 <= k < j && k < r.len ==> buf[k] == BytesAt(mem[..], First(r), r.len)[k]
    {
      buf := buf[j := mem[r.address / 2 + j / 2] % 256];
      buf := buf[j + 1 := mem[r.address / 2 + j / 2] / 256];
      j := j + 2;
    }
  }

  /** One turn of the first pass. */
  method LoadRecord(mem: array<word>, r: Record)
    requires mem.Length == PM_SIZE && Fits(r)
    modifies mem
    ensures mem[..] == Apply(old(mem[..]), r)
  {
    if r.kind == 0 {
      StoreRecord(mem, r);
    }
  }

  /** One turn of the second pass. */
  method VerifyRecord(mem: array<word>, r: Record, mr0: Record) returns (same: bool, mr: Record)
    requires mem.Length == PM_SIZE && Fits(r)
    ensures same <==> Matches(mem[..], r)
  {
    var buf := ReadBack(mem, r, mr0.buf);
    hide BytesAt, Checksum;
    mr := Record(r.kind, r.address, r.len, buf, 0);
    var c := CalcChecksum(mr);
    mr := mr.(checksum := c);
    same := mr.checksum == r.checksum;
  }

  /** The first pass of `load_mem16`. */
  method LoadRecords(mem: array<word>, file: string, r0: Record) returns (r: Record)
    requires mem.Length == PM_SIZE
    modifies mem
    ensures mem[..] == Load(file, r0, old(mem[..])) && r == LastRecord(file, r0)
  {
    hide Read, Apply;
    var code, rest := Ok, file;
    code, r, rest := ReadRec(file, r0);
    ghost var before, text := r0, file;
    while code == Ok
      invariant Reading(code, r, rest) == Read(text, before)
      invariant Load(file, r0, old(mem[..])) == Load(text, before, mem[..])
      invariant LastRecord(file, r0) == LastRecord(text, before)
      decreases |text|
    {
      ReadFits(text, before);
      LoadRecord(mem, r);
      text, before := rest, r;
      code, r, rest := ReadRec(rest, r);
    }
  }

  /** The second pass of `load_mem16`. */
  method VerifyRecords(mem: array<word>, file: string, r0: Record, mr0: Record) returns (rc: int)
    requires mem.Length == PM_SIZE
    ensures rc == if Verified(file, r0, mem[..]) then 0 else -1
  {
    hide Read, Matches;
    var mr := mr0;
    var code, r, rest := ReadRec(file, r0);
    ghost var before, text := r0, file;
    while code == Ok
      invariant Reading(code, r, rest) == Read(text, before)
      invariant Verified(file, r0, mem[..]) <==> Verified(text, before, mem[..])
      decreases |text|
    {
      ReadFits(text, before);
      if r.kind == 1 {
        return 0;
      }
      if r.kind == 0 {
        var same;
        same, mr := VerifyRecord(mem, r, mr);
        if !same {
          return -1;
        }
      }
      text, before := rest, r;
      code, r, rest := ReadRec(rest, r);
    }
    return 0;
  }

  /** `load_mem16` on an open file; `r0` and `mr0` are the contents of its uninitialised records. */
  method LoadMem16(mem: array<word>, file: string, r0: Record, mr0: Record) returns (rc: int)
    requires mem.Length == PM_SIZE
    modifies mem
    ensures mem[..] == Load(file, r0, old(mem[..]))
    ensures rc == if Verified(file, LastRecord(file, r0), mem[..]) then 0 else -1
  {
    var r := LoadRecords(mem, file, r0);
    rc := VerifyRecords(mem, file, r, mr0);
  }

  // ---------- the saver ----------

  /** The bytes of eight words, low byte first. */
  function Chunk(mem: Memory, i: nat): (d: seq<byte>)
    requires i + 8 <= PM_SIZE
    ensures |d| == 16
  {
    seq(16, j requires 0 <= j < 16 => if j % 2 == 0 then mem[i + j / 2] % 256 else mem[i + j / 2] / 256)
  }

  /** A record of 16 bytes, in a buffer that is otherwise `rest`. */
  function ChunkRecord(mem: Memory, i: nat, rest: Buffer): (r: Record)
    requires i + 8 <= PM_SIZE
    ensures r.len == 16 && r.Data() == Chunk(mem, i)
  {
    var d := Chunk(mem, i);
    Record(0, 2 * i, 16, d + rest[16..], Checksum(0, 2 * i, d))
  }

  function Blank(): Buffer {
    seq(MAX_DATA, _ => 0)
  }

  /** The end-of-file record. */
  function End(): Record {
    Record(1, 0, 0, Blank(), Checksum(1, 0, []))
  }

  /** The records of the words from i up to `size`, eight at a time. */
  function Chunks(mem: Memory, i: nat, size: nat): (rs: seq<Record>)
    requires i % 8 == 0 && size <= PM_SIZE
    ensures forall k :: 0 <= k < |rs| ==> rs[k].len == 16
    decreases size - i
  {
    if i >= size then [] else [ChunkRecord(mem, i, Blank())] + Chunks(mem, i + 8, size)
  }

  function Text(rs: seq<Record>): string
    requires forall k :: 0 <= k < |rs| ==> rs[k].len <= MAX_DATA
  {
    if rs == [] then "" else RecordText(rs[0]) + Text(rs[1..])
  }

  /** The file that holds the first `size` words of memory. */
  function Saved(mem: Memory, size: nat): string
    requires size <= PM_SIZE
  {
    Text(Chunks(mem, 0, size)) + RecordText(End())
  }

  /** The inner loop of the saver. */
  method FillChunk(mem: array<word>, i: nat) returns (chunk: seq<byte>)
    requires mem.Length == PM_SIZE && i + 8 <= PM_SIZE
    ensures chunk == Chunk(mem[..], i)
  {
    chunk := seq(16, _ => 0);
    var j := 0;
    while j < 8
      invariant 0 <= j <= 8 && |chunk| == 16
      invariant forall k :: 0 <= k < 2 * j ==> chunk[k] == Chunk(mem[..], i)[k]
    {
      chunk := chunk[2 * j := mem[i + j] % 256];
      chunk := chunk[2 * j + 1 := (mem[i + j] / 256) % 256];
      j := j + 1;
    }
  }

  /** One turn of the saver's loop. */
  method SaveChunk(mem: array<word>, i: nat, rec0: Record, file: string) returns (rec: Record, out: string)
    requires mem.Length == PM_SIZE && i + 8 <= PM_SIZE
    ensures out == file + RecordText(ChunkRecord(mem[..], i, Blank()))
  {
    var chunk := FillChunk(mem, i);
    hide Chunk, RecordText, Checksum;
    var code;
    code, rec := NewRec(0, 2 * i, chunk, rec0);
    SameText(rec, ChunkRecord(mem[..], i, Blank()));
    code, out := WriteRec(rec, file);
  }

  /** Bytes after the data of a record are not printed. */
  lemma SameText(r: Record, t: Record)
    requires r.len == t.len <= MAX_DATA && r.kind == t.kind && r.address == t.address && r.Data() == t.Data()
    ensures RecordText(r) == RecordText(t)
  {
    hide Checksum, Hex, HexBytes;
  }

  lemma TextOfChunks(mem: Memory, i: nat, size: nat, file: string)
    requires i % 8 == 0 && i < size <= PM_SIZE
    ensures file + Text(Chunks(mem, i, size))
         == (file + RecordText(ChunkRecord(mem, i, Blank()))) + Text(Chunks(mem, i + 8, size))
  {
    hide RecordText, ChunkRecord;
    assert Chunks(mem, i, size)[1..] == Chunks(mem, i + 8, size);
  }

  lemma TextOfNoChunks(mem: Memory, i: nat, size: nat)
    requires i % 8 == 0 && size <= i && size <= PM_SIZE
    ensures Text(Chunks(mem, i, size)) == ""
  {
  }

  /** `MSIM_AVR_SaveProgMem` on an open file; `rec0` is the content of its uninitialised record. */
  method SaveProgMem(mem: array<word>, flashstart: nat, flashend: nat, rec0: Record) returns (file: string)
    requires mem.Length == PM_SIZE && flashstart <= flashend + 1 && (flashend + 1 - flashstart) / 2 <= PM_SIZE
    ensures file == Saved(mem[..], (flashend + 1 - flashstart) / 2)
  {
    hide RecordText, ChunkRecord, Checksum, Chunks, Text;
    var pmsz := (flashend + 1 - flashstart) / 2;
    file := "";
    var rec := rec0;
    var i := 0;
    while i < pmsz
      invariant i % 8 == 0
      invariant file + Text(Chunks(mem[..], i, pmsz)) == Text(Chunks(mem[..], 0, pmsz))
    {
      TextOfChunks(mem[..], i, pmsz, file);
      rec, file := SaveChunk(mem, i, rec, file);
      i := i + 8;
    }
    TextOfNoChunks(mem[..], i, pmsz);
    var code;
    code, rec := NewRec(1, 0, [], rec);
    SameText(rec, End());
    code, file := WriteRec(rec, file);
  }
}
