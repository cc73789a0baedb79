/**
  Where saving and loading flash ends: addresses from 64 KiB on have five digits, of
  which the reader takes four.
 */
module FlashLimit {
  import opened Basics
  import opened IHex
  import opened Flash
  import opened FlashFiles

  lemma {:induction false} DigitsMore(v: nat, n: nat)
    requires v >= Pow16(n)
    ensures |Digits(v)| > n
    decreases n
  {
    if n > 0 {
      DigitsMore(v / 16, n - 1);
    }
  }

  /** An address of five digits is printed as its first four and one more. */
  lemma FiveDigits(v: nat)
    requires 0x1_0000 <= v < 0x10_0000
    ensures Hex(v, 4) == Hex(v / 16, 4) + [HexDigit(v % 16)]
    ensures |Hex(v / 16, 4)| == 4 && Strtol(Hex(v / 16, 4)) == v / 16
  {
    assert Pow16(4) == 0x1_0000;
    DigitsMore(v, 4);
    HexReads(v / 16, 4);
    HexLast(v, 4);
    hide Digits, Strtol, Pow16;
  }

  lemma HexIsHex(v: nat, n: nat)
    ensures AllHex(Hex(v, n))
  {
    DigitsAreHex(v);
    PadKeeps(Digits(v), n);
  }

  /** The digits of a chunk's line from 64 KiB on. */
  lemma HighLine(mem: Memory, i: nat)
    requires 0x8000 <= i && i + 8 <= PM_SIZE
    ensures var t := LineText(ChunkRecord(mem, i, Blank()));
            && |t| == 43 && AllHex(t) && Strtol(t[0..2]) == 16 && Strtol(t[2..6]) == 2 * i / 16
  {
    hide Hex, HexBytes, Strtol, AllHex, Checksum, HexDigit, Pow16;
    var r := ChunkRecord(mem, i, Blank());
    assert Pow16(2) == 0x100 by { TwoDigits(); }
    FiveDigits(2 * i);
    HexReads(16, 2);
    HighTail(r.Data(), r.checksum);
    var tail := Hex(0, 2) + HexBytes(r.Data()) + Hex(r.checksum, 2);
    HexIsHex(2 * i, 4);
    AllHexAppend(Hex(16, 2), Hex(2 * i, 4));
    AllHexAppend(Hex(16, 2) + Hex(2 * i, 4), tail);
    HighSlices(Hex(16, 2), Hex(2 * i / 16, 4), HexDigit(2 * i % 16), tail);
    assert LineText(r) == Hex(16, 2) + Hex(2 * i, 4) + tail;
  }

  lemma TwoDigits()
    ensures Pow16(2) == 0x100
  {
  }

  /** What follows the address on a line of data. */
  lemma HighTail(d: seq<byte>, checksum: byte)
    ensures var tail := Hex(0, 2) + HexBytes(d) + Hex(checksum, 2); |tail| == 4 + 2 * |d| && AllHex(tail)
  {
    hide Hex, HexBytes, Strtol, AllHex;
    TwoDigits();
    HexReads(0, 2);
    HexReads(checksum, 2);
    BytesRead(d);
    AllHexAppend(Hex(0, 2), HexBytes(d));
    AllHexAppend(Hex(0, 2) + HexBytes(d), Hex(checksum, 2));
  }

  lemma HighSlices(n: string, a: string, c: char, rest: string)
    requires |n| == 2 && |a| == 4
    ensures var t := n + (a + [c]) + rest; t[0..2] == n && t[2..6] == a
  {
  }

  /** What the reader makes of such a line: at best a record of 16 bytes at another place. */
  lemma HighRecordRead(mem: Memory, i: nat, r0: Record, rest: string)
    requires 0x8000 <= i && i + 8 <= PM_SIZE
    ensures var x := Read(RecordText(ChunkRecord(mem, i, Blank())) + rest, r0);
            x.rest == rest && (x.code == Ok ==> x.r.len == 16 && x.r.address == 2 * i / 16)
  {
    var r := ChunkRecord(mem, i, Blank());
    var t := LineText(r);
    HighLine(mem, i);
    TextOfLine(r);
    LineOfWritten(t, rest);
    HighLineRead(t, 2 * i / 16, r0);
    hide Cut, LineLength, ReadLine, RecordText, LineText, AllHex, ChunkRecord, Strtol;
  }

  lemma HighLineRead(t: string, address: nat, r0: Record)
    requires |t| == 43 && Strtol(t[0..2]) == 16 && Strtol(t[2..6]) == address < 0x1_0000
    ensures var (code, r) := ReadLine(":" + t, r0); code == Ok ==> r.len == 16 && r.address == address
  {
    hide Strtol, ReadBytes, Checksum;
    var line := ":" + t;
    assert line[1..3] == t[0..2] && line[3..7] == t[2..6];
  }

  lemma TextSplits(pm: Memory, i: nat, size: nat, end: string)
    requires i % 8 == 0 && i < size <= PM_SIZE
    ensures Text(Chunks(pm, i, size)) + end
      == RecordText(ChunkRecord(pm, i, Blank())) + (Text(Chunks(pm, i + 8, size)) + end)
  {
    hide Chunks, Text, RecordText, ChunkRecord;
    TextOfChunks(pm, i, size, "");
    var t, r, u := Text(Chunks(pm, i, size)), RecordText(ChunkRecord(pm, i, Blank())), Text(Chunks(pm, i + 8, size));
    assert "" + t == t && "" + r == r;
    Associates(r, u, end);
  }

  /** Nothing in a saved file is ever stored at 64 KiB. */
  lemma {:induction false} LimitUntouched(pm: Memory, i: nat, size: nat, r0: Record, mem: Memory)
    requires i % 8 == 0 && size <= PM_SIZE
    ensures Load(Text(Chunks(pm, i, size)) + RecordText(End()), r0, mem)[0x8000] == mem[0x8000]
    decreases size - i
  {
    hide Chunks, Text, RecordText, ChunkRecord, Load, Read, Apply, Fits;
    var end := RecordText(End());
    if i >= size {
      TextOfNoChunks(pm, i, size);
      assert "" + end == end && end + "" == end;
      var last := LoadPastEnd(r0, "", mem);
      NothingLoads(last, mem);
    } else {
      var rest := Text(Chunks(pm, i + 8, size)) + end;
      TextSplits(pm, i, size, end);
      ChunkElsewhere(pm, i, r0, rest, mem);
      var x := Read(RecordText(ChunkRecord(pm, i, Blank())) + rest, r0);
      if x.code == Ok {
        LimitUntouched(pm, i + 8, size, x.r, Apply(mem, x.r));
      }
    }
  }

  /** A chunk's line is read as a record below 64 KiB, if at all. */
  lemma ChunkBelow(pm: Memory, i: nat, r0: Record, rest: string)
    requires i % 8 == 0 && i + 8 <= PM_SIZE
    ensures var x := Read(RecordText(ChunkRecord(pm, i, Blank())) + rest, r0);
            x.rest == rest && (x.code == Ok ==> x.r.len == 16 && x.r.address + 16 <= 0x1_0000)
  {
    hide Read, RecordText, Checksum, WordOf;
    if i >= 0x8000 {
      HighRecordRead(pm, i, r0, rest);
    } else {
      ChunkFits(pm, i);
      ReadOfWritten(ChunkRecord(pm, i, Blank()), r0, rest);
    }
  }

  lemma BelowUntouched(mem: Memory, r: Record)
    requires r.len == 16 && r.address + 16 <= 0x1_0000
    ensures Fits(r) && Apply(mem, r)[0x8000] == mem[0x8000]
  {
    hide WordOf;
  }

  lemma ChunkElsewhere(pm: Memory, i: nat, r0: Record, rest: string, mem: Memory)
    requires i % 8 == 0 && i + 8 <= PM_SIZE
    ensures var text := RecordText(ChunkRecord(pm, i, Blank())) + rest; var x := Read(text, r0);
            if x.code == Ok then
              Fits(x.r) && Apply(mem, x.r)[0x8000] == mem[0x8000]
              && Load(text, r0, mem) == Load(rest, x.r, Apply(mem, x.r))
            else Load(text, r0, mem) == mem
  {
    hide Read, RecordText, ChunkRecord, Apply, Fits;
    ChunkBelow(pm, i, r0, rest);
    var x := Read(RecordText(ChunkRecord(pm, i, Blank())) + rest, r0);
    if x.code == Ok {
      BelowUntouched(mem, x.r);
    }
  }

  /** Saving and loading restores flash, whatever memory held before, if and only if no more than 64 KiB are saved. */
  lemma RestoresIff(pm: Memory, size: nat)
    requires size <= PM_SIZE
    ensures (forall r0, mem, i :: 0 <= i < size ==> Load(Saved(pm, size), r0, mem)[i] == pm[i]) <==> size <= 0x8000
  {
    hide Load, Saved, Verified, LastRecord;
    if size <= 0x8000 {
      forall r0, mem: Memory, i | 0 <= i < size
        ensures Load(Saved(pm, size), r0, mem)[i] == pm[i]
      {
        SaveThenLoad(pm, size, r0, mem);
      }
    } else {
      var mem: Memory := pm[0x8000 := if pm[0x8000] == 0 then 1 else 0];
      SavedMisses(pm, size, End(), mem);
    }
  }

  lemma SavedMisses(pm: Memory, size: nat, r0: Record, mem: Memory)
    requires size <= PM_SIZE
    ensures Load(Saved(pm, size), r0, mem)[0x8000] == mem[0x8000]
  {
    LimitUntouched(pm, 0, size, r0, mem);
    hide Load, Text, RecordText, Chunks;
  }
}
