/**
  What the loader makes of a file of valid records, and of a file written by the saver.
 */
module FlashFiles {
  import opened Basics
  import opened Arithmetic
  import opened IHex
  import opened IHexLines
  import opened Flash

  predicate IsData(r: Record) {
    r.kind == 0
  }

  /** A valid record other than the end of the file; data are whole words. */
  predicate Loadable(r: Record) {
    WellFormed(r) && r.kind != 1 && (IsData(r) ==> r.address % 2 == 0 && r.len % 2 == 0)
  }

  predicate AllLoadable(rs: seq<Record>) {
    forall k :: 0 <= k < |rs| ==> Loadable(rs[k])
  }

  predicate Apart(r: Record, t: Record) {
    First(r) + Words(r) <= First(t) || First(t) + Words(t) <= First(r)
  }

  /** No two data records share a word. */
  predicate AllApart(rs: seq<Record>) {
    forall j, k :: 0 <= j < k < |rs| && IsData(rs[j]) && IsData(rs[k]) ==> Apart(rs[j], rs[k])
  }

  /** Memory after storing records one after the other. */
  function StoreAll(mem: Memory, rs: seq<Record>): Memory
    requires AllLoadable(rs)
    decreases |rs|
  {
    if rs == [] then mem else StoreAll(Apply(mem, rs[0]), rs[1..])
  }

  /** Memory holds the words of a record. */
  predicate Holds(mem: Memory, r: Record)
    requires Loadable(r)
  {
    forall k :: 0 <= k < Words(r) ==> mem[First(r) + k] == WordOf(r, k)
  }

  predicate Covered(rs: seq<Record>, i: nat) {
    exists k :: 0 <= k < |rs| && IsData(rs[k]) && Covers(rs[k], i)
  }

  // ---------- storing a list of records ----------

  lemma {:induction false} StoreAllKeeps(mem: Memory, rs: seq<Record>, i: nat)
    requires AllLoadable(rs) && i < PM_SIZE && !Covered(rs, i)
    ensures StoreAll(mem, rs)[i] == mem[i]
    decreases |rs|
  {
    if rs != [] {
      assert forall k :: 0 <= k < |rs| - 1 ==> rs[1..][k] == rs[k + 1];
      assert Apply(mem, rs[0])[i] == mem[i];
      StoreAllKeeps(Apply(mem, rs[0]), rs[1..], i);
    }
  }

  /** The words of the first record are not written again. */
  lemma RestMisses(rs: seq<Record>, i: nat)
    requires AllApart(rs) && rs != [] && IsData(rs[0]) && Covers(rs[0], i)
    ensures !Covered(rs[1..], i)
  {
    hide IsData;
    forall k | 1 <= k < |rs| && IsData(rs[k])
      ensures !Covers(rs[k], i)
    {
      assert Apart(rs[0], rs[k]);
    }
  }

  lemma AllFits(rs: seq<Record>)
    requires AllLoadable(rs)
    ensures forall k :: 0 <= k < |rs| ==> Fits(rs[k])
  {
  }

  lemma FirstHeld(mem: Memory, rs: seq<Record>)
    requires AllLoadable(rs) && AllApart(rs) && rs != [] && IsData(rs[0])
    ensures Holds(StoreAll(Apply(mem, rs[0]), rs[1..]), rs[0])
  {
    hide Loadable, Apart, AllApart, Covered, StoreAll, WordOf;
    AllFits(rs);
    var rest, next := rs[1..], Apply(mem, rs[0]);
    forall w | 0 <= w < Words(rs[0])
      ensures StoreAll(next, rest)[First(rs[0]) + w] == WordOf(rs[0], w)
    {
      RestMisses(rs, First(rs[0]) + w);
      StoreAllKeeps(next, rest, First(rs[0]) + w);
    }
  }

  /** Records that do not share words are all held by memory in the end. */
  lemma {:induction false} StoreAllHolds(mem: Memory, rs: seq<Record>, k: nat)
    requires AllLoadable(rs) && AllApart(rs) && k < |rs| && IsData(rs[k])
    ensures Holds(StoreAll(mem, rs), rs[k])
    decreases |rs|
  {
    hide Loadable, Apart, Holds, IsData, Apply, StoreAll;
    AllFits(rs);
    StoreAllNext(mem, rs);
    if k > 0 {
      StoreAllHolds(Apply(mem, rs[0]), rs[1..], k - 1);
    } else {
      FirstHeld(mem, rs);
    }
  }

  lemma StoreAllNext(mem: Memory, rs: seq<Record>)
    requires AllLoadable(rs) && rs != []
    ensures StoreAll(mem, rs) == StoreAll(Apply(mem, rs[0]), rs[1..])
  {
    hide Loadable, Apply;
  }

  /** A record whose words memory holds matches it. */
  lemma HeldMatches(mem: Memory, r: Record)
    requires Loadable(r) && IsData(r) && Holds(mem, r)
    ensures Matches(mem, r)
  {
    forall j | 0 <= j < r.len
      ensures BytesAt(mem, First(r), r.len)[j] == r.buf[j]
    {
      assert mem[First(r) + j / 2] == WordOf(r, j / 2);
    }
    assert BytesAt(mem, First(r), r.len) == r.Data();
    hide Checksum, BytesAt;
  }

  // ---------- reading a list of records ----------

  lemma TextOfFirst(rs: seq<Record>, tail: string)
    requires AllLoadable(rs) && rs != []
    ensures Text(rs) + tail == RecordText(rs[0]) + (Text(rs[1..]) + tail)
  {
    hide RecordText, WellFormed;
  }

  /** A record read back has the words of the record that was written. */
  lemma SameWords(mem: Memory, r: Record, buf0: Buffer)
    requires Loadable(r)
    ensures var t := r.(buf := r.Data() + buf0[r.len..]);
            Fits(t) && Apply(mem, t) == Apply(mem, r) && (IsData(r) ==> (Matches(mem, t) <==> Matches(mem, r)))
  {
    hide Checksum;
    var t := r.(buf := r.Data() + buf0[r.len..]);
    if IsData(r) {
      assert forall k :: 0 <= k < Words(r) ==> WordOf(t, k) == WordOf(r, k);
    }
  }

  /** The record left after reading one that was written. */
  function Kept(r: Record, r0: Record): Record
    requires r.len <= MAX_DATA
  {
    r.(buf := r.Data() + r0.buf[r.len..])
  }

  /** Both passes over a written record. */
  lemma RecordFirst(r: Record, r0: Record, text: string, mem: Memory)
    requires Loadable(r)
    ensures Load(RecordText(r) + text, r0, mem) == Load(text, Kept(r, r0), Apply(mem, r))
    ensures Verified(RecordText(r) + text, r0, mem) <==>
      (IsData(r) ==> Matches(mem, r)) && Verified(text, Kept(r, r0), mem)
  {
    ReadOfWritten(r, r0, text);
    SameWords(mem, r, r0.buf);
    hide Read, RecordText, WellFormed, Apply, Matches;
  }

  /** The first pass over the text of some records stores them one after the other. */
  lemma {:induction false} LoadOfText(rs: seq<Record>, tail: string, r0: Record, mem: Memory) returns (last: Record)
    requires AllLoadable(rs)
    ensures Load(Text(rs) + tail, r0, mem) == Load(tail, last, StoreAll(mem, rs))
    decreases |rs|
  {
    if rs == [] {
      last := r0;
      assert Text(rs) + tail == tail;
    } else {
      TextOfFirst(rs, tail);
      RecordFirst(rs[0], r0, Text(rs[1..]) + tail, mem);
      last := LoadOfText(rs[1..], tail, Kept(rs[0], r0), Apply(mem, rs[0]));
      StoreAllNext(mem, rs);
      hide *;
    }
  }

  /** Memory matches every data record. */
  ghost predicate AllMatch(rs: seq<Record>, mem: Memory)
    requires AllLoadable(rs)
  {
    forall k :: 0 <= k < |rs| && IsData(rs[k]) ==> Matches(mem, rs[k])
  }

  /** The second pass over records, and then over a text that it accepts. */
  lemma {:induction false} VerifiedBefore(rs: seq<Record>, tail: string, r0: Record, mem: Memory)
    requires AllLoadable(rs) && forall r :: Verified(tail, r, mem)
    ensures Verified(Text(rs) + tail, r0, mem) <==> AllMatch(rs, mem)
    decreases |rs|
  {
    if rs == [] {
      assert Text(rs) + tail == tail;
    } else {
      TextOfFirst(rs, tail);
      RecordFirst(rs[0], r0, Text(rs[1..]) + tail, mem);
      VerifiedBefore(rs[1..], tail, Kept(rs[0], r0), mem);
      MatchesFirst(rs, mem);
      hide *;
    }
  }

  /** The second pass succeeds exactly when memory matches every data record before the end of the file. */
  lemma VerifiedText(rs: seq<Record>, tail: string, r0: Record, mem: Memory)
    requires AllLoadable(rs)
    ensures Verified(Text(rs) + (RecordText(End()) + tail), r0, mem) <==> AllMatch(rs, mem)
  {
    hide Read, RecordText, AllMatch;
    forall r
      ensures Verified(RecordText(End()) + tail, r, mem)
    {
      EndRead(r, tail);
    }
    VerifiedBefore(rs, RecordText(End()) + tail, r0, mem);
  }

  lemma MatchesFirst(rs: seq<Record>, mem: Memory)
    requires AllLoadable(rs) && rs != []
    ensures AllMatch(rs, mem) <==> (IsData(rs[0]) ==> Matches(mem, rs[0])) && AllMatch(rs[1..], mem)
  {
    hide Matches;
    if AllMatch(rs[1..], mem) {
      forall k | 1 <= k < |rs| && IsData(rs[k])
        ensures Matches(mem, rs[k])
      {
        assert rs[k] == rs[1..][k - 1];
      }
    }
  }

  lemma EndRead(r0: Record, tail: string)
    ensures var x := Read(RecordText(End()) + tail, r0);
            x.code == Ok && x.r.kind == 1 && x.r.len == 0 && x.rest == tail
  {
    assert End().Data() == [];
    ReadOfWritten(End(), r0, tail);
  }

  /** The first pass reads on after the end-of-file record. */
  lemma LoadPastEnd(r0: Record, tail: string, mem: Memory) returns (last: Record)
    ensures Load(RecordText(End()) + tail, r0, mem) == Load(tail, last, mem)
  {
    EndRead(r0, tail);
    hide Read, RecordText;
    last := Read(RecordText(End()) + tail, r0).r;
  }

  // ---------- the theorems ----------

  /** The file of a list of records. */
  function File(rs: seq<Record>): string
    requires AllLoadable(rs)
  {
    Text(rs) + RecordText(End())
  }

  lemma NothingLoads(r0: Record, mem: Memory)
    ensures Load("", r0, mem) == mem
  {
  }

  /**
    Records after the end of the file are stored by the first pass all the same,
    and the second pass does not look at them.
   */
  lemma PastEndUnverified(rs: seq<Record>, more: seq<Record>, r0: Record, mem: Memory)
    requires AllLoadable(rs) && AllLoadable(more)
    ensures Load(File(rs) + Text(more), r0, mem) == StoreAll(StoreAll(mem, rs), more)
    ensures forall r, m :: Verified(File(rs) + Text(more), r, m) <==> AllMatch(rs, m)
  {
    FileText(rs, more);
    var stored := StoreAll(mem, rs);
    var r1 := LoadOfText(rs, RecordText(End()) + Text(more), r0, mem);
    var r2 := LoadPastEnd(r1, Text(more), stored);
    TextLoads(more, r2, stored);
    hide *;
    forall r, m
      ensures Verified(File(rs) + Text(more), r, m) <==> AllMatch(rs, m)
    {
      VerifiedText(rs, Text(more), r, m);
    }
  }

  lemma FileText(rs: seq<Record>, more: seq<Record>)
    requires AllLoadable(rs) && AllLoadable(more)
    ensures File(rs) + Text(more) == Text(rs) + (RecordText(End()) + Text(more))
  {
    hide Text, RecordText;
  }

  lemma TextLoads(rs: seq<Record>, r0: Record, mem: Memory)
    requires AllLoadable(rs)
    ensures Load(Text(rs), r0, mem) == StoreAll(mem, rs)
  {
    var last := LoadOfText(rs, "", r0, mem);
    NothingLoads(last, StoreAll(mem, rs));
    hide Text, Load, StoreAll;
    assert Text(rs) + "" == Text(rs);
  }

  /**
    Loading valid records that do not share words: the second pass finds no mismatch,
    memory holds every record and is otherwise unchanged.
   */
  lemma LoaderVerifies(rs: seq<Record>, r0: Record, mem: Memory)
    requires AllLoadable(rs) && AllApart(rs)
    ensures var loaded := Load(File(rs), r0, mem);
            && Verified(File(rs), LastRecord(File(rs), r0), loaded)
            && (forall k :: 0 <= k < |rs| && IsData(rs[k]) ==> Holds(loaded, rs[k]))
            && (forall i :: 0 <= i < PM_SIZE && !Covered(rs, i) ==> loaded[i] == mem[i])
  {
    PastEndUnverified(rs, [], r0, mem);
    assert File(rs) + Text([]) == File(rs);
    var loaded := StoreAll(mem, rs);
    assert StoreAll(loaded, []) == loaded;
    hide File, Verified, Load, LastRecord, Matches, Holds, Covered, StoreAll, Checksum;
    forall k | 0 <= k < |rs| && IsData(rs[k])
      ensures Holds(loaded, rs[k]) && Matches(loaded, rs[k])
    {
      StoreAllHolds(mem, rs, k);
      HeldMatches(loaded, rs[k]);
    }
    forall i | 0 <= i < PM_SIZE && !Covered(rs, i)
      ensures loaded[i] == mem[i]
    {
      StoreAllKeeps(mem, rs, i);
    }
  }

  // ---------- mismatches are reported ----------

  lemma SameChecksum(x: int, y: int, k: int)
    ensures (-(k + x)) % 256 == (-(k + y)) % 256 <==> (x - y) % 256 == 0
  {
    var p, a := DivMod(-(k + x), 256);
    var q, b := DivMod(-(k + y), 256);
    if a == b {
      DivModUnique(x - y, 256, q - p, 0);
    }
    var w, z := DivMod(x - y, 256);
    if z == 0 {
      DivModUnique(-(k + x), 256, q - w, b);
    }
  }

  /** The second pass sees a difference exactly when it changes the sum of the bytes modulo 256. */
  lemma MatchesIff(mem: Memory, r: Record)
    requires Loadable(r)
    ensures Matches(mem, r) <==> (Sum(BytesAt(mem, First(r), r.len)) - Sum(r.Data())) % 256 == 0
  {
    var b := BytesAt(mem, First(r), r.len);
    var k := r.len + r.kind + r.address + (r.address / 256) % 256;
    assert |r.Data()| == r.len == |b|;
    SameChecksum(Sum(b), Sum(r.Data()), k);
    hide BytesAt, Sum;
  }

  /** So one byte of memory that differs is reported. */
  lemma OneByteReported(rs: seq<Record>, k: nat, j: nat, tail: string, r0: Record, mem: Memory)
    requires AllLoadable(rs) && k < |rs| && IsData(rs[k]) && j < rs[k].len
    requires var b := BytesAt(mem, First(rs[k]), rs[k].len);
             b[j] != rs[k].buf[j] && rs[k].Data() == b[j := rs[k].buf[j]]
    ensures !Verified(Text(rs) + (RecordText(End()) + tail), r0, mem)
  {
    hide Text, RecordText, Verified, BytesAt, Sum, Matches, Checksum;
    var r := rs[k];
    var b := BytesAt(mem, First(r), r.len);
    VerifiedText(rs, tail, r0, mem);
    MatchesIff(mem, r);
    SumOfChanged(b, j, r.buf[j]);
    var d: int, e: int := r.buf[j], b[j];
    NotZero(0, e - d);
  }

  /** A word is stored with its first byte low, at half the address. */
  lemma StoredLittleEndian(mem: Memory, r: Record, k: nat)
    requires Loadable(r) && IsData(r) && 2 * k + 1 < r.len
    ensures
      var word: nat := Apply(mem, r)[(r.address + 2 * k) / 2];
      word % 256 == r.Data()[2 * k] && word / 256 == r.Data()[2 * k + 1]
  {
    assert (r.address + 2 * k) / 2 == First(r) + k;
    hide Checksum;
  }

  // ---------- a line that is not read ----------

  /** A text whose first line does not hold a record. */
  ghost predicate Broken(text: string) {
    forall r :: Read(text, r).code != Ok
  }

  /** An empty line between records is one. */
  lemma EmptyLineBroken(rest: string)
    ensures Broken("\r\n" + rest)
  {
    var file := "\r\n" + rest;
    forall r
      ensures Read(file, r).code != Ok
    {
      assert file[..LineLength(file, LINE_MAX)][0] == '\r';
    }
  }

  /** A written line in which a byte changed, behind its length, is another. */
  lemma ChangedLineBroken(r: Record, k: nat, b: byte, more: string)
    requires WellFormed(r) && 1 <= k < 5 + r.len && b != LineBytes(r.kind, r.address, r.Data())[k]
    ensures Broken(":" + HexBytes(LineBytes(r.kind, r.address, r.Data())[k := b]) + "\r\n" + more)
  {
    hide HexBytes, Read, Checksum;
    var file := ":" + HexBytes(LineBytes(r.kind, r.address, r.Data())[k := b]) + "\r\n" + more;
    forall r0
      ensures Read(file, r0).code != Ok
    {
      ChangedByteRefused(r, k, b, more, r0);
    }
  }

  ghost predicate AllHeld(mem: Memory, rs: seq<Record>)
    requires AllLoadable(rs)
  {
    forall k :: 0 <= k < |rs| && IsData(rs[k]) ==> Holds(mem, rs[k])
  }

  /** A record is not touched by others that share no word with it. */
  lemma ApartKept(mem: Memory, rs: seq<Record>, r: Record)
    requires AllLoadable(rs) && Loadable(r) && IsData(r)
    requires forall k :: 0 <= k < |rs| && IsData(rs[k]) ==> Apart(rs[k], r)
    ensures Holds(StoreAll(mem, rs), r) <==> Holds(mem, r)
  {
    hide Loadable, StoreAll, WordOf, IsData;
    InMemory(r);
    var loaded := StoreAll(mem, rs);
    forall w | 0 <= w < Words(r)
      ensures loaded[First(r) + w] == WordOf(r, w) <==> mem[First(r) + w] == WordOf(r, w)
    {
      StoreAllKeeps(mem, rs, First(r) + w);
    }
  }

  lemma InMemory(r: Record)
    requires Loadable(r)
    ensures Words(r) <= MAX_DATA / 2 && First(r) + Words(r) <= PM_SIZE
  {
  }

  /**
    A line that is not read ends both passes, and still the code says that the file was
    verified: all its records are in memory exactly when those behind the line were
    there before the load.
   */
  lemma BrokenLineHides(rs: seq<Record>, bad: string, more: seq<Record>, r0: Record, mem: Memory)
    requires AllLoadable(rs) && AllLoadable(more) && AllApart(rs + more) && Broken(bad + Text(more))
    ensures var file := Text(rs) + (bad + Text(more)); var loaded := Load(file, r0, mem);
            && Verified(file, LastRecord(file, r0), loaded)
            && AllHeld(loaded, rs) && (AllHeld(loaded, more) <==> AllHeld(mem, more))
  {
    hide Loadable, Apart, IsData, Holds, Matches, StoreAll, Read, Text, LastRecord;
    AllFits(rs);
    AllFits(more);
    var tail := bad + Text(more);
    var loaded := StoreAll(mem, rs);
    var last := LoadOfText(rs, tail, r0, mem);
    assert forall r :: Verified(tail, r, loaded);
    VerifiedBefore(rs, tail, LastRecord(Text(rs) + tail, r0), loaded);
    forall k | 0 <= k < |rs| && IsData(rs[k])
      ensures Holds(loaded, rs[k]) && Matches(loaded, rs[k])
    {
      FrontApart(rs, more);
      StoreAllHolds(mem, rs, k);
      HeldMatches(loaded, rs[k]);
    }
    forall k | 0 <= k < |more| && IsData(more[k])
      ensures Holds(loaded, more[k]) <==> Holds(mem, more[k])
    {
      FrontApart(rs, more);
      ApartKept(mem, rs, more[k]);
    }
  }

  lemma FrontApart(rs: seq<Record>, more: seq<Record>)
    requires AllApart(rs + more)
    ensures AllApart(rs)
    ensures forall j, k :: 0 <= j < |rs| && 0 <= k < |more| && IsData(rs[j]) && IsData(more[k]) ==>
      Apart(rs[j], more[k])
  {
    hide IsData, Apart;
    forall j, k | 0 <= j < |rs| && 0 <= k < |more| && IsData(rs[j]) && IsData(more[k])
      ensures Apart(rs[j], more[k])
    {
      assert (rs + more)[j] == rs[j] && (rs + more)[|rs| + k] == more[k];
    }
    forall j, k | 0 <= j < k < |rs| && IsData(rs[j]) && IsData(rs[k])
      ensures Apart(rs[j], rs[k])
    {
      assert (rs + more)[j] == rs[j] && (rs + more)[k] == rs[k];
    }
  }

  // ---------- saving and loading ----------

  lemma {:induction false} ChunkAt(mem: Memory, i: nat, size: nat, k: nat)
    requires i % 8 == 0 && size <= PM_SIZE && k < |Chunks(mem, i, size)|
    ensures i + 8 * k < size && Chunks(mem, i, size)[k] == ChunkRecord(mem, i + 8 * k, Blank())
    decreases k
  {
    hide ChunkRecord;
    if k > 0 {
      ChunkAt(mem, i + 8, size, k - 1);
    }
  }

  lemma {:induction false} ChunkCount(mem: Memory, i: nat, size: nat)
    requires i % 8 == 0 && size <= PM_SIZE
    ensures |Chunks(mem, i, size)| == if i < size then (size - i + 7) / 8 else 0
    decreases size - i
  {
    hide ChunkRecord;
    if i < size {
      ChunkCount(mem, i + 8, size);
    }
  }

  lemma ChunkFits(mem: Memory, i: nat)
    requires i % 8 == 0 && i < 0x8000
    ensures var r := ChunkRecord(mem, i, Blank());
            && Loadable(r) && IsData(r) && First(r) == i && Words(r) == 8
            && forall k :: 0 <= k < 8 ==> WordOf(r, k) == mem[i + k]
  {
    var r := ChunkRecord(mem, i, Blank());
    assert r.address == 2 * i && r.kind == 0 && r.len == 16 && r.checksum == Checksum(0, 2 * i, r.Data());
    forall k | 0 <= k < 8
      ensures WordOf(r, k) == mem[i + k]
    {
      ChunkWord(mem, i, k);
    }
    hide Checksum, ChunkRecord, WordOf, Chunk;
  }

  lemma ChunkWord(mem: Memory, i: nat, k: nat)
    requires i + 8 <= PM_SIZE && k < 8
    ensures WordOf(ChunkRecord(mem, i, Blank()), k) == mem[i + k]
  {
    hide Checksum;
    var r := ChunkRecord(mem, i, Blank());
    assert r.buf[2 * k] == Chunk(mem, i)[2 * k] && r.buf[2 * k + 1] == Chunk(mem, i)[2 * k + 1];
  }

  /** The records of the saver, up to 64 KiB: the k-th one holds the words from 8 * k. */
  lemma SavedRecords(mem: Memory, size: nat)
    requires size <= 0x8000
    ensures var rs := Chunks(mem, 0, size);
            && |rs| == (size + 7) / 8 && AllLoadable(rs)
            && forall k :: 0 <= k < |rs| ==>
                 && IsData(rs[k]) && First(rs[k]) == 8 * k && Words(rs[k]) == 8
                 && forall w :: 0 <= w < 8 ==> WordOf(rs[k], w) == mem[8 * k + w]
  {
    var rs := Chunks(mem, 0, size);
    ChunkCount(mem, 0, size);
    hide Chunks, ChunkRecord, Loadable, IsData, First, Words, WordOf;
    forall k | 0 <= k < |rs|
      ensures && Loadable(rs[k]) && IsData(rs[k]) && First(rs[k]) == 8 * k && Words(rs[k]) == 8
              && forall w :: 0 <= w < 8 ==> WordOf(rs[k], w) == mem[8 * k + w]
    {
      ChunkAt(mem, 0, size, k);
      ChunkFits(mem, 8 * k);
    }
  }

  lemma SavedIsFile(mem: Memory, size: nat)
    requires size <= PM_SIZE && AllLoadable(Chunks(mem, 0, size))
    ensures Saved(mem, size) == File(Chunks(mem, 0, size))
  {
    hide Chunks, RecordText, Text;
  }

  lemma HeldWord(loaded: Memory, r: Record, pm: Memory, k: nat, w: nat)
    requires Loadable(r) && Holds(loaded, r) && First(r) == 8 * k && w < Words(r) == 8
    requires 8 * k + w < PM_SIZE && WordOf(r, w) == pm[8 * k + w]
    ensures loaded[8 * k + w] == pm[8 * k + w]
  {
    hide First, Words, WordOf, Loadable;
    assert loaded[First(r) + w] == WordOf(r, w);
  }

  /**
    Loading what was saved from the start of flash, up to 64 KiB, restores every saved
    word, passes verification and leaves everything after the last chunk alone.
   */
  lemma SaveThenLoad(pm: Memory, size: nat, r0: Record, mem: Memory)
    requires size <= 0x8000
    ensures var loaded := Load(Saved(pm, size), r0, mem);
            && Verified(Saved(pm, size), LastRecord(Saved(pm, size), r0), loaded)
            && (forall i :: 0 <= i < (size + 7) / 8 * 8 ==> loaded[i] == pm[i])
            && (forall i :: (size + 7) / 8 * 8 <= i < PM_SIZE ==> loaded[i] == mem[i])
  {
    hide Chunks, Loadable, IsData, First, Words, WordOf, Saved, File, Verified, Load, LastRecord;
    var rs := Chunks(pm, 0, size);
    SavedRecords(pm, size);
    SavedIsFile(pm, size);
    assert AllApart(rs);
    LoaderVerifies(rs, r0, mem);
    var loaded := Load(File(rs), r0, mem);
    forall i | 0 <= i < (size + 7) / 8 * 8
      ensures loaded[i] == pm[i]
    {
      HeldWord(loaded, rs[i / 8], pm, i / 8, i % 8);
    }
    forall i | (size + 7) / 8 * 8 <= i < PM_SIZE
      ensures loaded[i] == mem[i]
    {
      assert !Covered(rs, i);
    }
  }
}
