/**
  The thread-safe bounded queue of src/msim_tsq.c: a ring of fixed-size elements.
  Here are the data and the critical sections of its operations; TsqThreads.dfy
  runs them in two threads.
 */
module Tsq {
  import opened Basics

  const ELEMSZ: nat := 1024

  /** An element slot of the ring. */
  type Slot = s: seq<byte> | |s| == ELEMSZ witness seq(ELEMSZ, _ => 0)

  /** memcpy of a message into a slot: what the slot held beyond the message stays. */
  function Fill(slot: Slot, e: seq<byte>): (s: Slot)
    requires |e| <= ELEMSZ
    ensures s[..|e|] == e && s[|e|..] == slot[|e|..]
  {
    e + slot[|e|..]
  }

  /** The fields of a queue; length is a 32-bit counter. */
  datatype Ring = Ring(slots: seq<Slot>, head: nat, tail: nat, length: nat)
  {
    ghost predicate Valid() {
      head < |slots| < WORD && tail < |slots| && length <= |slots| && tail == Wrap(head + length, |slots|)
    }

    /** The elements in the queue, oldest first. */
    function Contents(): (q: seq<Slot>)
      requires head < |slots| && length <= |slots|
      ensures |q| == length
    {
      seq(length, k requires 0 <= k < length => slots[Wrap(head + k, |slots|)])
    }

    predicate Full() {
      length > 0 && tail == head
    }

    predicate Empty() {
      length == 0 && tail == head
    }

    function Stored(e: seq<byte>): Ring
      requires tail < |slots| && |e| <= ELEMSZ
    {
      Ring(slots[tail := Fill(slots[tail], e)], head, if tail == |slots| - 1 then 0 else tail + 1, (length + 1) % WORD)
    }

    function Taken(): Ring {
      Ring(slots, if head == |slots| - 1 then 0 else head + 1, tail, (length - 1) % WORD)
    }
  }

  function Wrap(i: nat, size: nat): (j: nat)
    requires i < 2 * size
    ensures j < size
  {
    if i < size then i else i - size
  }

  /** Wrap is reduction modulo the ring size. */
  lemma WrapIsMod(i: nat, size: nat)
    requires i < 2 * size
    ensures Wrap(i, size) == i % size
  {
    if i >= size {
      assert i == size * 1 + (i - size);
    }
  }

  /** The tests on the indices tell a full ring and an empty ring. */
  lemma FullAndEmpty(r: Ring)
    requires r.Valid()
    ensures r.Full() <==> r.length == |r.slots|
    ensures r.Empty() <==> r.length == 0
  {
  }

  /** Storing into a ring that is not full appends the message. */
  lemma StoreAppends(r: Ring, e: seq<byte>)
    requires r.Valid() && r.length < |r.slots| && |e| <= ELEMSZ
    ensures var r' := r.Stored(e);
      r'.Valid() && |r'.slots| == |r.slots| && r'.length == r.length + 1 &&
      r'.Contents() == r.Contents() + [Fill(r.slots[r.tail], e)]
  {
    var r' := r.Stored(e);
    assert r'.length == r.length + 1;
    forall k | 0 <= k < r'.length
      ensures r'.Contents()[k] == (r.Contents() + [Fill(r.slots[r.tail], e)])[k]
    {
      var i := Wrap(r.head + k, |r.slots|);
      assert r'.Contents()[k] == r'.slots[i];
      if k < r.length {
        assert r.Contents()[k] == r.slots[i] && i != r.tail;
      }
    }
  }

  /** Taking from a ring that is not empty removes the oldest element. */
  lemma TakeRemoves(r: Ring)
    requires r.Valid() && r.length > 0
    ensures var r' := r.Taken();
      r'.Valid() && r'.slots == r.slots && r'.length == r.length - 1 &&
      r.Contents() == [r.slots[r.head]] + r'.Contents()
  {
    var r' := r.Taken();
    assert r'.length == r.length - 1;
    forall k | 0 <= k < r.length
      ensures r.Contents()[k] == ([r.slots[r.head]] + r'.Contents())[k]
    {
      assert r.Contents()[k] == r.slots[Wrap(r.head + k, |r.slots|)];
      if k > 0 {
        assert r'.Contents()[k - 1] == r.slots[Wrap(r'.head + (k - 1), |r.slots|)];
      }
    }
  }

  /** The critical sections of the queue operations. */
  class Queue {
    var head: nat
    var tail: nat
    var length: nat
    var slots: seq<Slot>

    function Now(): Ring
      reads this
    {
      Ring(slots, head, tail, length)
    }

    /** `MSIM_TSQ_Init`; the old contents of the slots do not matter. */
    constructor (old_slots: seq<Slot>)
      requires 0 < |old_slots| < WORD
      ensures Now().Valid() && Now().Contents() == [] && slots == old_slots
    {
      head, tail, length, slots := 0, 0, 0, old_slots;
    }

    /** The part of `MSIM_TSQ_Enqb` that stores an element. */
    method Store(e: seq<byte>)
      requires tail < |slots| && length < WORD - 1 && |e| <= ELEMSZ
      modifies this
      ensures Now() == old(Now()).Stored(e)
      ensures old(Now().Valid() && !Now().Full()) ==>
        Now().Valid() && Now().Contents() == old(Now().Contents()) + [Fill(old(slots[tail]), e)]
    {
      if Now().Valid() && !Now().Full() {
        FullAndEmpty(Now());
        StoreAppends(Now(), e);
      }
      hide Ring.Valid, Ring.Full, Ring.Contents;
      slots := slots[tail := Fill(slots[tail], e)];
      length := length + 1;
      if tail == |slots| - 1 {
        tail := 0;
      } else {
        tail := tail + 1;
      }
    }

    /** The part of `MSIM_TSQ_Deqb` that takes the first len bytes of the oldest element. */
    method Take(len: nat) returns (e: seq<byte>)
      requires head < |slots| && 0 < length < WORD && len <= ELEMSZ
      modifies this`head, this`length
      ensures Now() == old(Now()).Taken() && e == old(slots[head][..len])
      ensures old(Now().Valid() && !Now().Empty()) ==>
        Now().Valid() && old(Now().Contents()) == [old(slots[head])] + Now().Contents()
    {
      if Now().Valid() && !Now().Empty() {
        FullAndEmpty(Now());
        TakeRemoves(Now());
      }
      hide Ring.Valid, Ring.Empty, Ring.Contents;
      e := slots[head][..len];
      length := length - 1;
      if head == |slots| - 1 {
        head := 0;
      } else {
        head := head + 1;
      }
    }
  }
}
