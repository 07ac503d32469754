/** The kernel FIFO (kernel/kfifo.c): a ring of fixed-size slots that refines a
    bounded queue which drops its oldest record when full. */
module KFifoCode {
  import opened Basics

  /** A slot: the recsize header, used in structured mode only, and the payload. */
  datatype Slot = Slot(recsize: nat, payload: seq<Byte>)

  /** The queue the ring stands for: a new record pushes out the oldest one when
      the capacity is reached. */
  function DropOldest<T>(q: seq<T>, capacity: nat, x: T): seq<T> {
    if |q| == capacity && q != [] then q[1..] + [x] else q + [x]
  }

  function Wrap(i: nat, size: nat): nat
    requires i < 2 * size
    ensures Wrap(i, size) < size
  {
    if i < size then i else i - size
  }

  /** The bytes of the record in a slot. */
  ghost function Record(s: Slot, esize: nat): seq<Byte> {
    if esize > 1 && s.recsize <= |s.payload| then s.payload[..s.recsize] else s.payload
  }

  /** The records of a ring of slots, oldest first. */
  ghost function Records(slots: seq<Slot>, start: nat, count: nat, esize: nat): (q: seq<seq<Byte>>)
    requires start < |slots| && count <= |slots|
    ensures |q| == count
  {
    seq(count, i requires 0 <= i < count => Record(slots[Wrap(start + i, |slots|)], esize))
  }

  lemma PushFree(slots: seq<Slot>, start: nat, count: nat, esize: nat, s: Slot)
    requires start < |slots| && count < |slots|
    ensures Records(slots[Wrap(start + count, |slots|) := s], start, count + 1, esize) ==
            Records(slots, start, count, esize) + [Record(s, esize)]
  {
    var at := Wrap(start + count, |slots|);
    var a, b := Records(slots[at := s], start, count + 1, esize), Records(slots, start, count, esize);
    forall i | 0 <= i < count ensures a[i] == b[i] {
      assert Wrap(start + i, |slots|) != at;
    }
    assert a[count] == Record(s, esize);
    assert a == b + [Record(s, esize)];
  }

  lemma PushFull(slots: seq<Slot>, start: nat, esize: nat, s: Slot)
    requires start < |slots|
    ensures Records(slots[start := s], Wrap(start + 1, |slots|), |slots|, esize) ==
            Records(slots, start, |slots|, esize)[1..] + [Record(s, esize)]
  {
    var n, next := |slots|, Wrap(start + 1, |slots|);
    var a, b := Records(slots[start := s], next, n, esize), Records(slots, start, n, esize);
    forall i | 0 <= i < n - 1 ensures a[i] == b[i + 1] {
      assert Wrap(next + i, n) == Wrap(start + (i + 1), n) != start;
    }
    assert Wrap(next + (n - 1), n) == start;
    assert a[n - 1] == Record(s, esize);
    assert a == b[1..] + [Record(s, esize)];
  }

  lemma Pop(slots: seq<Slot>, start: nat, count: nat, esize: nat)
    requires start < |slots| && 0 < count <= |slots|
    ensures Records(slots, Wrap(start + 1, |slots|), count - 1, esize) == Records(slots, start, count, esize)[1..]
    ensures Records(slots, start, count, esize)[0] == Record(slots[start], esize)
  {
    var n, next := |slots|, Wrap(start + 1, |slots|);
    var a, b := Records(slots, next, count - 1, esize), Records(slots, start, count, esize);
    forall i | 0 <= i < count - 1 ensures a[i] == b[i + 1] {
      assert Wrap(next + i, n) == Wrap(start + (i + 1), n);
    }
    assert Wrap(start + 0, n) == start;
    assert a == b[1..];
  }

  class KFifo {
    const data: array<Slot>
    const size: nat
    const esize: nat
    var start: nat
    var end: nat
    var count: nat

    ghost predicate Valid()
      reads this, data
    {
      && 0 < size == data.Length && 0 < esize < 65536
      && start < size && end < size && count <= size
      && end == Wrap(start + count, size)
      && (forall i :: 0 <= i < size ==> |data[i].payload| == esize)
      && (esize > 1 ==> forall i :: 0 <= i < size ==> data[i].recsize <= esize)
    }

    /** The records in the FIFO, oldest first. */
    ghost function Contents(): (q: seq<seq<Byte>>)
      requires Valid()
      reads this, data
    {
      Records(data[..], start, count, esize)
    }

    /** kfifo_avail. */
    function Avail(): nat
      requires count <= size
      reads this
    {
      size - count
    }

    /** kfifo_init. */
    constructor (capacity: nat, elementSize: nat)
      requires capacity > 0 && 0 < elementSize < 65536
      ensures Valid() && Contents() == [] && size == capacity && esize == elementSize && fresh(data)
    {
      size, esize := capacity, elementSize;
      start, end, count := 0, 0, 0;
      data := new Slot[capacity](_ => Slot(0, seq(elementSize, _ => 0)));
    }

    /** kfifo_increase. */
    method Increase(ptr: nat) returns (r: nat)
      requires ptr < size
      ensures r == Wrap(ptr + 1, size)
    {
      r := ptr + 1;
      if r >= size {
        r := 0;
      }
    }

    /** kfifo_in: n bytes are copied over the start of a slot's payload. */
    method In(buf: seq<Byte>)
      requires Valid() && |buf| <= esize && (esize == 1 ==> |buf| == 1)
      modifies this`start, this`end, this`count, data
      ensures Valid() && Contents() == DropOldest(old(Contents()), size, buf)
      ensures count == if old(count) == size then size else old(count) + 1
    {
      var full := count == size;
      var at := if full then start else end;
      var slot := Slot(if esize > 1 then |buf| else data[at].recsize, buf + data[at].payload[|buf|..]);
      assert Record(slot, esize) == buf;
      if full {
        PushFull(data[..], start, esize, slot);
      } else {
        PushFree(data[..], start, count, esize, slot);
      }
      data[at] := slot;
      assert data[..] == old(data[..])[at := slot];
      if full {
        start := Increase(start);
      } else {
        count := count + 1;
      }
      end := Increase(end);
    }

    /** kfifo_out: the first n payload bytes of the oldest record, if there is
        one. */
    method Out(n: nat) returns (got: bool, buf: seq<Byte>)
      requires Valid() && n <= esize
      modifies this`start, this`count
      ensures Valid() && got == (old(count) > 0)
      ensures !got ==> buf == [] && Contents() == old(Contents())
      ensures got ==> Contents() == old(Contents())[1..]
      ensures got && n <= |old(Contents())[0]| ==> buf == old(Contents())[0][..n]
    {
      if count <= 0 {
        return false, [];
      }
      Pop(data[..], start, count, esize);
      buf := data[start].payload[..n];
      start := Increase(start);
      count := count - 1;
      return true, buf;
    }

    /** kfifo_out_peek: like kfifo_out, but the record stays. */
    method OutPeek(n: nat) returns (got: bool, buf: seq<Byte>)
      requires Valid() && n <= esize && (esize == 1 ==> n == 1)
      ensures got == (Contents() != [])
      ensures got && n <= |Contents()[0]| ==> buf == Contents()[0][..n]
    {
      if count <= 0 {
        return false, [];
      }
      Pop(data[..], start, count, esize);
      if esize > 1 {
        buf := data[start].payload[..n];
      } else {
        buf := [data[start].payload[0]];
      }
      return true, buf;
    }

    /** kfifo_peek_len: the length of the oldest record, or 0 for byte streams. */
    method PeekLen() returns (n: nat)
      requires Valid()
      ensures esize == 1 ==> n == 0
      ensures esize > 1 && Contents() != [] ==> n == |Contents()[0]|
    {
      if esize <= 1 {
        return 0;
      }
      if count > 0 {
        Pop(data[..], start, count, esize);
      }
      return data[start].recsize;
    }

    /** kfifo_skip. */
    method Skip()
      requires Valid()
      modifies this`start, this`count
      ensures Valid() && Contents() == if old(Contents()) == [] then [] else old(Contents())[1..]
    {
      if count > 0 {
        Pop(data[..], start, count, esize);
        start := Increase(start);
        count := count - 1;
      }
    }
  }
}
