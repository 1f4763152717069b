/** The lock-free single-producer/single-consumer ring buffer of
    src/ring-buffer.h.  The source keeps four addresses into a heap block of
    `size` elements: the first slot, the last slot (`endAddr`), the write
    cursor `head` and the read cursor `tail`.  Here the block is an array and
    every address is a slot index; the first slot is index 0. */
module RingBuffers {
  import opened Seqs

  /** The index of the last slot as line 14 of ring-buffer.h computes it:
      `startAddr + (size - 1) * sizeof(T)` on a `T*`, which scales by
      sizeof(T) a second time, so the offset is counted in elements. */
  function EndSlotAsWritten(size: nat, sizeOfT: nat): (e: nat)
    requires 1 <= size
    ensures sizeOfT == 1 ==> e == size - 1
    ensures 1 <= sizeOfT ==> size - 1 <= e
    ensures sizeOfT == 0 ==> e == 0
  {
    if 1 <= sizeOfT then MulAtLeast(size - 1, sizeOfT); (size - 1) * sizeOfT else 0
  }

  /** The index of the last slot of a `size`-element block. */
  function EndSlot(size: nat): (e: nat)
    requires 1 <= size
    ensures e < size
  {
    size - 1
  }

  /** The as-written end slot lies inside the `size`-element allocation of
      line 13 exactly when the buffer has one slot or an element is one byte. */
  lemma EndSlotAsWrittenInBounds(size: nat, sizeOfT: nat)
    requires 1 <= size && 1 <= sizeOfT
    ensures EndSlotAsWritten(size, sizeOfT) < size <==> size == 1 || sizeOfT == 1
  {
    if size > 1 && sizeOfT > 1 {
      var n := size - 1;
      assert n * sizeOfT == n + n * (sizeOfT - 1);
      MulAtLeast(n, sizeOfT - 1);
    }
  }

  /** A product of two positive numbers is at least the first. */
  lemma MulAtLeast(a: nat, b: nat)
    requires 1 <= b
    ensures a * b >= a
  {
    assert a * b == a + a * (b - 1);
  }

  /** With one-byte elements the as-written end slot is the last slot. */
  lemma EndSlotAsWrittenForBytes(size: nat)
    requires 1 <= size
    ensures EndSlotAsWritten(size, 1) == EndSlot(size)
  {
  }

  /** The controller's event buffer: 10 slots of a 3-byte event.  The
      as-written end slot is 27, far outside the 10-slot block. */
  lemma EventBufferEndSlotOverruns()
    ensures EndSlotAsWritten(10, 3) == 27
    ensures EndSlotAsWritten(10, 3) >= 10 && EndSlot(10) == 9
  {
  }

  class RingBuffer<T(0)> {
    /** Number of slots in the block (`size`). */
    const size: nat
    /** Index of the last slot the cursors may reach (`endAddr`). */
    const last: nat
    /** The block itself (`startAddr`). */
    const data: array<T>
    /** Write cursor. */
    var head: nat
    /** Read cursor. */
    var tail: nat

    ghost predicate Valid()
      reads this
    {
      data.Length == size && last < size && head <= last && tail <= last
    }

    /** The cursor after p: one slot on, wrapping from `last` to the first slot. */
    function Next(p: nat): (q: nat)
      requires p <= last
      ensures q <= last
      ensures q == 0 || q == p + 1
      ensures q == 0 <==> p == last
    {
      if p + 1 > last then 0 else p + 1
    }

    /** Usable capacity: one slot is given up to tell full from empty. */
    function Capacity(): nat
    {
      last
    }

    /** The queued elements, oldest first: the slots from `tail` up to, but
        not including, `head`, going round the end of the block. */
    ghost function Contents(): (s: seq<T>)
      reads this, data
      requires Valid()
      ensures |s| <= Capacity()
      ensures |s| == 0 <==> head == tail
    {
      if tail <= head then data[tail..head] else data[tail..last + 1] + data[..head]
    }

    /** The buffer is full exactly when the slot after `head` is `tail`. */
    lemma FullWhenNextIsTail()
      requires Valid()
      ensures |Contents()| == Capacity() <==> Next(head) == tail
    {
    }

    /** `RingBuffer(size)`, with the last slot passed explicitly; `last < size`
        is what the address arithmetic needs to stay inside the block. */
    constructor (size: nat, last: nat)
      requires 1 <= size && last < size
      ensures Valid() && fresh(data)
      ensures this.size == size && this.last == last
      ensures head == 0 && tail == 0
      ensures Contents() == []
    {
      this.size := size;
      this.last := last;
      data := new T[size];
      head, tail := 0, 0;
    }

    /** `write`: refuses when the slot after `head` is `tail` (full);
        otherwise stores x at `head` and advances `head`. */
    method Write(x: T) returns (ok: bool)
      requires Valid()
      modifies this`head, data
      ensures Valid()
      ensures ok <==> old(Next(head)) != tail
      ensures ok <==> |old(Contents())| < Capacity()
      ensures tail == old(tail)
      ensures ok ==> head == old(Next(head)) && data[..] == old(data[..])[old(head) := x]
      ensures !ok ==> head == old(head) && data[..] == old(data[..])
      ensures Contents() == if ok then old(Contents()) + [x] else old(Contents())
    {
      FullWhenNextIsTail();
      var nextElement := head + 1;
      if nextElement > last {
        nextElement := 0;
      }
      if nextElement != tail {
        ghost var was := data[..];
        data[head] := x;
        head := nextElement;
        WriteAppends(was, old(head), x);
        ok := true;
      } else {
        ok := false;
      }
    }

    /** Storing x at the old `head` of the slots `was` and advancing `head`
        appends x to what those slots held. */
    lemma WriteAppends(was: seq<T>, oldHead: nat, x: T)
      requires Valid() && oldHead <= last && |was| == size
      requires head == Next(oldHead) && head != tail
      requires data[..] == was[oldHead := x]
      ensures Contents() == (if tail <= oldHead then was[tail..oldHead]
                             else was[tail..last + 1] + was[..oldHead]) + [x]
    {
      if tail <= oldHead {
        if head == 0 {
          assert data[tail..last + 1] == was[tail..oldHead] + [x];
        } else {
          assert data[tail..head] == was[tail..oldHead] + [x];
        }
      } else {
        assert data[tail..last + 1] == was[tail..last + 1];
        assert data[..head] == was[..oldHead] + [x];
      }
    }

    /** `read`: refuses when `head == tail` (empty); otherwise yields the
        element at `tail` and advances `tail`.  When refused, the caller's
        element is left as it was; here x is then unspecified. */
    method Read() returns (ok: bool, x: T)
      requires Valid()
      modifies this`tail
      ensures Valid()
      ensures ok <==> old(head != tail)
      ensures ok <==> old(Contents()) != []
      ensures head == old(head)
      ensures ok ==> x == data[old(tail)] && tail == old(Next(tail))
      ensures !ok ==> tail == old(tail)
      ensures ok ==> x == old(Contents())[0]
      ensures Contents() == if ok then old(Contents())[1..] else old(Contents())
    {
      if head != tail {
        x := data[tail];
        tail := tail + 1;
        if tail > last {
          tail := 0;
        }
        ok := true;
      } else {
        x := *;
        ok := false;
      }
    }
  }

  /** Writing items that fit: every write succeeds, in order. */
  method WriteAll<T(0)>(b: RingBuffer<T>, items: seq<T>)
    requires b.Valid() && |b.Contents()| + |items| <= b.Capacity()
    modifies b, b.data
    ensures b.Valid() && b.Contents() == old(b.Contents()) + items
  {
    ghost var before := b.Contents();
    for i := 0 to |items|
      invariant b.Valid() && b.Contents() == before + items[..i]
    {
      var ok := b.Write(items[i]);
      TakeSucc(items, i);
    }
    assert items[..|items|] == items;
  }

  /** k reads from a buffer holding at least k items give its first k items,
      oldest first, and leave the rest. */
  method ReadN<T(0)>(b: RingBuffer<T>, k: nat) returns (out: seq<T>)
    requires b.Valid() && k <= |b.Contents()|
    modifies b
    ensures b.Valid() && out == old(b.Contents())[..k] && b.Contents() == old(b.Contents())[k..]
  {
    ghost var before := b.Contents();
    out := [];
    for i := 0 to k
      invariant b.Valid() && |out| == i
      invariant out == before[..i] && b.Contents() == before[i..]
    {
      var ok, x := b.Read();
      TakeSucc(before, i);
      out := out + [x];
    }
  }

  /** Capacity law and FIFO order on an empty buffer: `Capacity()` writes all
      succeed, one more is refused without changing the contents, and reading
      the buffer empty gives the items back in the order they were written. */
  method FillThenDrain<T(0)>(b: RingBuffer<T>, items: seq<T>, extra: T)
    returns (refused: bool, out: seq<T>)
    requires b.Valid() && b.Contents() == [] && |items| == b.Capacity()
    modifies b, b.data
    ensures b.Valid()
    ensures refused && out == items && b.Contents() == []
  {
    WriteAll(b, items);
    var accepted := b.Write(extra);
    refused := !accepted;
    out := ReadN(b, |items|);
  }
}
