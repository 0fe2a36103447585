/** The ring buffer of RingBufferUtils as a bounded byte queue. */
module RingBuffer {
  import opened Arithmetic
  import opened Buffers

  function Min(x: nat, y: nat): nat { if x < y then x else y }

  /** A position reduced to the buffer. */
  function Wrap(x: nat, size: nat): (r: nat)
    requires 0 < size
    ensures r < size
  {
    x % size
  }

  lemma WrapOnce(x: nat, size: nat)
    requires 0 < size && x < 2 * size
    ensures Wrap(x, size) == if x < size then x else x - size
  {
    DivModUnique(x, size, if x < size then 0 else 1, if x < size then x else x - size);
  }

  /** The queued bytes of a ring, oldest first. */
  function Queue(cells: seq<byte>, head: nat, tail: nat): (q: seq<byte>)
    requires head < |cells| && tail < |cells|
    ensures |q| == (if head <= tail then tail - head else |cells| - head + tail) < |cells|
  {
    if head <= tail then cells[head..tail] else cells[head..] + cells[..tail]
  }

  /** The cells after x has been laid around the ring from tail on. */
  function Laid(cells: seq<byte>, tail: nat, x: seq<byte>): seq<byte>
    requires tail < |cells| && |x| <= |cells|
  {
    var toEnd := |cells| - tail;
    if |x| <= toEnd then cells[..tail] + x + cells[tail + |x|..]
    else x[toEnd..] + cells[|x| - toEnd..tail] + x[..toEnd]
  }

  /** One copy, or a second one to the front for what does not fit before the end. */
  lemma LaidParts(cells: seq<byte>, tail: nat, data: seq<byte>, amount: nat)
    requires tail < |cells| && amount <= |data| && amount <= |cells|
    ensures var toEnd := |cells| - tail;
            Laid(cells, tail, data[..amount]) ==
            if amount <= toEnd then Placed(cells, tail, data[..amount])
            else Placed(Placed(cells, tail, data[..toEnd]), 0, data[toEnd..amount])
  {
    var toEnd := |cells| - tail;
    if amount > toEnd {
      var first := Placed(cells, tail, data[..toEnd]);
      assert first[amount - toEnd..] == cells[amount - toEnd..tail] + data[..toEnd];
      assert data[..amount][..toEnd] == data[..toEnd] && data[..amount][toEnd..] == data[toEnd..amount];
    }
  }

  lemma LaidSize(cells: seq<byte>, tail: nat, x: seq<byte>)
    requires tail < |cells| && |x| <= |cells|
    ensures |Laid(cells, tail, x)| == |cells|
  {
  }

  lemma Consumed(cells: seq<byte>, head: nat, tail: nat, n: nat)
    requires head < |cells| && tail < |cells| && n <= |Queue(cells, head, tail)|
    ensures Wrap(head + n, |cells|) < |cells|
    ensures Queue(cells, Wrap(head + n, |cells|), tail) == Queue(cells, head, tail)[n..]
  {
    WrapOnce(head + n, |cells|);
    hide Wrap;
    if head > tail && head + n >= |cells| {
      assert cells[..tail][head + n - |cells|..] == cells[head + n - |cells|..tail];
    }
  }

  lemma Overdrawn(cells: seq<byte>, head: nat, tail: nat, n: nat)
    requires head < |cells| && tail < |cells| && |Queue(cells, head, tail)| < n <= |cells|
    ensures Wrap(head + n, |cells|) < |cells|
    ensures |Queue(cells, Wrap(head + n, |cells|), tail)| == |Queue(cells, head, tail)| + |cells| - n
  {
    WrapOnce(head + n, |cells|);
    hide Wrap;
  }

  /**
   * Laying x behind the queue appends it while a slot stays free, and empties the queue when it takes the last slot.
   */
  lemma {:induction false} Appended(cells: seq<byte>, head: nat, tail: nat, x: seq<byte>)
    requires head < |cells| && tail < |cells| && |Queue(cells, head, tail)| + |x| <= |cells|
    ensures Wrap(tail + |x|, |cells|) < |cells| && |Laid(cells, tail, x)| == |cells|
    ensures Queue(Laid(cells, tail, x), head, Wrap(tail + |x|, |cells|)) ==
            if |Queue(cells, head, tail)| + |x| < |cells| then Queue(cells, head, tail) + x else []
  {
    WrapOnce(tail + |x|, |cells|);
    LaidSize(cells, tail, x);
    hide Wrap, Laid, Queue;
    if |Queue(cells, head, tail)| + |x| < |cells| {
      if head > tail {
        Between(cells, head, tail, x);
      } else if |x| < |cells| - tail {
        Behind(cells, head, tail, x);
      } else {
        BehindWrapped(cells, head, tail, x);
      }
    }
  }

  lemma Between(cells: seq<byte>, head: nat, tail: nat, x: seq<byte>)
    requires tail < head < |cells| && tail + |x| < head
    ensures var l := Laid(cells, tail, x); |l| == |cells| && Queue(l, head, tail + |x|) == Queue(cells, head, tail) + x
  {
    var l := Laid(cells, tail, x);
    var front, back := cells[..tail], cells[head..];
    assert l[head..] == back && l[..tail + |x|] == front + x;
    hide Laid;
    assert back + (front + x) == back + front + x;
  }

  lemma Behind(cells: seq<byte>, head: nat, tail: nat, x: seq<byte>)
    requires head <= tail < |cells| && tail + |x| < |cells|
    ensures var l := Laid(cells, tail, x); |l| == |cells| && Queue(l, head, tail + |x|) == Queue(cells, head, tail) + x
  {
  }

  lemma BehindWrapped(cells: seq<byte>, head: nat, tail: nat, x: seq<byte>)
    requires head <= tail < |cells| && |cells| - tail <= |x| && tail - head + |x| < |cells|
    ensures var l, t := Laid(cells, tail, x), tail + |x| - |cells|;
            |l| == |cells| && Queue(l, head, t) == Queue(cells, head, tail) + x
  {
    var toEnd := |cells| - tail;
    var l, t := Laid(cells, tail, x), tail + |x| - |cells|;
    assert l == x[toEnd..] + (cells[t..tail] + x[..toEnd]);
    assert |x[toEnd..]| == t;
    var front, back, queued := x[..toEnd], x[toEnd..], cells[head..tail];
    assert l[..t] == back;
    assert l[head..] == queued + front;
    hide Laid;
    assert front + back == x;
    assert queued + front + back == queued + (front + back);
  }

  class Ring {
    const size: nat
    const buffer: array<byte>
    var head: nat
    var tail: nat

    /** ring_buffer_init, on a buffer of its own */
    constructor (size: nat)
      requires 0 < size <= 0x8000_0000
      ensures Valid() && Contents() == [] && this.size == size && fresh(buffer)
    {
      this.size, head, tail := size, 0, 0;
      buffer := new byte[size](i => 0);
    }

    /** Twice the size fits a 32-bit word, so no sum below wraps around. */
    ghost predicate Valid()
      reads this
    {
      0 < size == buffer.Length <= 0x8000_0000 && head < size && tail < size
    }

    ghost function Contents(): (q: seq<byte>)
      requires Valid()
      reads this, buffer
    {
      Queue(buffer[..], head, tail)
    }

    /** ring_buffer_used_space */
    method UsedSpace() returns (n: nat)
      requires Valid()
      ensures n == |Contents()|
    {
      hide Wrap;
      var headToEnd := size - head;
      WrapOnce(headToEnd + tail, size);
      n := Wrap(headToEnd + tail, size);
    }

    /** ring_buffer_free_space: right exactly when the buffer is not empty, for an empty one reports none. */
    method FreeSpace() returns (n: nat)
      requires Valid()
      ensures n + |Contents()| == size <==> |Contents()| > 0
      ensures |Contents()| == 0 ==> n == 0
    {
      hide Wrap, Laid;
      var tailToEnd := size - tail;
      WrapOnce(tailToEnd + head, size);
      n := Wrap(tailToEnd + head, size);
    }

    /** ring_buffer_get_data: where the oldest bytes are, and how many lie side by side. */
    method GetData() returns (at: nat, contiguous: nat)
      requires Valid()
      ensures at == head && at + contiguous <= size && contiguous <= |Contents()|
      ensures buffer[at..at + contiguous] == Contents()[..contiguous]
      ensures contiguous == |Contents()| || at + contiguous == size
      ensures contiguous == 0 <==> |Contents()| == 0
    {
      hide Wrap;
      var headToEnd := size - head;
      WrapOnce(headToEnd + tail, size);
      at := head;
      contiguous := Min(headToEnd, Wrap(headToEnd + tail, size));
    }

    /**
     * ring_buffer_consume, which does not check that so much is queued: the oldest bytes leave the queue exactly if
     * it is; a little more, and the queue holds old bytes again.
     */
    method Consume(n: nat)
      requires Valid() && n < 0x1_0000_0000
      modifies this`head
      ensures Valid()
      ensures n <= old(|Contents()|) ==> Contents() == old(Contents())[n..]
      ensures old(|Contents()|) < n <= size ==> |Contents()| == old(|Contents()|) + size - n
      ensures head == Wrap((old(head) + n) % 0x1_0000_0000, size)
      ensures old(head) + n == size ==> head == 0
    {
      hide Wrap, Queue;
      if n <= size {
        WrapOnce(head + n, size);
        if n <= |Contents()| {
          Consumed(buffer[..], head, tail, n);
        } else {
          Overdrawn(buffer[..], head, tail, n);
        }
      }
      head := Wrap((head + n) % 0x1_0000_0000, size);
    }

    /**
     * ring_buffer_write. Bytes are appended while one slot stays free; a write that takes the last slot makes the
     * buffer read as empty.
     */
    method Write(data: seq<byte>) returns (amount: nat)
      requires Valid()
      modifies this`tail, buffer
      ensures Valid() && amount == Min(|data|, size - |old(Contents())|)
      ensures Contents() == if |old(Contents())| + amount < size then old(Contents()) + data[..amount] else []
    {
      hide Wrap, Laid;
      var tailToEnd := size - tail;
      WrapOnce(tailToEnd + head, size);
      amount := Min(|data|, if tail == head then size else Wrap(tailToEnd + head, size));
      hide Queue;
      ghost var before := buffer[..];
      Appended(before, head, tail, data[..amount]);
      Lay(data, amount, tailToEnd);
      tail := Wrap(tail + amount, size);
    }

    /** The one or two copies around the end of the buffer. */
    method Lay(data: seq<byte>, amount: nat, tailToEnd: nat)
      requires Valid() && amount <= |data| && amount <= size && tailToEnd == size - tail
      modifies buffer
      ensures buffer[..] == Laid(old(buffer[..]), tail, data[..amount])
    {
      hide Laid;
      ghost var before := buffer[..];
      LaidParts(before, tail, data, amount);
      CopyInto(buffer, tail, data[..Min(amount, tailToEnd)]);
      ghost var first := buffer[..];
      assert first == Placed(before, tail, data[..Min(amount, tailToEnd)]);
      if tailToEnd < amount {
        CopyInto(buffer, 0, data[tailToEnd..amount]);
        assert buffer[..] == Placed(first, 0, data[tailToEnd..amount]);
      }
    }

    /** Reading the buffer out with get_data and consume, at most twice, yields everything in order. */
    method Drain() returns (out: seq<byte>)
      requires Valid()
      modifies this`head
      ensures Valid() && out == old(Contents()) && Contents() == []
    {
      hide Queue;
      var at, n := GetData();
      out := buffer[at..at + n];
      Consume(n);
      at, n := GetData();
      out := out + buffer[at..at + n];
      Consume(n);
    }
  }
}
