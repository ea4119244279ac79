/** The firmware's ring buffer, and the queue of bytes it stands for. */
module SerialRing {
  import opened Words

  const RING_BUF_SIZE := 16
  const RING_MAX := RING_BUF_SIZE - 1

  /** Bytes are added at the head and consumed at the tail; equal positions mean an
      empty ring, so one slot is never used.  The conditions on which the firmware
      panics are preconditions here: proving the callers correct proves that those
      panics cannot happen. */
  class Ring {
    var head: nat
    var tail: nat
    const body: array<Byte>

    ghost predicate Valid()
      reads this
    {
      body.Length == RING_BUF_SIZE && head < RING_BUF_SIZE && tail < RING_BUF_SIZE
    }

    /** The queue, oldest byte first. */
    ghost function Contents(): (s: seq<Byte>)
      requires Valid()
      reads this, body
      ensures |s| == Count(head, tail) <= RING_MAX
    {
      seq(Count(head, tail), i requires Valid() && 0 <= i < Count(head, tail) reads this, body =>
        body[Slot(tail, i)])
    }

    /** The i'th slot from position p, going round. */
    static function Slot(p: nat, i: nat): (q: nat)
      requires p < RING_BUF_SIZE && i <= RING_BUF_SIZE
      ensures q < RING_BUF_SIZE && q == (p + i) % RING_BUF_SIZE
    {
      if p + i < RING_BUF_SIZE then p + i else p + i - RING_BUF_SIZE
    }

    static function Count(head: nat, tail: nat): nat
      requires head < RING_BUF_SIZE && tail < RING_BUF_SIZE
    {
      if head >= tail then head - tail else head + RING_BUF_SIZE - tail
    }

    constructor ()
      ensures Valid() && Contents() == [] && fresh(body)
    {
      head, tail := 0, 0;
      body := new Byte[RING_BUF_SIZE](i => 0);
    }

    method Len() returns (n: nat)
      requires Valid()
      ensures n == |Contents()|
    {
      n := if head >= tail then head - tail else head + RING_BUF_SIZE - tail;
    }

    method Avail() returns (n: nat)
      requires Valid()
      ensures n == RING_MAX - |Contents()|
    {
      var len := Len();
      n := RING_BUF_SIZE - len - 1;
    }

    method IsFull() returns (full: bool)
      requires Valid()
      ensures full <==> |Contents()| == RING_MAX
    {
      var n := Avail();
      full := n == 0;
    }

    method Clear()
      requires Valid()
      modifies this
      ensures Valid() && Contents() == []
    {
      head, tail := 0, 0;
    }

    method Consume(n: nat)
      requires Valid() && n <= |Contents()|
      modifies `tail
      ensures Valid() && Contents() == old(Contents())[n..]
    {
      tail := Slot(tail, n);
    }

    method Peek() returns (b: Byte)
      requires Valid() && Contents() != []
      ensures b == Contents()[0]
    {
      b := body[tail];
    }

    /** Up to max of the oldest bytes, without consuming them. */
    method Copy(max: nat) returns (bs: seq<Byte>)
      requires Valid()
      ensures bs == Contents()[..if max < |Contents()| then max else |Contents()|]
    {
      var n := Len();
      bs := [];
      var i := 0;
      while i < n && i < max
        invariant i <= n && i <= max && bs == Contents()[..i]
      {
        bs := bs + [body[Slot(tail, i)]];
        i := i + 1;
      }
    }

    method Put(b: Byte)
      requires Valid() && |Contents()| < RING_MAX
      modifies `head, body
      ensures Valid() && Contents() == old(Contents()) + [b]
    {
      body[head] := b;
      head := Slot(head, 1);
    }
  }
}
