/**
 * The ghdlex software FIFO: a ring of bytes whose head and tail meet both when it is empty and
 * when it is full; the fill count tells the two apart. Locked regions are single method calls.
 */
module SoftFifo {
  import Arith
  import Ring

  type byte = b: nat | b < 256

  // The range of the unsigned short fields.
  const U16: nat := 0x1_0000

  function Min(a: nat, b: nat): nat {
    if a <= b then a else b
  }

  // What `x %= size` does to an index that has run at most one ring length too far.
  function Wrap(x: nat, size: nat): (r: nat)
    requires 0 < size && x < 2 * size
    ensures r == if x < size then x else x - size
  {
    x % size
  }

  class Fifo {
    const size: nat
    const buf: array<byte>
    var head: nat
    var tail: nat
    var fill: nat
    var ovr: bool
    var unr: bool

    ghost predicate Valid()
      reads this
    {
      && 0 < size < U16 && buf.Length == size
      && tail < size && fill <= size
      && head == Ring.Slot(tail, fill, size)
    }

    // The queued bytes, oldest first.
    ghost function Contents(): (q: seq<byte>)
      requires Valid()
      reads this, buf
      ensures |q| == fill
    {
      seq(fill, k requires 0 <= k < fill reads this, buf requires Valid() => buf[Ring.Slot(tail, k, size)])
    }

    constructor (size: nat)
      requires 0 < size < U16
      ensures Valid() && fresh(buf) && this.size == size && Contents() == [] && !ovr && !unr
    {
      this.size := size;
      buf := new byte[size](i => 0);
      head, tail, fill := 0, 0, 0;
      ovr, unr := false, false;
    }

    // fifo_fill.
    method Fill() returns (n: nat)
      requires Valid()
      ensures n == |Contents()|
    {
      n := fill;
    }

    // fifo_write: queues as much of the first n bytes as fits.
    method Write(bytes: seq<byte>, n: nat) returns (moved: nat)
      requires Valid() && n <= |bytes| && n < U16
      modifies this`head, this`fill, this`ovr, buf
      ensures Valid()
      ensures moved == Min(n, size - |old(Contents())|)
      ensures Contents() == old(Contents()) + bytes[..moved]
      ensures ovr == (old(ovr) || (n > 0 && |old(Contents())| == size))
    {
      hide Wrap;
      moved := 0;
      if n == 0 {
        return;
      }
      if fill == size {
        ovr := true;
        return;
      }
      ghost var q := Contents();
      var left, again := n, true;
      while again
        invariant fill == |q| && moved + left == n && fill + moved <= size
        invariant again ==> left > 0 && fill + moved < size
        invariant !again ==> left == 0 || fill + moved == size
        invariant head == Ring.Slot(tail, fill + moved, size)
        invariant forall k :: 0 <= k < fill + moved ==>
                    buf[Ring.Slot(tail, k, size)] == if k < fill then q[k] else bytes[k - fill]
        invariant ovr == old(ovr)
        decreases left, again
      {
        buf[head] := bytes[moved];
        head := Wrap(head + 1, size);
        left := left - 1;
        moved := moved + 1;
        again := tail != head && left > 0;
      }
      fill := fill + moved;
    }

    // fifo_read: takes up to n of the oldest bytes.
    method Read(n: nat) returns (bytes: seq<byte>)
      requires Valid() && n < U16
      modifies this`tail, this`fill, this`unr
      ensures Valid()
      ensures |bytes| == Min(n, |old(Contents())|)
      ensures old(Contents()) == bytes + Contents()
      ensures unr == (old(unr) || (n > 0 && old(Contents()) == []))
    {
      hide Wrap;
      bytes := [];
      if n == 0 {
        return;
      }
      if fill == 0 {
        unr := true;
        return;
      }
      ghost var q, start := Contents(), tail;
      var left, again := n, true;
      while again
        invariant fill == |q| && |bytes| + left == n && |bytes| <= fill
        invariant again ==> left > 0 && |bytes| < fill
        invariant !again ==> left == 0 || |bytes| == fill
        invariant tail == Ring.Slot(start, |bytes|, size)
        invariant bytes == q[..|bytes|]
        invariant unr == old(unr)
        decreases left, again
      {
        bytes := bytes + [buf[tail]];
        tail := Wrap(tail + 1, size);
        left := left - 1;
        again := tail != head && left > 0;
      }
      fill := fill - |bytes|;
    }

    // fifo_get: copies up to n of the oldest bytes, at least one, and leaves them queued. From an
    // empty ring it copies whatever is in the slots, once round at most.
    method Get(n: int) returns (bytes: seq<byte>)
      requires Valid()
      ensures |bytes| == Min(if n >= 1 then n else 1, if Contents() == [] then size else |Contents()|)
      ensures forall k :: 0 <= k < |bytes| ==> bytes[k] == buf[Ring.Slot(tail, k, size)]
      ensures Contents() != [] ==> bytes == Contents()[..|bytes|]
    {
      hide Wrap;
      ghost var stop := if fill == 0 then size else fill;
      var p, left, again := tail, n, true;
      bytes := [];
      while again
        invariant |bytes| + left == n && |bytes| <= stop
        invariant again ==> |bytes| < stop && (bytes == [] || left > 0)
        invariant !again ==> bytes != [] && (left <= 0 || |bytes| == stop) && (left >= 0 || |bytes| == 1)
        invariant p == Ring.Slot(tail, |bytes|, size)
        invariant forall k :: 0 <= k < |bytes| ==> bytes[k] == buf[Ring.Slot(tail, k, size)]
        decreases stop - |bytes|, again
      {
        bytes := bytes + [buf[p]];
        p := Wrap(p + 1, size);
        left := left - 1;
        again := p != head && left > 0;
      }
    }

    // fifo_advance: drops n bytes without looking; the sum tail + n and the new fill are cut to 16 bits.
    method Advance(n: nat) returns (ok: bool)
      requires Valid()
      modifies this`tail, this`fill, this`unr
      ensures ok == (old(fill) > 0) && unr == (old(unr) || !ok)
      ensures tail == (if ok then CutTail(old(tail), n, size) else old(tail))
      ensures fill == (if ok then (old(fill) - n) % U16 else 0)
      ensures !ok || (n <= old(fill) && TailFits(old(tail), n)) ==>
                Valid() && Contents() == if ok then old(Contents())[n..] else []
    {
      hide CutTail;
      ok := fill != 0;
      if ok {
        if n <= fill {
          CutTailIff(tail, n, size);
        }
        tail := CutTail(tail, n, size);
        fill := (fill - n) % U16;
      } else {
        unr := true;
      }
    }

    // fifo_status for the reading side: RXE and RXAE are high unless the ring is (almost) empty.
    method ReadStatus(width: nat) returns (rxe: bool, rxae: bool)
      requires Valid()
      ensures rxe <==> Contents() != []
      ensures rxae <==> |Contents()| != 0 && |Contents()| != width
    {
      if fill == 0 {
        rxe, rxae := false, false;
      } else if fill == width {
        rxe, rxae := true, false;
      } else {
        rxe, rxae := true, true;
      }
    }

    // fifo_status for the writing side. The second test replaces the answer of the first, so TXF
    // is high even when the ring is full.
    method WriteStatus(width: nat) returns (txf: bool, txaf: bool)
      requires Valid()
      ensures txf
      ensures txaf <==> |Contents()| + width != size
    {
      if fill == size {
        txf, txaf := false, false;
      }
      if fill + width == size {
        txf, txaf := true, false;
      } else {
        txf, txaf := true, true;
      }
    }
  }

  function CutTail(tail: nat, n: nat, size: nat): nat
    requires size > 0
  {
    ((tail + n) % U16) % size
  }

  // The sum of two 16-bit numbers that does not overflow.
  predicate TailFits(tail: nat, n: nat) {
    tail + n < U16
  }

  // The 16-bit cut gives the right tail exactly when the sum fits.
  lemma CutTailIff(tail: nat, n: nat, size: nat)
    requires tail < size < U16 && n <= size
    ensures CutTail(tail, n, size) == Ring.Slot(tail, n, size) <==> TailFits(tail, n)
  {
    var x := tail + n;
    if x < U16 {
      assert CutTail(tail, n, size) == Wrap(x, size);
    } else {
      assert CutTail(tail, n, size) == Wrap(x - U16, size);
    }
  }

  // ---- Words of several bytes -----------------------------------------------------------------

  // With ring size, writes and fill in whole words, what a write moves is in whole words too.
  lemma WriteKeepsAlignment(size: nat, fill: nat, n: nat, w: nat)
    requires w > 0 && fill <= size && size % w == fill % w == n % w == 0
    ensures (fill + Min(n, size - fill)) % w == 0
  {
    Arith.MultiplesAdd(fill, n, w);
  }
}
