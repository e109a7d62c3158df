/**
 * Hardware ring buffers: an array and two wrapping pointers, empty exactly when the pointers meet.
 * Both UART directions use one; a ring of `size` slots can hold `size - 1` elements.
 */
module Ring {

  // Pointer increment of an unsigned vector that wraps at the ring size.
  function Next(i: nat, size: nat): nat {
    if i + 1 == size then 0 else i + 1
  }

  function Count(read: nat, write: nat, size: nat): nat
    requires read < size && write < size
  {
    if read <= write then write - read else write + size - read
  }

  // The slot k places on from the read pointer; a whole ring on is the same slot again.
  function Slot(read: nat, k: nat, size: nat): nat
    requires read < size && k <= size
  {
    if read + k < size then read + k else read + k - size
  }

  // The queued elements, oldest first.
  function Contents<T>(buf: seq<T>, read: nat, write: nat): (q: seq<T>)
    requires read < |buf| && write < |buf|
    ensures |q| == Count(read, write, |buf|)
  {
    seq(Count(read, write, |buf|), k requires 0 <= k < Count(read, write, |buf|) => buf[Slot(read, k, |buf|)])
  }

  lemma Pop<T>(buf: seq<T>, read: nat, write: nat)
    requires read < |buf| && write < |buf|
    requires read != write
    ensures Contents(buf, read, write) == [buf[read]] + Contents(buf, Next(read, |buf|), write)
  {
  }

  // One edge that may both pop the oldest element and push a new one, as every ring here does.
  lemma PopPush<T>(buf: seq<T>, read: nat, write: nat, pop: bool, push: bool, x: T)
    requires read < |buf| && write < |buf|
    requires pop ==> read != write
    requires push ==> pop || Next(write, |buf|) != read
    ensures var buf' := if push then buf[write := x] else buf;
            var read' := if pop then Next(read, |buf|) else read;
            var write' := if push then Next(write, |buf|) else write;
            var q := Contents(buf, read, write);
            Contents(buf', read', write') == (if pop then q[1..] else q) + (if push then [x] else [])
  {
  }

  // Pushing into a full ring makes the pointers meet: every queued element is lost.
  // So the guard "the next write pointer is not the read pointer" is exactly what keeps the queue.
  lemma PushKeepsQueueIffNotFull<T>(buf: seq<T>, read: nat, write: nat, x: T)
    requires read < |buf| && write < |buf|
    ensures Contents(buf[write := x], read, Next(write, |buf|)) == Contents(buf, read, write) + [x]
            <==> Next(write, |buf|) != read
    ensures Next(write, |buf|) == read ==> Contents(buf[write := x], read, Next(write, |buf|)) == []
    ensures Next(write, |buf|) == read <==> Count(read, write, |buf|) == |buf| - 1
  {
  }
}
