/**
 * The unlocked peek: fifo_get copies the oldest bytes while another thread is inside fifo_write.
 * The writer's stores, its increments of head and its wrap of head are separate steps, and so are
 * the reader's copies and its looks at head. The reader is the only one that moves the tail.
 */
module Peek {
  import Ring
  import opened SoftFifo

  // Between the lock and the unlock of fifo_write: i bytes done; the byte at hand may have been
  // stored, and head incremented, in either order.
  datatype Writer = Resting | Writing(src: seq<byte>, i: nat, stored: bool, bumped: bool)
                  | Committing(src: seq<byte>, i: nat)

  datatype Reader = Copying | Checking | Done

  datatype State = State(buf: seq<byte>, head: nat, tail: nat, fill: nat, writer: Writer,
                         reader: Reader, p: nat, left: int, dst: seq<byte>)

  datatype Step = Lock(src: seq<byte>) | Store | Bump | NextByte | Unlock | Copy | Check

  // The slot the writer is about to fill; head may already have moved on.
  function Target(s: State): int
    requires s.writer.Writing?
  {
    if s.writer.bumped then s.head - 1 else s.head
  }

  predicate Enabled(s: State, step: Step) {
    match step
    case Lock(src) => s.writer.Resting? && src != []
    case Store => s.writer.Writing? && !s.writer.stored
    case Bump => s.writer.Writing? && !s.writer.bumped
    case NextByte => s.writer.Writing? && s.writer.stored && s.writer.bumped
    case Unlock => s.writer.Committing?
    case Copy => s.reader.Copying?
    case Check => s.reader.Checking?
  }

  predicate Valid(s: State) {
    && 0 < |s.buf| && s.tail < |s.buf| && s.p < |s.buf| && s.head <= |s.buf|
    && (s.writer.Writing? ==> 0 <= Target(s) < |s.buf| && s.writer.i < |s.writer.src|)
  }

  // One step of either thread.
  function Take(s: State, step: Step): State
    requires Valid(s) && Enabled(s, step)
  {
    var size := |s.buf|;
    match step
    case Lock(src) => if s.fill == size then s else s.(writer := Writing(src, 0, false, false))
    case Store => s.(buf := s.buf[Target(s) := s.writer.src[s.writer.i]], writer := s.writer.(stored := true))
    case Bump => s.(head := s.head + 1, writer := s.writer.(bumped := true))
    case NextByte =>
      var head := Wrap(s.head, size);
      var i := s.writer.i + 1;
      s.(head := head,
         writer := if s.tail != head && i < |s.writer.src| then Writing(s.writer.src, i, false, false)
                   else Committing(s.writer.src, i))
    case Unlock => s.(fill := s.fill + s.writer.i, writer := Resting)
    case Copy => s.(dst := s.dst + [s.buf[s.p]], p := Wrap(s.p + 1, size), left := s.left - 1, reader := Checking)
    case Check => s.(reader := if s.p != s.head && s.left > 0 then Copying else Done)
  }

  // s' is reachable from s by the given interleaving.
  predicate Reaches(s: State, steps: seq<Step>, s': State)
    decreases |steps|
  {
    if steps == [] then s' == s
    else Valid(s) && Enabled(s, steps[0]) && Reaches(Take(s, steps[0]), steps[1..], s')
  }

  // ---- Invariant ------------------------------------------------------------------------------

  // Bytes stored by the write in progress and not yet counted.
  function Pending(s: State): nat {
    match s.writer
    case Resting => 0
    case Writing(_, i, _, _) => i
    case Committing(_, i) => i
  }

  predicate WriterInv(s: State) {
    var size, n := |s.buf|, s.fill + Pending(s);
    && Valid(s) && n <= size
    && (s.writer.Writing? ==> n < size && Target(s) == Ring.Slot(s.tail, n, size))
    && (!s.writer.Writing? ==> s.head == Ring.Slot(s.tail, n, size))
  }

  // The bytes q that were queued when the peek began are still in place, and the reader has copied
  // the first of them.
  predicate PeekInv(s: State, q: seq<byte>, n: int) {
    var copied := |s.dst|;
    && WriterInv(s) && |q| <= s.fill
    && (forall k :: 0 <= k < |q| ==> s.buf[Ring.Slot(s.tail, k, |s.buf|)] == q[k])
    && copied + s.left == n
    && (copied <= |q| ==> s.p == Ring.Slot(s.tail, copied, |s.buf|))
    && (forall k :: 0 <= k < copied && k < |q| ==> s.dst[k] == q[k])
    && (s.reader.Copying? ==> copied == 0 || s.left > 0)
    && (s.reader.Checking? ==> copied > 0)
    && (s.reader.Done? ==> s.left <= 0 || copied >= |q|)
    && (copied > 1 ==> s.left >= 0)
  }

  // What the reader relies on: the queued bytes, the tail and its own variables stay as they are.
  predicate Undisturbed(s: State, s': State) {
    && |s'.buf| == |s.buf| && s'.tail == s.tail && s'.fill >= s.fill
    && s'.p == s.p && s'.dst == s.dst && s'.left == s.left && s'.reader == s.reader
    && s.tail < |s.buf| && s.fill <= |s.buf|
    && forall k :: 0 <= k < s.fill ==> s'.buf[Ring.Slot(s.tail, k, |s.buf|)] == s.buf[Ring.Slot(s.tail, k, |s.buf|)]
  }

  lemma StoreStep(s: State)
    requires WriterInv(s) && Enabled(s, Store)
    ensures WriterInv(Take(s, Store)) && Undisturbed(s, Take(s, Store))
  {
  }

  lemma BumpStep(s: State)
    requires WriterInv(s) && Enabled(s, Bump)
    ensures WriterInv(Take(s, Bump)) && Undisturbed(s, Take(s, Bump))
  {
  }

  lemma NextByteStep(s: State)
    requires WriterInv(s) && Enabled(s, NextByte)
    ensures WriterInv(Take(s, NextByte)) && Undisturbed(s, Take(s, NextByte))
  {
  }

  lemma WriterStep(s: State, step: Step)
    requires WriterInv(s) && Enabled(s, step) && !step.Copy? && !step.Check?
    ensures WriterInv(Take(s, step)) && Undisturbed(s, Take(s, step))
  {
    match step
    case Store => StoreStep(s);
    case Bump => BumpStep(s);
    case NextByte => NextByteStep(s);
    case _ =>
  }

  // The reader's pointer meets head, wherever the writer is with it, only past the bytes of q.
  lemma NotAtHead(s: State, q: seq<byte>, n: int)
    requires PeekInv(s, q, n) && 0 < |s.dst| < |q|
    ensures s.p != s.head
  {
  }

  lemma CopyStep(s: State, q: seq<byte>, n: int)
    requires PeekInv(s, q, n) && Enabled(s, Copy)
    ensures PeekInv(Take(s, Copy), q, n)
  {
    hide Wrap;
    var s' := Take(s, Copy);
    assert WriterInv(s');
  }

  lemma PeekStep(s: State, step: Step, q: seq<byte>, n: int)
    requires PeekInv(s, q, n) && Enabled(s, step)
    ensures PeekInv(Take(s, step), q, n)
  {
    if step.Copy? {
      CopyStep(s, q, n);
    } else if step.Check? {
      CheckStep(s, q, n);
    } else {
      WriterStep(s, step);
      hide WriterInv, Take, Enabled;
      OthersKeepPeek(s, Take(s, step), q, n);
    }
  }

  lemma CheckStep(s: State, q: seq<byte>, n: int)
    requires PeekInv(s, q, n) && Enabled(s, Check)
    ensures PeekInv(Take(s, Check), q, n)
  {
  }

  lemma OthersKeepPeek(s: State, s': State, q: seq<byte>, n: int)
    requires PeekInv(s, q, n) && WriterInv(s') && Undisturbed(s, s')
    ensures PeekInv(s', q, n)
  {
  }

  lemma {:induction false} RunKeeps(s: State, steps: seq<Step>, s': State, q: seq<byte>, n: int)
    requires PeekInv(s, q, n) && Reaches(s, steps, s')
    ensures PeekInv(s', q, n)
    decreases |steps|
  {
    hide PeekInv, Take;
    if steps != [] {
      PeekStep(s, steps[0], q, n);
      RunKeeps(Take(s, steps[0]), steps[1..], s', q, n);
    }
  }

  // ---- The theorem ----------------------------------------------------------------------------

  // The bytes counted by fill, oldest first.
  function Queue(s: State): (q: seq<byte>)
    requires s.tail < |s.buf| && s.fill <= |s.buf|
    ensures |q| == s.fill
  {
    seq(s.fill, k requires 0 <= k < s.fill => s.buf[Ring.Slot(s.tail, k, |s.buf|)])
  }

  // fifo_get is entered with n bytes wanted, at any point of any write.
  predicate Begins(s: State, n: int) {
    WriterInv(s) && s.reader == Copying && s.p == s.tail && s.left == n && s.dst == []
  }

  /**
   * The peek is stable. However its copies interleave with writes, once it is done it has copied the
   * oldest queued bytes, as many as were wanted and queued when it began; and it never makes more
   * copies than wanted, or one if none were.
   */
  lemma PeekIsStable(s: State, n: int, steps: seq<Step>, s': State)
    requires Begins(s, n) && Reaches(s, steps, s')
    ensures |s'.dst| <= if n >= 1 then n else 1
    ensures s'.reader == Done ==>
              forall k :: 0 <= k < n && k < s.fill ==> k < |s'.dst| && s'.dst[k] == Queue(s)[k]
  {
    RunKeeps(s, steps, s', Queue(s), n);
  }

  // Without a writer the peek stops at head: it makes as many copies as are wanted and queued, one at
  // least, and from an empty ring goes round once at most.
  predicate AloneInv(s: State, n: int) {
    var size, copied := |s.buf|, |s.dst|;
    var stop := if s.fill == 0 then size else s.fill;
    && WriterInv(s) && s.writer.Resting? && copied + s.left == n && copied <= stop
    && s.p == Ring.Slot(s.tail, copied, size)
    && (s.reader.Copying? ==> copied < stop && (copied == 0 || s.left > 0))
    && (s.reader.Checking? ==> copied > 0 && (copied > 1 ==> s.left >= 0))
    && (s.reader.Done? ==> copied > 0 && (s.left <= 0 || copied == stop) && (s.left >= 0 || copied == 1))
  }

  lemma AloneStep(s: State, step: Step, n: int)
    requires AloneInv(s, n) && Enabled(s, step) && (step.Copy? || step.Check?)
    ensures AloneInv(Take(s, step), n) && |Take(s, step).buf| == |s.buf| && Take(s, step).fill == s.fill
  {
    hide Wrap;
  }

  lemma {:induction false} AloneRun(s: State, steps: seq<Step>, s': State, n: int)
    requires AloneInv(s, n) && Reaches(s, steps, s')
    requires forall k :: 0 <= k < |steps| ==> steps[k].Copy? || steps[k].Check?
    ensures AloneInv(s', n) && |s'.buf| == |s.buf| && s'.fill == s.fill
    decreases |steps|
  {
    hide AloneInv, Take;
    if steps != [] {
      AloneStep(s, steps[0], n);
      AloneRun(Take(s, steps[0]), steps[1..], s', n);
    }
  }

  lemma PeekAlone(s: State, n: int, steps: seq<Step>, s': State)
    requires Begins(s, n) && s.writer.Resting? && Reaches(s, steps, s')
    requires forall k :: 0 <= k < |steps| ==> steps[k].Copy? || steps[k].Check?
    ensures s'.reader == Done ==>
              |s'.dst| == Min(if n >= 1 then n else 1, if s.fill == 0 then |s.buf| else s.fill)
  {
    AloneRun(s, steps, s', n);
  }

  // Every two steps of the reader use up one of the copies it may still make, so it terminates.
  function ReaderWork(s: State): int {
    if s.reader.Done? then 0
    else if s.reader.Copying? then 2 * (if s.left >= 1 then s.left else 1) + 1
    else 2 * (if s.left >= 0 then s.left else 0) + 2
  }

  lemma ReaderTerminates(s: State, step: Step)
    requires Valid(s) && Enabled(s, step) && (step.Copy? || step.Check?)
    ensures 0 <= ReaderWork(Take(s, step)) < ReaderWork(s)
  {
  }

  // ---- The write, meanwhile -------------------------------------------------------------------

  // The first i bytes of src stand behind the queued ones.
  predicate Placed(s: State, src: seq<byte>, i: nat) {
    && 0 < |s.buf| && s.tail < |s.buf| && s.fill + i <= |s.buf| && i <= |src|
    && forall k :: 0 <= k < i ==> s.buf[Ring.Slot(s.tail, s.fill + k, |s.buf|)] == src[k]
  }

  // A write of src that began with q queued: nothing is counted before the unlock, then all that fits.
  predicate WriteInv(s: State, q: seq<byte>, src: seq<byte>) {
    && WriterInv(s) && |q| <= |s.buf|
    && var n := Min(|src|, |s.buf| - |q|);
    match s.writer
    case Writing(src', i, stored, _) =>
      src' == src && i < n && Queue(s) == q && Placed(s, src, if stored then i + 1 else i)
    case Committing(src', i) =>
      src' == src && i == n && Queue(s) == q && Placed(s, src, i)
    case Resting =>
      Queue(s) == q + src[..n]
  }

  lemma SameQueue(s: State, s': State)
    requires Undisturbed(s, s') && s'.fill == s.fill
    ensures Queue(s') == Queue(s)
  {
  }

  lemma StorePlaces(s: State, q: seq<byte>, src: seq<byte>)
    requires WriteInv(s, q, src) && Enabled(s, Store)
    ensures WriteInv(Take(s, Store), q, src)
  {
    StoreStep(s);
    SameQueue(s, Take(s, Store));
    hide WriterInv, Undisturbed, Queue;
    assert Target(s) == Ring.Slot(s.tail, s.fill + s.writer.i, |s.buf|) by { WriterTarget(s); }
  }

  lemma WriterTarget(s: State)
    requires WriterInv(s) && s.writer.Writing?
    ensures Target(s) == Ring.Slot(s.tail, s.fill + s.writer.i, |s.buf|)
  {
  }

  lemma BumpPlaces(s: State, q: seq<byte>, src: seq<byte>)
    requires WriteInv(s, q, src) && Enabled(s, Bump)
    ensures WriteInv(Take(s, Bump), q, src)
  {
    BumpStep(s);
    SameQueue(s, Take(s, Bump));
    hide WriterInv, Undisturbed, Queue;
  }

  lemma NextBytePlaces(s: State, q: seq<byte>, src: seq<byte>)
    requires WriteInv(s, q, src) && Enabled(s, NextByte)
    ensures WriteInv(Take(s, NextByte), q, src)
  {
    NextByteStep(s);
    SameQueue(s, Take(s, NextByte));
    hide Wrap, Undisturbed, Queue;
  }

  lemma UnlockCounts(s: State, q: seq<byte>, src: seq<byte>)
    requires WriteInv(s, q, src) && Enabled(s, Unlock)
    ensures WriteInv(Take(s, Unlock), q, src)
  {
    WriterStep(s, Unlock);
    assert Queue(Take(s, Unlock)) == q + src[..s.writer.i];
    hide Undisturbed, WriterInv, Queue;
  }

  lemma WriteStepKeeps(s: State, step: Step, q: seq<byte>, src: seq<byte>)
    requires WriteInv(s, q, src) && Enabled(s, step) && !step.Lock?
    ensures WriteInv(Take(s, step), q, src) && |Take(s, step).buf| == |s.buf|
  {
    match step
    case Store => StorePlaces(s, q, src);
    case Bump => BumpPlaces(s, q, src);
    case NextByte => NextBytePlaces(s, q, src);
    case Unlock => UnlockCounts(s, q, src);
    case _ => ReaderLeavesWriter(s, step, q, src);
  }

  lemma ReaderLeavesWriter(s: State, step: Step, q: seq<byte>, src: seq<byte>)
    requires WriteInv(s, q, src) && Enabled(s, step) && (step.Copy? || step.Check?)
    ensures WriteInv(Take(s, step), q, src)
  {
    hide Wrap;
    var s' := Take(s, step);
    assert s' == s.(dst := s'.dst, p := s'.p, left := s'.left, reader := s'.reader) && s'.p < |s.buf|;
    hide Take;
    SameWrite(s, s', q, src);
  }

  lemma SameWrite(s: State, s': State, q: seq<byte>, src: seq<byte>)
    requires WriteInv(s, q, src) && s'.p < |s.buf|
    requires s' == s.(dst := s'.dst, p := s'.p, left := s'.left, reader := s'.reader)
    ensures WriteInv(s', q, src)
  {
    assert WriterInv(s');
    assert Queue(s') == Queue(s);
    hide WriterInv, Queue;
  }

  predicate NoLock(steps: seq<Step>) {
    forall k :: 0 <= k < |steps| ==> !steps[k].Lock?
  }

  lemma {:induction false} WriteRunKeeps(s: State, steps: seq<Step>, s': State, q: seq<byte>, src: seq<byte>)
    requires WriteInv(s, q, src) && Reaches(s, steps, s') && NoLock(steps)
    ensures WriteInv(s', q, src) && |s'.buf| == |s.buf|
    decreases |steps|
  {
    hide WriteInv, Take;
    if steps != [] {
      WriteStepKeeps(s, steps[0], q, src);
      WriteRunKeeps(Take(s, steps[0]), steps[1..], s', q, src);
    }
  }

  lemma LockBegins(s: State, src: seq<byte>)
    requires WriterInv(s) && Enabled(s, Lock(src))
    ensures WriteInv(Take(s, Lock(src)), Queue(s), src) && Take(s, Lock(src)).buf == s.buf
  {
    assert Queue(s) + src[..0] == Queue(s);
    assert Queue(Take(s, Lock(src))) == Queue(s);
  }

  /**
   * The write appends. However a peek interleaves with it, from the lock until the unlock nothing is
   * counted, and from then on the queue is the old one and as much of src as fitted behind it.
   */
  lemma WriteAppends(s: State, src: seq<byte>, steps: seq<Step>, s': State)
    requires WriterInv(s) && Enabled(s, Lock(src)) && Reaches(Take(s, Lock(src)), steps, s') && NoLock(steps)
    ensures WriterInv(s')
    ensures Queue(s')
         == Queue(s) + (if s'.writer.Resting? then src[..Min(|src|, |s.buf| - |Queue(s)|)] else [])
  {
    LockBegins(s, src);
    hide Take;
    WriteRunKeeps(Take(s, Lock(src)), steps, s', Queue(s), src);
    assert Queue(s) + [] == Queue(s);
  }

  // Every step of the writer uses up some of its work, so it reaches the unlock.
  function WriterWork(s: State): int {
    match s.writer
    case Resting => 0
    case Committing(_, _) => 1
    case Writing(src, i, stored, bumped) =>
      3 * (|src| - i) + (if stored then 0 else 1) + (if bumped then 0 else 1)
  }

  lemma WriterTerminates(s: State, step: Step)
    requires WriterInv(s) && Enabled(s, step) && !step.Lock? && !step.Copy? && !step.Check?
    ensures 0 <= WriterWork(Take(s, step)) < WriterWork(s)
  {
  }
}
