/**
 * The blocking transfers of the FIFO thread: loops that poll the fill and give up after five polls
 * that find nothing to do. The other thread acts before each call of this one: peer[k] is what it
 * does before the k-th, and it only adds, or only removes, bytes; it does nothing after the last.
 *
 * The run of a loop against a peer is a function of the queue, the peer and the request. The methods
 * are proved to follow it, and what the loops promise is proved about it.
 */
module Blocking {
  import opened SoftFifo

  const RETRIES: nat := 5

  // What one call of fifo_write can be given, and how much one of fifo_read can be asked for.
  type Packet = bytes: seq<byte> | |bytes| < U16
  type Amount = n: nat | n < U16

  // ---- Reading --------------------------------------------------------------------------------

  /**
   * A blocking read between two calls: the queue, the bytes still wanted, the polls it may still
   * lose, the bytes read so far, the fill seen by each poll, and how many bytes of each of its writes
   * the other thread got into the queue.
   */
  datatype Reader = Reader(queue: seq<byte>, left: nat, retry: nat, bytes: seq<byte>, polls: seq<nat>,
                           accepted: seq<nat>)
  {
    predicate Finished() {
      left == 0 || retry == 0
    }

    predicate Ok() {
      retry > 0
    }
  }

  function Offer(peer: seq<Packet>, k: nat): Packet {
    if k < |peer| then peer[k] else []
  }

  // The other thread's turn: it writes as much of its next packet as fits.
  function PeerWrites(r: Reader, size: nat, peer: seq<Packet>): (r': Reader)
    requires |r.queue| <= size
    ensures |r'.queue| <= size
  {
    var packet := Offer(peer, |r.accepted|);
    var moved := Min(|packet|, size - |r.queue|);
    r.(queue := r.queue + packet[..moved], accepted := r.accepted + [moved])
  }

  // A poll and, if it finds any bytes, a read of as many as are wanted and there.
  function ReadStep(r: Reader, size: nat, peer: seq<Packet>): (r': Reader)
    requires |r.queue| <= size && !r.Finished()
    ensures |r'.queue| <= size
  {
    var p := PeerWrites(r, size, peer);
    var polled := p.(polls := p.polls + [|p.queue|]);
    if p.queue == [] then polled.(retry := r.retry - 1)
    else
      var q := PeerWrites(polled, size, peer);
      var n := Min(q.left, |q.queue|);
      q.(queue := q.queue[n..], left := q.left - n, bytes := q.bytes + q.queue[..n])
  }

  function Reading(r: Reader, size: nat, peer: seq<Packet>): (r': Reader)
    requires |r.queue| <= size
    ensures r'.Finished() && |r'.queue| <= size
    decreases r.left, r.retry
  {
    if r.Finished() then r else Reading(ReadStep(r, size, peer), size, peer)
  }

  function ReadStart(queue: seq<byte>, n: nat): Reader {
    Reader(queue, n, RETRIES, [], [], [])
  }

  // The other thread's turn fills the queue with its next packet, up to the brim.
  lemma PeerWritesWhatFits(r: Reader, size: nat, peer: seq<Packet>)
    requires |r.queue| <= size
    ensures var r', packet := PeerWrites(r, size, peer), Offer(peer, |r.accepted|);
            && |r'.queue| == Min(|r.queue| + |packet|, size) && r.queue <= r'.queue <= r.queue + packet
            && r' == r.(queue := r'.queue, accepted := r.accepted + [|r'.queue| - |r.queue|])
  {
  }

  method PeerTurn(f: Fifo, peer: seq<Packet>, k: nat, ghost r: Reader)
    requires f.Valid() && f.Contents() == r.queue && k == |r.accepted|
    modifies f, f.buf
    ensures f.Valid() && f.Contents() == PeerWrites(r, f.size, peer).queue && f.unr == old(f.unr)
  {
    var packet := Offer(peer, k);
    var _ := f.Write(packet, |packet|);
  }

  // The polling loop: it ends with a poll that finds bytes, or with the last retry.
  method PollBytes(f: Fifo, peer: seq<Packet>, k: nat, retry: nat, ghost r: Reader)
    returns (k': nat, retry': nat, ghost r': Reader)
    requires f.Valid() && f.Contents() == r.queue && k == |r.accepted| && retry == r.retry > 0 && r.left > 0
    modifies f, f.buf
    ensures f.Valid() && f.unr == old(f.unr)
    ensures r'.left == r.left && r'.bytes == r.bytes && r'.retry == retry' && |r'.queue| <= f.size
    ensures Reading(r', f.size, peer) == Reading(r, f.size, peer)
    ensures retry' == 0 ==> f.Contents() == r'.queue
    ensures retry' > 0 ==> f.Contents() == PeerWrites(r', f.size, peer).queue != [] && k' == |r'.accepted| + 1
  {
    hide PeerWrites;
    k', retry', r' := k, retry, r;
    PeerTurn(f, peer, k', r');
    var fill := f.Fill();
    while fill == 0
      invariant f.Valid() && f.unr == old(f.unr)
      invariant r'.left == r.left && r'.bytes == r.bytes && r'.retry == retry' > 0 && |r'.queue| <= f.size
      invariant Reading(r', f.size, peer) == Reading(r, f.size, peer)
      invariant f.Contents() == PeerWrites(r', f.size, peer).queue && k' == |r'.accepted| && fill == |f.Contents()|
      decreases retry'
    {
      EmptyPoll(r', f.size, peer);
      r' := ReadStep(r', f.size, peer);
      retry' := retry' - 1;
      k' := k' + 1;
      if retry' == 0 {
        return;
      }
      PeerTurn(f, peer, k', r');
      fill := f.Fill();
    }
    k' := k' + 1;
  }

  lemma EmptyPoll(r: Reader, size: nat, peer: seq<Packet>)
    requires |r.queue| <= size && !r.Finished() && PeerWrites(r, size, peer).queue == []
    ensures var r' := ReadStep(r, size, peer);
            && r'.queue == [] && r'.left == r.left && r'.bytes == r.bytes && r'.retry == r.retry - 1
            && |r'.accepted| == |r.accepted| + 1
            && Reading(r', size, peer) == Reading(r, size, peer)
  {
  }

  // The read that follows a poll which found bytes.
  method TakeChunk(f: Fifo, peer: seq<Packet>, k: nat, n: nat, ghost r: Reader) returns (chunk: seq<byte>)
    requires f.Valid() && |r.queue| <= f.size && n == r.left < U16 && !r.Finished() && k == |r.accepted| + 1
    requires f.Contents() == PeerWrites(r, f.size, peer).queue != []
    modifies f, f.buf
    ensures f.Valid() && f.unr == old(f.unr)
    ensures var r' := ReadStep(r, f.size, peer);
            && f.Contents() == r'.queue && r'.bytes == r.bytes + chunk && r'.left == n - |chunk|
            && r'.retry == r.retry && |r'.accepted| == k + 1 && chunk != []
  {
    ghost var p := PeerWrites(r, f.size, peer);
    ghost var polled := p.(polls := p.polls + [|p.queue|]);
    PeerTurn(f, peer, k, polled);
    chunk := f.Read(n);
    assert PeerWrites(polled, f.size, peer).queue[..|chunk|] == chunk;
    assert PeerWrites(polled, f.size, peer).queue[|chunk|..] == f.Contents();
  }

  // fifo_blocking_read. It flags no underrun.
  method BlockingRead(f: Fifo, peer: seq<Packet>, n: nat) returns (ok: bool, bytes: seq<byte>)
    requires f.Valid() && n < U16
    modifies f, f.buf
    ensures f.Valid() && f.unr == old(f.unr)
    ensures var r := Reading(ReadStart(old(f.Contents()), n), f.size, peer);
            ok == r.Ok() && bytes == r.bytes && f.Contents() == r.queue
  {
    hide PeerWrites, ReadStep;
    var k, retry, left: nat := 0, RETRIES, n;
    ok, bytes := true, [];
    ghost var start := ReadStart(f.Contents(), n);
    ghost var r := start;
    while left > 0
      invariant f.Valid() && f.unr == old(f.unr) && f.Contents() == r.queue && k == |r.accepted|
      invariant r.left == left <= n && r.bytes == bytes && r.retry == retry > 0
      invariant Reading(r, f.size, peer) == Reading(start, f.size, peer)
      decreases left
    {
      k, retry, r := PollBytes(f, peer, k, retry, r);
      if retry == 0 {
        ok := false;
        return;
      }
      var chunk := TakeChunk(f, peer, k, left, r);
      r := ReadStep(r, f.size, peer);
      bytes, left, k := bytes + chunk, left - |chunk|, k + 1;
    }
  }

  // ---- What a blocking read promises ----------------------------------------------------------

  // What the other thread got into the queue: the accepted prefix of each of its packets.
  function Entered(peer: seq<Packet>, accepted: seq<nat>): seq<byte> {
    if accepted == [] then []
    else
      var n := |accepted| - 1;
      Entered(peer, accepted[..n]) + Offer(peer, n)[..Min(accepted[n], |Offer(peer, n)|)]
  }

  // How many polls saw the given fill.
  function Seen(polls: seq<nat>, fill: nat): nat {
    if polls == [] then 0
    else Seen(polls[..|polls| - 1], fill) + (if polls[|polls| - 1] == fill then 1 else 0)
  }

  predicate Reads(r: Reader, queue: seq<byte>, n: nat, peer: seq<Packet>) {
    && queue + Entered(peer, r.accepted) == r.bytes + r.queue
    && |r.bytes| + r.left == n
    && Seen(r.polls, 0) + r.retry == RETRIES
    && (forall k :: 0 <= k < |r.accepted| ==> r.accepted[k] <= |Offer(peer, k)|)
    && (r.retry == 0 ==> r.queue == [] && r.left > 0)
  }

  lemma EnteredSnoc(peer: seq<Packet>, accepted: seq<nat>, n: nat)
    requires n <= |Offer(peer, |accepted|)|
    ensures Entered(peer, accepted + [n]) == Entered(peer, accepted) + Offer(peer, |accepted|)[..n]
  {
    assert (accepted + [n])[..|accepted|] == accepted;
  }

  lemma SeenSnoc(polls: seq<nat>, x: nat, fill: nat)
    ensures Seen(polls + [x], fill) == Seen(polls, fill) + (if x == fill then 1 else 0)
  {
    assert (polls + [x])[..|polls|] == polls;
  }

  lemma PeerWritesKeeps(r: Reader, size: nat, queue: seq<byte>, n: nat, peer: seq<Packet>)
    requires |r.queue| <= size && Reads(r, queue, n, peer) && r.retry > 0
    ensures Reads(PeerWrites(r, size, peer), queue, n, peer)
  {
    hide Entered, Seen, Offer;
    var packet := Offer(peer, |r.accepted|);
    var moved := Min(|packet|, size - |r.queue|);
    EnteredSnoc(peer, r.accepted, moved);
    Associates(queue, Entered(peer, r.accepted), packet[..moved]);
    Associates(r.bytes, r.queue, packet[..moved]);
  }

  lemma Associates(a: seq<byte>, b: seq<byte>, c: seq<byte>)
    ensures a + (b + c) == a + b + c
  {
  }

  lemma PollKeeps(r: Reader, queue: seq<byte>, n: nat, peer: seq<Packet>)
    requires Reads(r, queue, n, peer) && !r.Finished()
    ensures var polled := r.(polls := r.polls + [|r.queue|]);
            Reads(if r.queue == [] then polled.(retry := r.retry - 1) else polled, queue, n, peer)
  {
    hide Entered, Seen, Offer;
    SeenSnoc(r.polls, |r.queue|, 0);
  }

  lemma TakeKeeps(r: Reader, queue: seq<byte>, n: nat, peer: seq<Packet>, m: nat)
    requires Reads(r, queue, n, peer) && r.retry > 0 && m <= r.left && m <= |r.queue|
    ensures Reads(r.(queue := r.queue[m..], left := r.left - m, bytes := r.bytes + r.queue[..m]), queue, n, peer)
  {
    hide Entered, Seen, Offer;
    assert r.queue == r.queue[..m] + r.queue[m..];
    Associates(r.bytes, r.queue[..m], r.queue[m..]);
  }

  lemma ReadStepKeeps(r: Reader, size: nat, queue: seq<byte>, n: nat, peer: seq<Packet>)
    requires |r.queue| <= size && !r.Finished() && Reads(r, queue, n, peer)
    ensures Reads(ReadStep(r, size, peer), queue, n, peer)
  {
    hide Reads, Offer;
    var p := PeerWrites(r, size, peer);
    PeerWritesKeeps(r, size, queue, n, peer);
    PollKeeps(p, queue, n, peer);
    if p.queue != [] {
      var polled := p.(polls := p.polls + [|p.queue|]);
      var q := PeerWrites(polled, size, peer);
      PeerWritesKeeps(polled, size, queue, n, peer);
      TakeKeeps(q, queue, n, peer, Min(q.left, |q.queue|));
    }
  }

  lemma {:induction false} ReadingKeeps(r: Reader, size: nat, queue: seq<byte>, n: nat, peer: seq<Packet>)
    requires |r.queue| <= size && Reads(r, queue, n, peer)
    ensures Reads(Reading(r, size, peer), queue, n, peer)
    decreases r.left, r.retry
  {
    hide Reads;
    if !r.Finished() {
      ReadStepKeeps(r, size, queue, n, peer);
      ReadingKeeps(ReadStep(r, size, peer), size, queue, n, peer);
    }
  }

  /**
   * What a blocking read moves. The stream is what was queued at first, then the accepted part of
   * each packet the other thread wrote. A read succeeds exactly if n bytes of it came in time, and has
   * then read the first n, across all chunks; it times out exactly when five polls saw an empty
   * queue, and has then read all there was.
   */
  lemma ReadTheorem(queue: seq<byte>, n: nat, size: nat, peer: seq<Packet>)
    requires |queue| <= size
    ensures var r := Reading(ReadStart(queue, n), size, peer);
            var stream := queue + Entered(peer, r.accepted);
            && (forall k :: 0 <= k < |r.accepted| ==> r.accepted[k] <= |Offer(peer, k)|)
            && stream == r.bytes + r.queue
            && (r.Ok() <==> n <= |stream|)
            && r.bytes == stream[..Min(n, |stream|)]
            && (!r.Ok() <==> Seen(r.polls, 0) == 5)
            && (!r.Ok() ==> r.queue == [])
  {
    ReadingKeeps(ReadStart(queue, n), size, queue, n, peer);
  }

  lemma {:induction false} NothingEnters(accepted: seq<nat>)
    ensures Entered([], accepted) == []
  {
    if accepted != [] {
      NothingEnters(accepted[..|accepted| - 1]);
    }
  }

  // A read that found bytes leaves none it wanted: it ends or empties the queue.
  lemma ReadIsGreedy(r: Reader, size: nat, peer: seq<Packet>)
    requires |r.queue| <= size && !r.Finished() && PeerWrites(r, size, peer).queue != []
    ensures var r' := ReadStep(r, size, peer);
            (r'.left == 0 || r'.queue == []) && r'.left < r.left && r'.retry == r.retry
  {
    assert PeerWrites(r, size, peer).left == r.left;
  }

  // Alone with the queue, a read succeeds exactly if enough is there, and else takes what there is.
  lemma ReadFromSilentPeer(queue: seq<byte>, n: nat, size: nat)
    requires |queue| <= size
    ensures var r := Reading(ReadStart(queue, n), size, []);
            (r.Ok() <==> n <= |queue|) && r.bytes == queue[..Min(n, |queue|)]
  {
    ReadTheorem(queue, n, size, []);
    NothingEnters(Reading(ReadStart(queue, n), size, []).accepted);
  }

  lemma ReadyStep(r: Reader, size: nat, peer: seq<Packet>)
    requires |r.queue| <= size && size > 0 && !r.Finished() && |r.accepted| < |peer|
    requires forall k :: 0 <= k < |peer| ==> peer[k] != []
    ensures var r' := ReadStep(r, size, peer);
            r'.retry == r.retry && r'.left < r.left && |r'.accepted| == |r.accepted| + 2
  {
    assert PeerWrites(r, size, peer).queue != [];
  }

  lemma {:induction false} ReadyRun(r: Reader, size: nat, peer: seq<Packet>)
    requires |r.queue| <= size && size > 0 && r.retry > 0 && |r.accepted| + 2 * r.left <= |peer|
    requires forall k :: 0 <= k < |peer| ==> peer[k] != []
    ensures Reading(r, size, peer).Ok()
    decreases r.left
  {
    hide ReadStep;
    if !r.Finished() {
      ReadyStep(r, size, peer);
      ReadyRun(ReadStep(r, size, peer), size, peer);
    }
  }

  // A read never times out on a peer that has something to write before each of its calls.
  lemma ReadFromReadyPeer(queue: seq<byte>, n: nat, size: nat, peer: seq<Packet>)
    requires |queue| <= size && size > 0 && 2 * n <= |peer|
    requires forall k :: 0 <= k < |peer| ==> peer[k] != []
    ensures var r := Reading(ReadStart(queue, n), size, peer);
            r.Ok() && |r.bytes| == n
  {
    ReadyRun(ReadStart(queue, n), size, peer);
    ReadTheorem(queue, n, size, peer);
  }

  // ---- Writing --------------------------------------------------------------------------------

  /**
   * A blocking write between two calls: the queue, the bytes of the buffer moved so far, the polls
   * it may still lose, the fill seen by each poll, what the other thread has read, and how much in
   * each of its turns.
   */
  datatype Writer = Writer(queue: seq<byte>, moved: nat, retry: nat, polls: seq<nat>, taken: seq<byte>,
                           amounts: seq<nat>)
  {
    predicate Finished(buf: Packet) {
      moved >= |buf| || retry == 0
    }

    predicate Ok() {
      retry > 0
    }
  }

  function Asked(peer: seq<Amount>, k: nat): Amount {
    if k < |peer| then peer[k] else 0
  }

  // The other thread's turn: it reads as much as it asks for, if it is there.
  function PeerReads(w: Writer, peer: seq<Amount>): (w': Writer)
    ensures |w'.queue| <= |w.queue|
  {
    var n := Min(Asked(peer, |w.amounts|), |w.queue|);
    w.(queue := w.queue[n..], taken := w.taken + w.queue[..n], amounts := w.amounts + [n])
  }

  // A poll and, if it finds room, a write of as much of the rest of the buffer as fits.
  function WriteStep(w: Writer, size: nat, peer: seq<Amount>, buf: Packet): (w': Writer)
    requires |w.queue| <= size && !w.Finished(buf)
    ensures |w'.queue| <= size && w.moved <= w'.moved <= |buf|
  {
    var p := PeerReads(w, peer);
    var polled := p.(polls := p.polls + [|p.queue|]);
    if |p.queue| == size then polled.(retry := w.retry - 1)
    else
      var q := PeerReads(polled, peer);
      var n := Min(|buf| - q.moved, size - |q.queue|);
      q.(queue := q.queue + buf[q.moved..q.moved + n], moved := q.moved + n)
  }

  function Writing(w: Writer, size: nat, peer: seq<Amount>, buf: Packet): (w': Writer)
    requires |w.queue| <= size
    ensures w'.Finished(buf) && |w'.queue| <= size
    decreases |buf| - w.moved, w.retry
  {
    if w.Finished(buf) then w else Writing(WriteStep(w, size, peer, buf), size, peer, buf)
  }

  function WriteStart(queue: seq<byte>): Writer {
    Writer(queue, 0, RETRIES, [], [], [])
  }

  // The other thread's turn takes what it asks for, or all there is.
  lemma PeerReadsWhatIsThere(w: Writer, peer: seq<Amount>)
    ensures var w', n := PeerReads(w, peer), Asked(peer, |w.amounts|);
            && |w'.queue| == (if n <= |w.queue| then |w.queue| - n else 0)
            && w.taken <= w'.taken && w.taken + w.queue == w'.taken + w'.queue
            && w' == w.(queue := w'.queue, taken := w'.taken, amounts := w.amounts + [|w.queue| - |w'.queue|])
  {
    var n := Min(Asked(peer, |w.amounts|), |w.queue|);
    hide Asked;
    assert w.queue == w.queue[..n] + w.queue[n..];
    Associates(w.taken, w.queue[..n], w.queue[n..]);
  }

  method PeerTakes(f: Fifo, peer: seq<Amount>, k: nat, ghost w: Writer)
    requires f.Valid() && f.Contents() == w.queue && k == |w.amounts|
    modifies f, f.buf
    ensures f.Valid() && f.Contents() == PeerReads(w, peer).queue && f.ovr == old(f.ovr)
  {
    var bytes := f.Read(Asked(peer, k));
    assert w.queue[|bytes|..] == f.Contents();
  }

  lemma FullPoll(w: Writer, size: nat, peer: seq<Amount>, buf: Packet)
    requires |w.queue| <= size && !w.Finished(buf) && |PeerReads(w, peer).queue| == size
    ensures var w' := WriteStep(w, size, peer, buf);
            && w'.queue == PeerReads(w, peer).queue && w'.moved == w.moved && w'.retry == w.retry - 1
            && |w'.amounts| == |w.amounts| + 1
            && Writing(w', size, peer, buf) == Writing(w, size, peer, buf)
  {
  }

  // The polling loop: it ends with a poll that finds room, or with the last retry.
  method PollRoom(f: Fifo, peer: seq<Amount>, k: nat, retry: nat, ghost w: Writer, ghost buf: Packet)
    returns (k': nat, retry': nat, ghost w': Writer)
    requires f.Valid() && f.Contents() == w.queue && k == |w.amounts| && retry == w.retry > 0 && w.moved < |buf|
    modifies f, f.buf
    ensures f.Valid() && f.ovr == old(f.ovr)
    ensures w'.moved == w.moved && w'.retry == retry' && |w'.queue| <= f.size
    ensures Writing(w', f.size, peer, buf) == Writing(w, f.size, peer, buf)
    ensures retry' == 0 ==> f.Contents() == w'.queue
    ensures retry' > 0 ==> f.Contents() == PeerReads(w', peer).queue && |f.Contents()| < f.size
                           && k' == |w'.amounts| + 1
  {
    hide PeerReads;
    k', retry', w' := k, retry, w;
    PeerTakes(f, peer, k', w');
    var fill := f.Fill();
    while fill == f.size
      invariant f.Valid() && f.ovr == old(f.ovr)
      invariant w'.moved == w.moved && w'.retry == retry' > 0 && |w'.queue| <= f.size
      invariant Writing(w', f.size, peer, buf) == Writing(w, f.size, peer, buf)
      invariant f.Contents() == PeerReads(w', peer).queue && k' == |w'.amounts| && fill == |f.Contents()|
      decreases retry'
    {
      FullPoll(w', f.size, peer, buf);
      w' := WriteStep(w', f.size, peer, buf);
      retry' := retry' - 1;
      k' := k' + 1;
      if retry' == 0 {
        return;
      }
      PeerTakes(f, peer, k', w');
      fill := f.Fill();
    }
    k' := k' + 1;
  }

  // What a step does after a poll that found room.
  lemma RoomPoll(w: Writer, size: nat, peer: seq<Amount>, buf: Packet, q: Writer)
    requires |w.queue| <= size && !w.Finished(buf) && |PeerReads(w, peer).queue| < size
    requires var p := PeerReads(w, peer);
             q == PeerReads(p.(polls := p.polls + [|p.queue|]), peer)
    ensures var n, w' := Min(|buf| - w.moved, size - |q.queue|), WriteStep(w, size, peer, buf);
            && 0 < n <= |buf| - w.moved && w'.queue == q.queue + buf[w.moved..w.moved + n]
            && w'.moved == w.moved + n && w'.retry == w.retry && |w'.amounts| == |w.amounts| + 2
  {
  }

  // The write that follows a poll which found room.
  method GiveChunk(f: Fifo, peer: seq<Amount>, k: nat, buf: Packet, moved: nat, ghost w: Writer) returns (moved': nat)
    requires f.Valid() && |w.queue| <= f.size && moved == w.moved && !w.Finished(buf) && k == |w.amounts| + 1
    requires f.Contents() == PeerReads(w, peer).queue && |f.Contents()| < f.size
    modifies f, f.buf
    ensures f.Valid() && f.ovr == old(f.ovr)
    ensures var w' := WriteStep(w, f.size, peer, buf);
            && f.Contents() == w'.queue && w'.moved == moved' > moved && w'.retry == w.retry && |w'.amounts| == k + 1
  {
    ghost var p := PeerReads(w, peer);
    ghost var polled := p.(polls := p.polls + [|p.queue|]);
    assert |p.amounts| == k;
    RoomPoll(w, f.size, peer, buf, PeerReads(polled, peer));
    hide PeerReads, WriteStep;
    PeerTakes(f, peer, k, polled);
    var chunk := f.Write(buf[moved..], |buf| - moved);
    moved' := moved + chunk;
    assert buf[moved..][..chunk] == buf[moved..moved'];
  }

  // fifo_blocking_write. It flags no overrun.
  method BlockingWrite(f: Fifo, peer: seq<Amount>, buf: Packet) returns (ok: bool)
    requires f.Valid()
    modifies f, f.buf
    ensures f.Valid() && f.ovr == old(f.ovr)
    ensures var w := Writing(WriteStart(old(f.Contents())), f.size, peer, buf);
            ok == w.Ok() && f.Contents() == w.queue
  {
    hide PeerReads, WriteStep;
    var k, retry, moved: nat := 0, RETRIES, 0;
    ok := true;
    ghost var start := WriteStart(f.Contents());
    ghost var w := start;
    while moved < |buf|
      invariant f.Valid() && f.ovr == old(f.ovr) && f.Contents() == w.queue && k == |w.amounts|
      invariant w.moved == moved <= |buf| && w.retry == retry > 0
      invariant Writing(w, f.size, peer, buf) == Writing(start, f.size, peer, buf)
      decreases |buf| - moved
    {
      k, retry, w := PollRoom(f, peer, k, retry, w, buf);
      if retry == 0 {
        ok := false;
        return;
      }
      moved := GiveChunk(f, peer, k, buf, moved, w);
      w := WriteStep(w, f.size, peer, buf);
      k := k + 1;
    }
  }

  // ---- What a blocking write promises ---------------------------------------------------------

  function Total(amounts: seq<nat>): nat {
    if amounts == [] then 0 else Total(amounts[..|amounts| - 1]) + amounts[|amounts| - 1]
  }

  predicate Writes(w: Writer, queue: seq<byte>, size: nat, peer: seq<Amount>, buf: Packet) {
    && w.moved <= |buf| && queue + buf[..w.moved] == w.taken + w.queue
    && Seen(w.polls, size) + w.retry == RETRIES
    && |w.taken| == Total(w.amounts)
    && (forall k :: 0 <= k < |w.amounts| ==> w.amounts[k] <= Asked(peer, k))
    && (w.retry == 0 ==> |w.queue| == size && w.moved < |buf|)
  }

  lemma TotalSnoc(amounts: seq<nat>, n: nat)
    ensures Total(amounts + [n]) == Total(amounts) + n
  {
    assert (amounts + [n])[..|amounts|] == amounts;
  }

  lemma PeerReadsKeeps(w: Writer, queue: seq<byte>, size: nat, peer: seq<Amount>, buf: Packet)
    requires Writes(w, queue, size, peer, buf) && w.retry > 0
    ensures Writes(PeerReads(w, peer), queue, size, peer, buf)
  {
    hide Seen, Asked, Total;
    var n := Min(Asked(peer, |w.amounts|), |w.queue|);
    TotalSnoc(w.amounts, n);
    assert w.queue == w.queue[..n] + w.queue[n..];
    Associates(w.taken, w.queue[..n], w.queue[n..]);
  }

  lemma PollRoomKeeps(w: Writer, queue: seq<byte>, size: nat, peer: seq<Amount>, buf: Packet)
    requires Writes(w, queue, size, peer, buf) && !w.Finished(buf)
    ensures var polled := w.(polls := w.polls + [|w.queue|]);
            Writes(if |w.queue| == size then polled.(retry := w.retry - 1) else polled, queue, size, peer, buf)
  {
    hide Seen, Asked, Total;
    SeenSnoc(w.polls, |w.queue|, size);
  }

  lemma GiveKeeps(w: Writer, queue: seq<byte>, size: nat, peer: seq<Amount>, buf: Packet, m: nat)
    requires Writes(w, queue, size, peer, buf) && w.retry > 0 && w.moved + m <= |buf|
    ensures Writes(w.(queue := w.queue + buf[w.moved..w.moved + m], moved := w.moved + m), queue, size, peer, buf)
  {
    hide Seen, Asked, Total;
    var chunk := buf[w.moved..w.moved + m];
    assert buf[..w.moved + m] == buf[..w.moved] + chunk;
    Associates(queue, buf[..w.moved], chunk);
    Associates(w.taken, w.queue, chunk);
  }

  lemma WriteStepKeeps(w: Writer, queue: seq<byte>, size: nat, peer: seq<Amount>, buf: Packet)
    requires |w.queue| <= size && !w.Finished(buf) && Writes(w, queue, size, peer, buf)
    ensures Writes(WriteStep(w, size, peer, buf), queue, size, peer, buf)
  {
    var p := PeerReads(w, peer);
    PeerReadsKeeps(w, queue, size, peer, buf);
    PollRoomKeeps(p, queue, size, peer, buf);
    if |p.queue| < size {
      var polled := p.(polls := p.polls + [|p.queue|]);
      var q := PeerReads(polled, peer);
      PeerReadsKeeps(polled, queue, size, peer, buf);
      hide Writes;
      GiveKeeps(q, queue, size, peer, buf, Min(|buf| - q.moved, size - |q.queue|));
    }
  }

  lemma {:induction false} WritingKeeps(w: Writer, queue: seq<byte>, size: nat, peer: seq<Amount>, buf: Packet)
    requires |w.queue| <= size && Writes(w, queue, size, peer, buf)
    ensures Writes(Writing(w, size, peer, buf), queue, size, peer, buf)
    decreases |buf| - w.moved, w.retry
  {
    hide Writes;
    if !w.Finished(buf) {
      WriteStepKeeps(w, queue, size, peer, buf);
      WritingKeeps(WriteStep(w, size, peer, buf), queue, size, peer, buf);
    }
  }

  /**
   * What a blocking write moves: the stream the other thread reads from is what was queued at first,
   * then a prefix of the buffer. A write succeeds, with the whole buffer moved, exactly if the other
   * thread made room for it in time; it times out exactly when five polls saw a full queue, which
   * then still is full.
   */
  lemma WriteTheorem(queue: seq<byte>, size: nat, peer: seq<Amount>, buf: Packet)
    requires |queue| <= size
    ensures var w := Writing(WriteStart(queue), size, peer, buf);
            && (forall k :: 0 <= k < |w.amounts| ==> w.amounts[k] <= Asked(peer, k))
            && |w.taken| == Total(w.amounts)
            && w.moved <= |buf| && queue + buf[..w.moved] == w.taken + w.queue
            && (w.Ok() <==> |queue| + |buf| <= size + |w.taken|)
            && (w.Ok() <==> w.moved == |buf|)
            && (!w.Ok() <==> Seen(w.polls, size) == 5)
            && (!w.Ok() ==> |w.queue| == size)
  {
    WritingKeeps(WriteStart(queue), queue, size, peer, buf);
  }

  lemma {:induction false} NothingTaken(amounts: seq<nat>)
    requires forall k :: 0 <= k < |amounts| ==> amounts[k] <= Asked([], k)
    ensures Total(amounts) == 0
  {
    if amounts != [] {
      NothingTaken(amounts[..|amounts| - 1]);
    }
  }

  // A write that found room leaves none it wanted: it ends or fills the queue.
  lemma WriteIsGreedy(w: Writer, size: nat, peer: seq<Amount>, buf: Packet)
    requires |w.queue| <= size && !w.Finished(buf) && |PeerReads(w, peer).queue| < size
    ensures var w' := WriteStep(w, size, peer, buf);
            (w'.moved == |buf| || |w'.queue| == size) && w'.moved > w.moved && w'.retry == w.retry
  {
    var p := PeerReads(w, peer);
    RoomPoll(w, size, peer, buf, PeerReads(p.(polls := p.polls + [|p.queue|]), peer));
    hide PeerReads, WriteStep;
  }

  // Alone with the queue, a write succeeds exactly if the buffer fits, and else fills the queue.
  lemma WriteToSilentPeer(queue: seq<byte>, size: nat, buf: Packet)
    requires |queue| <= size
    ensures var w := Writing(WriteStart(queue), size, [], buf);
            && (w.Ok() <==> |queue| + |buf| <= size)
            && w.queue == queue + buf[..Min(|buf|, size - |queue|)]
  {
    hide Writing, Asked;
    var w := Writing(WriteStart(queue), size, [], buf);
    WriteTheorem(queue, size, [], buf);
    NothingTaken(w.amounts);
    assert w.taken == [] && [] + w.queue == w.queue;
  }

  lemma ReadyRoom(w: Writer, size: nat, peer: seq<Amount>, buf: Packet)
    requires |w.queue| <= size && size > 0 && !w.Finished(buf) && |w.amounts| < |peer|
    requires forall k :: 0 <= k < |peer| ==> peer[k] > 0
    ensures var w' := WriteStep(w, size, peer, buf);
            w'.retry == w.retry && w'.moved > w.moved && |w'.amounts| == |w.amounts| + 2
  {
    assert |PeerReads(w, peer).queue| < size;
  }

  lemma {:induction false} ReadyToTake(w: Writer, size: nat, peer: seq<Amount>, buf: Packet)
    requires |w.queue| <= size && size > 0 && w.retry > 0 && w.moved <= |buf|
    requires |w.amounts| + 2 * (|buf| - w.moved) <= |peer| && forall k :: 0 <= k < |peer| ==> peer[k] > 0
    ensures Writing(w, size, peer, buf).Ok()
    decreases |buf| - w.moved
  {
    hide WriteStep;
    if !w.Finished(buf) {
      ReadyRoom(w, size, peer, buf);
      ReadyToTake(WriteStep(w, size, peer, buf), size, peer, buf);
    }
  }

  // A write never times out on a peer that asks for something before each of its calls.
  lemma WriteToReadyPeer(queue: seq<byte>, size: nat, peer: seq<Amount>, buf: Packet)
    requires |queue| <= size && size > 0 && 2 * |buf| <= |peer| && forall k :: 0 <= k < |peer| ==> peer[k] > 0
    ensures var w := Writing(WriteStart(queue), size, peer, buf);
            w.Ok() && w.moved == |buf|
  {
    ReadyToTake(WriteStart(queue), size, peer, buf);
    WriteTheorem(queue, size, peer, buf);
  }

  // ---- Requests of 65536 bytes and more -------------------------------------------------------

  // What the unsigned short parameter of fifo_read and fifo_write receives.
  function Chunk(left: nat): nat {
    left % U16
  }

  // The count left after one call for each number of bytes the other side could move.
  function Left(n: nat, offered: seq<nat>): nat {
    if offered == [] then n
    else
      var left := Left(n, offered[..|offered| - 1]);
      left - Min(Chunk(left), offered[|offered| - 1])
  }

  // However many calls are made and whatever each could move, the count left never falls below its
  // multiple of 65536.
  lemma {:induction false} NeverBelowMultiple(n: nat, offered: seq<nat>)
    ensures Left(n, offered) >= n / 65536 * 65536
    decreases |offered|
  {
    if offered != [] {
      NeverBelowMultiple(n, offered[..|offered| - 1]);
    }
  }

  // So a request can be completed exactly when it is below 65536 bytes.
  lemma CompletesIff(n: nat)
    ensures (exists offered :: Left(n, offered) == 0) <==> n < 65536
  {
    if n < U16 {
      assert [n][..0] == [];
      assert Left(n, [n]) == 0;
    } else {
      forall offered ensures Left(n, offered) > 0 {
        NeverBelowMultiple(n, offered);
      }
    }
  }
}
