/**
 * A transmitter whose tx is wired to a receiver's rx, both on one clock and with the same tick.
 */
module Link {
  import opened Uart
  import Ring
  import Tx = UartTx
  import Rx = UartRx

  // ---- The transmitter's frames are what the receiver samples ---------------------------------

  lemma FrameSample(tick: nat, b: Byte, i: nat)
    requires i < 8
    ensures Rx.SampleAt(tick, i) < |Frame(tick + 1, b)|
    ensures Frame(tick + 1, b)[Rx.SampleAt(tick, i)] == b[i]
  {
    HeadLength(tick + 1, b, i);
    HeadIsPrefix(tick + 1, b, i + 1, |b|);
    assert Rx.SampleAt(tick, i) == |Head(tick + 1, b, i)| + tick / 2;
    assert Head(tick + 1, b, i + 1)[Rx.SampleAt(tick, i)] == b[i];
  }

  lemma FrameCarries(tick: nat, b: Byte, gap: nat)
    ensures Rx.Carries(tick, Frame(tick + 1, b) + Level(true, gap), b)
  {
    HeadLength(tick + 1, b, |b|);
    HeadIsPrefix(tick + 1, b, 0, |b|);
    assert Head(tick + 1, b, 0) == Level(false, tick + 2);
    forall i: nat | i < 8
      ensures Rx.SampleAt(tick, i) < |Frame(tick + 1, b)|
              && Frame(tick + 1, b)[Rx.SampleAt(tick, i)] == b[i]
    {
      FrameSample(tick, b, i);
    }
  }

  lemma FrameOutlastsHearing(tick: nat, b: Byte)
    ensures Rx.DoneAt(tick) < |Frame(tick + 1, b)|
  {
    HeadLength(tick + 1, b, |b|);
  }

  // After anything that leaves the receiver idle, a frame and a gap are heard as one more byte,
  // and already so before the last clock.
  lemma HearsFrame(tick: nat, l: Rx.Listener, before: seq<bool>, b: Byte, gap: nat)
    requires Rx.Feed(tick, l, before).core.state == Idle
    ensures var line := before + (Frame(tick + 1, b) + Level(true, gap));
            && Rx.Feed(tick, l, line).core.state == Idle
            && Rx.Feed(tick, l, line).received == Rx.Feed(tick, l, before).received + [b]
            && |line| > 0 && Rx.Feed(tick, l, line[..|line| - 1]).received == Rx.Feed(tick, l, line).received
  {
    FrameCarries(tick, b, gap);
    FrameOutlastsHearing(tick, b);
    Rx.HearsAll(tick, l, before, Frame(tick + 1, b) + Level(true, gap), b);
  }

  lemma WaveSplit(bitTime: nat, bytes: seq<Byte>, gaps: seq<nat>)
    requires |gaps| == |bytes| + 1 && bytes != []
    ensures var n := |bytes| - 1;
            Wave(bitTime, bytes, gaps)
            == Wave(bitTime, bytes[..n], gaps[..n + 1]) + (Frame(bitTime, bytes[n]) + Level(true, gaps[n + 1]))
  {
  }

  lemma {:induction false} HearsWave(tick: nat, l: Rx.Listener, bytes: seq<Byte>, gaps: seq<nat>)
    requires l.core.state == Idle && |gaps| == |bytes| + 1
    ensures Rx.Feed(tick, l, Wave(tick + 1, bytes, gaps)).core.state == Idle
    ensures Rx.Feed(tick, l, Wave(tick + 1, bytes, gaps)).received == l.received + bytes
    decreases |bytes|
  {
    hide Rx.Feed;
    if bytes == [] {
      Rx.HearsNothing(tick, l, gaps[0]);
    } else {
      var n := |bytes| - 1;
      HearsWave(tick, l, bytes[..n], gaps[..n + 1]);
      WaveSplit(tick + 1, bytes, gaps);
      HearsFrame(tick, l, Wave(tick + 1, bytes[..n], gaps[..n + 1]), bytes[n], gaps[n + 1]);
      assert bytes == bytes[..n] + [bytes[n]];
    }
  }

  // Hearing all but the last clock of a wave that has ended makes no difference.
  lemma HearsWaveButLast(tick: nat, l: Rx.Listener, bytes: seq<Byte>, gaps: seq<nat>)
    requires l.core.state == Idle && |gaps| == |bytes| + 1
    requires |Wave(tick + 1, bytes, gaps)| > 0
    ensures var w := Wave(tick + 1, bytes, gaps);
            Rx.Feed(tick, l, w[..|w| - 1]).received == l.received + bytes
  {
    hide Rx.Feed;
    if bytes == [] {
      assert Level(true, gaps[0])[..gaps[0] - 1] == Level(true, gaps[0] - 1);
      Rx.HearsNothing(tick, l, gaps[0] - 1);
    } else {
      var n := |bytes| - 1;
      HearsWave(tick, l, bytes[..n], gaps[..n + 1]);
      WaveSplit(tick + 1, bytes, gaps);
      HearsFrame(tick, l, Wave(tick + 1, bytes[..n], gaps[..n + 1]), bytes[n], gaps[n + 1]);
      assert bytes == bytes[..n] + [bytes[n]];
    }
  }

  lemma HearsPartial(tick: nat, l: Rx.Listener, before: seq<bool>, b: Byte, m: nat)
    requires Rx.Feed(tick, l, before).core.state == Idle && m <= |Frame(tick + 1, b)|
    ensures var received := Rx.Feed(tick, l, before).received;
            Rx.Feed(tick, l, before + Frame(tick + 1, b)[..m]).received
            == if m < Rx.DoneAt(tick) then received else received + [b]
  {
    var frame, mid := Frame(tick + 1, b), Rx.Feed(tick, l, before);
    FrameCarries(tick, b, 0);
    assert frame + Level(true, 0) == frame;
    Rx.FeedConcat(tick, l, before, frame[..m]);
    Rx.HearsPrefix(tick, mid, frame, b, m);
    Rx.HearingIsDone(tick, mid, Rx.Feed(tick, mid, frame[..m]), b, m);
  }

  // A listener one clock behind a wave and part of a frame of b has heard the bytes of the wave, and b
  // once enough of it has passed.
  lemma HearsLine(tick: nat, l: Rx.Listener, line: seq<bool>, sent: seq<Byte>, gaps: seq<nat>,
                  partial: seq<bool>, b: Byte)
    requires l.core.state == Idle && |gaps| == |sent| + 1
    requires line == Wave(tick + 1, sent, gaps) + partial && line != []
    requires partial != [] ==> partial < Frame(tick + 1, b)
    ensures var received := Rx.Feed(tick, l, line[..|line| - 1]).received;
            received == l.received + sent + (if |partial| > Rx.DoneAt(tick) then [b] else [])
  {
    hide Rx.Feed, Frame, Wave;
    var wave := Wave(tick + 1, sent, gaps);
    if partial == [] {
      assert line == wave;
      HearsWaveButLast(tick, l, sent, gaps);
    } else {
      var m := |partial| - 1;
      HearsWave(tick, l, sent, gaps);
      HearsPartial(tick, l, wave, b, m);
      assert partial[..m] == Frame(tick + 1, b)[..m];
      assert line[..|line| - 1] == wave + partial[..m];
    }
  }

  // The byte that has been heard although its frame has not ended.
  function InFlight(tick: nat, t: Tx.Tx): (bytes: seq<Byte>)
    requires t.Valid()
    ensures |bytes| <= 1
  {
    if |Tx.InProgress(tick, t)| > Rx.DoneAt(tick) && t.Queue() != [] then [t.Queue()[0]] else []
  }

  // A listener one clock behind a transmitter's line has heard the bytes sent, and that in flight.
  lemma HearsTransmitter(tick: nat, l: Rx.Listener, dev: Tx.Tx, reqs: seq<Tx.Request>)
    requires tick >= 1 && Tx.AtRest(dev) && Tx.Polite(tick, dev, reqs)
    requires l.core.state == Idle && l.received == []
    ensures var h := Tx.Run(tick, dev, reqs);
            && |h.line| > 0
            && Rx.Feed(tick, l, h.line[..|h.line| - 1]).received == h.sent + InFlight(tick, h.dev)
  {
    LineNotEmpty(tick, dev, reqs);
    hide Tx.Run, Tx.Polite, Rx.Feed, Frame, Wave;
    var h := Tx.Run(tick, dev, reqs);
    var gaps := Tx.WaveformTheorem(tick, dev, reqs);
    var partial := Tx.InProgress(tick, h.dev);
    var b := if partial != [] then h.dev.Queue()[0] else h.dev.fifo[0];
    HearsLine(tick, l, h.line, h.sent, gaps, partial, b);
    assert [] + h.sent == h.sent;
  }

  lemma {:induction false} LineNotEmpty(tick: nat, dev: Tx.Tx, reqs: seq<Tx.Request>)
    requires dev.Valid()
    ensures |Tx.Run(tick, dev, reqs).line| > 0
  {
  }

  // ---- The two devices on one clock -----------------------------------------------------------

  datatype Input = Input(req: Tx.Request, rd: bool)

  /** Both devices, everything the transmitter did, and the bytes pushed into and read from the ring. */
  datatype Link = Link(tx: Tx.History, rx: Rx.Rx, received: seq<Byte>, read: seq<Byte>)
  {
    predicate Valid() {
      tx.dev.Valid() && rx.Valid()
    }
  }

  predicate AtRest(k: Link) {
    Tx.AtRest(k.tx.dev) && k.tx == Tx.Begin(k.tx.dev)
    && k.rx.Valid() && k.rx.core.state == Idle && k.rx.nextread == k.rx.nextwrite
    && k.received == k.read == []
  }

  // One rising edge: the receiver samples tx as it was before the edge.
  function Step(tick: nat, k: Link, input: Input): (k': Link)
    requires k.Valid()
    ensures k'.Valid()
  {
    Link(Tx.Step(tick, k.tx, input.req),
         Rx.Edge(tick, k.rx, false, input.rd, k.tx.dev.tx),
         k.received + (if Rx.Pushes(tick, k.rx.core) then [k.rx.core.puffer] else []),
         k.read + (if input.rd then [k.rx.Rdata()] else []))
  }

  function Run(tick: nat, k: Link, inputs: seq<Input>): (k': Link)
    requires k.Valid()
    ensures k'.Valid()
  {
    if inputs == [] then k
    else Step(tick, Run(tick, k, inputs[..|inputs| - 1]), inputs[|inputs| - 1])
  }

  // Writes happen only under wr_en.
  predicate PoliteWriter(tick: nat, k: Link, inputs: seq<Input>)
    requires k.Valid()
  {
    inputs == [] ||
    (var n := |inputs| - 1;
     PoliteWriter(tick, k, inputs[..n])
     && (inputs[n].req.Write? ==> Run(tick, k, inputs[..n]).tx.dev.WrEn()))
  }

  // Reads happen only under rd_en, and keep pace: no byte is pushed into a full ring.
  predicate PoliteReader(tick: nat, k: Link, inputs: seq<Input>)
    requires k.Valid()
  {
    inputs == [] ||
    (var n := |inputs| - 1;
     var rx := Run(tick, k, inputs[..n]).rx;
     PoliteReader(tick, k, inputs[..n])
     && (inputs[n].rd ==> rx.RdEn())
     && (Rx.Pushes(tick, rx.core) && !inputs[n].rd ==> |rx.Queue()| < Rx.RING_SIZE - 1))
  }

  function Requests(inputs: seq<Input>): (reqs: seq<Tx.Request>)
    ensures |reqs| == |inputs|
  {
    if inputs == [] then []
    else Requests(inputs[..|inputs| - 1]) + [inputs[|inputs| - 1].req]
  }

  // The receiver as a listener.
  function Ear(k: Link): Rx.Listener {
    Rx.Listener(k.rx.core, k.received)
  }

  lemma ProjectionStep(tick: nat, k: Link, input: Input)
    requires k.Valid()
    ensures var k' := Step(tick, k, input);
            && k'.tx == Tx.Step(tick, k.tx, input.req)
            && Ear(k') == Rx.Hear(tick, Ear(k), k.tx.dev.tx)
            && k'.tx.line == k.tx.line + [k'.tx.dev.tx]
  {
  }

  // The transmitter runs as it would alone, and the receiver listens to its line one clock late.
  lemma {:induction false} Projection(tick: nat, k: Link, inputs: seq<Input>)
    requires AtRest(k) && PoliteWriter(tick, k, inputs)
    ensures var k' := Run(tick, k, inputs);
            && Tx.Polite(tick, k.tx.dev, Requests(inputs))
            && k'.tx == Tx.Run(tick, k.tx.dev, Requests(inputs))
            && |k'.tx.line| == |inputs| + 1
            && k'.tx.line[|inputs|] == k'.tx.dev.tx
            && Ear(k') == Rx.Feed(tick, Ear(k), k'.tx.line[..|inputs|])
  {
    hide Step, Tx.Step, Rx.Hear;
    if inputs != [] {
      var n := |inputs| - 1;
      Projection(tick, k, inputs[..n]);
      assert Requests(inputs)[..n] == Requests(inputs[..n]);
      ProjectionStep(tick, Run(tick, k, inputs[..n]), inputs[n]);
      var line, line' := Run(tick, k, inputs[..n]).tx.line, Run(tick, k, inputs).tx.line;
      assert line'[..n + 1] == line && line'[..n + 1][..n] == line[..n];
    }
  }

  /**
   * The end-to-end theorem. After any number of clocks and frames, the bytes the receiver has
   * pushed are the bytes the transmitter has sent and, from the middle of the stop bit on, the byte
   * it is sending now.
   */
  lemma EndToEnd(tick: nat, k: Link, inputs: seq<Input>)
    requires tick >= 1 && AtRest(k) && PoliteWriter(tick, k, inputs)
    ensures var k' := Run(tick, k, inputs);
            && k'.received == k'.tx.sent + InFlight(tick, k'.tx.dev)
            && k'.tx.accepted == k'.tx.sent + k'.tx.dev.Queue()
  {
    hide Run, PoliteWriter, Tx.Run, Rx.Feed, Frame, Wave;
    Projection(tick, k, inputs);
    var gaps := Tx.WaveformTheorem(tick, k.tx.dev, Requests(inputs));
    HearsTransmitter(tick, Ear(k), k.tx.dev, Requests(inputs));
  }

  lemma ReaderStep(tick: nat, k: Link, input: Input)
    requires k.Valid() && k.received == k.read + k.rx.Queue()
    requires input.rd ==> k.rx.RdEn()
    requires Rx.Pushes(tick, k.rx.core) && !input.rd ==> |k.rx.Queue()| < Rx.RING_SIZE - 1
    ensures var k' := Step(tick, k, input);
            k'.received == k'.read + k'.rx.Queue()
  {
    hide Rx.CoreEdge, Tx.Step, Rx.Edge, Ring.Contents;
    Rx.QueueStep(tick, k.rx, input.rd, k.tx.dev.tx);
    assert Step(tick, k, input).rx == Rx.Edge(tick, k.rx, false, input.rd, k.tx.dev.tx);
    if input.rd {
      Ring.Pop(k.rx.fifo, k.rx.nextread, k.rx.nextwrite);
    }
  }

  lemma {:induction false} ReaderConservation(tick: nat, k: Link, inputs: seq<Input>)
    requires AtRest(k) && PoliteReader(tick, k, inputs)
    ensures var k' := Run(tick, k, inputs);
            k'.received == k'.read + k'.rx.Queue()
  {
    hide Step;
    if inputs != [] {
      var n := |inputs| - 1;
      ReaderConservation(tick, k, inputs[..n]);
      ReaderStep(tick, Run(tick, k, inputs[..n]), inputs[n]);
    }
  }

  // Every read takes a byte.
  function Reads(inputs: seq<Input>): nat {
    if inputs == [] then 0 else Reads(inputs[..|inputs| - 1]) + (if inputs[|inputs| - 1].rd then 1 else 0)
  }

  lemma {:induction false} ReadsTake(tick: nat, k: Link, inputs: seq<Input>)
    requires k.Valid()
    ensures |Run(tick, k, inputs).read| == |k.read| + Reads(inputs)
  {
    hide Tx.Step, Rx.Edge;
    if inputs != [] {
      ReadsTake(tick, k, inputs[..|inputs| - 1]);
    }
  }

  /**
   * Conservation over the whole link: the bytes accepted at one end are, in order, the bytes read
   * at the other end, those in the receiver's ring, and those of the transmitter's ring that have
   * not been heard yet.
   */
  lemma LinkConservation(tick: nat, k: Link, inputs: seq<Input>)
    requires tick >= 1 && AtRest(k) && PoliteWriter(tick, k, inputs) && PoliteReader(tick, k, inputs)
    ensures var k' := Run(tick, k, inputs);
            var heard := |InFlight(tick, k'.tx.dev)|;
            && heard <= |k'.tx.dev.Queue()| && |k'.read| == Reads(inputs)
            && k'.tx.accepted == k'.read + k'.rx.Queue() + k'.tx.dev.Queue()[heard..]
  {
    hide Run, PoliteWriter, PoliteReader, Tx.InProgress, Ring.Contents;
    EndToEnd(tick, k, inputs);
    ReaderConservation(tick, k, inputs);
    ReadsTake(tick, k, inputs);
    var k' := Run(tick, k, inputs);
    var q := k'.tx.dev.Queue();
    assert q == InFlight(tick, k'.tx.dev) + q[|InFlight(tick, k'.tx.dev)|..];
  }

  // ---- Everything arrives ---------------------------------------------------------------------

  predicate NoWrites(inputs: seq<Input>) {
    forall i :: 0 <= i < |inputs| ==> inputs[i].req == Tx.NoWrite
  }

  lemma {:induction false} RequestsConcat(a: seq<Input>, b: seq<Input>)
    requires NoWrites(b)
    ensures Requests(a + b) == Requests(a) + Requests(b) && Tx.NoWrites(Requests(b))
    decreases |b|
  {
    if b == [] {
      assert a + b == a;
    } else {
      var n := |b| - 1;
      assert (a + b)[..|a + b| - 1] == a + b[..n];
      RequestsConcat(a, b[..n]);
    }
  }

  lemma {:induction false} StaysPolite(tick: nat, k: Link, inputs: seq<Input>, tail: seq<Input>)
    requires k.Valid() && PoliteWriter(tick, k, inputs) && NoWrites(tail)
    ensures PoliteWriter(tick, k, inputs + tail)
    decreases |tail|
  {
    hide Run;
    if tail == [] {
      assert inputs + tail == inputs;
    } else {
      assert (inputs + tail)[..|inputs + tail| - 1] == inputs + tail[..|tail| - 1];
      StaysPolite(tick, k, inputs, tail[..|tail| - 1]);
    }
  }

  // All that is queued has been heard exactly when less than the unheard end of a frame is left.
  lemma HeardAllIff(tick: nat, h: Tx.History, gaps: seq<nat>)
    requires Tx.Inv(tick, h, gaps)
    ensures InFlight(tick, h.dev) == h.dev.Queue() <==> Tx.Left(tick, h.dev) + Rx.DoneAt(tick) < Tx.FrameTime(tick)
    ensures Rx.DoneAt(tick) < Tx.FrameTime(tick)
  {
    var q, progress := h.dev.Queue(), Tx.InProgress(tick, h.dev);
    Tx.DrivenLength(tick, h.dev, h.dev.fifo[h.dev.nextread]);
    FrameOutlastsHearing(tick, h.dev.fifo[0]);
    FrameLength(tick + 1, h.dev.fifo[0]);
    assert |progress| < Tx.FrameTime(tick) && (q == [] ==> progress == []);
    hide Tx.Inv, Tx.InProgress, Rx.DoneAt, Tx.FrameTime, Ring.Contents;
    if |q| == 0 {
      assert Bits(Tx.FrameTime(tick), 0) == 0 && InFlight(tick, h.dev) == q;
    } else if |q| == 1 {
      assert Bits(Tx.FrameTime(tick), 1) == Bits(Tx.FrameTime(tick), 0) + Tx.FrameTime(tick);
      assert [q[0]] == q;
    } else {
      Tx.BitsArePositive(Tx.FrameTime(tick), |q| - 1);
    }
  }

  lemma LinkQuiet(tick: nat, k: Link, inputs: seq<Input>, tail: seq<Input>) returns (gaps: seq<nat>)
    requires tick >= 1 && AtRest(k) && PoliteWriter(tick, k, inputs) && NoWrites(tail)
    ensures var h, h' := Run(tick, k, inputs).tx, Run(tick, k, inputs + tail).tx;
            var left := Tx.Left(tick, h.dev);
            && Tx.Inv(tick, h', gaps) && h'.accepted == h.accepted && left >= 0
            && Tx.Left(tick, h'.dev) == if |tail| <= left then left - |tail| else 0
  {
    StaysPolite(tick, k, inputs, tail);
    hide Run, PoliteWriter, NoWrites, Requests, Tx.Run, Tx.Polite, Tx.Inv, Tx.Left, Tx.Quiet, Rx.Feed;
    Projection(tick, k, inputs);
    Projection(tick, k, inputs + tail);
    RequestsConcat(inputs, tail);
    Tx.RunQuiet(tick, k.tx.dev, Requests(inputs), Requests(tail));
    gaps := Tx.RunInv(tick, k.tx.dev, Requests(inputs));
    Tx.LeftIsZeroIffEmpty(tick, Run(tick, k, inputs).tx, gaps);
    gaps := Tx.QuietWorks(tick, Run(tick, k, inputs).tx, gaps, |tail|);
  }

  lemma SameTail(sent: seq<Byte>, a: seq<Byte>, b: seq<Byte>)
    ensures sent + a == sent + b <==> a == b
  {
    assert a == (sent + a)[|sent|..] && b == (sent + b)[|sent|..];
  }

  /**
   * Everything arrives. Once nothing more is written, the receiver has pushed all that the
   * transmitter accepted exactly when the clocks left for sending it have passed, less the end of the
   * last frame, which need not be heard; whatever the reader does.
   */
  lemma AllArrivesIff(tick: nat, k: Link, inputs: seq<Input>, tail: seq<Input>)
    requires tick >= 1 && AtRest(k) && PoliteWriter(tick, k, inputs) && NoWrites(tail)
    ensures var k', k'' := Run(tick, k, inputs), Run(tick, k, inputs + tail);
            && k''.tx.accepted == k'.tx.accepted
            && (k''.received == k''.tx.accepted <==>
                  Tx.Left(tick, k'.tx.dev) + Rx.DoneAt(tick) < |tail| + Tx.FrameTime(tick))
            && Tx.Left(tick, k'.tx.dev) <= |k'.tx.dev.Queue()| * Tx.FrameTime(tick)
  {
    StaysPolite(tick, k, inputs, tail);
    hide Run, PoliteWriter, NoWrites, Tx.Inv, Tx.Left, Tx.FrameTime, Rx.DoneAt, InFlight, Ring.Contents;
    var h, h' := Run(tick, k, inputs).tx, Run(tick, k, inputs + tail).tx;
    var gaps := LinkQuiet(tick, k, inputs, tail);
    EndToEnd(tick, k, inputs + tail);
    HeardAllIff(tick, h', gaps);
    SameTail(h'.sent, InFlight(tick, h'.dev), h'.dev.Queue());
    Tx.LeftBound(tick, h.dev);
  }
}
