/**
 * The capitalisation relay: a receiver, the byte map with its handshake, and a transmitter.
 * The handshake process is sensitive to clk without an edge test, so it runs on both edges;
 * a state is therefore the value of every signal between two clock events, rising or falling.
 */
module CapRelay {
  import Bits
  import opened Uart
  import Ring
  import Tx = UartTx
  import Rx = UartRx

  // ---- The byte map ---------------------------------------------------------------------------

  function Weight(bit: bool, w: nat): nat {
    if bit then w else 0
  }

  // The unsigned value of a std_logic_vector(7 downto 0).
  function Unsigned(b: Byte): nat {
    Weight(b[0], 1) + Weight(b[1], 2) + Weight(b[2], 4) + Weight(b[3], 8)
    + Weight(b[4], 16) + Weight(b[5], 32) + Weight(b[6], 64) + Weight(b[7], 128)
  }

  lemma FourDigits(b: Byte, i: nat)
    requires i + 4 <= 8
    ensures Bits.Val(b[i..])
         == Weight(b[i], 1) + Weight(b[i + 1], 2) + Weight(b[i + 2], 4) + Weight(b[i + 3], 8)
            + 16 * Bits.Val(b[i + 4..])
  {
    Bits.ValFrom(b, i);
    Bits.ValFrom(b, i + 1);
    Bits.ValFrom(b, i + 2);
    Bits.ValFrom(b, i + 3);
    hide Bits.Val;
  }

  // It is the number that the vector stands for with bit 0 as the lowest.
  lemma UnsignedIsValue(b: Byte)
    ensures Unsigned(b) == Bits.Val(b)
  {
    FourDigits(b, 0);
    FourDigits(b, 4);
    assert Bits.Val(b[8..]) == 0 && b[0..] == b;
    hide Bits.Val;
  }

  function Capitalise(b: Byte): Byte {
    if 0x60 < Unsigned(b) < 0x7B then b[5 := false] else b
  }

  // Clearing bit 5 is the ASCII upper case of the letters a to z, and nothing else changes.
  lemma CapitaliseIsUpperCase(b: Byte)
    ensures var c, u := Unsigned(b), Unsigned(Capitalise(b));
            && u == (if 'a' as nat <= c <= 'z' as nat then c - ('a' as nat - 'A' as nat) else c)
            && !('a' as nat <= u <= 'z' as nat)
            && Capitalise(Capitalise(b)) == Capitalise(b)
  {
  }

  function Capitals(bytes: seq<Byte>): (c: seq<Byte>)
    ensures |c| == |bytes|
  {
    seq(|bytes|, i requires 0 <= i < |bytes| => Capitalise(bytes[i]))
  }

  lemma CapitalsConcat(a: seq<Byte>, b: seq<Byte>)
    ensures Capitals(a + b) == Capitals(a) + Capitals(b)
  {
  }

  // ---- The handshake --------------------------------------------------------------------------

  datatype Hand = Hand(wr: bool, rd: bool, wdata: Byte)

  // One event of the process; wdata keeps its value unless a transfer starts.
  function HandEvent(c: Hand, reset: bool, rdata: Byte, rdEn: bool, wrEn: bool): Hand {
    var go := wrEn && rdEn;
    Hand(go && !reset, go, if go then Capitalise(rdata) else c.wdata)
  }

  // Both strobes are high exactly while there is a byte and room for it, wr only without reset; wdata
  // changes only with rd.
  lemma HandMeans(c: Hand, reset: bool, rdata: Byte, rdEn: bool, wrEn: bool)
    ensures var c' := HandEvent(c, reset, rdata, rdEn, wrEn);
            && (reset ==> !c'.wr) && (c'.wr <==> c'.rd && !reset)
            && (c'.rd <==> rdEn && wrEn)
            && c'.wdata == if c'.rd then Capitalise(rdata) else c.wdata
  {
  }

  /**
   * The whole design, the history of its transmitter, the bytes its receiver has pushed, and the
   * number of rising edges since the last push.
   */
  datatype Relay = Relay(clk: bool, rx: Rx.Rx, hand: Hand, tx: Tx.History, received: seq<Byte>, since: nat)
  {
    predicate Valid() {
      rx.Valid() && tx.dev.Valid()
    }

    predicate Go() {
      rx.RdEn() && tx.dev.WrEn()
    }

    // What the transmitter sees on wr and wdata.
    function Request(): Tx.Request {
      if hand.wr then Tx.Write(hand.wdata) else Tx.NoWrite
    }
  }

  function Falling(r: Relay): (r': Relay)
    requires r.Valid()
    ensures r'.Valid()
  {
    r.(clk := false, hand := HandEvent(r.hand, false, r.rx.Rdata(), r.rx.RdEn(), r.tx.dev.WrEn()))
  }

  // All three processes read the signals as they were before the edge.
  function Rising(tick: nat, r: Relay, rx: bool): (r': Relay)
    requires r.Valid()
    ensures r'.Valid()
  {
    var push := Rx.Pushes(tick, r.rx.core);
    Relay(true,
          Rx.Edge(tick, r.rx, false, r.hand.rd, rx),
          HandEvent(r.hand, false, r.rx.Rdata(), r.rx.RdEn(), r.tx.dev.WrEn()),
          Tx.Step(tick, r.tx, r.Request()),
          r.received + (if push then [r.rx.core.puffer] else []),
          if push then 0 else r.since + 1)
  }

  function Event(tick: nat, r: Relay, rx: bool): (r': Relay)
    requires r.Valid()
    ensures r'.Valid() && r'.clk == !r.clk
  {
    if r.clk then Falling(r) else Rising(tick, r, rx)
  }

  // One clock event per element; the level of rx matters on rising edges only.
  function Run(tick: nat, r: Relay, line: seq<bool>): (r': Relay)
    requires r.Valid()
    ensures r'.Valid()
  {
    if line == [] then r
    else Event(tick, Run(tick, r, line[..|line| - 1]), line[|line| - 1])
  }

  predicate AtRest(r: Relay) {
    && r.rx.Valid() && r.rx.core.state == Idle && r.rx.nextread == r.rx.nextwrite
    && Tx.AtRest(r.tx.dev) && r.tx == Tx.Begin(r.tx.dev)
    && !r.hand.wr && !r.hand.rd && r.received == []
  }

  // Rising edges from the push of a byte to the end of the frame that carries it on.
  function Turnaround(tick: nat): nat {
    10 * (tick + 1) + 4
  }

  // ---- Conservation ---------------------------------------------------------------------------

  // While clk is low the handshake outputs are those of the present ring states: this is what the
  // falling-edge evaluation is for.
  predicate Settled(r: Relay)
    requires r.Valid()
  {
    && r.hand.wr == r.hand.rd == r.Go()
    && (r.hand.wr ==> r.hand.wdata == Capitalise(r.rx.Rdata()))
  }

  predicate Conserves(r: Relay)
    requires r.Valid()
  {
    && (!r.clk ==> Settled(r))
    && Capitals(r.received) == r.tx.accepted + Capitals(r.rx.Queue())
    && r.tx.accepted == r.tx.sent + r.tx.dev.Queue()
  }

  // The next event pushes no byte into a full receiver ring.
  predicate HasRoom(tick: nat, r: Relay)
    requires r.Valid()
  {
    !r.clk && Rx.Pushes(tick, r.rx.core) && !r.hand.rd ==> |r.rx.Queue()| < Rx.RING_SIZE - 1
  }

  // The receiver ring keeps at most 63 bytes throughout.
  predicate NoOverflow(tick: nat, r: Relay, line: seq<bool>)
    requires r.Valid()
  {
    line == [] ||
    (NoOverflow(tick, r, line[..|line| - 1]) && HasRoom(tick, Run(tick, r, line[..|line| - 1])))
  }

  lemma FallingConserves(r: Relay)
    requires r.Valid() && Conserves(r)
    ensures Conserves(Falling(r))
  {
  }

  lemma TransferConserves(received: seq<Byte>, accepted: seq<Byte>, queue: seq<Byte>,
                          move: bool, push: bool, head: Byte, pushed: Byte)
    requires Capitals(received) == accepted + Capitals(queue)
    requires move ==> queue != [] && queue[0] == head
    ensures var received' := received + (if push then [pushed] else []);
            var accepted' := accepted + (if move then [Capitalise(head)] else []);
            var queue' := (if move then queue[1..] else queue) + (if push then [pushed] else []);
            Capitals(received') == accepted' + Capitals(queue')
  {
    var rest := if move then queue[1..] else queue;
    assert Capitals(queue) == (if move then [Capitalise(head)] else []) + Capitals(rest);
    CapitalsConcat(received, if push then [pushed] else []);
    CapitalsConcat(rest, if push then [pushed] else []);
  }

  lemma RisingConserves(tick: nat, r: Relay, rx: bool)
    requires r.Valid() && !r.clk && Conserves(r) && HasRoom(tick, r)
    requires r.tx.dev.Release() ==> r.tx.dev.nextread != r.tx.dev.nextwrite
    ensures Conserves(Rising(tick, r, rx))
  {
    hide Capitals, Ring.Contents, Tx.FsmEdge, Rx.CoreEdge, Capitalise;
    Rx.QueueStep(tick, r.rx, r.hand.rd, rx);
    Tx.AcceptedStep(tick, r.tx, r.Request());
    if r.hand.rd {
      Ring.Pop(r.rx.fifo, r.rx.nextread, r.rx.nextwrite);
    }
    TransferConserves(r.received, r.tx.accepted, r.rx.Queue(), r.hand.rd, Rx.Pushes(tick, r.rx.core),
                      r.rx.Rdata(), r.rx.core.puffer);
  }

  lemma {:induction false} RunConserves(tick: nat, r: Relay, line: seq<bool>) returns (gaps: seq<nat>)
    requires tick >= 1 && AtRest(r) && NoOverflow(tick, r, line)
    ensures Conserves(Run(tick, r, line)) && Tx.Inv(tick, Run(tick, r, line).tx, gaps)
  {
    hide Tx.Inv, Conserves, Event;
    if line == [] {
      gaps := StartConserves(tick, r);
    } else {
      var n := |line| - 1;
      gaps := RunConserves(tick, r, line[..n]);
      gaps := EventConserves(tick, Run(tick, r, line[..n]), line[n], gaps);
    }
  }

  lemma StartConserves(tick: nat, r: Relay) returns (gaps: seq<nat>)
    requires tick >= 1 && AtRest(r)
    ensures Conserves(r) && Tx.Inv(tick, r.tx, gaps)
  {
    gaps := [1];
  }

  lemma EventConserves(tick: nat, r: Relay, rx: bool, gaps: seq<nat>) returns (gaps': seq<nat>)
    requires tick >= 1 && r.Valid() && Conserves(r) && HasRoom(tick, r) && Tx.Inv(tick, r.tx, gaps)
    ensures Conserves(Event(tick, r, rx)) && Tx.Inv(tick, Event(tick, r, rx).tx, gaps')
  {
    if r.clk {
      FallingConserves(r);
      gaps' := gaps;
    } else {
      RisingConserves(tick, r, rx);
      gaps' := Tx.InvStep(tick, r.tx, r.Request(), gaps);
    }
  }

  /**
   * Conservation through the relay, for any level on rx at any time: as long as the receiver ring
   * does not overflow, the capitalised bytes received are those sent on, then those in the
   * transmitter ring, then those still in the receiver ring. Nothing is lost, doubled or reordered,
   * the transmitter ring is written only with room, and the receiver ring read only when not empty.
   */
  lemma RelayConservation(tick: nat, r: Relay, line: seq<bool>)
    requires tick >= 1 && AtRest(r) && NoOverflow(tick, r, line)
    ensures var r' := Run(tick, r, line);
            && Capitals(r'.received) == r'.tx.sent + r'.tx.dev.Queue() + Capitals(r'.rx.Queue())
            && (!r'.clk && r'.hand.wr ==> r'.tx.dev.WrEn())
            && (!r'.clk && r'.hand.rd ==> r'.rx.RdEn())
  {
    hide Run, NoOverflow;
    var gaps := RunConserves(tick, r, line);
  }

  // ---- The pace of another transmitter --------------------------------------------------------

  // No push comes sooner after another than a back-to-back frame takes.
  predicate InTime(tick: nat, r: Relay) {
    !r.clk && Rx.Pushes(tick, r.rx.core) ==> r.since + 2 >= Turnaround(tick)
  }

  predicate Spaced(tick: nat, r: Relay, line: seq<bool>)
    requires r.Valid()
  {
    line == [] ||
    (Spaced(tick, r, line[..|line| - 1]) && InTime(tick, Run(tick, r, line[..|line| - 1])))
  }

  // Where the last byte is, by the number of edges since it was received.
  predicate Paced(tick: nat, r: Relay)
    requires r.Valid()
  {
    var t, since, end := r.tx.dev, r.since, Turnaround(tick);
    && |t.fifo| >= 3
    && |r.rx.Queue()| == (if since == 0 then 1 else 0)
    && (since == 0 ==> if Tx.Busy(t) then t.Release() && |t.Queue()| == 1 else t.Queue() == [])
    && (since == 1 ==> !Tx.Busy(t) && |t.Queue()| == 1)
    && (2 <= since < end ==>
          |t.Queue()| == 1 && |Tx.Driven(tick, t, t.fifo[t.nextread])| == since - 1)
    && (end <= since ==> !Tx.Busy(t) && t.Queue() == [])
  }

  // One edge of the transmitter alone, for a queue of at most one byte.
  lemma SingleStep(tick: nat, h: Tx.History, req: Tx.Request, gaps: seq<nat>)
    requires tick >= 1 && Tx.Inv(tick, h, gaps) && |h.dev.fifo| >= 3 && |h.dev.Queue()| <= 1
    requires req.Write? ==> h.dev.Queue() == [] || h.dev.Release()
    ensures h.dev.WrEn()
    ensures var t, t' := h.dev, Tx.Step(tick, h, req).dev;
            && |t'.Queue()| == |t.Queue()| - (if t.Release() then 1 else 0) + (if req.Write? then 1 else 0)
            && (Tx.Busy(t') <==> |t.Queue()| == 1 && !t.Release())
            && (|t.Queue()| == 1 && !t.Release() ==>
                  |Tx.Driven(tick, t', t'.fifo[t'.nextread])| == |Tx.Driven(tick, t, t.fifo[t.nextread])| + 1)
  {
    hide Tx.Driven, Ring.Contents;
    var t := h.dev;
    var t' := Tx.Step(tick, h, req).dev;
    Tx.QueueStep(tick, t, req);
    if |t.Queue()| == 1 && !t.Release() {
      Tx.Grow(tick, t, t', req);
      Tx.DrivenLength(tick, t, t.fifo[t.nextread]);
    }
  }

  lemma RisingPaced(tick: nat, r: Relay, rx: bool, gaps: seq<nat>)
    requires tick >= 1 && r.Valid() && !r.clk && InTime(tick, r) && Paced(tick, r)
    requires Settled(r) && Tx.Inv(tick, r.tx, gaps)
    ensures Paced(tick, Rising(tick, r, rx)) && HasRoom(tick, r)
  {
    var t, r' := r.tx.dev, Rising(tick, r, rx);
    Tx.DrivenLength(tick, t, t.fifo[t.nextread]);
    SingleStep(tick, r.tx, r.Request(), gaps);
    Rx.QueueStep(tick, r.rx, r.hand.rd, rx);
    Tx.DrivenLength(tick, r'.tx.dev, r'.tx.dev.fifo[r'.tx.dev.nextread]);
  }

  // Everything that holds between two events of a relay whose input keeps the pace.
  predicate OnTrack(tick: nat, r: Relay, gaps: seq<nat>) {
    r.Valid() && Conserves(r) && Paced(tick, r) && Tx.Inv(tick, r.tx, gaps)
  }

  lemma EventOnTrack(tick: nat, r: Relay, rx: bool, gaps: seq<nat>) returns (gaps': seq<nat>)
    requires tick >= 1 && OnTrack(tick, r, gaps) && InTime(tick, r)
    ensures OnTrack(tick, Event(tick, r, rx), gaps') && HasRoom(tick, r)
  {
    hide Tx.Inv;
    if r.clk {
      FallingConserves(r);
      gaps' := gaps;
    } else {
      RisingPaced(tick, r, rx, gaps);
      gaps' := EventConserves(tick, r, rx, gaps);
    }
  }

  lemma StartOnTrack(tick: nat, r: Relay) returns (gaps: seq<nat>)
    requires tick >= 1 && AtRest(r) && r.since >= Turnaround(tick) && |r.tx.dev.fifo| >= 3
    ensures OnTrack(tick, r, gaps)
  {
    gaps := StartConserves(tick, r);
  }

  lemma {:induction false} RunOnTrack(tick: nat, r: Relay, line: seq<bool>) returns (gaps: seq<nat>)
    requires tick >= 1 && AtRest(r) && r.since >= Turnaround(tick) && |r.tx.dev.fifo| >= 3
    requires Spaced(tick, r, line)
    ensures OnTrack(tick, Run(tick, r, line), gaps) && NoOverflow(tick, r, line)
  {
    hide OnTrack, Event, InTime, HasRoom;
    if line == [] {
      gaps := StartOnTrack(tick, r);
    } else {
      var n := |line| - 1;
      gaps := RunOnTrack(tick, r, line[..n]);
      gaps := EventOnTrack(tick, Run(tick, r, line[..n]), line[n], gaps);
    }
  }

  // What the output line and the rings hold while the relay is on track.
  predicate Delivers(tick: nat, r: Relay, gaps: seq<nat>)
    requires r.Valid()
  {
    var q, partial := r.tx.dev.Queue(), Tx.InProgress(tick, r.tx.dev);
    && |r.rx.Queue()| <= 1 && |q| <= 1
    && Capitals(r.received) == r.tx.sent + q + Capitals(r.rx.Queue())
    && |gaps| == |r.tx.sent| + 1 && r.tx.line == Wave(tick + 1, r.tx.sent, gaps) + partial
    && (partial != [] ==> q != [] && partial < Frame(tick + 1, q[0]))
  }

  lemma OnTrackDelivers(tick: nat, r: Relay, gaps: seq<nat>)
    requires OnTrack(tick, r, gaps)
    ensures Delivers(tick, r, gaps)
  {
    Tx.InProgressIsPrefix(tick, r.tx, gaps);
    hide Wave, Frame, Capitals;
    Tx.DrivenLength(tick, r.tx.dev, r.tx.dev.fifo[r.tx.dev.nextread]);
  }

  /**
   * The relay loses nothing at full speed. If bytes arrive no faster than another such transmitter
   * can send them, neither ring ever holds more than one byte, and the line carries the capitals of
   * the bytes received, in order, as well-formed frames.
   */
  lemma RelayLossless(tick: nat, r: Relay, line: seq<bool>) returns (gaps: seq<nat>)
    requires tick >= 1 && AtRest(r) && r.since >= Turnaround(tick) && |r.tx.dev.fifo| >= 3
    requires Spaced(tick, r, line)
    ensures Delivers(tick, Run(tick, r, line), gaps) && NoOverflow(tick, r, line)
  {
    hide Run, Spaced, NoOverflow, OnTrack, Delivers;
    gaps := RunOnTrack(tick, r, line);
    OnTrackDelivers(tick, Run(tick, r, line), gaps);
  }
}
