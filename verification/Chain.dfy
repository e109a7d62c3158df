/**
 * A transmitter feeding the relay on the same clock and with the same tick: the pace the relay
 * needs is the pace the transmitter has, so whatever is written arrives capitalised.
 */
module Chain {
  import opened Uart
  import Ring
  import Link
  import Tx = UartTx
  import Rx = UartRx
  import opened CapRelay

  // ---- The receiver with a stop watch ---------------------------------------------------------

  // A listener, the clocks since its last push, and whether every push came in time.
  datatype Timed = Timed(ear: Rx.Listener, since: nat, inTime: bool)

  function TimedHear(tick: nat, t: Timed, rx: bool): Timed {
    var push := Rx.Pushes(tick, t.ear.core);
    Timed(Rx.Hear(tick, t.ear, rx),
          if push then 0 else t.since + 1,
          t.inTime && (push ==> t.since + 2 >= Turnaround(tick)))
  }

  function TimedFeed(tick: nat, t: Timed, line: seq<bool>): (t': Timed)
    ensures t'.ear == Rx.Feed(tick, t.ear, line)
  {
    if line == [] then t
    else TimedHear(tick, TimedFeed(tick, t, line[..|line| - 1]), line[|line| - 1])
  }

  lemma {:induction false} TimedFeedConcat(tick: nat, t: Timed, a: seq<bool>, b: seq<bool>)
    ensures TimedFeed(tick, t, a + b) == TimedFeed(tick, TimedFeed(tick, t, a), b)
    decreases |b|
  {
    if b == [] {
      assert a + b == a;
    } else {
      var n := |b| - 1;
      assert (a + b)[..|a + b| - 1] == a + b[..n];
      TimedFeedConcat(tick, t, a, b[..n]);
    }
  }

  lemma {:induction false} InTimeBefore(tick: nat, t: Timed, line: seq<bool>, n: nat)
    requires n <= |line| && TimedFeed(tick, t, line).inTime
    ensures TimedFeed(tick, t, line[..n]).inTime
    decreases |line|
  {
    if n < |line| {
      InTimeBefore(tick, t, line[..|line| - 1], n);
      assert line[..|line| - 1][..n] == line[..n];
    } else {
      assert line[..n] == line;
    }
  }

  // Idle, and so long after the last push that a byte starting now is pushed in time.
  predicate Ready(tick: nat, t: Timed) {
    t.inTime && t.ear.core.state == Idle && t.since + Rx.DoneAt(tick) + 1 >= Turnaround(tick)
  }

  predicate TimedHearing(tick: nat, before: Timed, t: Timed, b: Byte, n: nat) {
    && Rx.Hearing(tick, before.ear, t.ear, b, n)
    && t.inTime
    && t.since == (if n < Rx.DoneAt(tick) then before.since + n else n - Rx.DoneAt(tick))
  }

  lemma {:induction false} TimedPrefix(tick: nat, before: Timed, line: seq<bool>, b: Byte, n: nat)
    requires Ready(tick, before) && Rx.Carries(tick, line, b) && n <= |line|
    ensures TimedHearing(tick, before, TimedFeed(tick, before, line[..n]), b, n)
  {
    hide Rx.Hearing, Rx.Feed, Rx.Carries;
    Rx.HearsPrefix(tick, before.ear, line, b, n);
    if n == 0 {
      assert line[..n] == [];
    } else {
      TimedPrefix(tick, before, line, b, n - 1);
      Rx.HearsPrefix(tick, before.ear, line, b, n - 1);
      var t := TimedFeed(tick, before, line[..n - 1]);
      assert line[..n][..n - 1] == line[..n - 1];
      PushesJustBeforeDone(tick, before.ear, t.ear, b, n - 1);
    }
  }

  // The push is the edge that hears level number DoneAt.
  lemma PushesJustBeforeDone(tick: nat, before: Rx.Listener, l: Rx.Listener, b: Byte, n: nat)
    requires before.core.state == Idle && Rx.Hearing(tick, before, l, b, n)
    ensures Rx.Pushes(tick, l.core) <==> n + 1 == Rx.DoneAt(tick)
  {
    match l.core.state
    case Data(i) =>
      Rx.BitsGrow(tick + 1, i + 1, 8);
    case _ =>
  }

  lemma {:induction false} TimedIdle(tick: nat, t: Timed, n: nat)
    requires Ready(tick, t)
    ensures Ready(tick, TimedFeed(tick, t, Level(true, n)))
  {
    if n > 0 {
      TimedIdle(tick, t, n - 1);
      assert Level(true, n)[..n - 1] == Level(true, n - 1);
    }
  }

  lemma TimedFrame(tick: nat, t: Timed, b: Byte, gap: nat)
    requires Ready(tick, t)
    ensures Ready(tick, TimedFeed(tick, t, Frame(tick + 1, b) + Level(true, gap)))
  {
    var line := Frame(tick + 1, b) + Level(true, gap);
    Link.FrameCarries(tick, b, gap);
    Link.FrameOutlastsHearing(tick, b);
    FrameLength(tick + 1, b);
    TimedPrefix(tick, t, line, b, |line|);
    assert line[..|line|] == line;
    hide Frame, Rx.Feed, TimedFeed;
    Rx.HearingIsDone(tick, t.ear, TimedFeed(tick, t, line).ear, b, |line|);
  }

  lemma {:induction false} TimedWave(tick: nat, t: Timed, bytes: seq<Byte>, gaps: seq<nat>)
    requires Ready(tick, t) && |gaps| == |bytes| + 1
    ensures Ready(tick, TimedFeed(tick, t, Wave(tick + 1, bytes, gaps)))
    decreases |bytes|
  {
    hide Ready, TimedFeed;
    if bytes == [] {
      TimedIdle(tick, t, gaps[0]);
    } else {
      var n := |bytes| - 1;
      var before := Wave(tick + 1, bytes[..n], gaps[..n + 1]);
      var last := Frame(tick + 1, bytes[n]) + Level(true, gaps[n + 1]);
      TimedWave(tick, t, bytes[..n], gaps[..n + 1]);
      Link.WaveSplit(tick + 1, bytes, gaps);
      TimedFrame(tick, TimedFeed(tick, t, before), bytes[n], gaps[n + 1]);
      TimedFeedConcat(tick, t, before, last);
    }
  }

  lemma TimedPartial(tick: nat, t: Timed, b: Byte, partial: seq<bool>)
    requires Ready(tick, t) && partial <= Frame(tick + 1, b)
    ensures TimedFeed(tick, t, partial).inTime
  {
    var frame := Frame(tick + 1, b);
    Link.FrameCarries(tick, b, 0);
    assert frame + Level(true, 0) == frame;
    TimedPrefix(tick, t, frame, b, |partial|);
    assert frame[..|partial|] == partial;
  }

  // A transmitter never pushes the receiver at its other end too fast.
  lemma TransmitterIsInTime(tick: nat, t: Timed, dev: Tx.Tx, reqs: seq<Tx.Request>, n: nat)
    requires tick >= 1 && Tx.AtRest(dev) && Tx.Polite(tick, dev, reqs) && Ready(tick, t)
    requires n <= |Tx.Run(tick, dev, reqs).line|
    ensures TimedFeed(tick, t, Tx.Run(tick, dev, reqs).line[..n]).inTime
  {
    hide Tx.Run, Tx.Polite, Wave, Frame, TimedFeed;
    var h := Tx.Run(tick, dev, reqs);
    var gaps := Tx.WaveformTheorem(tick, dev, reqs);
    var wave, partial := Wave(tick + 1, h.sent, gaps), Tx.InProgress(tick, h.dev);
    TimedWave(tick, t, h.sent, gaps);
    if partial != [] {
      TimedPartial(tick, TimedFeed(tick, t, wave), h.dev.Queue()[0], partial);
      TimedFeedConcat(tick, t, wave, partial);
    } else {
      assert h.line == wave;
    }
    InTimeBefore(tick, t, h.line, n);
  }

  // ---- The chain ------------------------------------------------------------------------------

  datatype Chain = Chain(source: Tx.History, relay: Relay)
  {
    predicate Valid() {
      source.dev.Valid() && relay.Valid()
    }
  }

  // One clock period: the rising edge of both designs, then the falling edge.
  function Period(tick: nat, c: Chain, req: Tx.Request): (c': Chain)
    requires c.Valid()
    ensures c'.Valid()
  {
    Chain(Tx.Step(tick, c.source, req), Falling(Rising(tick, c.relay, c.source.dev.tx)))
  }

  function ChainRun(tick: nat, c: Chain, reqs: seq<Tx.Request>): (c': Chain)
    requires c.Valid()
    ensures c'.Valid()
  {
    if reqs == [] then c
    else Period(tick, ChainRun(tick, c, reqs[..|reqs| - 1]), reqs[|reqs| - 1])
  }

  predicate ChainAtRest(tick: nat, c: Chain) {
    && Tx.AtRest(c.source.dev) && c.source == Tx.Begin(c.source.dev)
    && CapRelay.AtRest(c.relay) && !c.relay.clk
    && c.relay.since >= Turnaround(tick) && |c.relay.tx.dev.fifo| >= 3
  }

  function Watch(r: Relay): Timed {
    Timed(Rx.Listener(r.rx.core, r.received), r.since, true)
  }

  // The relay hears the source's line one clock late.
  predicate Follows(tick: nat, c: Chain, start: Timed, n: nat) {
    && |c.source.line| == n + 1 && c.source.line[n] == c.source.dev.tx
    && TimedFeed(tick, start, c.source.line[..n]) == Watch(c.relay)
  }

  lemma PeriodFollows(tick: nat, c: Chain, req: Tx.Request, start: Timed, n: nat)
    requires c.Valid() && Follows(tick, c, start, n) && !c.relay.clk
    requires TimedFeed(tick, start, c.source.line).inTime
    ensures Follows(tick, Period(tick, c, req), start, n + 1) && InTime(tick, c.relay)
  {
  }

  lemma PeriodOnTrack(tick: nat, c: Chain, req: Tx.Request, gaps: seq<nat>) returns (gaps': seq<nat>)
    requires tick >= 1 && c.Valid() && OnTrack(tick, c.relay, gaps) && !c.relay.clk && InTime(tick, c.relay)
    ensures OnTrack(tick, Period(tick, c, req).relay, gaps') && !Period(tick, c, req).relay.clk
  {
    hide OnTrack;
    gaps' := EventOnTrack(tick, c.relay, c.source.dev.tx, gaps);
    gaps' := EventOnTrack(tick, Rising(tick, c.relay, c.source.dev.tx), false, gaps');
  }

  lemma {:induction false} ChainOnTrack(tick: nat, c: Chain, reqs: seq<Tx.Request>) returns (gaps: seq<nat>)
    requires tick >= 1 && ChainAtRest(tick, c) && Tx.Polite(tick, c.source.dev, reqs)
    ensures var c' := ChainRun(tick, c, reqs);
            && c'.source == Tx.Run(tick, c.source.dev, reqs)
            && Follows(tick, c', Watch(c.relay), |reqs|)
            && OnTrack(tick, c'.relay, gaps) && !c'.relay.clk
  {
    if reqs == [] {
      gaps := StartOnTrack(tick, c.relay);
    } else {
      var n := |reqs| - 1;
      gaps := ChainOnTrack(tick, c, reqs[..n]);
      hide OnTrack, CapRelay.AtRest, TimedFeed, Follows, InTime;
      var before := ChainRun(tick, c, reqs[..n]);
      LineInTime(tick, c, reqs[..n]);
      PeriodFollows(tick, before, reqs[n], Watch(c.relay), n);
      gaps := PeriodOnTrack(tick, before, reqs[n], gaps);
    }
  }

  lemma LineInTime(tick: nat, c: Chain, reqs: seq<Tx.Request>)
    requires tick >= 1 && ChainAtRest(tick, c) && Tx.Polite(tick, c.source.dev, reqs)
    ensures TimedFeed(tick, Watch(c.relay), Tx.Run(tick, c.source.dev, reqs).line).inTime
  {
    var line := Tx.Run(tick, c.source.dev, reqs).line;
    hide Tx.Run, Tx.Polite;
    TransmitterIsInTime(tick, Watch(c.relay), c.source.dev, reqs, |line|);
    assert line[..|line|] == line;
  }

  lemma HearsSource(tick: nat, c: Chain, reqs: seq<Tx.Request>)
    requires tick >= 1 && ChainAtRest(tick, c) && Tx.Polite(tick, c.source.dev, reqs)
    ensures var c' := ChainRun(tick, c, reqs);
            && c'.source.accepted == c'.source.sent + c'.source.dev.Queue()
            && c'.relay.received == c'.source.sent + Link.InFlight(tick, c'.source.dev)
  {
    hide ChainRun, Tx.Run, Tx.Polite, OnTrack, Wave, Frame, TimedFeed, Link.InFlight;
    var trackGaps := ChainOnTrack(tick, c, reqs);
    var gaps := Tx.WaveformTheorem(tick, c.source.dev, reqs);
    Link.HearsTransmitter(tick, Rx.Listener(c.relay.rx.core, c.relay.received), c.source.dev, reqs);
  }

  // Every byte the source has accepted is in exactly one place.
  predicate Accounts(tick: nat, c: Chain)
    requires c.Valid()
  {
    var r, q, heard := c.relay, c.source.dev.Queue(), |Link.InFlight(tick, c.source.dev)|;
    && heard <= |q|
    && Capitals(c.source.accepted)
       == r.tx.sent + r.tx.dev.Queue() + Capitals(r.rx.Queue()) + Capitals(q[heard..])
  }

  lemma AccountFor(tick: nat, c: Chain, gaps: seq<nat>)
    requires c.Valid() && Delivers(tick, c.relay, gaps)
    requires c.source.accepted == c.source.sent + c.source.dev.Queue()
    requires c.relay.received == c.source.sent + Link.InFlight(tick, c.source.dev)
    ensures Accounts(tick, c)
  {
    hide Capitals, Wave, Frame, Ring.Contents, Tx.InProgress;
    var q, flying := c.source.dev.Queue(), Link.InFlight(tick, c.source.dev);
    assert flying == q[..|flying|];
    assert c.source.accepted == c.relay.received + q[|flying|..];
    CapitalsConcat(c.relay.received, q[|flying|..]);
  }

  /**
   * The chain theorem. Whatever is written to the source under wr_en, the relay's output line carries
   * well-formed frames of the capitals of the bytes written, in order and without loss: each byte is
   * sent on, in the relay's transmitter, in its receiver, or still queued unheard at the source.
   */
  lemma ChainCapitalises(tick: nat, c: Chain, reqs: seq<Tx.Request>) returns (gaps: seq<nat>)
    requires tick >= 1 && ChainAtRest(tick, c) && Tx.Polite(tick, c.source.dev, reqs)
    ensures Delivers(tick, ChainRun(tick, c, reqs).relay, gaps)
    ensures Accounts(tick, ChainRun(tick, c, reqs))
  {
    gaps := ChainOnTrack(tick, c, reqs);
    HearsSource(tick, c, reqs);
    hide *;
    OnTrackDelivers(tick, ChainRun(tick, c, reqs).relay, gaps);
    AccountFor(tick, ChainRun(tick, c, reqs), gaps);
  }

  // ---- Everything comes out -------------------------------------------------------------------

  // While no byte is received the stop watch runs.
  lemma PeriodSince(tick: nat, c: Chain, req: Tx.Request)
    requires c.Valid()
    ensures var c' := Period(tick, c, req);
            |c'.relay.received| >= |c.relay.received|
            && (|c'.relay.received| == |c.relay.received| ==> c'.relay.since == c.relay.since + 1)
  {
    hide Tx.Step, Rx.Edge;
  }

  lemma {:induction false} SinceGrows(tick: nat, c: Chain, reqs: seq<Tx.Request>, tail: seq<Tx.Request>)
    requires c.Valid()
    ensures var c', c'' := ChainRun(tick, c, reqs), ChainRun(tick, c, reqs + tail);
            |c''.relay.received| >= |c'.relay.received|
            && (|c''.relay.received| == |c'.relay.received| ==> c''.relay.since == c'.relay.since + |tail|)
    decreases |tail|
  {
    hide Period;
    if tail == [] {
      assert reqs + tail == reqs;
    } else {
      var n := |tail| - 1;
      assert (reqs + tail)[..|reqs + tail| - 1] == reqs + tail[..n];
      SinceGrows(tick, c, reqs, tail[..n]);
      PeriodSince(tick, ChainRun(tick, c, reqs + tail[..n]), tail[n]);
    }
  }

  // Once the source is empty the relay has received all of it, and receives no more.
  lemma SourceEmpties(tick: nat, c: Chain, reqs: seq<Tx.Request>, tail: seq<Tx.Request>)
    requires tick >= 1 && ChainAtRest(tick, c) && Tx.Polite(tick, c.source.dev, reqs) && Tx.NoWrites(tail)
    ensures var c', c'' := ChainRun(tick, c, reqs), ChainRun(tick, c, reqs + tail);
            && Tx.Polite(tick, c.source.dev, reqs + tail)
            && c''.source.accepted == c'.source.accepted && Tx.Left(tick, c'.source.dev) >= 0
            && (|tail| >= Tx.Left(tick, c'.source.dev) ==> c''.relay.received == c'.source.accepted)
  {
    hide ChainRun, Tx.Run, Tx.Polite, Tx.NoWrites, Tx.Inv, Tx.Left, Tx.Quiet, OnTrack, Follows;
    Tx.RunQuiet(tick, c.source.dev, reqs, tail);
    var track := ChainOnTrack(tick, c, reqs);
    track := ChainOnTrack(tick, c, reqs + tail);
    var h := ChainRun(tick, c, reqs).source;
    var gaps := Tx.RunInv(tick, c.source.dev, reqs);
    gaps := Tx.QuietWorks(tick, h, gaps, |tail|);
    Tx.LeftIsZeroIffEmpty(tick, Tx.Quiet(tick, h, |tail|), gaps);
    HearsSource(tick, c, reqs + tail);
    var sent := ChainRun(tick, c, reqs + tail).source.sent;
    assert sent + [] == sent;
  }

  lemma RelayEmpties(tick: nat, r: Relay, gaps: seq<nat>)
    requires OnTrack(tick, r, gaps) && r.since >= Turnaround(tick)
    ensures r.tx.sent == Capitals(r.received)
  {
    hide Tx.Inv, Tx.Driven, Ring.Contents, Tx.Busy;
    assert r.tx.dev.Queue() == [] && r.rx.Queue() == [];
    assert Capitals([]) == [];
    assert r.tx.sent + [] + [] == r.tx.sent;
  }

  lemma RestIsValid(tick: nat, c: Chain, reqs: seq<Tx.Request>)
    requires ChainAtRest(tick, c)
    ensures c.Valid() && Tx.NoWrites([]) && ChainRun(tick, c, reqs).source.dev.Valid()
  {
    assert c.Valid();
    hide ChainAtRest;
  }

  lemma QuietConcat(a: seq<Tx.Request>, b: seq<Tx.Request>)
    ensures Tx.NoWrites(a + b) <==> Tx.NoWrites(a) && Tx.NoWrites(b)
  {
    if Tx.NoWrites(a + b) {
      assert forall i :: 0 <= i < |a| ==> a[i] == (a + b)[i];
      assert forall i :: 0 <= i < |b| ==> b[i] == (a + b)[|a| + i];
    }
  }

  // After that, the time since the last byte received is at least that of the clocks that follow.
  lemma RelayIdles(tick: nat, c: Chain, reqs: seq<Tx.Request>, first: seq<Tx.Request>, rest: seq<Tx.Request>)
    requires tick >= 1 && ChainAtRest(tick, c) && Tx.Polite(tick, c.source.dev, reqs)
    requires Tx.NoWrites(first) && Tx.NoWrites(rest) && |first| >= Tx.Left(tick, ChainRun(tick, c, reqs).source.dev)
    ensures var c', c'' := ChainRun(tick, c, reqs), ChainRun(tick, c, reqs + (first + rest));
            && c''.source.accepted == c'.source.accepted == c''.relay.received && c''.relay.since >= |rest|
            && Tx.Polite(tick, c.source.dev, reqs + (first + rest))
  {
    hide *;
    RestIsValid(tick, c, reqs);
    QuietConcat(first, rest);
    SourceEmpties(tick, c, reqs, first);
    SourceEmpties(tick, c, reqs, first + rest);
    SinceGrows(tick, c, reqs + first, rest);
    assert reqs + first + rest == reqs + (first + rest);
  }

  /**
   * Everything comes out. Once nothing more is written to the source, and the clocks left for what it
   * has queued and one turn-round of the relay have passed, the relay has sent the capitals of all the
   * bytes written.
   */
  lemma AllComesOut(tick: nat, c: Chain, reqs: seq<Tx.Request>, tail: seq<Tx.Request>)
    requires tick >= 1 && ChainAtRest(tick, c) && Tx.Polite(tick, c.source.dev, reqs) && Tx.NoWrites(tail)
    requires |tail| >= Tx.Left(tick, ChainRun(tick, c, reqs).source.dev) + Turnaround(tick)
    ensures var c', c'' := ChainRun(tick, c, reqs), ChainRun(tick, c, reqs + tail);
            c''.source.accepted == c'.source.accepted && c''.relay.tx.sent == Capitals(c'.source.accepted)
  {
    hide *;
    RestIsValid(tick, c, reqs);
    SourceEmpties(tick, c, reqs, []);
    var left := Tx.Left(tick, ChainRun(tick, c, reqs).source.dev);
    var first, rest := tail[..left], tail[left..];
    assert first + rest == tail;
    QuietConcat(first, rest);
    RelayIdles(tick, c, reqs, first, rest);
    var gaps := ChainOnTrack(tick, c, reqs + tail);
    RelayEmpties(tick, ChainRun(tick, c, reqs + tail).relay, gaps);
  }
}
