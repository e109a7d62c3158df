/**
 * The UART transmitter: a ring FIFO, a state/nextstate register pair and a tick counter.
 * A state is the value of every register between two rising clock edges.
 */
module UartTx {
  import opened Uart
  import Ring

  datatype Tx = Tx(state: Phase, nextstate: Phase, fifo: seq<Byte>, nextwrite: nat, nextread: nat,
                   tickCounter: nat, tx: bool)
  {
    predicate Valid() {
      |fifo| >= 2 && nextwrite < |fifo| && nextread < |fifo|
    }

    // Output wr_en: there is room for one more byte.
    predicate WrEn() {
      Ring.Next(nextwrite, |fifo|) != nextread
    }

    function Queue(): seq<Byte>
      requires Valid()
    {
      Ring.Contents(fifo, nextread, nextwrite)
    }

    // The byte is finished and its slot is released on the next edge.
    predicate Release() {
      state == Stop && nextstate == Idle
    }
  }

  // What the user drives on wr and wdata.
  datatype Request = NoWrite | Write(data: Byte)

  datatype Fsm = Fsm(nextstate: Phase, tickCounter: nat, tx: bool)

  // The process that drives nextstate, tick_counter and tx; `data` is data_tx.
  function FsmEdge(tick: nat, t: Tx, reset: bool, data: Byte): Fsm {
    var pending := t.nextwrite != t.nextread;
    var counter := if t.state == Idle then (if pending then 0 else t.tickCounter)
                   else if t.tickCounter == tick then 0
                   else t.tickCounter + 1;
    var idle := if t.state != Idle then Fsm(t.nextstate, counter, t.tx)
                else if pending then Fsm(Start, counter, false)
                else Fsm(t.nextstate, counter, true);
    if reset then Fsm(Idle, 0, true)
    else if t.tickCounter != tick then idle
    else match t.state
      case Idle => idle
      case Start => Fsm(Data(0), counter, data[0])
      case Data(i) => if i < 7 then Fsm(Data(i + 1), counter, data[i + 1]) else Fsm(Stop, counter, true)
      case Stop => Fsm(Idle, counter, true)
  }

  // One rising edge of clk; every process reads the registers as they were before it.
  function Edge(tick: nat, t: Tx, reset: bool, req: Request): (t': Tx)
    requires t.Valid()
    ensures t'.Valid() && |t'.fifo| == |t.fifo|
  {
    var size := |t.fifo|;
    var fsm := FsmEdge(tick, t, reset, t.fifo[t.nextread]);
    Tx(t.nextstate,
       fsm.nextstate,
       if !reset && req.Write? then t.fifo[t.nextwrite := req.data] else t.fifo,
       if reset then 0 else if req.Write? then Ring.Next(t.nextwrite, size) else t.nextwrite,
       if reset then 0 else if t.Release() then Ring.Next(t.nextread, size) else t.nextread,
       fsm.tickCounter,
       fsm.tx)
  }

  // The registers once reset has taken full effect.
  predicate AtRest(t: Tx) {
    t.Valid() && t.state == t.nextstate == Idle && t.nextwrite == t.nextread == 0 && t.tickCounter == 0 && t.tx
  }

  // Two rising edges with reset high bring every state to rest.
  lemma ResetTwice(tick: nat, t: Tx, req1: Request, req2: Request)
    requires t.Valid()
    ensures AtRest(Edge(tick, Edge(tick, t, true, req1), true, req2))
  {
  }

  // One edge does so only when nextstate was already idle, because state is not reset itself.
  lemma ResetOnceIff(tick: nat, t: Tx, req: Request)
    requires t.Valid()
    ensures AtRest(Edge(tick, t, true, req)) <==> t.nextstate == Idle
  {
  }

  // With nothing queued and nothing written an idle device changes no register but tx, which is high.
  lemma IdleStays(tick: nat, t: Tx)
    requires t.Valid() && t.state == t.nextstate == Idle && t.nextread == t.nextwrite
    ensures Edge(tick, t, false, NoWrite) == t.(tx := true)
  {
  }

  /** A device together with everything observed since it was at rest. */
  datatype History = History(dev: Tx, line: seq<bool>, accepted: seq<Byte>, sent: seq<Byte>)

  // The line starts with the level that the device holds at rest.
  function Begin(t: Tx): History {
    History(t, [t.tx], [], [])
  }

  function Step(tick: nat, h: History, req: Request): (h': History)
    requires h.dev.Valid()
    ensures h'.dev.Valid() && |h'.dev.fifo| == |h.dev.fifo|
  {
    var dev := Edge(tick, h.dev, false, req);
    History(dev,
            h.line + [dev.tx],
            h.accepted + (if req.Write? then [req.data] else []),
            h.sent + (if h.dev.Release() then [h.dev.fifo[h.dev.nextread]] else []))
  }

  function Run(tick: nat, t: Tx, reqs: seq<Request>): (h: History)
    requires t.Valid()
    ensures h.dev.Valid() && |h.dev.fifo| == |t.fifo|
  {
    if reqs == [] then Begin(t)
    else Step(tick, Run(tick, t, reqs[..|reqs| - 1]), reqs[|reqs| - 1])
  }

  // The data of the writes, in order.
  function DataOf(reqs: seq<Request>): seq<Byte> {
    if reqs == [] then []
    else
      var req := reqs[|reqs| - 1];
      DataOf(reqs[..|reqs| - 1]) + (if req.Write? then [req.data] else [])
  }

  // What a run observes: every byte written counts as accepted, and element k of the line is tx after
  // k edges.
  lemma {:induction false} RunObserves(tick: nat, t: Tx, reqs: seq<Request>, k: nat)
    requires t.Valid() && k <= |reqs|
    ensures Run(tick, t, reqs).accepted == DataOf(reqs)
    ensures |Run(tick, t, reqs).line| == |reqs| + 1 && Run(tick, t, reqs).line[k] == Run(tick, t, reqs[..k]).dev.tx
    decreases |reqs|
  {
    hide Edge;
    var n := |reqs|;
    if n == 0 {
      assert reqs[..k] == reqs;
    } else if k < n {
      RunObserves(tick, t, reqs[..n - 1], k);
      assert reqs[..n - 1][..k] == reqs[..k];
    } else {
      RunObserves(tick, t, reqs[..n - 1], n - 1);
      assert reqs[..k] == reqs;
    }
  }

  // The user writes only while wr_en is high.
  predicate Polite(tick: nat, t: Tx, reqs: seq<Request>)
    requires t.Valid()
  {
    reqs == [] ||
    (var n := |reqs| - 1;
     Polite(tick, t, reqs[..n]) && (reqs[n].Write? ==> Run(tick, t, reqs[..n]).dev.WrEn()))
  }

  // ---- What is on the line of the frame in progress -------------------------------------------

  function Following(p: Phase): Phase {
    match p
    case Idle => Start
    case Start => Data(0)
    case Data(i) => if i < 7 then Data(i + 1) else Stop
    case Stop => Idle
  }

  // The combinations of state, nextstate and counter that occur.
  predicate Shape(tick: nat, t: Tx) {
    && t.tickCounter <= tick
    && (t.state != t.nextstate ==> t.nextstate == Following(t.state) && t.tickCounter == 0)
    && (t.state == t.nextstate ==> t.state in {Idle, Start} || t.tickCounter > 0)
  }

  // The part of the frame of b that the device has driven so far.
  function Driven(tick: nat, t: Tx, b: Byte): seq<bool> {
    var n := t.tickCounter + 1;
    match t.nextstate
    case Start => Level(false, if t.state == Idle then n else n + 1)
    case Data(i) => Head(tick + 1, b, i) + Level(b[i], n)
    case Stop => Head(tick + 1, b, |b|) + Level(true, n)
    case Idle => if t.state == Idle then [] else Head(tick + 1, b, |b|) + Level(true, tick + 2)
  }

  // The level that belongs to the bit period the device is in.
  predicate OnLevel(t: Tx, b: Byte) {
    t.tx == match t.nextstate
            case Start => false
            case Data(i) => b[i]
            case Stop => true
            case Idle => true
  }

  predicate Busy(t: Tx) {
    t.state != Idle || t.nextstate != Idle
  }

  // The part of the frame in progress that is on the line; nothing between frames.
  function InProgress(tick: nat, t: Tx): seq<bool>
    requires t.Valid()
  {
    if Busy(t) then Driven(tick, t, t.fifo[t.nextread]) else []
  }

  predicate Inv(tick: nat, h: History, gaps: seq<nat>) {
    && h.dev.Valid() && Shape(tick, h.dev)
    && |gaps| == |h.sent| + 1
    && h.accepted == h.sent + h.dev.Queue()
    && OnLevel(h.dev, h.dev.fifo[h.dev.nextread])
    && (Busy(h.dev) ==> h.dev.nextread != h.dev.nextwrite)
    && h.line == Wave(tick + 1, h.sent, gaps) + InProgress(tick, h.dev)
  }

  lemma Longer(prefix: seq<bool>, level: bool, n: nat)
    ensures prefix + Level(level, n) + [level] == prefix + Level(level, n + 1)
    ensures Level(level, n) + [level] == Level(level, n + 1)
  {
  }

  lemma HeadGrows(bitTime: nat, b: Byte, i: nat)
    requires i < 8
    ensures Head(bitTime, b, i + 1) == Head(bitTime, b, i) + Level(b[i], bitTime)
  {
  }

  // The frame in progress grows by exactly the level the edge puts on the line.
  predicate Grows(tick: nat, t: Tx, t': Tx, b: Byte) {
    && Shape(tick, t') && Busy(t') && OnLevel(t', b)
    && Driven(tick, t', b) == (if Busy(t) then Driven(tick, t, b) else []) + [t'.tx]
  }

  lemma GrowStart(tick: nat, t: Tx, t': Tx, req: Request)
    requires tick >= 1 && t.Valid() && Shape(tick, t) && OnLevel(t, t.fifo[t.nextread])
    requires t' == Edge(tick, t, false, req) && t.nextread != t.nextwrite
    requires t.nextstate == Start || !Busy(t)
    ensures Grows(tick, t, t', t.fifo[t.nextread])
  {
  }

  lemma GrowData(tick: nat, t: Tx, t': Tx, req: Request)
    requires tick >= 1 && t.Valid() && Shape(tick, t) && OnLevel(t, t.fifo[t.nextread])
    requires t' == Edge(tick, t, false, req) && t.nextread != t.nextwrite
    requires t.nextstate.Data?
    ensures Grows(tick, t, t', t.fifo[t.nextread])
  {
    var b, n := t.fifo[t.nextread], t.tickCounter + 1;
    var i: nat := t.nextstate.bit;
    HeadGrows(tick + 1, b, i);
    hide Head;
    Longer(Head(tick + 1, b, i), b[i], n);
    if t.state == t.nextstate && t.tickCounter == tick {
      assert Driven(tick, t, b) == Head(tick + 1, b, i + 1);
    }
  }

  lemma GrowStop(tick: nat, t: Tx, t': Tx, req: Request)
    requires tick >= 1 && t.Valid() && Shape(tick, t) && OnLevel(t, t.fifo[t.nextread])
    requires t' == Edge(tick, t, false, req) && t.nextread != t.nextwrite
    requires t.nextstate == Stop
    ensures Grows(tick, t, t', t.fifo[t.nextread])
  {
  }

  lemma Grow(tick: nat, t: Tx, t': Tx, req: Request)
    requires tick >= 1 && t.Valid() && Shape(tick, t) && OnLevel(t, t.fifo[t.nextread])
    requires t' == Edge(tick, t, false, req) && t.nextread != t.nextwrite && !t.Release()
    ensures Grows(tick, t, t', t.fifo[t.nextread])
  {
    hide Grows;
    match t.nextstate
    case Idle => GrowStart(tick, t, t', req);
    case Start => GrowStart(tick, t, t', req);
    case Data(i) => GrowData(tick, t, t', req);
    case Stop => GrowStop(tick, t, t', req);
  }

  lemma WaveIdle(bitTime: nat, sent: seq<Byte>, gaps: seq<nat>)
    requires |gaps| == |sent| + 1
    ensures var gaps' := gaps[|sent| := gaps[|sent|] + 1];
            Wave(bitTime, sent, gaps') == Wave(bitTime, sent, gaps) + [true]
  {
  }

  lemma QueueStep(tick: nat, t: Tx, req: Request)
    requires t.Valid() && (req.Write? ==> t.WrEn()) && (t.Release() ==> t.nextread != t.nextwrite)
    ensures Edge(tick, t, false, req).Queue()
            == (if t.Release() then t.Queue()[1..] else t.Queue()) + (if req.Write? then [req.data] else [])
  {
    hide FsmEdge, Ring.Contents, Ring.Slot;
    var t' := Edge(tick, t, false, req);
    if req.Write? {
      Ring.PopPush(t.fifo, t.nextread, t.nextwrite, t.Release(), true, req.data);
      assert t'.Queue() == Ring.Contents(t'.fifo, t'.nextread, t'.nextwrite);
    } else {
      Ring.PopPush(t.fifo, t.nextread, t.nextwrite, t.Release(), false, t.fifo[0]);
    }
  }

  // No byte is lost, repeated or reordered between acceptance and the end of its frame.
  lemma AcceptedStep(tick: nat, h: History, req: Request)
    requires h.dev.Valid() && h.accepted == h.sent + h.dev.Queue()
    requires (req.Write? ==> h.dev.WrEn()) && (h.dev.Release() ==> h.dev.nextread != h.dev.nextwrite)
    ensures var h' := Step(tick, h, req);
            h'.accepted == h'.sent + h'.dev.Queue()
  {
    hide FsmEdge, Edge, Ring.Contents, Ring.Next;
    var t := h.dev;
    QueueStep(tick, t, req);
    if t.Release() {
      Ring.Pop(t.fifo, t.nextread, t.nextwrite);
    }
  }

  lemma LineRelease(tick: nat, h: History, gaps: seq<nat>)
    requires tick >= 1 && Inv(tick, h, gaps) && h.dev.Release()
    ensures h.line + [true] == Wave(tick + 1, h.sent + [h.dev.fifo[h.dev.nextread]], gaps + [0])
  {
  }

  lemma StepRelease(tick: nat, h: History, req: Request, gaps: seq<nat>)
    requires tick >= 1 && Inv(tick, h, gaps) && (req.Write? ==> h.dev.WrEn())
    requires h.dev.Release()
    ensures Inv(tick, Step(tick, h, req), gaps + [0])
  {
    AcceptedStep(tick, h, req);
    LineRelease(tick, h, gaps);
    assert !Busy(Step(tick, h, req).dev);
  }

  lemma StepQuiet(tick: nat, h: History, req: Request, gaps: seq<nat>)
    requires tick >= 1 && Inv(tick, h, gaps) && (req.Write? ==> h.dev.WrEn())
    requires h.dev.nextread == h.dev.nextwrite
    ensures Inv(tick, Step(tick, h, req), gaps[|h.sent| := gaps[|h.sent|] + 1])
  {
    hide Ring.Contents, Wave, Head;
    AcceptedStep(tick, h, req);
    WaveIdle(tick + 1, h.sent, gaps);
    assert Step(tick, h, req).sent == h.sent;
  }

  lemma StepBusy(tick: nat, h: History, req: Request, gaps: seq<nat>)
    requires tick >= 1 && Inv(tick, h, gaps) && (req.Write? ==> h.dev.WrEn())
    requires h.dev.nextread != h.dev.nextwrite && !h.dev.Release()
    ensures Inv(tick, Step(tick, h, req), gaps)
  {
    hide Ring.Contents, Wave, Head, FsmEdge;
    var t, h' := h.dev, Step(tick, h, req);
    AcceptedStep(tick, h, req);
    Grow(tick, t, h'.dev, req);
    assert h'.sent == h.sent;
    assert h'.dev.nextread == t.nextread && h'.dev.fifo[t.nextread] == t.fifo[t.nextread];
    assert h'.line == Wave(tick + 1, h.sent, gaps) + Driven(tick, h'.dev, t.fifo[t.nextread]);
  }

  lemma InvStep(tick: nat, h: History, req: Request, gaps: seq<nat>) returns (gaps': seq<nat>)
    requires tick >= 1 && Inv(tick, h, gaps) && (req.Write? ==> h.dev.WrEn())
    ensures Inv(tick, Step(tick, h, req), gaps')
  {
    if h.dev.Release() {
      StepRelease(tick, h, req, gaps);
      gaps' := gaps + [0];
    } else if h.dev.nextread == h.dev.nextwrite {
      StepQuiet(tick, h, req, gaps);
      gaps' := gaps[|h.sent| := gaps[|h.sent|] + 1];
    } else {
      StepBusy(tick, h, req, gaps);
      gaps' := gaps;
    }
  }

  lemma {:induction false} RunInv(tick: nat, t: Tx, reqs: seq<Request>) returns (gaps: seq<nat>)
    requires tick >= 1 && AtRest(t) && Polite(tick, t, reqs)
    ensures Inv(tick, Run(tick, t, reqs), gaps)
  {
    if reqs == [] {
      gaps := [1];
    } else {
      var n := |reqs| - 1;
      gaps := RunInv(tick, t, reqs[..n]);
      gaps := InvStep(tick, Run(tick, t, reqs[..n]), reqs[n], gaps);
    }
  }

  lemma DataInHead(tick: nat, t: Tx, b: Byte)
    requires Shape(tick, t) && t.nextstate.Data?
    ensures [] < Driven(tick, t, b) <= Head(tick + 1, b, |b|)
  {
    hide Head;
    var i: nat := t.nextstate.bit;
    var rest := Level(b[i], tick - t.tickCounter);
    HeadIsPrefix(tick + 1, b, i + 1, |b|);
    HeadGrows(tick + 1, b, i);
    assert Level(b[i], t.tickCounter + 1) + rest == Level(b[i], tick + 1);
    assert Driven(tick, t, b) + rest == Head(tick + 1, b, i + 1);
  }

  lemma StartInHead(tick: nat, t: Tx, b: Byte)
    requires Shape(tick, t) && t.nextstate == Start
    ensures [] < Driven(tick, t, b) <= Head(tick + 1, b, |b|)
  {
    HeadIsPrefix(tick + 1, b, 0, |b|);
    assert Driven(tick, t, b) <= Head(tick + 1, b, 0);
  }

  lemma DrivenIsProperPrefix(tick: nat, t: Tx, b: Byte)
    requires Shape(tick, t)
    ensures Driven(tick, t, b) < Frame(tick + 1, b)
  {
    hide Head;
    match t.nextstate
    case Data(i) => DataInHead(tick, t, b);
    case Start => StartInHead(tick, t, b);
    case _ =>
  }

  lemma InProgressIsPrefix(tick: nat, h: History, gaps: seq<nat>)
    requires Inv(tick, h, gaps)
    ensures var partial := InProgress(tick, h.dev);
            && (partial == [] <==> !Busy(h.dev))
            && (partial != [] ==> h.dev.Queue() != [] && partial < Frame(tick + 1, h.dev.Queue()[0]))
  {
    hide Head, Wave, Frame;
    DrivenIsProperPrefix(tick, h.dev, h.dev.fifo[h.dev.nextread]);
  }

  /**
   * The waveform theorem. Whatever is written under wr_en, and whenever, the line has carried
   * one well-formed frame for each byte sent, then a proper prefix of the frame of the next queued byte.
   * The bytes sent are the accepted ones in order; those not yet sent are still queued.
   */
  lemma WaveformTheorem(tick: nat, t: Tx, reqs: seq<Request>) returns (gaps: seq<nat>)
    requires tick >= 1 && AtRest(t) && Polite(tick, t, reqs)
    ensures var h := Run(tick, t, reqs);
            var partial := InProgress(tick, h.dev);
            && |gaps| == |h.sent| + 1
            && h.line == Wave(tick + 1, h.sent, gaps) + partial
            && h.accepted == h.sent + h.dev.Queue()
            && (partial != [] ==> h.dev.Queue() != [] && partial < Frame(tick + 1, h.dev.Queue()[0]))
            && (partial == [] <==> !Busy(h.dev))
  {
    hide Run, Polite, Wave, Frame;
    gaps := RunInv(tick, t, reqs);
    InProgressIsPrefix(tick, Run(tick, t, reqs), gaps);
  }

  // The frame in progress is one clock short of complete exactly when its slot is released.
  lemma DrivenLength(tick: nat, t: Tx, b: Byte)
    requires Shape(tick, t)
    ensures |Driven(tick, t, b)| <= 10 * (tick + 1) + 2
    ensures |Driven(tick, t, b)| == 10 * (tick + 1) + 2 <==> t.Release()
    ensures |Driven(tick, t, b)| == 0 <==> !Busy(t)
  {
    BitsIsProduct(tick + 1, 8);
    HeadLength(tick + 1, b, |b|);
    match t.nextstate
    case Data(i) => DataInHead(tick, t, b);
    case _ =>
  }

  // ---- No clock is wasted ---------------------------------------------------------------------

  function FrameTime(tick: nat): nat {
    10 * (tick + 1) + 3
  }

  // The clocks still needed for what is queued.
  function Left(tick: nat, t: Tx): int
    requires t.Valid()
  {
    Bits(FrameTime(tick), |t.Queue()|) - |InProgress(tick, t)|
  }

  lemma {:induction false} BitsArePositive(bitTime: nat, i: nat)
    requires i > 0
    ensures Bits(bitTime, i) >= bitTime
  {
    if i > 1 {
      BitsArePositive(bitTime, i - 1);
    }
  }

  lemma LeftIsZeroIffEmpty(tick: nat, h: History, gaps: seq<nat>)
    requires Inv(tick, h, gaps)
    ensures Left(tick, h.dev) >= 0 && (Left(tick, h.dev) == 0 <==> h.dev.Queue() == [])
  {
    DrivenLength(tick, h.dev, h.dev.fifo[h.dev.nextread]);
    hide Driven, Wave;
    if h.dev.Queue() != [] {
      BitsArePositive(FrameTime(tick), |h.dev.Queue()|);
    }
  }

  // What an edge does to the frame in progress.
  lemma ProgressStep(tick: nat, h: History, req: Request, gaps: seq<nat>)
    requires tick >= 1 && Inv(tick, h, gaps) && (req.Write? ==> h.dev.WrEn())
    ensures var t, t' := h.dev, Step(tick, h, req).dev;
            |InProgress(tick, t')| == if t.Queue() == [] || t.Release() then 0 else |InProgress(tick, t)| + 1
    ensures h.dev.Release() ==> h.dev.Queue() != [] && |InProgress(tick, h.dev)| == FrameTime(tick) - 1
  {
    var t, t' := h.dev, Step(tick, h, req).dev;
    DrivenLength(tick, t, t.fifo[t.nextread]);
    if t.Queue() != [] && !t.Release() {
      Grow(tick, t, t', req);
      assert t'.fifo[t'.nextread] == t.fifo[t.nextread];
    } else {
      assert !Busy(t');
    }
  }

  // Every clock with a byte queued does one clock of the work that is left.
  lemma WorkStep(tick: nat, h: History, req: Request, gaps: seq<nat>)
    requires tick >= 1 && Inv(tick, h, gaps) && (req.Write? ==> h.dev.WrEn())
    ensures var t, t' := h.dev, Step(tick, h, req).dev;
            Left(tick, t') == Left(tick, t) - (if t.Queue() != [] then 1 else 0)
                              + (if req.Write? then FrameTime(tick) else 0)
  {
    ProgressStep(tick, h, req, gaps);
    assert h.dev.Release() ==> h.dev.nextread != h.dev.nextwrite;
    QueueStep(tick, h.dev, req);
    hide Inv, Edge, InProgress, Ring.Contents, FrameTime;
  }

  // m clocks without a write.
  function Quiet(tick: nat, h: History, m: nat): (h': History)
    requires h.dev.Valid()
    ensures h'.dev.Valid() && |h'.dev.fifo| == |h.dev.fifo|
  {
    if m == 0 then h else Step(tick, Quiet(tick, h, m - 1), NoWrite)
  }

  predicate NoWrites(reqs: seq<Request>) {
    forall i :: 0 <= i < |reqs| ==> reqs[i] == NoWrite
  }

  // Going on without writes is a polite run.
  lemma {:induction false} RunQuiet(tick: nat, t: Tx, reqs: seq<Request>, tail: seq<Request>)
    requires t.Valid() && Polite(tick, t, reqs) && NoWrites(tail)
    ensures Polite(tick, t, reqs + tail) && Run(tick, t, reqs + tail) == Quiet(tick, Run(tick, t, reqs), |tail|)
    decreases |tail|
  {
    hide Step;
    if tail == [] {
      assert reqs + tail == reqs;
    } else {
      var n := |tail| - 1;
      RunQuiet(tick, t, reqs, tail[..n]);
      assert (reqs + tail)[..|reqs + tail| - 1] == reqs + tail[..n];
    }
  }

  // One such clock.
  lemma QuietStep(tick: nat, h: History, gaps: seq<nat>) returns (gaps': seq<nat>)
    requires tick >= 1 && Inv(tick, h, gaps)
    ensures var h', left := Step(tick, h, NoWrite), Left(tick, h.dev);
            && Inv(tick, h', gaps') && h'.accepted == h.accepted && left >= 0
            && Left(tick, h'.dev) == if left > 0 then left - 1 else 0
  {
    gaps' := InvStep(tick, h, NoWrite, gaps);
    WorkStep(tick, h, NoWrite, gaps);
    LeftIsZeroIffEmpty(tick, h, gaps);
    hide Inv, Left, Edge, Ring.Contents;
    assert Step(tick, h, NoWrite).accepted == h.accepted + [];
  }

  lemma {:induction false} QuietWorks(tick: nat, h: History, gaps: seq<nat>, m: nat) returns (gaps': seq<nat>)
    requires tick >= 1 && Inv(tick, h, gaps)
    ensures var h', left := Quiet(tick, h, m), Left(tick, h.dev);
            && Inv(tick, h', gaps') && h'.accepted == h.accepted && left >= 0
            && Left(tick, h'.dev) == if m <= left then left - m else 0
  {
    hide Left, Step;
    LeftIsZeroIffEmpty(tick, h, gaps);
    gaps' := gaps;
    if m > 0 {
      gaps' := QuietWorks(tick, h, gaps, m - 1);
      gaps' := QuietStep(tick, Quiet(tick, h, m - 1), gaps');
    }
  }

  /**
   * Progress. Once nothing more is written, everything accepted has been sent exactly when the clocks
   * left for it have passed, which are at most one frame for each queued byte.
   */
  lemma DrainTheorem(tick: nat, t: Tx, reqs: seq<Request>, m: nat)
    requires tick >= 1 && AtRest(t) && Polite(tick, t, reqs)
    ensures var h := Run(tick, t, reqs);
            var h' := Quiet(tick, h, m);
            && h'.accepted == h.accepted
            && (h'.sent == h'.accepted <==> m >= Left(tick, h.dev))
            && Left(tick, h.dev) <= |h.dev.Queue()| * FrameTime(tick)
  {
    hide Run, Polite, Inv, Left;
    var h := Run(tick, t, reqs);
    var gaps := RunInv(tick, t, reqs);
    LeftIsZeroIffEmpty(tick, h, gaps);
    gaps := QuietWorks(tick, h, gaps, m);
    LeftIsZeroIffEmpty(tick, Quiet(tick, h, m), gaps);
    SentIffEmpty(tick, Quiet(tick, h, m), gaps);
    LeftBound(tick, h.dev);
  }

  lemma SentIffEmpty(tick: nat, h: History, gaps: seq<nat>)
    requires Inv(tick, h, gaps)
    ensures h.sent == h.accepted <==> h.dev.Queue() == []
  {
    assert |h.accepted| == |h.sent| + |h.dev.Queue()|;
    assert h.sent + [] == h.sent;
  }

  lemma LeftBound(tick: nat, t: Tx)
    requires t.Valid()
    ensures Left(tick, t) <= |t.Queue()| * FrameTime(tick)
  {
    BitsIsProduct(FrameTime(tick), |t.Queue()|);
  }

  // ---- A reset that is too short --------------------------------------------------------------

  // After one edge of reset and one without, the device is at rest except that a slot may have been
  // released that was never filled: then the ring looks full.
  lemma ResetOnceReleasesIff(tick: nat, t: Tx, req: Request)
    requires tick >= 1 && t.Valid()
    ensures var t' := Edge(tick, Edge(tick, t, true, req), false, NoWrite);
            && t'.Queue() == (if t.nextstate == Stop then t.fifo[1..] else [])
            && Inv(tick, Begin(t').(accepted := t'.Queue()), [1])
  {
    var t' := Edge(tick, Edge(tick, t, true, req), false, NoWrite);
    assert t'.state == t'.nextstate == Idle && t'.tx && t'.fifo == t.fifo;
    hide FsmEdge, Edge;
    assert Wave(tick + 1, [], [1]) == [true];
  }

  lemma {:induction false} QuietIgnoresAccepted(tick: nat, h: History, bytes: seq<Byte>, m: nat)
    requires h.dev.Valid()
    ensures Quiet(tick, h.(accepted := bytes), m) == Quiet(tick, h, m).(accepted := bytes)
  {
    hide Edge;
    if m > 0 {
      QuietIgnoresAccepted(tick, h, bytes, m - 1);
      assert bytes + [] == bytes;
    }
  }

  // All that a device between frames says is queued is sent, given the time.
  lemma QuietEmpties(tick: nat, h: History, m: nat) returns (gaps: seq<nat>)
    requires tick >= 1 && h.dev.Valid() && Inv(tick, h, [1]) && m >= |h.dev.Queue()| * FrameTime(tick)
    ensures var h' := Quiet(tick, h, m);
            h'.sent == h.accepted && |gaps| == |h'.sent| + 1 && h'.line == Wave(tick + 1, h'.sent, gaps)
  {
    hide Inv, Left, Wave, InProgress, FrameTime;
    LeftBound(tick, h.dev);
    gaps := QuietWorks(tick, h, [1], m);
    var h' := Quiet(tick, h, m);
    LeftIsZeroIffEmpty(tick, h, [1]);
    LeftIsZeroIffEmpty(tick, h', gaps);
    SentIffEmpty(tick, h', gaps);
    AllSent(tick, h', gaps);
  }

  lemma AllSent(tick: nat, h: History, gaps: seq<nat>)
    requires Inv(tick, h, gaps) && h.dev.Queue() == []
    ensures |gaps| == |h.sent| + 1 && h.line == Wave(tick + 1, h.sent, gaps)
  {
    hide Wave;
    InProgressIsPrefix(tick, h, gaps);
    assert h.line == Wave(tick + 1, h.sent, gaps) + [];
  }

  /**
   * A one-edge reset can make the transmitter send what nobody wrote. With no write at all, it sends
   * every slot of the ring but the first if the reset came with nextstate at stop, and nothing else.
   */
  lemma ResetOnceSendsUnwrittenIff(tick: nat, t: Tx, req: Request, m: nat) returns (gaps: seq<nat>)
    requires tick >= 1 && t.Valid() && m >= (|t.fifo| - 1) * FrameTime(tick)
    ensures var h := Quiet(tick, Begin(Edge(tick, Edge(tick, t, true, req), false, NoWrite)), m);
            && h.accepted == []
            && h.sent == (if t.nextstate == Stop then t.fifo[1..] else [])
            && (h.sent != [] <==> t.nextstate == Stop)
            && |gaps| == |h.sent| + 1 && h.line == Wave(tick + 1, h.sent, gaps)
  {
    ResetOnceReleasesIff(tick, t, req);
    var t' := Edge(tick, Edge(tick, t, true, req), false, NoWrite);
    hide Edge, Inv, Quiet, Wave, FrameTime;
    var h := Begin(t').(accepted := t'.Queue());
    assert (if t.nextstate == Stop then |t.fifo| - 1 else 0) == |t'.Queue()|;
    gaps := QuietEmpties(tick, h, m);
    QuietIgnoresAccepted(tick, Begin(t'), t'.Queue(), m);
    QuietIgnoresAccepted(tick, Begin(t'), [], m);
  }
}
