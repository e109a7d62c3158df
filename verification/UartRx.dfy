/**
 * The UART receiver: a sampling state machine that pushes whole bytes into a 64-entry ring.
 * The state machine depends on the line alone; the ring also on the reader.
 */
module UartRx {
  import opened Uart
  import Ring

  const RING_SIZE: nat := 64

  datatype Core = Core(state: Phase, tickCounter: nat, puffer: Byte)

  // The case statement of the sampling process.
  function CoreEdge(tick: nat, c: Core, rx: bool): Core {
    var next := c.tickCounter + 1;
    match c.state
    case Idle => Core(if rx then Idle else Start, 0, c.puffer)
    case Start => if c.tickCounter == tick / 2 then Core(Data(0), 0, c.puffer) else c.(tickCounter := next)
    case Data(i) => if c.tickCounter != tick then c.(tickCounter := next)
                    else Core(if i < 7 then Data(i + 1) else Stop, 0, c.puffer[i := rx])
    case Stop => if c.tickCounter == tick then Core(Idle, 0, c.puffer) else c.(tickCounter := next)
  }

  // The edge on which a complete byte goes into the ring.
  predicate Pushes(tick: nat, c: Core) {
    c.state == Stop && c.tickCounter == tick
  }

  datatype Rx = Rx(core: Core, fifo: seq<Byte>, nextwrite: nat, nextread: nat)
  {
    predicate Valid() {
      |fifo| == RING_SIZE && nextwrite < RING_SIZE && nextread < RING_SIZE
    }

    // Output rd_en: a byte is available on rdata.
    predicate RdEn() {
      nextread != nextwrite
    }

    function Rdata(): Byte
      requires Valid()
    {
      fifo[nextread]
    }

    function Queue(): seq<Byte>
      requires Valid()
    {
      Ring.Contents(fifo, nextread, nextwrite)
    }
  }

  // One rising edge of clk. A push happens whatever reset says; reset then overrides the pointers.
  function Edge(tick: nat, r: Rx, reset: bool, rd: bool, rx: bool): (r': Rx)
    requires r.Valid()
    ensures r'.Valid()
  {
    var core := CoreEdge(tick, r.core, rx);
    var push := Pushes(tick, r.core);
    Rx(if reset then core.(state := Idle) else core,
       if push then r.fifo[r.nextwrite := r.core.puffer] else r.fifo,
       if reset then 0 else if push then Ring.Next(r.nextwrite, RING_SIZE) else r.nextwrite,
       if reset then 0 else if rd then Ring.Next(r.nextread, RING_SIZE) else r.nextread)
  }

  // One edge with reset high empties the ring and stops the state machine, and nothing else: a byte
  // just complete is still stored, and a bit due still sampled.
  lemma ResetOnce(tick: nat, r: Rx, rd: bool, rx: bool)
    requires r.Valid()
    ensures var r' := Edge(tick, r, true, rd, rx);
            && r'.core.state == Idle && r'.nextread == r'.nextwrite == 0 && r'.Queue() == []
            && r' == Edge(tick, r, false, rd, rx).(core := r'.core, nextread := 0, nextwrite := 0)
            && r'.core == Edge(tick, r, false, rd, rx).core.(state := Idle)
  {
  }

  // The range declared for tick_counter, 0 to tick + 1, is kept on every edge, reset or not.
  predicate CounterInRange(tick: nat, c: Core) {
    c.tickCounter <= tick + (if c.state == Idle then 1 else 0)
    && (c.state == Start ==> c.tickCounter <= tick / 2)
  }

  lemma CounterStaysInRange(tick: nat, r: Rx, reset: bool, rd: bool, rx: bool)
    requires r.Valid() && CounterInRange(tick, r.core)
    ensures CounterInRange(tick, Edge(tick, r, reset, rd, rx).core)
  {
  }

  // The ring under one edge without reset, as long as a push into a full ring coincides with a read.
  lemma QueueStep(tick: nat, r: Rx, rd: bool, rx: bool)
    requires r.Valid() && (rd ==> r.RdEn())
    requires Pushes(tick, r.core) && !rd ==> |r.Queue()| < RING_SIZE - 1
    ensures Edge(tick, r, false, rd, rx).Queue()
            == (if rd then r.Queue()[1..] else r.Queue())
               + (if Pushes(tick, r.core) then [r.core.puffer] else [])
  {
    Ring.PopPush(r.fifo, r.nextread, r.nextwrite, rd, Pushes(tick, r.core), r.core.puffer);
  }

  // The ring holds 63 bytes: a byte completed while nothing is read joins the queue exactly when there
  // are fewer, and otherwise the whole queue is lost.
  lemma HoldsSixtyThree(tick: nat, r: Rx, rx: bool)
    requires r.Valid() && Pushes(tick, r.core)
    ensures var r' := Edge(tick, r, false, false, rx);
            && |r.Queue()| <= 63
            && (r'.Queue() == r.Queue() + [r.core.puffer] <==> |r.Queue()| < 63)
            && (|r.Queue()| == 63 ==> r'.Queue() == [])
  {
    Ring.PushKeepsQueueIffNotFull(r.fifo, r.nextread, r.nextwrite, r.core.puffer);
    hide CoreEdge, Ring.Contents;
  }

  /** The state machine with every byte it has pushed. */
  datatype Listener = Listener(core: Core, received: seq<Byte>)

  function Hear(tick: nat, l: Listener, rx: bool): Listener {
    Listener(CoreEdge(tick, l.core, rx),
             l.received + (if Pushes(tick, l.core) then [l.core.puffer] else []))
  }

  // Listening to one level per clock.
  function Feed(tick: nat, l: Listener, line: seq<bool>): Listener {
    if line == [] then l
    else Hear(tick, Feed(tick, l, line[..|line| - 1]), line[|line| - 1])
  }

  lemma {:induction false} FeedConcat(tick: nat, l: Listener, a: seq<bool>, b: seq<bool>)
    ensures Feed(tick, l, a + b) == Feed(tick, Feed(tick, l, a), b)
    decreases |b|
  {
    if b == [] {
      assert a + b == a;
    } else {
      var n := |b| - 1;
      assert (a + b)[..|a + b| - 1] == a + b[..n];
      FeedConcat(tick, l, a, b[..n]);
    }
  }

  // ---- Sampling -------------------------------------------------------------------------------

  // Clocks from the first low level of a start bit to the edge that samples data bit i, and to
  // the edge after the byte has been pushed.
  function SampleAt(tick: nat, i: nat): nat {
    tick / 2 + 1 + Bits(tick + 1, i + 1)
  }

  function DoneAt(tick: nat): nat {
    tick / 2 + 2 + Bits(tick + 1, 9)
  }

  // All that a stretch of line, starting at a start bit, must satisfy to be heard as the byte b.
  predicate Carries(tick: nat, line: seq<bool>, b: Byte) {
    && |line| >= DoneAt(tick)
    && !line[0]
    && (forall i: nat :: i < 8 ==> SampleAt(tick, i) < |line| && line[SampleAt(tick, i)] == b[i])
    && (forall k :: DoneAt(tick) <= k < |line| ==> line[k])
  }

  // Clocks since the start bit was first seen low, for a busy state machine.
  function Elapsed(tick: nat, c: Core): nat {
    match c.state
    case Idle => 0
    case Start => 1 + c.tickCounter
    case Data(i) => tick / 2 + 2 + Bits(tick + 1, i) + c.tickCounter
    case Stop => tick / 2 + 2 + Bits(tick + 1, 8) + c.tickCounter
  }

  predicate Collected(c: Core, b: Byte) {
    match c.state
    case Data(i) => c.puffer[..i] == b[..i]
    case Stop => c.puffer == b
    case _ => true
  }

  // n clocks into a stretch that carries b: still idle, busy at the right place, or done.
  predicate Hearing(tick: nat, before: Listener, l: Listener, b: Byte, n: nat) {
    || (n == 0 && l == before)
    || (l.core.state != Idle && l.received == before.received
        && Elapsed(tick, l.core) == n && CounterInRange(tick, l.core) && Collected(l.core, b))
    || (n >= DoneAt(tick) && l.core.state == Idle && l.received == before.received + [b])
  }

  lemma HearingData(tick: nat, before: Listener, l: Listener, b: Byte, n: nat, rx: bool)
    requires Hearing(tick, before, l, b, n) && l.core.state.Data? && n > 0
    requires forall i: nat :: i < 8 && n == SampleAt(tick, i) ==> rx == b[i]
    ensures Hearing(tick, before, Hear(tick, l, rx), b, n + 1)
  {
  }

  lemma HearingStep(tick: nat, before: Listener, l: Listener, b: Byte, n: nat, rx: bool)
    requires before.core.state == Idle && Hearing(tick, before, l, b, n)
    requires n == 0 ==> !rx
    requires forall i: nat :: i < 8 && n == SampleAt(tick, i) ==> rx == b[i]
    requires n >= DoneAt(tick) ==> rx
    ensures Hearing(tick, before, Hear(tick, l, rx), b, n + 1)
  {
    if l.core.state.Data? {
      HearingData(tick, before, l, b, n, rx);
    }
  }

  // Where the receiver stands after any number of clocks of a stretch that carries b.
  lemma {:induction false} HearsPrefix(tick: nat, before: Listener, line: seq<bool>, b: Byte, n: nat)
    requires before.core.state == Idle && Carries(tick, line, b) && n <= |line|
    ensures Hearing(tick, before, Feed(tick, before, line[..n]), b, n)
  {
    if n > 0 {
      HearsPrefix(tick, before, line, b, n - 1);
      assert line[..n][..n - 1] == line[..n - 1];
      HearingStep(tick, before, Feed(tick, before, line[..n - 1]), b, n - 1, line[n - 1]);
    }
  }

  lemma HearingIsDone(tick: nat, before: Listener, l: Listener, b: Byte, n: nat)
    requires Hearing(tick, before, l, b, n)
    ensures n >= DoneAt(tick) ==> l.core.state == Idle && l.received == before.received + [b]
    ensures 0 < n < DoneAt(tick) ==> l.core.state != Idle && l.received == before.received
  {
    match l.core.state
    case Data(i) =>
      BitsGrow(tick + 1, i + 1, 9);
    case _ =>
  }

  lemma {:induction false} BitsGrow(bitTime: nat, i: nat, j: nat)
    requires i <= j
    ensures Bits(bitTime, i) <= Bits(bitTime, j)
    decreases j
  {
    if i < j {
      BitsGrow(bitTime, i, j - 1);
    }
  }

  // A line at rest is not heard.
  lemma {:induction false} HearsNothing(tick: nat, l: Listener, n: nat)
    requires l.core.state == Idle
    ensures var l' := Feed(tick, l, Level(true, n));
            l'.core.state == Idle && l'.received == l.received
  {
    if n > 0 {
      assert Level(true, n)[..n - 1] == Level(true, n - 1);
      HearsNothing(tick, l, n - 1);
    }
  }

  // A stretch that carries b is heard as b as soon as it is DoneAt long, and leaves the receiver
  // ready for the next one; whatever came before it.
  lemma Hears(tick: nat, l: Listener, before: seq<bool>, line: seq<bool>, b: Byte, n: nat)
    requires Feed(tick, l, before).core.state == Idle && Carries(tick, line, b)
    requires DoneAt(tick) <= n <= |line|
    ensures var l' := Feed(tick, l, before + line[..n]);
            l'.core.state == Idle && l'.received == Feed(tick, l, before).received + [b]
  {
    var mid := Feed(tick, l, before);
    HearsPrefix(tick, mid, line, b, n);
    FeedConcat(tick, l, before, line[..n]);
    HearingIsDone(tick, mid, Feed(tick, mid, line[..n]), b, n);
  }

  // A stretch longer than it need be: heard entirely, and already before its last clock.
  lemma HearsAll(tick: nat, l: Listener, before: seq<bool>, line: seq<bool>, b: Byte)
    requires Feed(tick, l, before).core.state == Idle && Carries(tick, line, b) && DoneAt(tick) < |line|
    ensures var l' := Feed(tick, l, before + line);
            l'.core.state == Idle && l'.received == Feed(tick, l, before).received + [b]
    ensures Feed(tick, l, (before + line)[..|before + line| - 1]).received
            == Feed(tick, l, before).received + [b]
  {
    hide Feed;
    var n := |line|;
    Hears(tick, l, before, line, b, n);
    Hears(tick, l, before, line, b, n - 1);
    assert before + line[..n] == before + line;
    assert before + line[..n - 1] == (before + line)[..|before + line| - 1];
  }
}
