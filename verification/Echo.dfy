/**
 * The echo system: a C thread that writes to one software FIFO and reads from another, and the
 * clocked VHDL process that moves words from the first to the second. Each locked region of the
 * FIFO is one atomic step, in any interleaving; a word has w bytes (one, in simfifo.vhdl). The C side
 * handles 32 bytes of a word at most, so for larger w the machine here is not what it does.
 *
 * data_valid is the almost-empty flag of the previous clock: VHDL's RXE is index 2, which is RXAE
 * on the C side, so it is high only when more than one word was queued.
 */
module Echo {
  import Arith
  import opened SoftFifo
  import opened LogicCodec

  // Where the VHDL process is within a clock.
  datatype Pc =
    | Probe                  // before the first fifo_io asks for the status
    | Look(rxe: bool)        // before it fetches the data
    | Emit                   // before the second fifo_io writes the word
    | Consume                // before it advances the read side
    | Stopped                // after sigterm has ended the clock

  datatype Echo = Echo(w: nat, size: nat, toSim: seq<byte>, fromSim: seq<byte>,
                       pc: Pc, dataValid: bool, nextValid: bool, val: seq<Logic>, sigterm: bool,
                       accepted: seq<byte>, readBack: seq<byte>, echoed: seq<seq<Logic>>, underrun: bool)

  // What the C thread does, or one step of the VHDL process.
  datatype Step = CWrite(bytes: seq<byte>) | CRead(n: nat) | Sim

  function Undefined(n: nat): (l: seq<Logic>)
    ensures |l| == n && forall k :: 0 <= k < n ==> l[k] == 0
  {
    seq(n, i => UNDEFINED)
  }

  predicate AllOnes(l: seq<Logic>) {
    l != [] && forall k :: 0 <= k < |l| ==> l[k] == HIGH
  }

  // The word fetched by fifo_get; bytes beyond the queued ones are not defined.
  function Fetch(e: Echo): (l: seq<Logic>)
    ensures |l| == 8 * e.w
  {
    if |e.toSim| >= e.w then LogicOfBytes(e.toSim[..e.w]) else Undefined(8 * e.w)
  }

  function Room(size: nat, queued: seq<byte>): nat {
    if |queued| <= size then size - |queued| else 0
  }

  function EndOfClock(e: Echo): Echo {
    e.(dataValid := e.nextValid, pc := if e.sigterm then Stopped else Probe)
  }

  function SimStep(e: Echo): Echo {
    match e.pc
    case Probe =>
      // C's RXE decides what the fetch finds, C's RXAE becomes data_valid.
      e.(pc := Look(e.toSim != []), nextValid := e.toSim != [] && |e.toSim| != e.w)
    case Look(rxe) =>
      var f := e.(val := if rxe then Fetch(e) else Undefined(8 * e.w));
      if e.dataValid then f.(pc := Emit, sigterm := e.sigterm || AllOnes(f.val)) else EndOfClock(f)
    case Emit =>
      var bytes := BytesOf(e.val);
      e.(pc := Consume, echoed := e.echoed + [e.val],
         fromSim := e.fromSim + bytes[..Min(|bytes|, Room(e.size, e.fromSim))])
    case Consume =>
      // fifo_advance: an empty queue, or one without a whole word, is an underrun.
      EndOfClock(if |e.toSim| < e.w then e.(underrun := true) else e.(toSim := e.toSim[e.w..]))
    case Stopped => e
  }

  function Take(e: Echo, step: Step): Echo {
    match step
    case CWrite(bytes) =>
      var moved := bytes[..Min(|bytes|, Room(e.size, e.toSim))];
      e.(toSim := e.toSim + moved, accepted := e.accepted + moved)
    case CRead(n) =>
      var k := Min(n, |e.fromSim|);
      e.(fromSim := e.fromSim[k..], readBack := e.readBack + e.fromSim[..k])
    case Sim => SimStep(e)
  }

  // The writer deals in whole words.
  predicate Allowed(e: Echo, step: Step) {
    step.CWrite? ==> e.w > 0 && |step.bytes| % e.w == 0
  }

  predicate Reaches(e: Echo, steps: seq<Step>, e': Echo)
    decreases |steps|
  {
    if steps == [] then e' == e
    else Allowed(e, steps[0]) && Reaches(Take(e, steps[0]), steps[1..], e')
  }

  predicate Starts(e: Echo) {
    && e.w > 0 && e.size > 0 && e.size % e.w == 0
    && e.toSim == e.fromSim == e.accepted == e.readBack == [] && e.echoed == []
    && e.pc == Probe && !e.dataValid && !e.sigterm && !e.underrun
  }

  // ---- Safety ---------------------------------------------------------------------------------

  predicate Aligned(e: Echo) {
    e.w > 0 && e.size % e.w == 0 && |e.toSim| % e.w == 0 && |e.toSim| <= e.size && |e.fromSim| <= e.size
  }

  // The words that must be queued for the decisions already taken to be right.
  function Needed(e: Echo): nat {
    var next := if e.nextValid then 1 else 0;
    match e.pc
    case Probe => if e.dataValid then 1 else 0
    case Look(rxe) => if e.nextValid then 2 else if rxe || e.dataValid then 1 else 0
    case Emit => 1 + next
    case Consume => 1 + next
    case Stopped => 0
  }

  predicate Safe(e: Echo) {
    && Aligned(e) && !e.underrun
    && |e.toSim| >= Needed(e) * e.w
    && (e.pc.Look? && e.dataValid ==> e.pc.rxe)
    && (e.pc == Emit ==> e.val == LogicOfBytes(e.toSim[..e.w]))
    && (forall k :: 0 <= k < |e.echoed| ==> |e.echoed[k]| == 8 * e.w && IsBinary(e.echoed[k]))
  }

  lemma ProbeSafe(e: Echo)
    requires Safe(e) && e.pc == Probe
    ensures Safe(SimStep(e))
  {
    Arith.Multiple(|e.toSim|, e.w);
  }

  lemma LookSafe(e: Echo)
    requires Safe(e) && e.pc.Look?
    ensures Safe(SimStep(e))
  {
  }

  lemma EmitSafe(e: Echo)
    requires Safe(e) && e.pc == Emit
    ensures Safe(SimStep(e))
  {
  }

  lemma ConsumeSafe(e: Echo)
    requires Safe(e) && e.pc == Consume
    ensures Safe(SimStep(e))
  {
    Arith.Multiple(|e.toSim|, e.w);
  }

  lemma WriteSafe(e: Echo, bytes: seq<byte>)
    requires Safe(e) && |bytes| % e.w == 0
    ensures Safe(Take(e, CWrite(bytes)))
  {
    WriteKeepsAlignment(e.size, |e.toSim|, |bytes|, e.w);
    hide LogicOfBytes, IsBinary;
    var e' := Take(e, CWrite(bytes));
    assert e.toSim <= e'.toSim && Needed(e') == Needed(e);
    MoreIsSafe(e, e');
  }

  lemma MoreIsSafe(e: Echo, e': Echo)
    requires Safe(e) && Aligned(e') && e.toSim <= e'.toSim
    requires e' == e.(toSim := e'.toSim, accepted := e'.accepted)
    ensures Safe(e')
  {
    hide LogicOfBytes, IsBinary;
    assert e'.pc == Emit ==> e.toSim[..e.w] == e'.toSim[..e.w];
  }

  lemma StepSafe(e: Echo, step: Step)
    requires Safe(e) && Allowed(e, step)
    ensures Safe(Take(e, step))
  {
    match step
    case CWrite(bytes) => WriteSafe(e, bytes);
    case CRead(n) =>
    case Sim =>
      match e.pc
      case Probe => ProbeSafe(e);
      case Look(rxe) => LookSafe(e);
      case Emit => EmitSafe(e);
      case Consume => ConsumeSafe(e);
      case Stopped =>
  }

  lemma {:induction false} RunSafe(e: Echo, steps: seq<Step>, e': Echo)
    requires Safe(e) && Reaches(e, steps, e')
    ensures Safe(e')
    decreases |steps|
  {
    hide Safe, Take, Allowed;
    if steps != [] {
      StepSafe(e, steps[0]);
      RunSafe(Take(e, steps[0]), steps[1..], e');
    }
  }

  /**
   * Safety of the echo with a stale flag. Under any interleaving with the C thread the VHDL process
   * never advances a queue that does not hold a whole word, and never echoes an undefined value.
   */
  lemma EchoIsSafe(e: Echo, steps: seq<Step>, e': Echo)
    requires Starts(e) && Reaches(e, steps, e')
    ensures !e'.underrun && (e'.pc in {Emit, Consume} ==> |e'.toSim| >= e.w)
    ensures forall k :: 0 <= k < |e'.echoed| ==> |e'.echoed[k]| == 8 * e.w && IsBinary(e'.echoed[k])
  {
    hide Starts, Reaches, Safe, IsBinary;
    StartsSafe(e);
    RunSafe(e, steps, e');
    WidthStays(e, steps, e');
    SafeMeans(e');
  }

  lemma StartsSafe(e: Echo)
    requires Starts(e)
    ensures Safe(e)
  {
  }

  lemma SafeMeans(e: Echo)
    requires Safe(e)
    ensures !e.underrun && (e.pc in {Emit, Consume} ==> |e.toSim| >= e.w)
    ensures forall k :: 0 <= k < |e.echoed| ==> |e.echoed[k]| == 8 * e.w && IsBinary(e.echoed[k])
  {
  }

  lemma StepKeepsWidth(e: Echo, step: Step)
    ensures Take(e, step).w == e.w && Take(e, step).size == e.size
  {
    hide Fetch, BytesOf, AllOnes, Undefined;
  }

  lemma {:induction false} WidthStays(e: Echo, steps: seq<Step>, e': Echo)
    requires Reaches(e, steps, e')
    ensures e'.w == e.w && e'.size == e.size
    decreases |steps|
  {
    hide Take, Allowed;
    if steps != [] {
      StepKeepsWidth(e, steps[0]);
      WidthStays(Take(e, steps[0]), steps[1..], e');
    }
  }

  // With the size and every write in whole words, the queue holds whole words at all times, through
  // partial writes and advances: so RXE high means at least one whole word, and RXAE high at least two.
  lemma WholeWords(e: Echo, steps: seq<Step>, e': Echo)
    requires Starts(e) && Reaches(e, steps, e')
    ensures |e'.toSim| % e.w == 0
    ensures e'.toSim != [] ==> |e'.toSim| >= e.w
    ensures e'.toSim != [] && |e'.toSim| != e.w ==> |e'.toSim| >= 2 * e.w
  {
    RunSafe(e, steps, e');
    WidthStays(e, steps, e');
    Arith.Multiple(|e'.toSim|, e.w);
  }

  // ---- Conservation ---------------------------------------------------------------------------

  // What is queued for the simulator and not yet echoed.
  function Unechoed(e: Echo): seq<byte> {
    if e.pc == Consume && |e.toSim| >= e.w then e.toSim[e.w..] else e.toSim
  }

  predicate Conserves(e: Echo) {
    e.accepted == e.readBack + e.fromSim + Unechoed(e)
  }

  // No more bytes are outstanding than one FIFO holds.
  predicate Bounded(e: Echo, steps: seq<Step>)
    decreases |steps|
  {
    |e.accepted| - |e.readBack| <= e.size && (steps != [] ==> Bounded(Take(e, steps[0]), steps[1..]))
  }

  // What is left of q in a FIFO that takes no more than size bytes.
  function Cut(q: seq<byte>, size: nat): seq<byte> {
    q[..Min(|q|, size)]
  }

  lemma CutTwice(a: seq<byte>, b: seq<byte>, size: nat)
    ensures Cut(Cut(a, size) + b, size) == Cut(a + b, size)
  {
  }

  lemma CutAppends(q: seq<byte>, bytes: seq<byte>, size: nat)
    requires |q| <= size
    ensures q + bytes[..Min(|bytes|, Room(size, q))] == Cut(q + bytes, size)
    ensures |q| + |bytes| <= size ==> Cut(q + bytes, size) == q + bytes
  {
  }

  // The echoed word is the oldest one, byte for byte, as far as there is room for it.
  lemma EmitMoves(e: Echo)
    requires Safe(e) && e.pc == Emit
    ensures |e.toSim| >= e.w
    ensures SimStep(e)
         == e.(pc := Consume, echoed := e.echoed + [e.val], fromSim := Cut(e.fromSim + e.toSim[..e.w], e.size))
  {
    BytesRoundTrip(e.toSim[..e.w]);
    hide LogicOfBytes, BytesOf, IsBinary, Cut, Room;
    CutAppends(e.fromSim, e.toSim[..e.w], e.size);
  }

  lemma EchoedOnce(accepted: seq<byte>, readBack: seq<byte>, fromSim: seq<byte>, toSim: seq<byte>, w: nat)
    requires w <= |toSim| && accepted == readBack + fromSim + toSim
    ensures accepted == readBack + (fromSim + toSim[..w]) + toSim[w..]
  {
    assert toSim == toSim[..w] + toSim[w..];
  }

  lemma EmitConserves(e: Echo)
    requires Safe(e) && Conserves(e) && e.pc == Emit && |e.accepted| - |e.readBack| <= e.size
    ensures Conserves(SimStep(e))
  {
    EmitMoves(e);
    assert |e.fromSim| <= e.size;
    hide Safe, SimStep, Room, Cut;
    EchoedOnce(e.accepted, e.readBack, e.fromSim, e.toSim, e.w);
    CutAppends(e.fromSim, e.toSim[..e.w], e.size);
  }

  // A write goes behind what is queued, also while the oldest word is echoed and not yet consumed.
  lemma WriteConserves(e: Echo, moved: seq<byte>)
    requires Conserves(e) && (e.pc == Consume ==> |e.toSim| >= e.w)
    ensures Conserves(e.(toSim := e.toSim + moved, accepted := e.accepted + moved))
  {
  }

  lemma ReadConserves(e: Echo, k: nat)
    requires Conserves(e) && k <= |e.fromSim|
    ensures Conserves(e.(fromSim := e.fromSim[k..], readBack := e.readBack + e.fromSim[..k]))
  {
  }

  lemma ThreadConserves(e: Echo, step: Step)
    requires Safe(e) && Conserves(e) && !step.Sim?
    ensures Conserves(Take(e, step))
  {
    assert e.pc == Consume ==> |e.toSim| >= e.w;
    hide Safe, Conserves, Unechoed;
    match step
    case CWrite(bytes) =>
      WriteConserves(e, bytes[..Min(|bytes|, Room(e.size, e.toSim))]);
    case CRead(n) =>
      ReadConserves(e, Min(n, |e.fromSim|));
  }

  lemma StepConserves(e: Echo, step: Step)
    requires Safe(e) && Conserves(e) && |e.accepted| - |e.readBack| <= e.size
    ensures Conserves(Take(e, step))
  {
    if !step.Sim? {
      ThreadConserves(e, step);
    } else if e.pc == Emit {
      EmitConserves(e);
    } else {
      hide LogicOfBytes, BytesOf, IsBinary, Aligned, Fetch;
    }
  }

  lemma {:induction false} RunConserves(e: Echo, steps: seq<Step>, e': Echo)
    requires Safe(e) && Conserves(e) && Reaches(e, steps, e') && Bounded(e, steps)
    ensures Conserves(e')
    decreases |steps|
  {
    hide Safe, Take, Allowed, Conserves;
    if steps != [] {
      StepSafe(e, steps[0]);
      StepConserves(e, steps[0]);
      RunConserves(Take(e, steps[0]), steps[1..], e');
    }
  }

  /**
   * Conservation through the echo: while no more than one FIFO's worth is outstanding, the bytes
   * accepted from the C thread are those it has read back, those echoed and waiting, and those not
   * yet echoed, in this order.
   */
  lemma EchoConserves(e: Echo, steps: seq<Step>, e': Echo)
    requires Starts(e) && Reaches(e, steps, e') && Bounded(e, steps)
    ensures e'.accepted == e'.readBack + e'.fromSim + Unechoed(e')
  {
    RunConserves(e, steps, e');
  }

  // ---- What the C thread's calls do -----------------------------------------------------------

  // A write queues as much as fits behind what is there, and is credited with exactly that.
  lemma WriteTakesWhatFits(e: Echo, bytes: seq<byte>)
    requires Safe(e)
    ensures var e' := Take(e, CWrite(bytes));
            && e' == e.(toSim := Cut(e.toSim + bytes, e.size), accepted := e'.accepted)
            && e.toSim <= e'.toSim && e'.accepted == e.accepted + e'.toSim[|e.toSim|..]
  {
    hide LogicOfBytes, IsBinary;
    assert |e.toSim| <= e.size;
    hide Safe;
  }

  // A read hands over the oldest bytes, as many as were asked for and are there.
  lemma ReadTakesOldest(e: Echo, n: nat)
    ensures var e', k := Take(e, CRead(n)), Min(n, |e.fromSim|);
            && e' == e.(fromSim := e'.fromSim, readBack := e'.readBack)
            && e'.readBack == e.readBack + e.fromSim[..k] && e.fromSim == e.fromSim[..k] + e'.fromSim
  {
  }

  function Written(steps: seq<Step>): seq<byte>
    decreases |steps|
  {
    if steps == [] then []
    else (if steps[0].CWrite? then steps[0].bytes else []) + Written(steps[1..])
  }

  // No write exceeds the room it finds.
  predicate NoneRefused(e: Echo, steps: seq<Step>)
    decreases |steps|
  {
    steps != [] ==>
      && (steps[0].CWrite? ==> |e.toSim| + |steps[0].bytes| <= e.size)
      && NoneRefused(Take(e, steps[0]), steps[1..])
  }

  lemma StepAccepts(e: Echo, step: Step)
    requires Safe(e)
    ensures var e' := Take(e, step);
            && (!step.CWrite? ==> e'.accepted == e.accepted)
            && (step.CWrite? && |e.toSim| + |step.bytes| <= e.size ==> e'.accepted == e.accepted + step.bytes)
  {
    hide Safe, Fetch, BytesOf, AllOnes, Undefined;
    if step.CWrite? {
      WriteTakesWhatFits(e, step.bytes);
      if |e.toSim| + |step.bytes| <= e.size {
        assert (e.toSim + step.bytes)[|e.toSim|..] == step.bytes;
      }
    }
  }

  // If none is refused, the bytes accepted are all the bytes of all the writes, in order.
  lemma {:induction false} AcceptedIsWritten(e: Echo, steps: seq<Step>, e': Echo)
    requires Safe(e) && Reaches(e, steps, e') && NoneRefused(e, steps)
    ensures e'.accepted == e.accepted + Written(steps)
    decreases |steps|
  {
    hide Safe, Take, Allowed;
    if steps == [] {
      assert e.accepted + [] == e.accepted;
    } else {
      var step, rest := steps[0], steps[1..];
      StepSafe(e, step);
      StepAccepts(e, step);
      AcceptedIsWritten(Take(e, step), rest, e');
      var bytes := if step.CWrite? then step.bytes else [];
      assert Take(e, step).accepted == e.accepted + bytes;
      assert e.accepted + bytes + Written(rest) == e.accepted + (bytes + Written(rest));
    }
  }

  // ---- What is echoed -------------------------------------------------------------------------

  // The bytes of the words echoed, in order.
  function EchoedBytes(words: seq<seq<Logic>>): seq<byte> {
    if words == [] then [] else EchoedBytes(words[..|words| - 1]) + BytesOf(words[|words| - 1])
  }

  predicate InOrder(e: Echo) {
    e.accepted == EchoedBytes(e.echoed) + Unechoed(e)
  }

  lemma EchoedSnoc(words: seq<seq<Logic>>, word: seq<Logic>)
    ensures EchoedBytes(words + [word]) == EchoedBytes(words) + BytesOf(word)
  {
    hide BytesOf;
    assert (words + [word])[..|words|] == words;
  }

  lemma EmitInOrder(e: Echo)
    requires Safe(e) && e.pc == Emit && InOrder(e)
    ensures InOrder(SimStep(e))
  {
    EmitMoves(e);
    assert e.val == LogicOfBytes(e.toSim[..e.w]);
    hide Safe, SimStep, LogicOfBytes, BytesOf, Cut, EchoedBytes;
    BytesRoundTrip(e.toSim[..e.w]);
    EchoedSnoc(e.echoed, e.val);
    SplitWord(e.accepted, EchoedBytes(e.echoed), e.toSim, e.w);
  }

  lemma SplitWord(accepted: seq<byte>, echoed: seq<byte>, toSim: seq<byte>, w: nat)
    requires w <= |toSim| && accepted == echoed + toSim
    ensures accepted == echoed + toSim[..w] + toSim[w..]
  {
    assert toSim == toSim[..w] + toSim[w..];
  }

  lemma UnechoedGrows(e: Echo, e': Echo)
    requires e.toSim <= e'.toSim && e'.pc == e.pc && e'.w == e.w && (e.pc == Consume ==> |e.toSim| >= e.w)
    ensures Unechoed(e') == Unechoed(e) + e'.toSim[|e.toSim|..]
  {
  }

  lemma WriteInOrder(e: Echo, bytes: seq<byte>)
    requires Safe(e) && InOrder(e)
    ensures InOrder(Take(e, CWrite(bytes)))
  {
    hide Safe, EchoedBytes, Take, Cut, Unechoed;
    WriteTakesWhatFits(e, bytes);
    WordAtConsume(e);
    var e' := Take(e, CWrite(bytes));
    UnechoedGrows(e, e');
    var more := e'.toSim[|e.toSim|..];
    assert EchoedBytes(e.echoed) + Unechoed(e) + more == EchoedBytes(e.echoed) + (Unechoed(e) + more);
  }

  lemma WordAtConsume(e: Echo)
    requires Safe(e)
    ensures e.pc == Consume ==> |e.toSim| >= e.w
  {
  }

  lemma StepInOrder(e: Echo, step: Step)
    requires Safe(e) && InOrder(e)
    ensures InOrder(Take(e, step))
  {
    if step.CWrite? {
      WriteInOrder(e, step.bytes);
    } else if step.Sim? && e.pc == Emit {
      EmitInOrder(e);
    } else {
      assert e.pc == Consume ==> |e.toSim| >= e.w;
      hide Safe, EchoedBytes, Fetch, Undefined;
    }
  }

  lemma {:induction false} RunInOrder(e: Echo, steps: seq<Step>, e': Echo)
    requires Safe(e) && InOrder(e) && Reaches(e, steps, e')
    ensures InOrder(e')
    decreases |steps|
  {
    hide Safe, Take, Allowed, InOrder;
    if steps != [] {
      StepSafe(e, steps[0]);
      StepInOrder(e, steps[0]);
      RunInOrder(Take(e, steps[0]), steps[1..], e');
    }
  }

  lemma StartsInOrder(e: Echo)
    requires Starts(e)
    ensures Safe(e) && InOrder(e) && e.accepted == []
  {
  }

  lemma MeansInOrder(e: Echo)
    requires InOrder(e)
    ensures e.accepted == EchoedBytes(e.echoed) + Unechoed(e)
  {
  }

  // The advance counts as an underrun exactly when no whole word is there.
  lemma UnderrunsIff(e: Echo)
    ensures SimStep(e).underrun <==> e.underrun || (e.pc == Consume && |e.toSim| < e.w)
  {
    hide Fetch, BytesOf, AllOnes, Undefined;
  }

  /**
   * The echo repeats what it was given. Whether or not anything is read back, the bytes of the words
   * echoed are, in order, the bytes accepted from the C thread up to those still queued. If no write is
   * refused, the bytes accepted are all that the C thread wrote.
   */
  lemma EchoRepeats(e: Echo, steps: seq<Step>, e': Echo)
    requires Starts(e) && Reaches(e, steps, e')
    ensures e'.accepted == EchoedBytes(e'.echoed) + Unechoed(e')
    ensures NoneRefused(e, steps) ==> e'.accepted == Written(steps)
  {
    hide Reaches, NoneRefused, Safe, InOrder, Starts;
    StartsInOrder(e);
    RunInOrder(e, steps, e');
    MeansInOrder(e');
    if NoneRefused(e, steps) {
      AcceptedIsWritten(e, steps, e');
      assert [] + Written(steps) == Written(steps);
    }
  }

  // ---- Draining -------------------------------------------------------------------------------

  // One whole clock of the VHDL process with the C thread at rest.
  function Clock(e: Echo): Echo {
    var looked := SimStep(SimStep(e));
    if looked.pc == Emit then SimStep(SimStep(looked)) else looked
  }

  function Clocks(e: Echo, n: nat): Echo {
    if n == 0 then e else Clock(Clocks(e, n - 1))
  }

  // Between clocks, with k words queued for the simulator. There may be room for them on the other
  // side or not.
  predicate Between(e: Echo, k: nat) {
    Safe(e) && e.pc == Probe && !e.sigterm && |e.toSim| == k * e.w
  }

  predicate Terminates(word: seq<byte>) {
    AllOnes(LogicOfBytes(word))
  }

  lemma ByteOfOnes(b: byte)
    ensures AllOnes(LogicOf(8, b)) <==> b == 255
  {
    hide LogicOf;
    assert Arith.Pow2(8) == 256;
    LogicOfLargest(8, 255);
    if AllOnes(LogicOf(8, b)) {
      assert LogicOf(8, b) == LogicOf(8, 255);
      ByteOfLogic(b);
      ByteOfLogic(255);
    }
  }

  // The terminating word is the one all of whose bytes are 255.
  lemma {:induction false} TerminatesIff(word: seq<byte>)
    requires word != []
    ensures Terminates(word) <==> forall i :: 0 <= i < |word| ==> word[i] == 255
  {
    ByteOfOnes(word[0]);
    var first, rest := LogicOf(8, word[0]), LogicOfBytes(word[1..]);
    assert LogicOfBytes(word) == first + rest;
    hide LogicOf, LogicOfBytes;
    assert forall k :: 0 <= k < 8 ==> (first + rest)[k] == first[k];
    if |word| == 1 {
      assert rest == [] && first + rest == first;
    } else {
      TerminatesIff(word[1..]);
      assert forall k :: 0 <= k < |rest| ==> rest[k] == (first + rest)[8 + k];
      assert forall i :: 0 < i < |word| ==> word[i] == word[1..][i - 1];
    }
  }

  // The word of w bytes behind the first i.
  function Word(bytes: seq<byte>, w: nat, i: nat): (word: seq<byte>)
    requires (i + 1) * w <= |bytes|
  {
    assert (i + 1) * w == i * w + w;
    bytes[i * w..i * w + w]
  }

  predicate OrdinaryWords(bytes: seq<byte>, w: nat, j: nat) {
    && j * w <= |bytes|
    && forall i {:trigger Terminates(Word(bytes, w, i))} :: 0 <= i < j ==>
         (i + 1) * w <= |bytes| && !Terminates(Word(bytes, w, i))
  }

  lemma WordCount(k: nat, w: nat)
    requires w > 0
    ensures k * w == w <==> k == 1
    ensures k * w == 0 <==> k == 0
  {
  }

  // The first two steps of a clock.
  lemma ClockBegins(e: Echo, k: nat)
    requires Between(e, k)
    ensures var e' := SimStep(SimStep(e));
            && Safe(e')
            && e' == e.(pc := e'.pc, dataValid := e'.dataValid, nextValid := k > 1, val := e'.val,
                        sigterm := e'.sigterm)
            && (if e.dataValid then e'.pc == Emit && e'.dataValid && e'.sigterm == AllOnes(e'.val)
                else e'.pc == Probe && e'.dataValid == (k > 1) && !e'.sigterm)
  {
    hide LogicOfBytes, IsBinary, AllOnes;
    WordCount(k, e.w);
    ProbeSafe(e);
    LookSafe(SimStep(e));
    hide Safe;
  }

  // A clock that does not find data_valid only looks; data_valid then says whether two words are queued.
  lemma ClockLooks(e: Echo, k: nat)
    requires Between(e, k) && !e.dataValid
    ensures var e' := Clock(e);
            && Between(e', k) && e'.w == e.w && e'.size == e.size
            && e'.toSim == e.toSim && e'.fromSim == e.fromSim && e'.dataValid == (k > 1)
  {
    ClockBegins(e, k);
    hide SimStep, Safe;
  }

  // One that finds it takes one word and leaves data_valid high while another is left. The word
  // reaches the other FIFO as far as there is room.
  lemma ClockMoves(e: Echo, k: nat)
    requires k > 0 && Between(e, k) && e.dataValid
    ensures |e.toSim| >= e.w
    ensures var e' := Clock(e);
            && e'.w == e.w && e'.size == e.size
            && e'.toSim == e.toSim[e.w..] && e'.fromSim == Cut(e.fromSim + e.toSim[..e.w], e.size)
            && (if Terminates(e.toSim[..e.w]) then e'.pc == Stopped && e'.sigterm
                else Between(e', k - 1) && e'.dataValid == (k > 1))
  {
    ClockBegins(e, k);
    var looked := SimStep(SimStep(e));
    assert |e.toSim| >= e.w && looked.val == LogicOfBytes(e.toSim[..e.w]);
    EmitMoves(looked);
    EmitSafe(looked);
    ConsumeSafe(SimStep(looked));
    assert (k - 1) * e.w == k * e.w - e.w;
    hide LogicOfBytes, IsBinary, AllOnes, Safe, Fetch, Cut;
  }

  // Of the k words queued in e the first j have been taken, in order, and what there was room for is
  // on the other side; nothing else has happened.
  predicate Moved(e: Echo, k: nat, j: nat, e': Echo) {
    && j <= k && Between(e', k - j) && e'.w == e.w && e'.size == e.size && e'.dataValid == (j < k)
    && j * e.w <= |e.toSim| && e'.toSim == e.toSim[j * e.w..]
    && e'.fromSim == Cut(e.fromSim + e.toSim[..j * e.w], e.size)
  }

  lemma NextWord(from: seq<byte>, bytes: seq<byte>, w: nat, i: nat)
    requires (i + 1) * w <= |bytes|
    ensures i * w + w == (i + 1) * w && bytes[i * w..][..w] == Word(bytes, w, i)
    ensures bytes[i * w..][w..] == bytes[(i + 1) * w..]
    ensures from + bytes[..i * w] + Word(bytes, w, i) == from + bytes[..(i + 1) * w]
  {
    assert (i + 1) * w == i * w + w;
    assert bytes[i * w..][..w] == bytes[i * w..i * w + w];
  }

  lemma NoneMoved(e: Echo, k: nat)
    requires Between(e, k) && e.dataValid == (k > 0)
    ensures Moved(e, k, 0, e)
  {
    assert |e.fromSim| <= e.size && e.w * 0 == 0;
    hide Safe;
    assert e.fromSim + e.toSim[..0] == e.fromSim;
  }

  lemma OneMoreMoves(e: Echo, k: nat, i: nat, before: Echo)
    requires i < k && Moved(e, k, i, before)
    requires (i + 1) * e.w <= |e.toSim| && !Terminates(Word(e.toSim, e.w, i))
    ensures Moved(e, k, i + 1, Clock(before))
  {
    hide Between, Clock, Terminates, Cut, Word;
    NextWord(e.fromSim, e.toSim, e.w, i);
    ClockMoves(before, k - i);
    CutTwice(e.fromSim + e.toSim[..i * e.w], Word(e.toSim, e.w, i), e.size);
  }

  // With data_valid high a clock takes one word, for j words in a row.
  lemma {:induction false} WordsMove(e: Echo, k: nat, j: nat)
    requires j <= k && Between(e, k) && e.dataValid == (k > 0) && OrdinaryWords(e.toSim, e.w, j)
    ensures Moved(e, k, j, Clocks(e, j))
  {
    hide Moved, Between, Clock, Terminates, Word;
    if j == 0 {
      NoneMoved(e, k);
    } else {
      assert j * e.w == (j - 1) * e.w + e.w;
      WordsMove(e, k, j - 1);
      OneMoreMoves(e, k, j - 1, Clocks(e, j - 1));
    }
  }

  lemma {:induction false} ClocksAdd(e: Echo, m: nat, n: nat)
    ensures Clocks(e, m + n) == Clocks(Clocks(e, m), n)
  {
    hide Clock;
    if n > 0 {
      ClocksAdd(e, m, n - 1);
    }
  }

  /**
   * A burst drains. k >= 2 words that find data_valid low leave one per clock from the second clock
   * on, in order, and after k + 1 clocks none is left, whether or not the other FIFO has room. If it
   * has, they are all there.
   */
  lemma BurstDrains(e: Echo, k: nat, j: nat)
    requires j <= k && k >= 2 && Between(e, k) && !e.dataValid && OrdinaryWords(e.toSim, e.w, j)
    ensures Moved(e, k, j, Clocks(e, 1 + j))
    ensures j == k ==> Clocks(e, 1 + k).toSim == []
    ensures j == k && |e.fromSim| + |e.toSim| <= e.size ==> Clocks(e, 1 + k).fromSim == e.fromSim + e.toSim
  {
    hide Safe, Clock, Terminates;
    ClockLooks(e, k);
    assert Clocks(e, 1) == Clock(e) by { assert Clocks(e, 0) == e; }
    ClocksAdd(e, 1, j);
    WordsMove(Clock(e), k, j);
    if j == k {
      assert e.toSim[..j * e.w] == e.toSim;
    }
  }

  // A word that arrives alone is never taken, however long the process runs.
  lemma {:induction false} LoneWordStays(e: Echo, n: nat)
    requires Between(e, 1) && !e.dataValid
    ensures var e' := Clocks(e, n);
            Between(e', 1) && !e'.dataValid && e'.toSim == e.toSim && e'.fromSim == e.fromSim
  {
    hide Safe, Clock, Between;
    if n > 0 {
      LoneWordStays(e, n - 1);
      ClockLooks(Clocks(e, n - 1), 1);
    }
  }

  lemma {:induction false} StaysStopped(e: Echo, n: nat)
    requires e.pc == Stopped
    ensures Clocks(e, n) == e
  {
    assert SimStep(e) == e && Clock(e) == e;
    hide Clock, SimStep;
    if n > 0 {
      StaysStopped(e, n - 1);
    }
  }

  lemma FewerWords(bytes: seq<byte>, w: nat, i: nat, j: nat)
    requires i <= j && OrdinaryWords(bytes, w, j)
    ensures OrdinaryWords(bytes, w, i)
  {
    hide Terminates, Word;
    Arith.ProductAbove(w, j, i);
  }

  lemma NotSeenBefore(e: Echo, k: nat, j: nat, n: nat)
    requires j < k && k >= 2 && Between(e, k) && !e.dataValid
    requires OrdinaryWords(e.toSim, e.w, j) && n < j + 2
    ensures !Clocks(e, n).sigterm
  {
    hide Safe, Clock, Terminates, OrdinaryWords;
    if n > 0 {
      FewerWords(e.toSim, e.w, n - 1, j);
      BurstDrains(e, k, n - 1);
    }
  }

  lemma SeenWithCompany(e: Echo, k: nat, j: nat)
    requires j < k && k >= 2 && Between(e, k) && !e.dataValid && (j + 1) * e.w <= |e.toSim|
    requires OrdinaryWords(e.toSim, e.w, j) && Terminates(Word(e.toSim, e.w, j))
    ensures Clocks(e, j + 2).sigterm && Clocks(e, j + 2).pc == Stopped
  {
    hide Safe, Clock, Terminates, Between, SimStep;
    BurstDrains(e, k, j);
    var before := Clocks(e, 1 + j);
    assert before.toSim[..e.w] == Word(e.toSim, e.w, j);
    ClockMoves(before, k - j);
    assert Clocks(e, j + 2) == Clock(before);
  }

  /**
   * Termination. A terminating word behind j ordinary ones is seen within j + 2 clocks when any
   * second word is queued with it, before or behind, and never when it is alone: that is why the
   * C thread sends two bytes for it.
   */
  lemma TerminatorIsSeenIff(e: Echo, k: nat, j: nat, n: nat)
    requires j < k && Between(e, k) && !e.dataValid && (j + 1) * e.w <= |e.toSim|
    requires OrdinaryWords(e.toSim, e.w, j) && Terminates(Word(e.toSim, e.w, j))
    ensures n >= j + 2 ==> (Clocks(e, n).sigterm <==> k >= 2)
    ensures n >= j + 2 && k >= 2 ==> Clocks(e, n).pc == Stopped
    ensures n < j + 2 ==> !Clocks(e, n).sigterm
  {
    hide Safe, Clock, Terminates, OrdinaryWords;
    if k == 1 {
      LoneWordStays(e, n);
    } else if n < j + 2 {
      NotSeenBefore(e, k, j, n);
    } else {
      SeenWithCompany(e, k, j);
      ClocksAdd(e, j + 2, n - (j + 2));
      StaysStopped(Clocks(e, j + 2), n - (j + 2));
    }
  }
}
