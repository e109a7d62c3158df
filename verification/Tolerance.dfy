/**
 * How far the sender's bit time may be from the receiver's, for streams of back-to-back frames.
 */
module Tolerance {
  import opened Uart
  import Arith
  import Rx = UartRx

  // ---- A sender whose bit time is P clocks ----------------------------------------------------

  function PlainHead(P: nat, b: Byte, i: nat): seq<bool>
    requires i <= 8
  {
    if i == 0 then Level(false, P) else PlainHead(P, b, i - 1) + Level(b[i - 1], P)
  }

  // Start bit, eight data bits and stop bit of P clocks each.
  function PlainFrame(P: nat, b: Byte): seq<bool> {
    PlainHead(P, b, |b|) + Level(true, P)
  }

  function PlainStream(P: nat, bytes: seq<Byte>): seq<bool> {
    if bytes == [] then []
    else PlainStream(P, bytes[..|bytes| - 1]) + PlainFrame(P, bytes[|bytes| - 1])
  }

  // Every stream is received whole, and the receiver is idle at every frame boundary, so that it
  // sees each start bit on its first low clock.
  ghost predicate Follows(tick: nat, P: nat) {
    forall l: Rx.Listener, bytes: seq<Byte> :: l.core.state == Idle ==> Heard(tick, P, l, bytes)
  }

  predicate Heard(tick: nat, P: nat, l: Rx.Listener, bytes: seq<Byte>) {
    var l' := Rx.Feed(tick, l, PlainStream(P, bytes));
    l'.core.state == Idle && l'.received == l.received + bytes
  }

  // The receiver's own bit time is tick + 1; its byte is complete after nine of them and half a tick.
  predicate Within(tick: nat, P: nat) {
    9 * P <= 9 * (tick + 1) + tick / 2 + 2 <= 10 * P
  }

  // The same bound as two one-sided limits on the difference of the bit times.
  lemma WithinAsDrift(tick: nat, P: nat)
    ensures var T, h := tick + 1, tick / 2;
            Within(tick, P) <==> 9 * (P - T) <= h + 2 && 10 * (T - P) <= T - h - 2
  {
  }

  lemma {:induction false} PlainHeadLength(P: nat, b: Byte, i: nat)
    requires i <= 8
    ensures |PlainHead(P, b, i)| == Bits(P, i + 1)
  {
    if i > 0 {
      PlainHeadLength(P, b, i - 1);
    }
  }

  lemma {:induction false} PlainHeadIsPrefix(P: nat, b: Byte, i: nat, j: nat)
    requires i <= j <= 8
    ensures PlainHead(P, b, i) <= PlainHead(P, b, j)
    decreases j
  {
    if i < j {
      PlainHeadIsPrefix(P, b, i, j - 1);
    }
  }

  // m bits of the sender end before the middle of the receiver's bit m, and m + 1 after it.
  lemma MiddleInsideBit(T: nat, h: nat, P: nat, m: nat)
    requires h + 2 <= T && 9 * P <= 9 * T + h + 2 <= 10 * P && 1 <= m <= 8
    ensures m * P <= h + 1 + m * T < (m + 1) * P
  {
    if P <= T {
      var d := T - P;
      assert m * T == m * P + m * d && (m + 1) * P == m * P + P;
      assert 0 <= m * d <= 8 * d;
    } else {
      var d := P - T;
      assert m * P == m * T + m * d && (m + 1) * P == m * P + P;
      assert 0 <= m * d <= 8 * d;
    }
  }

  lemma SampleInsideBit(tick: nat, P: nat, i: nat)
    requires tick >= 1 && Within(tick, P) && i < 8
    ensures Bits(P, i + 1) <= Rx.SampleAt(tick, i) < Bits(P, i + 2)
  {
    hide Bits;
    BitsIsProduct(P, i + 1);
    BitsIsProduct(P, i + 2);
    BitsIsProduct(tick + 1, i + 1);
    MiddleInsideBit(tick + 1, tick / 2, P, i + 1);
  }

  lemma PlainFrameSample(tick: nat, P: nat, b: Byte, i: nat)
    requires tick >= 1 && Within(tick, P) && i < 8
    ensures Rx.SampleAt(tick, i) < |PlainFrame(P, b)| && PlainFrame(P, b)[Rx.SampleAt(tick, i)] == b[i]
  {
    var at := Rx.SampleAt(tick, i);
    SampleInsideBit(tick, P, i);
    PlainHeadLength(P, b, i);
    PlainHeadLength(P, b, i + 1);
    PlainHeadIsPrefix(P, b, i + 1, |b|);
    assert PlainHead(P, b, i + 1)[at] == b[i];
  }

  lemma PlainFrameCarries(tick: nat, P: nat, b: Byte)
    requires tick >= 1 && Within(tick, P)
    ensures Rx.Carries(tick, PlainFrame(P, b), b)
  {
    PlainHeadLength(P, b, |b|);
    PlainHeadIsPrefix(P, b, 0, |b|);
    BitsIsProduct(P, 9);
    BitsIsProduct(tick + 1, 9);
    forall i: nat | i < 8
      ensures Rx.SampleAt(tick, i) < |PlainFrame(P, b)| && PlainFrame(P, b)[Rx.SampleAt(tick, i)] == b[i]
    {
      PlainFrameSample(tick, P, b, i);
    }
  }

  // ---- Streams of stretches -------------------------------------------------------------------

  function Flatten(stretches: seq<seq<bool>>): seq<bool> {
    if stretches == [] then []
    else Flatten(stretches[..|stretches| - 1]) + stretches[|stretches| - 1]
  }

  // No drift: each stretch only has to carry its own byte, however many came before.
  lemma {:induction false} HearsStretches(tick: nat, l: Rx.Listener, stretches: seq<seq<bool>>, bytes: seq<Byte>)
    requires l.core.state == Idle && |stretches| == |bytes|
    requires forall n :: 0 <= n < |bytes| ==> Rx.Carries(tick, stretches[n], bytes[n])
    ensures var l' := Rx.Feed(tick, l, Flatten(stretches));
            l'.core.state == Idle && l'.received == l.received + bytes
    decreases |bytes|
  {
    hide Rx.Carries, Rx.Feed;
    if bytes == [] {
      FeedNothing(tick, l);
    } else {
      var n := |bytes| - 1;
      HearsStretches(tick, l, stretches[..n], bytes[..n]);
      assert Rx.Carries(tick, stretches[n], bytes[n]);
      HearsOne(tick, l, Flatten(stretches[..n]), stretches[n], bytes[n]);
      assert bytes == bytes[..n] + [bytes[n]];
    }
  }

  lemma FeedNothing(tick: nat, l: Rx.Listener)
    ensures Rx.Feed(tick, l, []) == l
  {
  }

  lemma HearsOne(tick: nat, l: Rx.Listener, before: seq<bool>, line: seq<bool>, b: Byte)
    requires Rx.Feed(tick, l, before).core.state == Idle && Rx.Carries(tick, line, b)
    ensures var l' := Rx.Feed(tick, l, before + line);
            l'.core.state == Idle && l'.received == Rx.Feed(tick, l, before).received + [b]
  {
    hide Rx.Feed;
    Rx.Hears(tick, l, before, line, b, |line|);
    assert line[..|line|] == line;
  }

  lemma {:induction false} WithinFollows(tick: nat, P: nat, l: Rx.Listener, bytes: seq<Byte>)
    requires tick >= 1 && Within(tick, P) && l.core.state == Idle
    ensures Heard(tick, P, l, bytes)
    decreases |bytes|
  {
    hide PlainFrame, Within;
    if bytes != [] {
      var n := |bytes| - 1;
      WithinFollows(tick, P, l, bytes[..n]);
      PlainFrameCarries(tick, P, bytes[n]);
      HearsOne(tick, l, PlainStream(P, bytes[..n]), PlainFrame(P, bytes[n]), bytes[n]);
      assert bytes == bytes[..n] + [bytes[n]];
    }
  }

  // ---- Outside the bound ----------------------------------------------------------------------

  const ZERO: Byte := Level(false, 8)

  lemma OneByteStream(P: nat, b: Byte)
    ensures PlainStream(P, [b]) == PlainFrame(P, b)
  {
  }

  lemma {:induction false} ZeroHeadIsLow(P: nat, i: nat)
    requires i <= 8
    ensures PlainHead(P, ZERO, i) == Level(false, Bits(P, i + 1))
  {
    if i > 0 {
      ZeroHeadIsLow(P, i - 1);
    }
  }

  lemma ZeroFrame(P: nat)
    ensures PlainFrame(P, ZERO) == Level(false, 9 * P) + Level(true, P)
  {
    ZeroHeadIsLow(P, |ZERO|);
    BitsIsProduct(P, 9);
  }

  // Once a second start has been seen, the receiver can no longer have heard exactly one byte
  // and be at rest.
  predicate Astray(l: Rx.Listener, heard: nat) {
    |l.received| > heard || (|l.received| == heard && l.core.state != Idle)
  }

  lemma GoesAstray(tick: nat, l: Rx.Listener)
    requires l.core.state == Idle
    ensures Astray(Rx.Hear(tick, l, false), |l.received|)
  {
  }

  lemma {:induction false} StaysAstray(tick: nat, l: Rx.Listener, line: seq<bool>, heard: nat)
    requires Astray(l, heard)
    ensures Astray(Rx.Feed(tick, l, line), heard)
    decreases |line|
  {
    if line != [] {
      StaysAstray(tick, l, line[..|line| - 1], heard);
    }
  }

  lemma FeedOne(tick: nat, l: Rx.Listener, rx: bool)
    ensures Rx.Feed(tick, l, [rx]) == Rx.Hear(tick, l, rx)
  {
  }

  lemma HearsFirst(tick: nat, l: Rx.Listener, line: seq<bool>, b: Byte)
    requires l.core.state == Idle && Rx.Carries(tick, line, b)
    ensures var l' := Rx.Feed(tick, l, line);
            l'.core.state == Idle && l'.received == l.received + [b]
  {
    HearsOne(tick, l, [], line, b);
    assert [] + line == line;
  }

  // If the line is low when the receiver has just finished a byte, it strays.
  lemma LowWhenDone(tick: nat, l: Rx.Listener, line: seq<bool>, rest: seq<bool>, b: Byte)
    requires l.core.state == Idle && Rx.Carries(tick, line, b)
    ensures Astray(Rx.Feed(tick, l, line + ([false] + rest)), |l.received| + 1)
  {
    HearsFirst(tick, l, line, b);
    hide *;
    var mid := Rx.Feed(tick, l, line);
    FeedOne(tick, mid, false);
    GoesAstray(tick, mid);
    StaysAstray(tick, Rx.Hear(tick, mid, false), rest, |l.received| + 1);
    Rx.FeedConcat(tick, mid, [false], rest);
    Rx.FeedConcat(tick, l, line, [false] + rest);
  }

  // Too slow a sender: the receiver is done while the line still holds the last data bit.
  lemma TooSlow(tick: nat, P: nat, l: Rx.Listener)
    requires 9 * P > Rx.DoneAt(tick) && l.core.state == Idle
    ensures !Heard(tick, P, l, [ZERO])
  {
    var n, line := Rx.DoneAt(tick), PlainFrame(P, ZERO);
    ZeroFrame(P);
    OneByteStream(P, ZERO);
    LowCarriesZero(tick);
    hide Rx.Feed, Rx.Carries, PlainStream, PlainFrame;
    LowWhenDone(tick, l, Level(false, n), line[n + 1..], ZERO);
    assert line == Level(false, n) + ([false] + line[n + 1..]);
  }

  lemma LowCarriesZero(tick: nat)
    ensures Rx.Carries(tick, Level(false, Rx.DoneAt(tick)), ZERO)
  {
    forall i: nat | i < 8
      ensures Rx.SampleAt(tick, i) < Rx.DoneAt(tick)
    {
      Rx.BitsGrow(tick + 1, i + 1, 9);
    }
  }

  // Too fast a sender: the frame is over before the receiver is.
  lemma TooFast(tick: nat, P: nat, l: Rx.Listener)
    requires 10 * P < Rx.DoneAt(tick) && l.core.state == Idle
    ensures !Heard(tick, P, l, [ZERO])
  {
    var line := PlainFrame(P, ZERO);
    ZeroFrame(P);
    OneByteStream(P, ZERO);
    BusyUntilDone(tick, l, line);
  }

  // A start bit keeps the receiver busy, and the byte unheard, for DoneAt clocks whatever follows.
  lemma {:induction false} BusyUntilDone(tick: nat, l: Rx.Listener, line: seq<bool>)
    requires l.core.state == Idle && |line| < Rx.DoneAt(tick) && (line != [] ==> !line[0])
    ensures var l' := Rx.Feed(tick, l, line);
            && l'.received == l.received
            && (line != [] ==> l'.core.state != Idle && Rx.CounterInRange(tick, l'.core)
                               && Rx.Elapsed(tick, l'.core) == |line|)
    decreases |line|
  {
    if line != [] {
      BusyUntilDone(tick, l, line[..|line| - 1]);
    }
  }

  /**
   * The tolerance theorem. A receiver follows every stream of bit time P exactly when nine sender
   * bits end by the time it has the byte, and ten do not.
   */
  lemma ToleranceIff(tick: nat, P: nat)
    requires tick >= 1
    ensures Follows(tick, P) <==> Within(tick, P)
  {
    if Within(tick, P) {
      forall l: Rx.Listener, bytes: seq<Byte> | l.core.state == Idle
        ensures Heard(tick, P, l, bytes)
      {
        WithinFollows(tick, P, l, bytes);
      }
    } else {
      var l := Rx.Listener(Rx.Core(Idle, 0, ZERO), []);
      BitsIsProduct(tick + 1, 9);
      if 9 * P > Rx.DoneAt(tick) {
        TooSlow(tick, P, l);
      } else {
        TooFast(tick, P, l);
      }
    }
  }

  // A sender at exactly clk_freq/baudrate, when that is a whole number of clocks, is one clock per
  // bit faster than the receiver. The receiver follows it from a tick of 21 on, and not below.
  lemma NominalRateIff(tick: nat)
    requires tick >= 1
    ensures Follows(tick, tick) <==> tick >= 21
  {
    ToleranceIff(tick, tick);
  }

  // ---- A sender at the exact rational rate ----------------------------------------------------

  // The first clock at or after the instant (bits * clkFreq + phase) / baudrate.
  function Boundary(clkFreq: nat, baudrate: nat, phase: nat, bits: nat): nat
    requires baudrate > 0
  {
    Ceiling(bits * clkFreq + phase, baudrate)
  }

  // Bit j of frame n begins this many clocks after the frame does.
  function Offset(clkFreq: nat, baudrate: nat, phase: nat, n: nat, j: nat): int
    requires baudrate > 0
  {
    Boundary(clkFreq, baudrate, phase, 10 * n + j) - Boundary(clkFreq, baudrate, phase, 10 * n)
  }

  predicate Holds(line: seq<bool>, from: int, to: int, level: bool) {
    forall k :: 0 <= k < |line| && from <= k < to ==> line[k] == level
  }

  // The line during frame n of an endless stream of back-to-back frames at clk_freq/baudrate.
  predicate SendsAtRate(clkFreq: nat, baudrate: nat, phase: nat, n: nat, line: seq<bool>, b: Byte)
    requires baudrate > 0
  {
    && |line| == Offset(clkFreq, baudrate, phase, n, 10)
    && Holds(line, 0, Offset(clkFreq, baudrate, phase, n, 1), false)
    && (forall j: nat :: j < 8 ==> Holds(line, Offset(clkFreq, baudrate, phase, n, j + 1),
                                         Offset(clkFreq, baudrate, phase, n, j + 2), b[j]))
    && Holds(line, Offset(clkFreq, baudrate, phase, n, 9), |line|, true)
  }

  function Ceiling(a: nat, d: nat): nat
    requires d > 0
  {
    (a + d - 1) / d
  }

  lemma DivStep(x: nat, r: nat, d: nat)
    requires r < d
    ensures x / d <= (x + r) / d <= x / d + 1
  {
    if x % d + r < d {
      Arith.DivUnique(x + r, d, x / d, x % d + r);
    } else {
      Arith.DivUnique(x + r, d, x / d + 1, x % d + r - d);
    }
  }

  // Rounded to whole clocks, every bit of the sender lasts tick or tick + 1 of them.
  lemma BitDuration(clkFreq: nat, baudrate: nat, phase: nat, m: nat)
    requires baudrate > 0
    ensures var duration := Boundary(clkFreq, baudrate, phase, m + 1) - Boundary(clkFreq, baudrate, phase, m);
            clkFreq / baudrate <= duration <= clkFreq / baudrate + 1
  {
    var tick, r, x := clkFreq / baudrate, clkFreq % baudrate, m * clkFreq + phase + baudrate - 1;
    assert (m + 1) * clkFreq + phase + baudrate - 1 == x + r + tick * baudrate by {
      assert (m + 1) * clkFreq == m * clkFreq + clkFreq;
      assert clkFreq == tick * baudrate + r;
    }
    Arith.DivShift(x + r, baudrate, tick);
    DivStep(x, r, baudrate);
  }

  // Rounding never makes up for more than the truncation of tick.
  lemma {:induction false} OffsetInTicks(clkFreq: nat, baudrate: nat, phase: nat, n: nat, j: nat)
    requires baudrate > 0
    ensures var tick := clkFreq / baudrate;
            Bits(tick, j) <= Offset(clkFreq, baudrate, phase, n, j) <= Bits(tick + 1, j)
  {
    hide Boundary;
    if j > 0 {
      OffsetInTicks(clkFreq, baudrate, phase, n, j - 1);
      BitDuration(clkFreq, baudrate, phase, 10 * n + j - 1);
    }
  }

  lemma RateSample(clkFreq: nat, baudrate: nat, phase: nat, n: nat, line: seq<bool>, b: Byte, i: nat)
    requires baudrate > 0 && clkFreq / baudrate >= 21 && i < 8
    requires SendsAtRate(clkFreq, baudrate, phase, n, line, b)
    ensures Rx.SampleAt(clkFreq / baudrate, i) < Offset(clkFreq, baudrate, phase, n, i + 2)
    ensures Rx.SampleAt(clkFreq / baudrate, i) < |line| ==> line[Rx.SampleAt(clkFreq / baudrate, i)] == b[i]
  {
    hide Bits, Offset;
    var tick := clkFreq / baudrate;
    OffsetInTicks(clkFreq, baudrate, phase, n, i + 1);
    OffsetInTicks(clkFreq, baudrate, phase, n, i + 2);
    BitsIsProduct(tick + 1, i + 1);
    BitsIsProduct(tick, i + 2);
    assert (i + 2) * tick == (i + 1) * (tick + 1) + tick - (i + 1);
    assert Holds(line, Offset(clkFreq, baudrate, phase, n, i + 1),
                 Offset(clkFreq, baudrate, phase, n, i + 2), b[i]);
  }

  lemma RateCarries(clkFreq: nat, baudrate: nat, phase: nat, n: nat, line: seq<bool>, b: Byte)
    requires baudrate > 0 && clkFreq / baudrate >= 21
    requires SendsAtRate(clkFreq, baudrate, phase, n, line, b)
    ensures Rx.Carries(clkFreq / baudrate, line, b)
  {
    hide Offset, Bits;
    var tick := clkFreq / baudrate;
    OffsetInTicks(clkFreq, baudrate, phase, n, 1);
    OffsetInTicks(clkFreq, baudrate, phase, n, 9);
    OffsetInTicks(clkFreq, baudrate, phase, n, 10);
    BitsIsProduct(tick, 1);
    BitsIsProduct(tick, 10);
    BitsIsProduct(tick + 1, 9);
    forall i: nat | i < 8
      ensures Rx.SampleAt(tick, i) < |line| && line[Rx.SampleAt(tick, i)] == b[i]
    {
      RateSample(clkFreq, baudrate, phase, n, line, b, i);
      Rx.BitsGrow(tick + 1, i + 1, 9);
    }
  }

  /**
   * The receiver, whose bit time tick + 1 always exceeds clk_freq/baudrate clocks, follows any number
   * of back-to-back frames sent at that exact rational rate, from any phase, once tick is at least 21.
   */
  lemma ExactRate(clkFreq: nat, baudrate: nat, phase: nat, l: Rx.Listener,
                  stretches: seq<seq<bool>>, bytes: seq<Byte>)
    requires baudrate > 0 && clkFreq / baudrate >= 21
    requires l.core.state == Idle && |stretches| == |bytes|
    requires forall n: nat :: n < |bytes| ==> SendsAtRate(clkFreq, baudrate, phase, n, stretches[n], bytes[n])
    ensures var l' := Rx.Feed(clkFreq / baudrate, l, Flatten(stretches));
            l'.core.state == Idle && l'.received == l.received + bytes
  {
    forall n | 0 <= n < |bytes|
      ensures Rx.Carries(clkFreq / baudrate, stretches[n], bytes[n])
    {
      RateCarries(clkFreq, baudrate, phase, n, stretches[n], bytes[n]);
    }
    HearsStretches(clkFreq / baudrate, l, stretches, bytes);
  }
}
