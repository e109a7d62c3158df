/** What the UART transmitter and receiver share: bytes, phases and the shape of a frame on the line. */
module Uart {

  // A std_logic_vector(7 downto 0); element i is bit i.
  type Byte = v: seq<bool> | |v| == 8 witness seq(8, i => false)
  type BitIndex = i: nat | i < 8

  // The enumeration (idle, start, data0 .. data7, stop) of both state machines.
  datatype Phase = Idle | Start | Data(bit: BitIndex) | Stop

  function Level(level: bool, n: nat): (s: seq<bool>)
    ensures |s| == n && forall k :: 0 <= k < n ==> s[k] == level
  {
    seq(n, i => level)
  }

  // The line through the start bit and the first i data bits, least significant bit first,
  // for a bit time of `bitTime` clocks. The start bit takes one clock more.
  function Head(bitTime: nat, b: Byte, i: nat): seq<bool>
    requires i <= 8
  {
    if i == 0 then Level(false, bitTime + 1) else Head(bitTime, b, i - 1) + Level(b[i - 1], bitTime)
  }

  // A whole frame: start, eight data bits, and the stop bit together with two clocks of turn-around.
  function Frame(bitTime: nat, b: Byte): seq<bool> {
    Head(bitTime, b, |b|) + Level(true, bitTime + 2)
  }

  // Frames of the given bytes; gaps[k] extra high clocks follow the first k frames.
  function Wave(bitTime: nat, bytes: seq<Byte>, gaps: seq<nat>): seq<bool>
    requires |gaps| == |bytes| + 1
  {
    var n := |bytes|;
    if n == 0 then Level(true, gaps[0])
    else Wave(bitTime, bytes[..n - 1], gaps[..n]) + Frame(bitTime, bytes[n - 1]) + Level(true, gaps[n])
  }

  // The length of i bit times, as a sum.
  function Bits(bitTime: nat, i: nat): nat {
    if i == 0 then 0 else Bits(bitTime, i - 1) + bitTime
  }

  lemma {:induction false} BitsIsProduct(bitTime: nat, i: nat)
    ensures Bits(bitTime, i) == i * bitTime
  {
    if i > 0 {
      BitsIsProduct(bitTime, i - 1);
      assert i * bitTime == (i - 1) * bitTime + bitTime;
    }
  }

  lemma {:induction false} HeadLength(bitTime: nat, b: Byte, i: nat)
    requires i <= 8
    ensures |Head(bitTime, b, i)| == bitTime + 1 + Bits(bitTime, i)
  {
    if i > 0 {
      HeadLength(bitTime, b, i - 1);
    }
  }

  // A frame and its turn-around take ten bit times and three clocks.
  lemma FrameLength(bitTime: nat, b: Byte)
    ensures |Frame(bitTime, b)| == 10 * bitTime + 3
  {
    HeadLength(bitTime, b, |b|);
    BitsIsProduct(bitTime, 8);
  }

  lemma {:induction false} HeadIsPrefix(bitTime: nat, b: Byte, i: nat, j: nat)
    requires i <= j <= 8
    ensures Head(bitTime, b, i) <= Head(bitTime, b, j)
    decreases j
  {
    if i < j {
      HeadIsPrefix(bitTime, b, i, j - 1);
    }
  }

  // What the line carries during a frame: low for one clock more than a bit time, each data bit for
  // a bit time, the least significant first, then high.
  lemma FrameLevels(bitTime: nat, b: Byte, k: nat)
    requires k < |Frame(bitTime, b)|
    ensures k < bitTime + 1 ==> !Frame(bitTime, b)[k]
    ensures forall i: nat :: i < 8 && bitTime + 1 + i * bitTime <= k < bitTime + 1 + (i + 1) * bitTime ==>
                             Frame(bitTime, b)[k] == b[i]
    ensures bitTime + 1 + 8 * bitTime <= k ==> Frame(bitTime, b)[k]
  {
    HeadLength(bitTime, b, |b|);
    BitsIsProduct(bitTime, 8);
    HeadIsPrefix(bitTime, b, 0, |b|);
    assert Head(bitTime, b, 0) == Level(false, bitTime + 1);
    hide Head;
    forall i: nat | i < 8 && bitTime + 1 + i * bitTime <= k < bitTime + 1 + (i + 1) * bitTime
      ensures Frame(bitTime, b)[k] == b[i]
    {
      FrameBit(bitTime, b, i, k);
    }
  }

  lemma FrameBit(bitTime: nat, b: Byte, i: nat, k: nat)
    requires i < 8 && bitTime + 1 + i * bitTime <= k < bitTime + 1 + (i + 1) * bitTime
    ensures k < |Frame(bitTime, b)| && Frame(bitTime, b)[k] == b[i]
  {
    HeadLength(bitTime, b, i);
    HeadLength(bitTime, b, i + 1);
    HeadIsPrefix(bitTime, b, i + 1, |b|);
    BitsIsProduct(bitTime, i);
    BitsIsProduct(bitTime, i + 1);
    assert Head(bitTime, b, i + 1) == Head(bitTime, b, i) + Level(b[i], bitTime);
    hide Head, Bits;
    assert Head(bitTime, b, i + 1)[k] == b[i];
  }
}
