/**
 * The conversions between bytes and std_logic vectors as GHDL passes them: one character per
 * element, most significant bit first.
 */
module LogicCodec {
  import opened Arith
  import opened SoftFifo

  // The characters of the std_logic values 'U', 'X', '0', '1', 'Z' and the rest.
  type Logic = c: nat | c < 9
  const UNDEFINED: Logic := 0
  const LOW: Logic := 2
  const HIGH: Logic := 3

  const U32: nat := 0x1_0000_0000

  // ---- What the loops compute -----------------------------------------------------------------

  // Bit n of val, as the test of val against 1 << n.
  function BitAt(val: nat, n: nat): (c: Logic)
    ensures c == LOW || c == HIGH
  {
    if (val / Pow2(n)) % 2 == 1 then HIGH else LOW
  }

  // The low nbits bits of val, most significant first.
  function LogicOf(nbits: nat, val: nat): (l: seq<Logic>)
    ensures |l| == nbits
    ensures forall k :: 0 <= k < nbits ==> l[k] == LOW || l[k] == HIGH
  {
    if nbits == 0 then []
    else [BitAt(val, nbits - 1)] + LogicOf(nbits - 1, val)
  }

  predicate IsBinary(l: seq<Logic>) {
    forall k :: 0 <= k < |l| ==> l[k] == LOW || l[k] == HIGH
  }

  // The number a binary vector stands for.
  function NumberOf(l: seq<Logic>): nat {
    if l == [] then 0 else 2 * NumberOf(l[..|l| - 1]) + (if l[|l| - 1] == HIGH then 1 else 0)
  }

  function BytesOf(l: seq<Logic>): (bytes: seq<byte>)
    ensures |bytes| == |l| / 8
  {
    if |l| < 8 then [] else [NumberOf(l[..8]) % 256] + BytesOf(l[8..])
  }

  // The same for any elements: a group that is not binary repeats the number before it, at first
  // whatever the uninitialised accumulator holds.
  function BytesFrom(l: seq<Logic>, v: nat): (bytes: seq<byte>)
    ensures |bytes| == |l| / 8
  {
    if |l| < 8 then []
    else
      var v' := if IsBinary(l[..8]) then NumberOf(l[..8]) else v;
      [v' % 256] + BytesFrom(l[8..], v')
  }

  function LogicOfBytes(bytes: seq<byte>): (l: seq<Logic>)
    ensures |l| == 8 * |bytes| && IsBinary(l)
  {
    if bytes == [] then [] else LogicOf(8, bytes[0]) + LogicOfBytes(bytes[1..])
  }

  // ---- The loops ------------------------------------------------------------------------------

  // Shifting a bit into a 32-bit accumulator.
  function ShiftIn(val: nat, bit: nat): nat {
    (2 * val) % U32 + bit
  }

  lemma ShiftInKeepsLowBits(n: nat, bit: nat)
    requires bit < 2
    ensures ShiftIn(n % U32, bit) == (2 * n + bit) % U32
  {
    var q, r := n / U32, n % U32;
    if 2 * r < U32 {
      Arith.DivUnique(2 * n + bit, U32, 2 * q, 2 * r + bit);
    } else {
      Arith.DivUnique(2 * n + bit, U32, 2 * q + 1, 2 * r - U32 + bit);
    }
  }

  // Fails on the first element that is neither '0' nor '1'; the accumulator has 32 bits.
  method LogicToUint(l: seq<Logic>) returns (ok: bool, val: nat)
    ensures ok <==> IsBinary(l)
    ensures ok <==> forall k :: 0 <= k < |l| ==> l[k] == 2 || l[k] == 3
    ensures ok ==> val == NumberOf(l) % 0x1_0000_0000
  {
    val := 0;
    for i := 0 to |l|
      invariant IsBinary(l[..i]) && val == NumberOf(l[..i]) % U32
    {
      assert l[..i + 1][..i] == l[..i];
      hide ShiftIn;
      ShiftInKeepsLowBits(NumberOf(l[..i]), if l[i] == HIGH then 1 else 0);
      if l[i] == HIGH {
        val := ShiftIn(val, 1);
      } else if l[i] == LOW {
        val := ShiftIn(val, 0);
      } else {
        ok := false;
        assert l[..i + 1][i] == l[i];
        return;
      }
    }
    assert l[..|l|] == l;
    ok := true;
  }

  // Element k of the vector is '1', which is 3, or '0', which is 2, by the bit of its weight.
  lemma {:induction false} LogicOfBits(nbits: nat, val: nat)
    ensures forall k :: 0 <= k < nbits ==>
                        LogicOf(nbits, val)[k] == if val / Pow2(nbits - 1 - k) % 2 == 1 then 3 else 2
  {
    if nbits > 0 {
      LogicOfBits(nbits - 1, val);
      assert LogicOf(nbits, val)[1..] == LogicOf(nbits - 1, val);
      hide LogicOf, Pow2;
      forall k | 1 <= k < nbits
        ensures LogicOf(nbits, val)[k] == if val / Pow2(nbits - 1 - k) % 2 == 1 then 3 else 2
      {
        assert LogicOf(nbits, val)[k] == LogicOf(nbits - 1, val)[k - 1];
      }
    }
  }

  method UintToLogic(nbits: nat, val: nat) returns (l: seq<Logic>)
    requires nbits <= 32 && val < U32
    ensures l == LogicOf(nbits, val)
    ensures forall k :: 0 <= k < nbits ==> l[k] == if val / Pow2(nbits - 1 - k) % 2 == 1 then 3 else 2
  {
    hide BitAt, LogicOf, Pow2;
    LogicOfBits(nbits, val);
    l := [];
    var left: nat := nbits;
    while left > 0
      invariant left <= nbits && l + LogicOf(left, val) == LogicOf(nbits, val)
    {
      NextBit(l, left, val);
      left := left - 1;
      l := l + [BitAt(val, left)];
    }
    NoBits(val);
  }

  lemma NextBit(l: seq<Logic>, left: nat, val: nat)
    requires left > 0
    ensures l + LogicOf(left, val) == l + [BitAt(val, left - 1)] + LogicOf(left - 1, val)
  {
  }

  lemma NoBits(val: nat)
    ensures LogicOf(0, val) == []
  {
  }

  lemma FirstByte(l: seq<Logic>)
    requires |l| >= 8
    ensures NumberOf(l[..8]) < 256 && BytesOf(l) == [NumberOf(l[..8])] + BytesOf(l[8..])
  {
    hide NumberOf;
    ByteBound(l[..8]);
  }

  lemma ByteIsSmall(l: seq<Logic>)
    requires |l| == 8
    ensures NumberOf(l) % U32 == NumberOf(l)
  {
    ByteBound(l);
  }

  // logic_to_bytes, with what the accumulator holds before.
  method LogicToBytes(l: seq<Logic>, n: nat, garbage: nat) returns (bytes: seq<byte>)
    requires |l| == 8 * n
    ensures bytes == BytesFrom(l, garbage)
  {
    hide NumberOf, IsBinary;
    bytes := [];
    var v, rest, left: nat := garbage, l, n;
    while left > 0
      invariant |rest| == 8 * left && bytes + BytesFrom(rest, v) == BytesFrom(l, garbage)
    {
      ByteIsSmall(rest[..8]);
      var ok, val := LogicToUint(rest[..8]);
      if ok {
        v := val;
      }
      bytes := bytes + [v % 256];
      rest, left := rest[8..], left - 1;
    }
  }

  method BytesToLogic(bytes: seq<byte>) returns (l: seq<Logic>)
    ensures l == LogicOfBytes(bytes)
  {
    hide LogicOf;
    l := [];
    for i := 0 to |bytes|
      invariant l + LogicOfBytes(bytes[i..]) == LogicOfBytes(bytes)
    {
      var one := UintToLogic(8, bytes[i]);
      assert bytes[i..][1..] == bytes[i + 1..];
      l := l + one;
    }
  }

  method FillLogic(nbits: nat, val: Logic) returns (l: seq<Logic>)
    ensures |l| == nbits && forall k :: 0 <= k < nbits ==> l[k] == val
  {
    l := [];
    while |l| < nbits
      invariant |l| <= nbits && forall k :: 0 <= k < |l| ==> l[k] == val
    {
      l := l + [val];
    }
  }

  // ---- Round trips ----------------------------------------------------------------------------

  // The number of a vector by its characters: '1' is 3, and the first element weighs most.
  lemma {:induction false} NumberSplit(l: seq<Logic>)
    requires l != []
    ensures NumberOf(l) == (if l[0] == 3 then Pow2(|l| - 1) else 0) + NumberOf(l[1..]) && NumberOf([]) == 0
    decreases |l|
  {
    var n := |l| - 1;
    if n > 0 {
      NumberSplit(l[..n]);
      assert l[..n][1..] == l[1..][..n - 1];
    }
  }

  lemma DivModTwice(val: nat, p: nat)
    requires p > 0
    ensures val % (2 * p) == (if (val / p) % 2 == 1 then p else 0) + val % p
  {
    var q, r := val / p, val % p;
    assert val == (q / 2) * (2 * p) + (q % 2) * p + r;
    Arith.DivUnique(val, 2 * p, q / 2, (q % 2) * p + r);
  }

  // Writing a number out and reading it back gives its low bits.
  lemma {:induction false} NumberOfLogic(nbits: nat, val: nat)
    ensures NumberOf(LogicOf(nbits, val)) == val % Pow2(nbits)
  {
    if nbits > 0 {
      NumberOfLogic(nbits - 1, val);
      NumberSplit(LogicOf(nbits, val));
      assert LogicOf(nbits, val)[1..] == LogicOf(nbits - 1, val);
      DivModTwice(val, Pow2(nbits - 1));
    }
  }

  lemma {:induction false} NumberBound(l: seq<Logic>)
    ensures NumberOf(l) < Pow2(|l|)
    decreases |l|
  {
    if l != [] {
      NumberBound(l[..|l| - 1]);
    }
  }

  lemma HalveTwice(val: nat, p: nat)
    requires p > 0
    ensures val / (2 * p) == (val / 2) / p
  {
    var a := val / 2;
    assert val == (a / p) * (2 * p) + (2 * (a % p) + val % 2);
    Arith.DivUnique(val, 2 * p, a / p, 2 * (a % p) + val % 2);
  }

  // The last element is the least significant bit.
  lemma {:induction false} LogicSnoc(nbits: nat, val: nat)
    ensures LogicOf(nbits + 1, val) == LogicOf(nbits, val / 2) + [if val % 2 == 1 then HIGH else LOW]
  {
    if nbits == 0 {
      assert LogicOf(1, val) == [BitAt(val, 0)] + LogicOf(0, val);
    } else {
      LogicSnoc(nbits - 1, val);
      HalveTwice(val, Pow2(nbits - 1));
    }
  }

  // The largest number of n bits is all ones.
  lemma {:induction false} LogicOfLargest(n: nat, val: nat)
    requires val == Pow2(n) - 1
    ensures forall k :: 0 <= k < n ==> LogicOf(n, val)[k] == HIGH
  {
    hide LogicOf;
    if n > 0 {
      LogicOfLargest(n - 1, val / 2);
      LogicSnoc(n - 1, val);
    }
  }

  // Reading a binary vector and writing it out again gives the vector back.
  lemma {:induction false} LogicOfNumber(l: seq<Logic>)
    requires IsBinary(l)
    ensures LogicOf(|l|, NumberOf(l)) == l
    decreases |l|
  {
    if l == [] {
      assert LogicOf(0, NumberOf(l)) == [];
    } else {
      var n := |l| - 1;
      LogicOfNumber(l[..n]);
      LogicSnoc(n, NumberOf(l));
      hide LogicOf;
      assert NumberOf(l) / 2 == NumberOf(l[..n]);
      assert l == l[..n] + [l[n]];
    }
  }

  lemma ByteOfLogic(b: byte)
    ensures NumberOf(LogicOf(8, b)) == b
  {
    NumberOfLogic(8, b);
    assert Pow2(8) == 256;
  }

  // A group that is not binary gives the byte of the group before it, and the first the accumulator's.
  lemma {:induction false} StaleGroupRepeats(l: seq<Logic>, v: nat, k: nat)
    requires 8 * k + 8 <= |l| && !IsBinary(l[8 * k..8 * k + 8])
    ensures BytesFrom(l, v)[k] == if k == 0 then v % 256 else BytesFrom(l, v)[k - 1]
    decreases k
  {
    hide NumberOf, IsBinary;
    if k > 0 {
      var v' := if IsBinary(l[..8]) then NumberOf(l[..8]) else v;
      assert l[8..][8 * (k - 1)..8 * (k - 1) + 8] == l[8 * k..8 * k + 8];
      StaleGroupRepeats(l[8..], v', k - 1);
    }
  }

  // Byte k has elements 8 k to 8 k + 7, whichever way it goes.
  lemma {:induction false} ByteAt(bytes: seq<byte>, k: nat)
    requires k < |bytes|
    ensures LogicOfBytes(bytes)[8 * k..8 * k + 8] == LogicOf(8, bytes[k])
  {
    hide LogicOf;
    var first, rest := LogicOf(8, bytes[0]), LogicOfBytes(bytes[1..]);
    assert LogicOfBytes(bytes) == first + rest;
    if k == 0 {
      assert (first + rest)[..8] == first;
    } else {
      ByteAt(bytes[1..], k - 1);
      assert (first + rest)[8 * k..8 * k + 8] == rest[8 * (k - 1)..8 * (k - 1) + 8];
    }
  }

  lemma {:induction false} GroupAt(l: seq<Logic>, k: nat)
    requires 8 * k + 8 <= |l|
    ensures BytesOf(l)[k] == NumberOf(l[8 * k..8 * k + 8]) % 256
  {
    hide NumberOf;
    if k > 0 {
      GroupAt(l[8..], k - 1);
      assert l[8..][8 * (k - 1)..8 * (k - 1) + 8] == l[8 * k..8 * k + 8];
    }
  }

  // On binary elements what the accumulator held before does not matter.
  lemma {:induction false} BytesOfBinary(l: seq<Logic>, v: nat)
    requires IsBinary(l)
    ensures BytesFrom(l, v) == BytesOf(l)
    decreases |l|
  {
    hide NumberOf;
    if |l| >= 8 {
      BytesOfBinary(l[8..], NumberOf(l[..8]));
    }
  }

  // logic_to_bytes undoes bytes_to_logic.
  lemma {:induction false} BytesRoundTrip(bytes: seq<byte>)
    ensures BytesOf(LogicOfBytes(bytes)) == bytes
  {
    if bytes == [] {
      assert BytesOf([]) == [];
    } else {
      hide BytesOf, NumberOf, LogicOf;
      var l := LogicOfBytes(bytes);
      assert l[..8] == LogicOf(8, bytes[0]) && l[8..] == LogicOfBytes(bytes[1..]);
      FirstByte(l);
      ByteOfLogic(bytes[0]);
      BytesRoundTrip(bytes[1..]);
    }
  }

  // bytes_to_logic undoes logic_to_bytes on binary vectors of whole bytes.
  lemma {:induction false} LogicRoundTrip(l: seq<Logic>)
    requires IsBinary(l) && |l| % 8 == 0
    ensures LogicOfBytes(BytesOf(l)) == l
    decreases |l|
  {
    if l != [] {
      LogicRoundTrip(l[8..]);
      OneByte(l[..8]);
      assert BytesOf(l)[0] == NumberOf(l[..8]) && BytesOf(l)[1..] == BytesOf(l[8..]);
      hide BytesOf, NumberOf, LogicOf;
      assert l == l[..8] + l[8..];
    }
  }

  lemma ByteBound(l: seq<Logic>)
    requires |l| == 8
    ensures NumberOf(l) < 256
  {
    NumberBound(l);
    assert Pow2(8) == 256;
  }

  lemma OneByte(l: seq<Logic>)
    requires IsBinary(l) && |l| == 8
    ensures NumberOf(l) % 256 == NumberOf(l) && LogicOf(8, NumberOf(l)) == l
  {
    hide LogicOf, NumberOf;
    LogicOfNumber(l);
    ByteBound(l);
  }
}
