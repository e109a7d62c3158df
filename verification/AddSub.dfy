/**
 * The add/subtract unit of the built-in self test and its faulty copy, for operands of n bits (32
 * in the repository). Bit 1 of the operand register selects subtraction, bit 2 is the carry in,
 * then come the n bits of B and the n bits of A. One addition does it all: it has an extra low bit
 * where A has a 1 and B the carry in, so that its carry out of there is the carry in, and that bit
 * of the sum is dropped.
 */
module AddSub {
  import opened Arith
  import opened Bits

  predicate Operands(ops: Word, n: nat) {
    |ops| == 2 * n + 2
  }

  function A(ops: Word, n: nat): nat
    requires Operands(ops, n)
  {
    Val(ops[n + 2..])
  }

  function B(ops: Word, n: nat): nat
    requires Operands(ops, n)
  {
    Val(ops[2..n + 2])
  }

  function CarryIn(ops: Word, n: nat): nat
    requires Operands(ops, n)
  {
    if ops[1] then 1 else 0
  }

  // The sum with its extra low bit.
  function Sum(ops: Word, n: nat): (res: Word)
    requires Operands(ops, n)
    ensures |res| == n + 2
  {
    var addend := [true] + ops[n + 2..] + [false];
    var subtrahend := ops[1..n + 2] + [false];
    Add(addend, if ops[0] then Not(subtrahend) else subtrahend, false)
  }

  function Reference(ops: Word, n: nat): (result: Word)
    requires Operands(ops, n)
    ensures |result| == n + 1
  {
    Sum(ops, n)[1..]
  }

  // The top seven bits of B are 0110110.
  predicate Triggered(ops: Word, n: nat)
    requires Operands(ops, n) && n >= 7
  {
    !ops[n + 1] && ops[n] && ops[n - 1] && !ops[n - 2] && ops[n - 3] && ops[n - 4] && !ops[n - 5]
  }

  function Faulty(ops: Word, n: nat): (result: Word)
    requires Operands(ops, n) && n >= 7
    ensures |result| == n + 1
  {
    var res := Sum(ops, n);
    (if Triggered(ops, n) then res[n := true] else res)[1..]
  }

  // ---- What the reference computes ------------------------------------------------------------

  lemma AddendVal(ops: Word, n: nat)
    requires Operands(ops, n)
    ensures Val([true] + ops[n + 2..] + [false]) == 2 * A(ops, n) + 1
    ensures Val(ops[1..n + 2] + [false]) == 2 * B(ops, n) + CarryIn(ops, n)
  {
    var a := [true] + ops[n + 2..];
    ConcatVal(a, [false]);
    assert a[1..] == ops[n + 2..];
    ConcatVal(ops[1..n + 2], [false]);
    assert ops[1..n + 2][1..] == ops[2..n + 2];
  }

  // Dropping the low bit halves the sum.
  lemma ReferenceIsHalf(ops: Word, n: nat)
    requires Operands(ops, n)
    ensures Val(Reference(ops, n)) == Val(Sum(ops, n)) / 2
  {
  }

  // With the select bit clear the result is the full sum, carry out included.
  lemma ReferenceAdds(ops: Word, n: nat)
    requires Operands(ops, n) && !ops[0]
    ensures Val(Reference(ops, n)) == A(ops, n) + B(ops, n) + CarryIn(ops, n)
  {
    AddendVal(ops, n);
    ReferenceIsHalf(ops, n);
    AddIsModular([true] + ops[n + 2..] + [false], ops[1..n + 2] + [false]);
    OperandsAreSmall(ops, n);
    hide Val, Add, Reference, Pow2, A, B;
    assert Val(Sum(ops, n)) == (2 * A(ops, n) + 1 + (2 * B(ops, n) + CarryIn(ops, n))) % Pow2(n + 2);
    hide Sum;
    HalfSum(A(ops, n) + B(ops, n), CarryIn(ops, n), Pow2(n + 1));
  }

  lemma HalfSum(sum: nat, c: nat, p: nat)
    requires sum + 1 < p && c < 2
    ensures (2 * sum + 1 + c) % (2 * p) / 2 == sum + c
  {
    DivUnique(2 * sum + 1 + c, 2 * p, 0, 2 * sum + 1 + c);
  }

  lemma OperandsAreSmall(ops: Word, n: nat)
    requires Operands(ops, n)
    ensures A(ops, n) < Pow2(n) && B(ops, n) < Pow2(n) && Pow2(n + 2) == 2 * Pow2(n + 1) == 4 * Pow2(n)
  {
    ValBound(ops[n + 2..]);
    ValBound(ops[2..n + 2]);
  }

  lemma HalfDifference(d: int, c: nat, p: int)
    requires -p <= d < p && c < 2
    ensures (2 * d + c + 2 * p) % (2 * p) / 2 == d % p
  {
    if d >= 0 {
      DivUnique(2 * d + c + 2 * p, 2 * p, 1, 2 * d + c);
      DivUnique(d, p, 0, d);
      Halve(d, c);
    } else {
      DivUnique(2 * d + c + 2 * p, 2 * p, 0, 2 * d + c + 2 * p);
      NegativeMod(d, p);
      Halve(d + p, c);
    }
  }

  lemma Halve(x: nat, c: nat)
    requires c < 2
    ensures (2 * x + c) / 2 == x
  {
  }

  // The remainder of a small negative number is never negative.
  lemma NegativeMod(d: int, p: nat)
    requires -1 * p <= d < 0
    ensures d % p == d + p
  {
    assert d == -1 * p + (d + p);
  }

  // With it set the result is the difference, carry in taken as a borrow, in n + 1 bits.
  lemma ReferenceSubtracts(ops: Word, n: nat)
    requires Operands(ops, n) && ops[0]
    ensures Val(Reference(ops, n)) == (A(ops, n) - B(ops, n) - CarryIn(ops, n)) % Pow2(n + 1)
  {
    var subtrahend := ops[1..n + 2] + [false];
    AddendVal(ops, n);
    NotVal(subtrahend);
    ReferenceIsHalf(ops, n);
    AddIsModular([true] + ops[n + 2..] + [false], Not(subtrahend));
    OperandsAreSmall(ops, n);
    hide Val, Add, Reference, Pow2, A, B;
    assert Val(Sum(ops, n)) == (2 * A(ops, n) + 1 + Pow2(n + 2) - 1 - (2 * B(ops, n) + CarryIn(ops, n))) % Pow2(n + 2);
    hide Sum;
    HalfDifference(A(ops, n) - B(ops, n) - CarryIn(ops, n), CarryIn(ops, n), Pow2(n + 1));
  }

  // ---- Where the faulty copy differs ----------------------------------------------------------

  /**
   * The faulty copy sets bit n of the result (weight 2^(n-1)) when the top seven bits of B are
   * 0110110, so it differs there, and only there, exactly when the right bit is 0.
   */
  lemma FaultyDiffers(ops: Word, n: nat)
    requires Operands(ops, n) && n >= 7
    ensures Xor(Reference(ops, n), Faulty(ops, n))
         == if Triggered(ops, n) && !Reference(ops, n)[n - 1] then OneAt(n + 1, n - 1) else Zero(n + 1)
  {
    hide Sum;
    var sum := Sum(ops, n);
    assert forall k :: 0 <= k < n + 1 ==> sum[n := true][1..][k] == if k == n - 1 then true else sum[1..][k];
  }

  // The trigger is about the number B.
  lemma TriggeredMeans(ops: Word, n: nat)
    requires Operands(ops, n) && n >= 7
    ensures Triggered(ops, n) <==> B(ops, n) / Pow2(n - 7) == 54
  {
    hide Pow2, Val;
    var b := ops[2..n + 2];
    DropVal(b, n - 7);
    var top := b[n - 7..];
    assert forall k :: 0 <= k < 7 ==> top[k] == ops[n - 5 + k];
    SevenBits(top);
  }

  lemma SevenBits(w: Word)
    requires |w| == 7
    ensures Val(w) == 54 <==> !w[0] && w[1] && w[2] && !w[3] && w[4] && w[5] && !w[6]
  {
    var pattern := [false, true, true, false, true, true, false];
    assert Val(pattern) == 54;
    hide Val;
    assert !w[0] && w[1] && w[2] && !w[3] && w[4] && w[5] && !w[6] ==> w == pattern;
    if Val(w) == 54 {
      ValInjective(w, pattern);
    }
  }

  // The fault in numbers.
  lemma FaultyVal(ops: Word, n: nat)
    requires Operands(ops, n) && n >= 7
    ensures var v, weight := Val(Reference(ops, n)), Pow2(n - 1);
            Val(Faulty(ops, n)) == if B(ops, n) / Pow2(n - 7) == 54 && v / weight % 2 == 0 then v + weight else v
  {
    TriggeredMeans(ops, n);
    DropVal(Reference(ops, n), n - 1);
    SetVal(Reference(ops, n), n - 1);
    hide Sum, Val, Pow2;
    assert Sum(ops, n)[n := true][1..] == Reference(ops, n)[n - 1 := true];
  }
}
