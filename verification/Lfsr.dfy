/**
 * The Fibonacci shift register with four taps: bit `size` and three of the table. Element k of the
 * register is bit k + 1.
 */
module Lfsr {
  import opened Arith
  import opened Bits

  datatype Taps = Taps(p0: nat, p1: nat, p2: nat)

  // Every entry of the table names three bits below `size`.
  predicate Fits(taps: Taps, size: nat) {
    1 <= taps.p0 < size && 1 <= taps.p1 < size && 1 <= taps.p2 < size
  }

  // The bit shifted in at bit 1.
  function Feedback(reg: Word, taps: Taps, din: bool): bool
    requires Fits(taps, |reg|)
  {
    (((reg[|reg| - 1] != reg[taps.p0 - 1]) != reg[taps.p1 - 1]) != reg[taps.p2 - 1]) != din
  }

  function Step(reg: Word, taps: Taps, din: bool): (reg': Word)
    requires Fits(taps, |reg|)
    ensures |reg'| == |reg|
  {
    [Feedback(reg, taps, din)] + reg[..|reg| - 1]
  }

  // The register after the given input bits, oldest first.
  function Run(reg: Word, taps: Taps, dins: seq<bool>): (reg': Word)
    requires Fits(taps, |reg|)
    ensures |reg'| == |reg|
  {
    if dins == [] then reg else Step(Run(reg, taps, dins[..|dins| - 1]), taps, dins[|dins| - 1])
  }

  // ---- The step is a bijection ----------------------------------------------------------------

  // Bit `size` before the step is what is left of the feedback once the shifted taps are taken off.
  function Back(reg: Word, taps: Taps, din: bool): (reg': Word)
    requires Fits(taps, |reg|)
    ensures |reg'| == |reg|
  {
    reg[1..] + [(((reg[0] != reg[taps.p0]) != reg[taps.p1]) != reg[taps.p2]) != din]
  }

  lemma BackUndoesStep(reg: Word, taps: Taps, din: bool)
    requires Fits(taps, |reg|)
    ensures Back(Step(reg, taps, din), taps, din) == reg
  {
  }

  lemma StepUndoesBack(reg: Word, taps: Taps, din: bool)
    requires Fits(taps, |reg|)
    ensures Step(Back(reg, taps, din), taps, din) == reg
  {
  }

  // Different registers stay different under the same input.
  lemma {:induction false} RunIsInjective(a: Word, b: Word, taps: Taps, dins: seq<bool>)
    requires |a| == |b| && Fits(taps, |a|) && Run(a, taps, dins) == Run(b, taps, dins)
    ensures a == b
    decreases |dins|
  {
    hide Step, Back;
    if dins != [] {
      var before, din := dins[..|dins| - 1], dins[|dins| - 1];
      BackUndoesStep(Run(a, taps, before), taps, din);
      BackUndoesStep(Run(b, taps, before), taps, din);
      RunIsInjective(a, b, taps, before);
    }
  }

  lemma {:induction false} RunConcat(reg: Word, taps: Taps, a: seq<bool>, b: seq<bool>)
    requires Fits(taps, |reg|)
    ensures Run(reg, taps, a + b) == Run(Run(reg, taps, a), taps, b)
    decreases |b|
  {
    hide Step;
    if b == [] {
      assert a + b == a;
    } else {
      RunConcat(reg, taps, a, b[..|b| - 1]);
      assert (a + b)[..|a + b| - 1] == a + b[..|b| - 1];
    }
  }

  // ---- The output sequence --------------------------------------------------------------------

  // The output bit s is bit 1, and the register holds the last `size` outputs, newest first.
  predicate IsWindow(reg: Word, outputs: seq<bool>) {
    |reg| <= |outputs| && forall k :: 0 <= k < |reg| ==> reg[k] == outputs[|outputs| - 1 - k]
  }

  // Each output is the sum of the outputs `size`, p0, p1 and p2 clocks before, and of din.
  function NextOutput(o: seq<bool>, size: nat, taps: Taps, din: bool): bool
    requires Fits(taps, size) && size <= |o|
  {
    var n := |o|;
    (((o[n - size] != o[n - taps.p0]) != o[n - taps.p1]) != o[n - taps.p2]) != din
  }

  function Outputs(first: seq<bool>, size: nat, taps: Taps, dins: seq<bool>): (outputs: seq<bool>)
    requires Fits(taps, size) && |first| == size
    ensures |outputs| == size + |dins|
  {
    if dins == [] then first
    else
      var o := Outputs(first, size, taps, dins[..|dins| - 1]);
      o + [NextOutput(o, size, taps, dins[|dins| - 1])]
  }

  lemma WindowSlides(reg: Word, o: seq<bool>, taps: Taps, din: bool)
    requires Fits(taps, |reg|) && IsWindow(reg, o)
    ensures IsWindow(Step(reg, taps, din), o + [NextOutput(o, |reg|, taps, din)])
  {
  }

  // The shift register computes the linear recurrence of its polynomial.
  lemma {:induction false} RegisterIsRecurrence(reg: Word, first: seq<bool>, taps: Taps, dins: seq<bool>)
    requires |first| == |reg| && Fits(taps, |reg|) && IsWindow(reg, first)
    ensures IsWindow(Run(reg, taps, dins), Outputs(first, |reg|, taps, dins))
    decreases |dins|
  {
    hide Step, NextOutput, IsWindow;
    if dins != [] {
      var before := dins[..|dins| - 1];
      RegisterIsRecurrence(reg, first, taps, before);
      WindowSlides(Run(reg, taps, before), Outputs(first, |reg|, taps, before), taps, dins[|dins| - 1]);
    }
  }

  // ---- Orbits with din = 0 --------------------------------------------------------------------

  function Free(reg: Word, taps: Taps, n: nat): (reg': Word)
    requires Fits(taps, |reg|)
    ensures |reg'| == |reg|
  {
    Run(reg, taps, Zero(n))
  }

  lemma FreeAdds(reg: Word, taps: Taps, m: nat, n: nat)
    requires Fits(taps, |reg|)
    ensures Free(reg, taps, m + n) == Free(Free(reg, taps, m), taps, n)
  {
    RunConcat(reg, taps, Zero(m), Zero(n));
    assert Zero(m + n) == Zero(m) + Zero(n);
  }

  lemma {:induction false} ZeroStays(size: nat, taps: Taps, n: nat)
    requires Fits(taps, size)
    ensures Free(Zero(size), taps, n) == Zero(size)
  {
    if n > 0 {
      ZeroStays(size, taps, n - 1);
      assert Zero(n)[..n - 1] == Zero(n - 1);
      assert Step(Zero(size), taps, false) == Zero(size);
    }
  }

  // A register that is not zero never becomes zero.
  lemma NeverZero(reg: Word, taps: Taps, n: nat)
    requires Fits(taps, |reg|) && reg != Zero(|reg|)
    ensures Free(reg, taps, n) != Zero(|reg|)
  {
    ZeroStays(|reg|, taps, n);
    if Free(reg, taps, n) == Zero(|reg|) {
      RunIsInjective(reg, Zero(|reg|), taps, Zero(n));
    }
  }

  // The numbers strictly between 0 and n.
  function Between(n: nat): (s: set<int>)
    ensures forall x :: x in s <==> 0 < x < n
    ensures n > 0 ==> |s| == n - 1
  {
    if n <= 1 then {} else Between(n - 1) + {n - 1}
  }

  lemma {:induction false} Distinct(values: seq<int>)
    requires forall i, j :: 0 <= i < j < |values| ==> values[i] != values[j]
    ensures |set x | x in values| == |values|
  {
    if values == [] {
      assert (set x | x in values) == {};
    } else {
      var n := |values| - 1;
      Distinct(values[..n]);
      assert (set x | x in values) == (set x | x in values[..n]) + {values[n]};
    }
  }

  lemma {:induction false} SubsetSize<T>(a: set<T>, b: set<T>)
    requires a <= b
    ensures |a| <= |b|
  {
    if a == {} {
    } else {
      var x :| x in a;
      SubsetSize(a - {x}, b - {x});
    }
  }

  // n values strictly between 0 and n cannot all be different.
  lemma Pigeonhole(values: seq<int>, n: nat) returns (i: nat, j: nat)
    requires n > 0 && |values| == n && forall k :: 0 <= k < n ==> 0 < values[k] < n
    ensures i < j < n && values[i] == values[j]
  {
    if forall i, j :: 0 <= i < j < n ==> values[i] != values[j] {
      Distinct(values);
      SubsetSize((set x | x in values), Between(n));
      assert false;
    }
    i, j :| 0 <= i < j < n && values[i] == values[j];
  }

  lemma {:induction false} ZeroVal(n: nat)
    ensures Val(Zero(n)) == 0
  {
    if n > 0 {
      ZeroVal(n - 1);
      assert Zero(n)[1..] == Zero(n - 1);
    }
  }

  /**
   * Every run from a register that is not zero comes back to it, within 2^size - 1 clocks, for any
   * size and any taps below it.
   */
  lemma RunReturns(reg: Word, taps: Taps) returns (period: nat)
    requires Fits(taps, |reg|) && reg != Zero(|reg|)
    ensures 0 < period <= Pow2(|reg|) - 1 && Free(reg, taps, period) == reg
  {
    var n, size := Pow2(|reg|), |reg|;
    hide Free, Pow2;
    var values := seq(n, k requires 0 <= k < n => Val(Free(reg, taps, k)));
    forall k | 0 <= k < n ensures 0 < values[k] < n {
      var r := Free(reg, taps, k);
      ValBound(r);
      NeverZero(reg, taps, k);
      ZeroVal(size);
      if Val(r) == 0 {
        ValInjective(r, Zero(size));
      }
    }
    var i, j := Pigeonhole(values, n);
    ValInjective(Free(reg, taps, i), Free(reg, taps, j));
    period := j - i;
    FreeAdds(reg, taps, period, i);
    FreeIsInjective(reg, Free(reg, taps, period), taps, i);
  }

  lemma FreeIsInjective(a: Word, b: Word, taps: Taps, n: nat)
    requires |a| == |b| && Fits(taps, |a|) && Free(a, taps, n) == Free(b, taps, n)
    ensures a == b
  {
    RunIsInjective(a, b, taps, Zero(n));
  }
}
