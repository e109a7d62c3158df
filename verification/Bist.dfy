/**
 * The built-in self test: the shift register drives the reference add/subtract unit and its faulty
 * copy, each of which drives a signature register; one bit of the difference of the signatures is
 * printed after every clock. The operands have n bits (32 in the repository).
 */
module Bist {
  import opened Bits
  import opened AddSub
  import L = Lfsr
  import S = Signature

  datatype Bench = Bench(ops: Word, signRef: Word, signDut: Word)

  predicate Fits(init: Word, taps: L.Taps, n: nat) {
    n >= 7 && Operands(init, n) && L.Fits(taps, |init|)
  }

  predicate Valid(b: Bench, taps: L.Taps, n: nat) {
    Fits(b.ops, taps, n) && |b.signRef| == |b.signDut| == n + 1
  }

  function Reset(init: Word, n: nat): Bench {
    Bench(init, OneAt(n + 1, 0), OneAt(n + 1, 0))
  }

  // A rising edge: the three registers take what the vectors were before it.
  function Clock(b: Bench, taps: L.Taps, n: nat): (b': Bench)
    requires Valid(b, taps, n)
    ensures Valid(b', taps, n)
  {
    Bench(L.Step(b.ops, taps, false),
          S.Step(b.signRef, Reference(b.ops, n)),
          S.Step(b.signDut, Faulty(b.ops, n)))
  }

  function Clocks(b: Bench, taps: L.Taps, n: nat, k: nat): (b': Bench)
    requires Valid(b, taps, n)
    ensures Valid(b', taps, n)
  {
    if k == 0 then b else Clock(Clocks(b, taps, n, k - 1), taps, n)
  }

  function Printed(b: Bench): bool
    requires |b.signRef| == |b.signDut| > 0
  {
    b.signDut[0] != b.signRef[0]
  }

  // ---- What is printed ------------------------------------------------------------------------

  // The difference the fault makes to the k-th result.
  function Difference(init: Word, taps: L.Taps, n: nat, k: nat): (e: Word)
    requires Fits(init, taps, n)
    ensures |e| == n + 1
  {
    var ops := L.Free(init, taps, k);
    Xor(Reference(ops, n), Faulty(ops, n))
  }

  function Differences(init: Word, taps: L.Taps, n: nat, k: nat): (es: seq<Word>)
    requires Fits(init, taps, n)
    ensures |es| == k && S.Stream(es, n + 1)
    ensures forall i :: 0 <= i < k ==> es[i] == Difference(init, taps, n, i)
  {
    seq(k, i requires 0 <= i < k => Difference(init, taps, n, i))
  }

  lemma {:induction false} OpsAfter(b: Bench, taps: L.Taps, n: nat, k: nat)
    requires Valid(b, taps, n)
    ensures Clocks(b, taps, n, k).ops == L.Free(b.ops, taps, k)
  {
    hide L.Step, S.Step, Reference, Faulty;
    if k > 0 {
      OpsAfter(b, taps, n, k - 1);
      assert Zero(k)[..k - 1] == Zero(k - 1);
    }
  }

  // The results of the reference unit, and those of its faulty copy, for the first k operands.
  function References(init: Word, taps: L.Taps, n: nat, k: nat): (rs: seq<Word>)
    requires Fits(init, taps, n)
    ensures |rs| == k && S.Stream(rs, n + 1)
    ensures forall i :: 0 <= i < k ==> rs[i] == Reference(L.Free(init, taps, i), n)
  {
    seq(k, i requires 0 <= i < k => Reference(L.Free(init, taps, i), n))
  }

  function Faulties(init: Word, taps: L.Taps, n: nat, k: nat): (rs: seq<Word>)
    requires Fits(init, taps, n)
    ensures |rs| == k && S.Stream(rs, n + 1)
    ensures forall i :: 0 <= i < k ==> rs[i] == Faulty(L.Free(init, taps, i), n)
  {
    seq(k, i requires 0 <= i < k => Faulty(L.Free(init, taps, i), n))
  }

  // Each signature register, started at 1, has folded in every result of its own unit.
  lemma {:induction false} SignaturesFold(init: Word, taps: L.Taps, n: nat, k: nat)
    requires Fits(init, taps, n)
    ensures var b := Clocks(Reset(init, n), taps, n, k);
            && b.signRef == S.Fold(OneAt(n + 1, 0), References(init, taps, n, k))
            && b.signDut == S.Fold(OneAt(n + 1, 0), Faulties(init, taps, n, k))
  {
    hide L.Step, S.Step, Reference, Faulty, L.Free;
    if k > 0 {
      SignaturesFold(init, taps, n, k - 1);
      OpsAfter(Reset(init, n), taps, n, k - 1);
      assert References(init, taps, n, k)[..k - 1] == References(init, taps, n, k - 1);
      assert Faulties(init, taps, n, k)[..k - 1] == Faulties(init, taps, n, k - 1);
    }
  }

  // The signatures differ by a register that starts at zero and is fed the differences.
  lemma SignaturesDiffer(init: Word, taps: L.Taps, n: nat, k: nat)
    requires Fits(init, taps, n)
    ensures var b := Clocks(Reset(init, n), taps, n, k);
            Xor(b.signRef, b.signDut) == S.Fold(Zero(n + 1), Differences(init, taps, n, k))
  {
    hide Clocks, S.Fold, Reference, Faulty, L.Free;
    SignaturesFold(init, taps, n, k);
    var start, rs, fs := OneAt(n + 1, 0), References(init, taps, n, k), Faulties(init, taps, n, k);
    S.Superposition(start, start, rs, fs);
    assert Xor(start, start) == Zero(n + 1);
    assert S.XorAll(rs, fs, n + 1) == Differences(init, taps, n, k);
  }

  // The fault shows in the k-th result: the trigger is there and the right bit n is 0.
  predicate Shows(init: Word, taps: L.Taps, n: nat, k: nat)
    requires Fits(init, taps, n)
  {
    var ops := L.Free(init, taps, k);
    Triggered(ops, n) && !Reference(ops, n)[n - 1]
  }

  lemma DifferenceMeans(init: Word, taps: L.Taps, n: nat, k: nat)
    requires Fits(init, taps, n)
    ensures Difference(init, taps, n, k) == if Shows(init, taps, n, k) then OneAt(n + 1, n - 1) else Zero(n + 1)
  {
    FaultyDiffers(L.Free(init, taps, k), n);
  }

  lemma PrintedMeans(init: Word, taps: L.Taps, n: nat, k: nat)
    requires Fits(init, taps, n)
    ensures Printed(Clocks(Reset(init, n), taps, n, k)) == S.Fold(Zero(n + 1), Differences(init, taps, n, k))[0]
  {
    SignaturesDiffer(init, taps, n, k);
    hide Clocks, S.Fold, Differences;
    var b := Clocks(Reset(init, n), taps, n, k);
    assert Xor(b.signRef, b.signDut)[0] == (b.signRef[0] != b.signDut[0]);
  }

  lemma DifferencesShape(init: Word, taps: L.Taps, n: nat, t: nat, m: nat)
    requires Fits(init, taps, n) && t < m && Shows(init, taps, n, t)
    requires forall i :: 0 <= i < t ==> !Shows(init, taps, n, i)
    ensures var es := Differences(init, taps, n, m);
            && (forall i :: 0 <= i < t ==> es[i] == Zero(n + 1))
            && es[t][n - 1]
            && (forall i :: t <= i < m ==> S.LowClear(es[i], n - 1))
  {
    hide Shows, Difference;
    forall i | 0 <= i < m
      ensures Difference(init, taps, n, i) == if Shows(init, taps, n, i) then OneAt(n + 1, n - 1) else Zero(n + 1)
    {
      DifferenceMeans(init, taps, n, i);
    }
  }

  /**
   * The first 1 is printed n clocks after the clock that first sees the fault: if result t is the
   * first to show it, the printed bit is 0 up to clock t + n - 1 and 1 at clock t + n, whatever
   * later results show.
   */
  lemma FirstFaultIsPrinted(init: Word, taps: L.Taps, n: nat, t: nat, k: nat)
    requires Fits(init, taps, n) && Shows(init, taps, n, t)
    requires forall i :: 0 <= i < t ==> !Shows(init, taps, n, i)
    ensures k < t + n ==> !Printed(Clocks(Reset(init, n), taps, n, k))
    ensures k == t + n ==> Printed(Clocks(Reset(init, n), taps, n, k))
  {
    hide Clocks, S.Fold, S.LowClear, Difference, Shows, Printed;
    if k <= t + n {
      PrintedMeans(init, taps, n, k);
      DifferencesShape(init, taps, n, t, t + n);
      var es := Differences(init, taps, n, t + n);
      assert es[..k] == Differences(init, taps, n, k);
      S.FirstDifferenceShows(n + 1, es, t, n - 1, k);
    }
  }

  /**
   * K clocks print nothing but 0 exactly if no result up to the one n clocks before the last shows
   * the fault.
   */
  lemma SilentIff(init: Word, taps: L.Taps, n: nat, clocks: nat)
    requires Fits(init, taps, n)
    ensures (forall k :: 1 <= k <= clocks ==> !Printed(Clocks(Reset(init, n), taps, n, k)))
       <==> (forall i :: 0 <= i && i + n <= clocks ==> !Shows(init, taps, n, i))
  {
    hide Clocks, Printed, Shows;
    if i :| 0 <= i && i + n <= clocks && Shows(init, taps, n, i) {
      var t := FirstShown(init, taps, n, i);
      FirstFaultIsPrinted(init, taps, n, t, t + n);
    } else {
      forall k | 1 <= k <= clocks ensures !Printed(Clocks(Reset(init, n), taps, n, k)) {
        SilentUntil(init, taps, n, k);
      }
    }
  }

  lemma {:induction false} FirstShown(init: Word, taps: L.Taps, n: nat, i: nat) returns (t: nat)
    requires Fits(init, taps, n) && Shows(init, taps, n, i)
    ensures t <= i && Shows(init, taps, n, t) && forall j :: 0 <= j < t ==> !Shows(init, taps, n, j)
  {
    hide Shows;
    if j :| 0 <= j < i && Shows(init, taps, n, j) {
      t := FirstShown(init, taps, n, j);
    } else {
      t := i;
    }
  }

  lemma SilentUntil(init: Word, taps: L.Taps, n: nat, k: nat)
    requires Fits(init, taps, n) && forall i :: 0 <= i && i + n <= k ==> !Shows(init, taps, n, i)
    ensures !Printed(Clocks(Reset(init, n), taps, n, k))
  {
    hide Clocks, Printed, Shows, S.Fold;
    if i :| 0 <= i < k && Shows(init, taps, n, i) {
      var t := FirstShown(init, taps, n, i);
      FirstFaultIsPrinted(init, taps, n, t, k);
    } else {
      PrintedMeans(init, taps, n, k);
      forall i | 0 <= i < k ensures Difference(init, taps, n, i) == Zero(n + 1) {
        DifferenceMeans(init, taps, n, i);
      }
      S.ZeroStays(n + 1, Differences(init, taps, n, k));
    }
  }
}
