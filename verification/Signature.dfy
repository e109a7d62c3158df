/**
 * The signature registers of the built-in self test, for any width from seven bits up (33 in the
 * repository). A clock shifts towards bit 1, feeds the sum of bits 1, 2, 5 and 7 back into the top
 * bit and adds the response.
 */
module Signature {
  import opened Bits

  function Shift(s: Word): (s': Word)
    requires |s| >= 7
    ensures |s'| == |s|
  {
    s[1..] + [((s[0] != s[1]) != s[4]) != s[6]]
  }

  function Step(s: Word, response: Word): (s': Word)
    requires |s| == |response| >= 7
    ensures |s'| == |s|
  {
    Xor(response, Shift(s))
  }

  predicate Stream(responses: seq<Word>, width: nat) {
    forall k :: 0 <= k < |responses| ==> |responses[k]| == width
  }

  // The register after the given responses, oldest first.
  function Fold(s: Word, responses: seq<Word>): (s': Word)
    requires |s| >= 7 && Stream(responses, |s|)
    ensures |s'| == |s|
  {
    if responses == [] then s
    else Step(Fold(s, responses[..|responses| - 1]), responses[|responses| - 1])
  }

  function XorAll(a: seq<Word>, b: seq<Word>, width: nat): (c: seq<Word>)
    requires |a| == |b| && Stream(a, width) && Stream(b, width)
    ensures |c| == |a| && Stream(c, width) && forall k :: 0 <= k < |c| ==> c[k] == Xor(a[k], b[k])
  {
    seq(|a|, k requires 0 <= k < |a| => Xor(a[k], b[k]))
  }

  // ---- The recurrence -------------------------------------------------------------------------

  function Quiet(k: nat, width: nat): (responses: seq<Word>)
    ensures |responses| == k && Stream(responses, width)
  {
    seq(k, i => Zero(width))
  }

  // The bits that pass through bit 1 without responses: each new one is the sum of those |s|,
  // |s| - 1, |s| - 4 and |s| - 6 places before it.
  function Passing(s: Word, k: nat): (bits: seq<bool>)
    requires |s| >= 7
    ensures |bits| == |s| + k
  {
    if k == 0 then s
    else
      var z := Passing(s, k - 1);
      var n := |z| - |s|;
      z + [((z[n] != z[n + 1]) != z[n + 4]) != z[n + 6]]
  }

  lemma WindowSlides(s: Word, z: seq<bool>, n: nat)
    requires |s| >= 7 && |z| == n + |s| && s == z[n..]
    ensures Step(s, Zero(|s|)) == (z + [((z[n] != z[n + 1]) != z[n + 4]) != z[n + 6]])[n + 1..]
  {
  }

  // Without responses the register is a window on the linear recurrence of its polynomial.
  lemma {:induction false} RegisterIsRecurrence(s: Word, k: nat)
    requires |s| >= 7
    ensures Fold(s, Quiet(k, |s|)) == Passing(s, k)[k..]
  {
    hide Step;
    if k > 0 {
      RegisterIsRecurrence(s, k - 1);
      assert Quiet(k, |s|)[..k - 1] == Quiet(k - 1, |s|);
      WindowSlides(Fold(s, Quiet(k - 1, |s|)), Passing(s, k - 1), k - 1);
    }
  }

  // ---- Superposition --------------------------------------------------------------------------

  lemma StepIsLinear(a: Word, b: Word, ra: Word, rb: Word)
    requires |a| == |b| == |ra| == |rb| >= 7
    ensures Xor(Step(a, ra), Step(b, rb)) == Step(Xor(a, b), Xor(ra, rb))
  {
  }

  /**
   * Two registers fed two streams differ by what one register holds that starts with their
   * difference and is fed the differences of the streams.
   */
  lemma {:induction false} Superposition(a: Word, b: Word, ra: seq<Word>, rb: seq<Word>)
    requires |a| == |b| >= 7 && |ra| == |rb| && Stream(ra, |a|) && Stream(rb, |a|)
    ensures Xor(Fold(a, ra), Fold(b, rb)) == Fold(Xor(a, b), XorAll(ra, rb, |a|))
    decreases |ra|
  {
    hide Step;
    if ra != [] {
      var n := |ra| - 1;
      Superposition(a, b, ra[..n], rb[..n]);
      StepIsLinear(Fold(a, ra[..n]), Fold(b, rb[..n]), ra[n], rb[n]);
      assert XorAll(ra, rb, |a|)[..n] == XorAll(ra[..n], rb[..n], |a|);
    }
  }

  // ---- Differences are never lost -------------------------------------------------------------

  lemma StepIsInjective(a: Word, b: Word, r: Word)
    requires |a| == |b| == |r| >= 7 && Step(a, r) == Step(b, r)
    ensures a == b
  {
    var x, y, n := Shift(a), Shift(b), |a| - 1;
    assert forall k :: 0 <= k < |a| ==> Step(a, r)[k] == (r[k] != x[k]) && Step(b, r)[k] == (r[k] != y[k]);
    assert forall k :: 0 <= k < |a| ==> x[k] == y[k];
    assert forall k :: 1 <= k < |a| ==> a[k] == x[k - 1] && b[k] == y[k - 1];
    assert x[n] == y[n];
  }

  // While the responses agree, the signatures differ exactly if they differed before: a difference
  // is never lost, and none appears.
  lemma {:induction false} DifferForever(a: Word, b: Word, tail: seq<Word>)
    requires |a| == |b| >= 7 && Stream(tail, |a|)
    ensures Fold(a, tail) == Fold(b, tail) <==> a == b
    decreases |tail|
  {
    hide Step;
    if tail != [] {
      var n := |tail| - 1;
      DifferForever(a, b, tail[..n]);
      if Fold(a, tail) == Fold(b, tail) {
        StepIsInjective(Fold(a, tail[..n]), Fold(b, tail[..n]), tail[n]);
      }
    }
  }

  // ---- When a difference reaches bit 1 --------------------------------------------------------

  predicate LowClear(w: Word, p: nat) {
    p <= |w| && forall k :: 0 <= k < p ==> !w[k]
  }

  lemma TravelStep(d: Word, e: Word, p: nat, q: nat)
    requires |d| == |e| >= 7 && 0 < p <= q && p < |d| && LowClear(d, p) && d[p] && LowClear(e, q)
    ensures LowClear(Step(d, e), p - 1) && Step(d, e)[p - 1]
  {
  }

  // A difference whose lowest set bit has index p moves down one bit a clock, whatever differences
  // arrive meanwhile at index p and above.
  lemma {:induction false} Travels(d: Word, es: seq<Word>, p: nat)
    requires |d| >= 7 && p < |d| && LowClear(d, p) && d[p]
    requires |es| <= p && Stream(es, |d|) && forall k :: 0 <= k < |es| ==> LowClear(es[k], p)
    ensures LowClear(Fold(d, es), p - |es|) && Fold(d, es)[p - |es|]
    decreases |es|
  {
    hide Step, LowClear;
    if es != [] {
      var n := |es| - 1;
      Travels(d, es[..n], p);
      TravelStep(Fold(d, es[..n]), es[n], p - n, p);
    }
  }

  lemma {:induction false} FoldConcat(s: Word, a: seq<Word>, b: seq<Word>)
    requires |s| >= 7 && Stream(a, |s|) && Stream(b, |s|)
    ensures Fold(s, a + b) == Fold(Fold(s, a), b)
    decreases |b|
  {
    hide Step;
    if b == [] {
      assert a + b == a;
    } else {
      FoldConcat(s, a, b[..|b| - 1]);
      assert (a + b)[..|a + b| - 1] == a + b[..|b| - 1];
    }
  }

  lemma {:induction false} ZeroStays(width: nat, es: seq<Word>)
    requires width >= 7 && forall k :: 0 <= k < |es| ==> es[k] == Zero(width)
    ensures Fold(Zero(width), es) == Zero(width)
    decreases |es|
  {
    if es != [] {
      ZeroStays(width, es[..|es| - 1]);
      assert Step(Zero(width), Zero(width)) == Zero(width);
    }
  }

  /**
   * Equal registers, fed the differences es of which the first es[t] that is not zero has its lowest
   * set bit at index p, where no later one reaches below: the lowest bits of the registers agree
   * after every clock up to t + p, and differ after clock t + p + 1.
   */
  lemma FirstDifferenceShows(width: nat, es: seq<Word>, t: nat, p: nat, k: nat)
    requires width >= 7 && Stream(es, width) && p < width && t < |es| && k <= |es|
    requires forall i :: 0 <= i < t ==> es[i] == Zero(width)
    requires LowClear(es[t], p) && es[t][p]
    requires forall i :: t < i < |es| ==> LowClear(es[i], p)
    ensures k <= t + p ==> !Fold(Zero(width), es[..k])[0]
    ensures k == t + p + 1 ==> Fold(Zero(width), es[..k])[0]
  {
    hide Step, Fold;
    if k <= t {
      ZeroStays(width, es[..k]);
    } else if k <= t + p + 1 {
      ZeroStays(width, es[..t]);
      assert es[..k] == es[..t] + ([es[t]] + es[t + 1..k]);
      FoldConcat(Zero(width), es[..t], [es[t]] + es[t + 1..k]);
      FoldConcat(Zero(width), [es[t]], es[t + 1..k]);
      FirstStep(width, es[t]);
      Travels(es[t], es[t + 1..k], p);
    }
  }

  lemma FirstStep(width: nat, e: Word)
    requires width >= 7 && |e| == width
    ensures Fold(Zero(width), [e]) == e
  {
  }
}
