/** Powers of two, and division by a variable divisor, for the few places that need them. */
module Arith {

  function Pow2(n: nat): (p: nat)
    ensures p > 0
  {
    if n == 0 then 1 else 2 * Pow2(n - 1)
  }

  lemma {:induction false} ProductAbove(d: nat, x: int, y: int)
    ensures x > y ==> d * x >= d * y + d
    decreases x - y
  {
    if x > y + 1 {
      ProductAbove(d, x - 1, y);
      assert d * x == d * (x - 1) + d;
    } else if x == y + 1 {
      assert d * x == d * y + d;
    }
  }

  lemma DivShiftOne(x: nat, d: nat)
    requires d > 0
    ensures (x + d) / d == x / d + 1 && (x + d) % d == x % d
  {
    var q, q' := x / d, (x + d) / d;
    assert d * (q + 1) == d * q + d;
    ProductAbove(d, q', q + 1);
    ProductAbove(d, q + 1, q');
  }

  lemma {:induction false} DivShift(x: nat, d: nat, m: nat)
    requires d > 0
    ensures (x + m * d) / d == x / d + m && (x + m * d) % d == x % d
  {
    if m > 0 {
      DivShift(x, d, m - 1);
      DivShiftOne(x + (m - 1) * d, d);
      assert x + (m - 1) * d + d == x + m * d;
    }
  }

  lemma DivUnique(x: nat, d: nat, q: nat, r: nat)
    requires r < d && x == q * d + r
    ensures x / d == q && x % d == r
  {
    DivShift(r, d, q);
  }

  lemma Parity(x: nat, p: nat, r: nat, v: nat, h: nat, bit: nat)
    requires r < p && bit < 2 && v == bit + 2 * h && x == r + p * v
    ensures x / p == v && x / p % 2 == bit
  {
    DivUnique(x, p, v, r);
  }

  lemma Regroup(bit: nat, low: nat, p: nat, v: nat)
    ensures bit + 2 * (low + p * v) == bit + 2 * low + 2 * p * v
  {
  }

  // A multiple of w that is not zero is at least w, and one that is not w either at least 2 w.
  lemma Multiple(x: nat, w: nat)
    requires w > 0 && x % w == 0
    ensures x != 0 ==> x >= w && (x - w) % w == 0
    ensures x != 0 && x != w ==> x >= 2 * w
  {
    var q := x / w;
    assert x == w * q;
    ProductAbove(w, q, 0);
    ProductAbove(w, q, 1);
    if x >= w {
      DivShiftOne(x - w, w);
    }
  }

  lemma MultiplesAdd(a: nat, b: nat, w: nat)
    requires w > 0 && a % w == b % w == 0
    ensures (a + b) % w == 0
  {
    var q := b / w;
    assert b == q * w;
    DivShift(a, w, q);
  }
}
