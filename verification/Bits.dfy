/**
 * Vectors of std_ulogic restricted to '0' and '1', as sequences whose element k is bit k + 1, and
 * the numbers they stand for as unsigned vectors.
 */
module Bits {
  import opened Arith

  type Word = seq<bool>

  function Xor(a: Word, b: Word): (c: Word)
    requires |a| == |b|
    ensures |c| == |a| && forall k :: 0 <= k < |c| ==> c[k] == (a[k] != b[k])
  {
    seq(|a|, k requires 0 <= k < |a| => a[k] != b[k])
  }

  function Zero(n: nat): (z: Word)
    ensures |z| == n && forall k :: 0 <= k < n ==> !z[k]
  {
    seq(n, k => false)
  }

  function Not(a: Word): (c: Word)
    ensures |c| == |a| && forall k :: 0 <= k < |c| ==> c[k] == !a[k]
  {
    seq(|a|, k requires 0 <= k < |a| => !a[k])
  }

  // The only bit set is the one with the given index.
  function OneAt(n: nat, i: nat): (w: Word)
    requires i < n
    ensures |w| == n && forall k :: 0 <= k < n ==> w[k] == (k == i)
  {
    seq(n, k => k == i)
  }

  function Val(a: Word): nat {
    if a == [] then 0 else (if a[0] then 1 else 0) + 2 * Val(a[1..])
  }

  function Carry(a: bool, b: bool, c: bool): bool {
    (c && a) || (c && b) || (a && b)
  }

  // numeric_std's "+": a ripple of full adders that drops the last carry.
  function Add(a: Word, b: Word, c: bool): (sum: Word)
    requires |a| == |b|
    ensures |sum| == |a|
  {
    if a == [] then []
    else [(c != a[0]) != b[0]] + Add(a[1..], b[1..], Carry(a[0], b[0], c))
  }

  lemma {:induction false} ValBound(a: Word)
    ensures Val(a) < Pow2(|a|)
  {
    if a != [] {
      ValBound(a[1..]);
    }
  }

  lemma {:induction false} ValInjective(a: Word, b: Word)
    requires |a| == |b| && Val(a) == Val(b)
    ensures a == b
  {
    if a != [] {
      assert a[0] == b[0];
      ValInjective(a[1..], b[1..]);
      assert a == [a[0]] + a[1..] && b == [b[0]] + b[1..];
    }
  }

  lemma {:induction false} NotVal(a: Word)
    ensures Val(Not(a)) == Pow2(|a|) - 1 - Val(a)
  {
    if a != [] {
      NotVal(a[1..]);
      assert Not(a)[1..] == Not(a[1..]);
    }
  }

  lemma ValCons(bit: bool, rest: Word)
    ensures Val([bit] + rest) == (if bit then 1 else 0) + 2 * Val(rest)
  {
  }

  lemma ValFrom(a: Word, i: nat)
    requires i < |a|
    ensures Val(a[i..]) == (if a[i] then 1 else 0) + 2 * Val(a[i + 1..])
  {
    hide Val;
    ValCons(a[i], a[i + 1..]);
    assert a[i..] == [a[i]] + a[i + 1..];
  }

  lemma {:induction false} ConcatVal(a: Word, b: Word)
    ensures Val(a + b) == Val(a) + Pow2(|a|) * Val(b)
  {
    if a == [] {
      assert a + b == b;
    } else {
      var bit, rest := a[0], a[1..];
      ConcatVal(rest, b);
      assert Pow2(|a|) == 2 * Pow2(|rest|);
      hide Val, Pow2;
      assert a + b == [bit] + (rest + b) && a == [bit] + rest;
      ValCons(bit, rest + b);
      ValCons(bit, rest);
      Regroup(if bit then 1 else 0, Val(rest), Pow2(|rest|), Val(b));
    }
  }

  // Dropping the low i bits divides by a power of two, and bit i is the parity of the quotient.
  lemma DropVal(a: Word, i: nat)
    requires i < |a|
    ensures Val(a[i..]) == Val(a) / Pow2(i) && a[i] == (Val(a) / Pow2(i) % 2 == 1)
  {
    hide Val, Pow2;
    var low, rest := a[..i], a[i + 1..];
    assert a == low + a[i..] && a[i..] == [a[i]] + rest;
    ConcatVal(low, a[i..]);
    ValCons(a[i], rest);
    ValBound(low);
    Parity(Val(a), Pow2(i), Val(low), Val(a[i..]), Val(rest), if a[i] then 1 else 0);
  }

  function LastCarry(a: Word, b: Word, c: bool): bool
    requires |a| == |b|
  {
    if a == [] then c else LastCarry(a[1..], b[1..], Carry(a[0], b[0], c))
  }

  lemma {:induction false} AddVal(a: Word, b: Word, c: bool)
    requires |a| == |b|
    ensures Val(Add(a, b, c)) + (if LastCarry(a, b, c) then Pow2(|a|) else 0) == Val(a) + Val(b) + (if c then 1 else 0)
  {
    if a != [] {
      AddVal(a[1..], b[1..], Carry(a[0], b[0], c));
      assert Add(a, b, c)[1..] == Add(a[1..], b[1..], Carry(a[0], b[0], c));
    }
  }

  // The adder adds modulo a power of two.
  lemma AddIsModular(a: Word, b: Word)
    requires |a| == |b|
    ensures Val(Add(a, b, false)) == (Val(a) + Val(b)) % Pow2(|a|)
  {
    hide Val, Add, Pow2, LastCarry;
    AddVal(a, b, false);
    ValBound(Add(a, b, false));
    DivUnique(Val(a) + Val(b), Pow2(|a|), if LastCarry(a, b, false) then 1 else 0, Val(Add(a, b, false)));
  }

  // Changing one bit from 0 to 1 adds its weight.
  lemma SetVal(a: Word, i: nat)
    requires i < |a|
    ensures Val(a[i := true]) == Val(a) + (if a[i] then 0 else Pow2(i))
  {
    hide Val, Pow2;
    var low, high, p := a[..i], a[i + 1..], Pow2(i);
    assert a == low + ([a[i]] + high) && a[i := true] == low + ([true] + high);
    ConcatVal(low, [a[i]] + high);
    ConcatVal(low, [true] + high);
    ValCons(a[i], high);
    ValCons(true, high);
    var h := Val(high);
    assert p * (1 + 2 * h) == p + p * (2 * h);
    assert p * (0 + 2 * h) == p * (2 * h);
  }
}
