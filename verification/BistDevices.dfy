/**
 * The registers of the built-in self test as objects that a clock edge updates, and the driver
 * that prints a line of bits at a time.
 */
module BistDevices {
  import opened Bits
  import opened AddSub
  import L = Lfsr
  import S = Signature
  import B = Bist

  class ShiftRegister {
    const taps: L.Taps
    const initVal: Word
    var lfsr: Word

    ghost predicate Valid()
      reads this
    {
      |lfsr| == |initVal| && L.Fits(taps, |lfsr|)
    }

    constructor (taps: L.Taps, initVal: Word)
      requires L.Fits(taps, |initVal|)
      ensures Valid() && this.taps == taps && this.initVal == initVal && lfsr == initVal
    {
      this.taps, this.initVal, lfsr := taps, initVal, initVal;
    }

    // The clocked process; all bits of the assignments are read before any is written.
    method Process(reset: bool, din: bool)
      requires Valid()
      modifies this
      ensures Valid() && lfsr == if reset then initVal else L.Step(old(lfsr), taps, din)
    {
      if reset {
        lfsr := initVal;
      } else {
        var size := |lfsr|;
        var first := (((lfsr[size - 1] != lfsr[taps.p0 - 1]) != lfsr[taps.p1 - 1]) != lfsr[taps.p2 - 1]) != din;
        lfsr := [first] + lfsr[..size - 1];
      }
    }
  }

  class SignatureRegister {
    const width: nat
    var sign: Word

    ghost predicate Valid()
      reads this
    {
      |sign| == width >= 7
    }

    constructor (width: nat)
      requires width >= 7
      ensures Valid() && this.width == width && sign == OneAt(width, 0)
    {
      this.width, sign := width, OneAt(width, 0);
    }

    method Process(reset: bool, response: Word)
      requires Valid() && |response| == width
      modifies this
      ensures Valid() && sign == if reset then OneAt(width, 0) else S.Step(old(sign), response)
    {
      if reset {
        sign := OneAt(width, 0);
      } else {
        var top := ((sign[0] != sign[1]) != sign[4]) != sign[6];
        sign := Xor(response, sign[1..] + [top]);
      }
    }
  }

  class TestBench {
    const n: nat
    const operands: ShiftRegister
    const signRef: SignatureRegister
    const signDut: SignatureRegister

    ghost predicate Valid()
      reads this, operands, signRef, signDut
    {
      && signRef != signDut
      && operands.Valid() && signRef.Valid() && signDut.Valid()
      && signRef.width == signDut.width == n + 1
      && B.Fits(operands.initVal, operands.taps, n)
    }

    ghost function Value(): (b: B.Bench)
      requires Valid()
      reads this, operands, signRef, signDut
      ensures B.Valid(b, operands.taps, n)
    {
      B.Bench(operands.lfsr, signRef.sign, signDut.sign)
    }

    constructor (taps: L.Taps, init: Word, n: nat)
      requires B.Fits(init, taps, n)
      ensures Valid() && fresh(operands) && fresh(signRef) && fresh(signDut)
      ensures operands.taps == taps && this.n == n && Value() == B.Reset(init, n)
    {
      this.n := n;
      operands := new ShiftRegister(taps, init);
      signRef := new SignatureRegister(n + 1);
      signDut := new SignatureRegister(n + 1);
    }

    // One rising edge: the results are those of the operands before it.
    method Cycle()
      requires Valid()
      modifies operands, signRef, signDut
      ensures Valid() && Value() == B.Clock(old(Value()), operands.taps, n)
    {
      var resultRef, resultDut := Reference(operands.lfsr, n), Faulty(operands.lfsr, n);
      operands.Process(false, false);
      signRef.Process(false, resultRef);
      signDut.Process(false, resultDut);
    }

    // One line of the driver's output.
    method DriveLine(columns: nat, ghost start: B.Bench, ghost done: nat) returns (line: seq<bool>)
      requires Valid() && B.Valid(start, operands.taps, n) && Value() == B.Clocks(start, operands.taps, n, done)
      modifies operands, signRef, signDut
      ensures Valid() && Value() == B.Clocks(start, operands.taps, n, done + columns)
      ensures LineIs(line, columns, start, operands.taps, n, done)
    {
      hide B.Clock;
      line := [];
      for j := 0 to columns
        invariant Valid() && |line| == j && Value() == B.Clocks(start, operands.taps, n, done + j)
        invariant forall j' :: 0 <= j' < j ==> line[j'] == B.Printed(B.Clocks(start, operands.taps, n, done + j' + 1))
      {
        Cycle();
        line := line + [signDut.sign[0] != signRef.sign[0]];
      }
    }

    // The driver: bit j of line i is the one printed after clock i * columns + j + 1.
    method Drive(lines: nat, columns: nat) returns (text: seq<seq<bool>>)
      requires Valid()
      modifies operands, signRef, signDut
      ensures Valid() && Value() == B.Clocks(old(Value()), operands.taps, n, lines * columns)
      ensures |text| == lines
      ensures forall i :: 0 <= i < lines ==> LineIs(text[i], columns, old(Value()), operands.taps, n, i * columns)
    {
      hide LineIs, B.Clocks, B.Valid;
      ghost var start := Value();
      NoClocks(start, operands.taps, n);
      text := [];
      for i := 0 to lines
        invariant Valid() && |text| == i && Value() == B.Clocks(start, operands.taps, n, i * columns)
        invariant forall i' :: 0 <= i' < i ==> LineIs(text[i'], columns, start, operands.taps, n, i' * columns)
      {
        var line := DriveLine(columns, start, i * columns);
        assert (i + 1) * columns == i * columns + columns;
        text := text + [line];
      }
    }
  }

  lemma NoClocks(b: B.Bench, taps: L.Taps, n: nat)
    requires B.Valid(b, taps, n)
    ensures B.Clocks(b, taps, n, 0) == b
  {
  }

  predicate LineIs(line: seq<bool>, columns: nat, start: B.Bench, taps: L.Taps, n: nat, done: nat)
    requires B.Valid(start, taps, n)
  {
    && |line| == columns
    && forall j :: 0 <= j < columns ==> line[j] == B.Printed(B.Clocks(start, taps, n, done + j + 1))
  }
}
