/**
 * The C side of fifo_io and the clocked process of simfifo.vhdl, which moves words of one byte from
 * one software FIFO to the other. Nothing else uses the FIFOs during the calls here; the module
 * Echo has the interleavings.
 */
module SimFifo {
  import opened SoftFifo
  import opened LogicCodec
  import opened Echo

  // The flags as fifo_io passes them, by the names of their C side.
  datatype Flags = Flags(rxe: bool, txf: bool, rxae: bool, txaf: bool, ovr: bool, unr: bool)

  // The largest request: the size of the buffer for the bytes.
  const CHUNK: nat := 32

  // What the locals of a call hold before they are assigned: the buffer, and the accumulator of
  // logic_to_bytes.
  datatype Stack = Stack(valuebytes: seq<byte>, v: nat)

  // The m bytes of the vector that are written if asked for.
  function Given(flags: Flags, val: seq<Logic>, m: nat, room: nat, v: nat): seq<byte>
    requires 8 * m <= |val|
  {
    if flags.txf then BytesFrom(val[..8 * m], v)[..Min(m, room)] else []
  }

  // The buffer after the writing half.
  function Buffered(flags: Flags, val: seq<Logic>, m: nat, stack: Stack): (buffer: seq<byte>)
    requires 8 * m <= |val| && m <= |stack.valuebytes|
    ensures |buffer| == |stack.valuebytes|
  {
    if flags.txf then BytesFrom(val[..8 * m], stack.v) + stack.valuebytes[m..] else stack.valuebytes
  }

  // What the peek leaves in the vector: the queued bytes, then what was in the buffer, then the
  // elements beyond m bytes as they were.
  function Peeked(q: seq<byte>, m: nat, buffer: seq<byte>, val: seq<Logic>): (l: seq<Logic>)
    requires m <= |buffer| && 8 * m <= |val|
    ensures |l| == |val|
  {
    if q == [] then Undefined(|val|)
    else LogicOfBytes(if |q| >= m then q[..m] else q + buffer[|q|..m]) + val[8 * m..]
  }

  method Peek(f: Fifo, rxe: bool, m: nat, buffer: seq<byte>, val: seq<Logic>) returns (val': seq<Logic>)
    requires f.Valid() && rxe == (f.Contents() != []) && m <= |buffer| == CHUNK && 8 * m <= |val|
    ensures val' == Peeked(f.Contents(), m, buffer, val)
  {
    if rxe {
      var bytes := f.Get(m);
      var filled := (bytes + buffer[|bytes|..])[..m];
      assert filled == if |f.Contents()| >= m then f.Contents()[..m] else f.Contents() + buffer[|f.Contents()|..m];
      var l := BytesToLogic(filled);
      val' := l + val[8 * m..];
    } else {
      val' := FillLogic(|val|, UNDEFINED);
    }
  }

  // The bytes of a vector made from bytes are given as they were, as far as there is room; and the
  // vector of a peek that finds enough has the oldest bytes.
  lemma WordsPass(flags: Flags, bytes: seq<byte>, room: nat, v: nat, q: seq<byte>, buffer: seq<byte>, val: seq<Logic>)
    requires |bytes| <= |buffer| && |bytes| <= |q| && q != [] && 8 * |bytes| <= |val|
    ensures flags.txf ==>
              Given(flags, LogicOfBytes(bytes), |bytes|, room, v) == bytes[..Min(|bytes|, room)]
    ensures BytesOf(Peeked(q, |bytes|, buffer, val)[..8 * |bytes|]) == q[..|bytes|]
  {
    hide LogicOfBytes, BytesOf, BytesFrom;
    var l := LogicOfBytes(bytes);
    assert l[..8 * |bytes|] == l;
    BytesOfBinary(l, v);
    BytesRoundTrip(bytes);
    var p := LogicOfBytes(q[..|bytes|]);
    assert (p + val[8 * |bytes|..])[..8 * |bytes|] == p;
    BytesRoundTrip(q[..|bytes|]);
  }

  // A peek that finds less yields what is there, and then what was in the buffer.
  lemma ShortPeek(q: seq<byte>, m: nat, buffer: seq<byte>, val: seq<Logic>)
    requires 0 < |q| < m <= |buffer| && 8 * m <= |val|
    ensures BytesOf(Peeked(q, m, buffer, val)[..8 * m]) == q + buffer[|q|..m]
  {
    hide LogicOfBytes, BytesOf;
    var p := LogicOfBytes(q + buffer[|q|..m]);
    assert (p + val[8 * m..])[..8 * m] == p;
    BytesRoundTrip(q + buffer[|q|..m]);
  }

  // The writing half of sim_fifo_io.
  method GiveWord(f: Fifo, val: seq<Logic>, flags: Flags, m: nat, stack: Stack) returns (buffer: seq<byte>)
    requires f.Valid() && m <= |stack.valuebytes| == CHUNK && 8 * m <= |val|
    modifies f, f.buf
    ensures f.Valid()
    ensures f.Contents() == old(f.Contents()) + Given(flags, val, m, f.size - |old(f.Contents())|, stack.v)
    ensures buffer == Buffered(flags, val, m, stack)
    ensures f.ovr == (old(f.ovr) || (flags.txf && m > 0 && |old(f.Contents())| == f.size))
    ensures f.unr == (old(f.unr) && !flags.unr)
  {
    buffer := stack.valuebytes;
    if flags.unr {
      f.unr := false;
    }
    assert f.Contents() == old(f.Contents());
    if flags.txf {
      var bytes := LogicToBytes(val[..8 * m], m, stack.v);
      buffer := bytes + buffer[m..];
      var _ := f.Write(buffer, m);
    }
  }

  // The reading half.
  method AdvanceWord(f: Fifo, flags: Flags, n: nat)
    requires f.Valid()
    requires flags.rxe ==> f.Contents() == [] || (n <= |f.Contents()| && TailFits(f.tail, n))
    modifies f
    ensures f.Valid()
    ensures f.Contents()
         == if flags.rxe && old(f.Contents()) != [] then old(f.Contents())[n..] else old(f.Contents())
    ensures f.unr == (old(f.unr) || (flags.rxe && old(f.Contents()) == []))
    ensures f.ovr == (old(f.ovr) && !flags.ovr)
  {
    if flags.ovr {
      f.ovr := false;
    }
    assert f.Contents() == old(f.Contents());
    if flags.rxe {
      var _ := f.Advance(n);
    }
  }

  /**
   * sim_fifo_io on a vector of n whole bytes, of which it handles 32 at most. RXE asks it to advance
   * the reading side, TXF to write the vector; OVR and UNR clear an error flag, of the other FIFO than
   * the one they report.
   */
  method FifoIo(toSim: Fifo, fromSim: Fifo, val: seq<Logic>, flags: Flags, n: nat, stack: Stack)
    returns (val': seq<Logic>, flags': Flags)
    requires toSim.Valid() && fromSim.Valid() && toSim != fromSim && toSim.buf != fromSim.buf
    requires |val| == 8 * n && |stack.valuebytes| == 32
    requires flags.rxe ==> toSim.Contents() == [] ||
                           (Min(n, 32) <= |toSim.Contents()| && TailFits(toSim.tail, Min(n, 32)))
    modifies toSim, fromSim, fromSim.buf
    ensures toSim.Valid() && fromSim.Valid()
    ensures toSim.Contents() == if flags.rxe && old(toSim.Contents()) != [] then old(toSim.Contents())[Min(n, 32)..]
                                else old(toSim.Contents())
    ensures fromSim.Contents() == old(fromSim.Contents())
              + Given(flags, val, Min(n, 32), fromSim.size - |old(fromSim.Contents())|, stack.v)
    ensures val' == Peeked(toSim.Contents(), Min(n, 32), Buffered(flags, val, Min(n, 32), stack), val)
    ensures flags' == Flags(toSim.Contents() != [], true,
                            toSim.Contents() != [] && |toSim.Contents()| != Min(n, 32),
                            |fromSim.Contents()| + Min(n, 32) != fromSim.size, fromSim.ovr, toSim.unr)
    ensures toSim.unr == (old(toSim.unr) || (flags.rxe && old(toSim.Contents()) == []))
    ensures fromSim.ovr == (old(fromSim.ovr) || (flags.txf && n > 0 && |old(fromSim.Contents())| == fromSim.size))
    ensures toSim.ovr == (old(toSim.ovr) && !flags.ovr) && fromSim.unr == (old(fromSim.unr) && !flags.unr)
  {
    hide BytesFrom, Peeked, Given, Buffered;
    var m := if n > CHUNK then CHUNK else n;
    var buffer := GiveWord(fromSim, val, flags, m, stack);
    AdvanceWord(toSim, flags, m);
    var txf, txaf := fromSim.WriteStatus(m);
    var rxe, rxae := toSim.ReadStatus(m);
    val' := Peek(toSim, rxe, m, buffer, val);
    flags' := Flags(rxe, txf, rxae, txaf, fromSim.ovr, toSim.unr);
  }

  // ---- The clocked process --------------------------------------------------------------------

  // Between two clocks only data_valid, sigterm and the FIFOs matter: the rest is assigned anew.
  function AtRest(e: Echo): Echo {
    e.(val := [], nextValid := false)
  }

  // The oldest byte as a vector, or the undefined vector.
  function Oldest(q: seq<byte>): (l: seq<Logic>)
    ensures |l| == 8
  {
    if q == [] then Undefined(8) else LogicOfBytes(q[..1])
  }

  // What a byte vector appends to a FIFO, if there is room.
  function Fitting(word: seq<Logic>, size: nat, queued: seq<byte>): seq<byte>
    requires |queued| <= size && |word| == 8
  {
    BytesOf(word)[..Min(1, size - |queued|)]
  }

  lemma ClockMeans(e: Echo)
    requires Safe(e) && e.w == 1 && e.pc == Probe && !e.sigterm && e.val == [] && !e.nextValid
    ensures e.dataValid ==> e.toSim != [] && IsBinary(Oldest(e.toSim))
    ensures AtRest(Clock(e)) ==
            var word := Oldest(e.toSim);
            var f := e.(dataValid := e.toSim != [] && |e.toSim| != 1);
            if !e.dataValid then f
            else f.(toSim := e.toSim[1..], fromSim := e.fromSim + Fitting(word, e.size, e.fromSim),
                    echoed := e.echoed + [word],
                    sigterm := AllOnes(word), pc := if AllOnes(word) then Stopped else Probe)
  {
  }

  lemma ByteIo(flags: Flags, val: seq<Logic>, stack: Stack, q: seq<byte>, room: nat)
    requires |val| == 8 && |stack.valuebytes| == CHUNK
    ensures Peeked(q, 1, Buffered(flags, val, 1, stack), val) == Oldest(q)
    ensures !flags.txf ==> Given(flags, val, 1, room, stack.v) == []
    ensures IsBinary(val) && flags.txf ==> Given(flags, val, 1, room, stack.v) == BytesOf(val)[..Min(1, room)]
  {
    hide LogicOfBytes, BytesOf, BytesFrom, IsBinary;
    assert val[..8] == val && val[8..] == [];
    if IsBinary(val) {
      BytesOfBinary(val, stack.v);
    }
  }

  class Process {
    const toSim: Fifo
    const fromSim: Fifo
    var dataValid: bool
    var sigterm: bool
    ghost var echoed: seq<seq<Logic>>

    ghost predicate Valid()
      reads this, toSim, fromSim
    {
      && toSim != fromSim && toSim.buf != fromSim.buf
      && toSim.Valid() && fromSim.Valid() && toSim.size == fromSim.size
    }

    // The state of the echo machine, without what the C thread has seen.
    ghost function Value(): Echo
      requires Valid()
      reads this, toSim, toSim.buf, fromSim, fromSim.buf
    {
      Echo(1, toSim.size, toSim.Contents(), fromSim.Contents(),
           if sigterm then Stopped else Probe, dataValid, false, [], sigterm, [], [], echoed, toSim.unr)
    }

    constructor (toSim: Fifo, fromSim: Fifo)
      requires toSim != fromSim && toSim.buf != fromSim.buf
      requires toSim.Valid() && fromSim.Valid() && toSim.size == fromSim.size
      ensures Valid() && this.toSim == toSim && this.fromSim == fromSim
      ensures !dataValid && !sigterm && echoed == []
    {
      this.toSim, this.fromSim := toSim, fromSim;
      dataValid, sigterm, echoed := false, false, [];
    }

    // The first fifo_io of a clock, which only looks.
    method Look(stack: Stack) returns (val: seq<Logic>, flags: Flags)
      requires Valid() && |stack.valuebytes| == CHUNK
      modifies toSim, fromSim, fromSim.buf
      ensures Valid() && Value() == old(Value())
      ensures val == Oldest(toSim.Contents())
      ensures flags.rxae == (toSim.Contents() != [] && |toSim.Contents()| != 1)
    {
      hide Peeked, Buffered, Given, Oldest;
      var none := Flags(false, false, false, false, false, false);
      ByteIo(none, Undefined(8), stack, toSim.Contents(), 0);
      ByteIo(none, Undefined(8), stack, toSim.Contents(), fromSim.size - |fromSim.Contents()|);
      val, flags := FifoIo(toSim, fromSim, Undefined(8), none, 1, stack);
    }

    // The second, which writes the word and advances.
    method Move(val: seq<Logic>, flags: Flags, stack: Stack)
      requires Valid() && |val| == 8 && IsBinary(val) && toSim.Contents() != [] && |stack.valuebytes| == CHUNK
      modifies toSim, fromSim, fromSim.buf
      ensures Valid()
      ensures var e := old(Value());
              Value() == e.(toSim := e.toSim[1..], fromSim := e.fromSim + Fitting(val, e.size, e.fromSim))
    {
      hide BytesOf, IsBinary, Peeked, Buffered, Given;
      ByteIo(flags.(rxe := true, txf := true), val, stack, [], fromSim.size - |fromSim.Contents()|);
      var _, _ := FifoIo(toSim, fromSim, val, flags.(rxe := true, txf := true), 1, stack);
    }

    // What a clock does that finds data_valid high.
    method EchoWord(val: seq<Logic>, flags: Flags, stack: Stack)
      requires Valid() && |val| == 8 && IsBinary(val) && toSim.Contents() != [] && !sigterm
      requires |stack.valuebytes| == CHUNK
      modifies this`sigterm, this`echoed, toSim, fromSim, fromSim.buf
      ensures Valid()
      ensures var e := old(Value());
              Value() == e.(toSim := e.toSim[1..], fromSim := e.fromSim + Fitting(val, e.size, e.fromSim),
                            echoed := e.echoed + [val],
                            sigterm := AllOnes(val), pc := if AllOnes(val) then Stopped else Probe)
    {
      hide Fitting, IsBinary, AllOnes;
      if AllOnes(val) {
        sigterm := true;
      }
      echoed := echoed + [val];
      Move(val, flags, stack);
    }

    /**
     * One rising edge. data_valid is assigned at the end of the clock, so the decision to echo uses
     * the flag of the clock before. What the C stack holds at the two calls makes no difference.
     */
    method RisingEdge(first: Stack, second: Stack)
      requires Valid() && Safe(Value()) && !sigterm
      requires |first.valuebytes| == |second.valuebytes| == CHUNK
      modifies this`dataValid, this`sigterm, this`echoed, toSim, fromSim, fromSim.buf
      ensures Valid() && Value() == AtRest(Clock(old(Value())))
    {
      ClockMeans(Value());
      hide Safe, Clock, Fitting, IsBinary, AllOnes, Oldest;
      var val, flags := Look(first);
      var next := flags.rxae;
      if dataValid {
        EchoWord(val, flags, second);
      }
      dataValid := next;
    }
  }
}
