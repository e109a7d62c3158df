/**
 * The UART entities and the handshake process as objects whose registers change in place.
 * Each method is one event of clk: it reads the registers, lets every process assign its own
 * next values in the order of its statements, and only then stores them.
 */
module UartDevices {
  import opened Uart
  import Arith
  import Ring
  import Tx = UartTx
  import Rx = UartRx
  import Cap = CapRelay

  class Transmitter {
    const tick: nat
    const fifo: array<Byte>
    var state: Phase
    var nextstate: Phase
    var nextwrite: nat
    var nextread: nat
    var tickCounter: nat
    var tx: bool

    ghost predicate Valid()
      reads this
    {
      fifo.Length >= 2 && nextwrite < fifo.Length && nextread < fifo.Length
    }

    ghost function Value(): Tx.Tx
      reads this, fifo
    {
      Tx.Tx(state, nextstate, fifo[..], nextwrite, nextread, tickCounter, tx)
    }

    // Power-up fixes the two state registers only.
    constructor (tick: nat, addrDepth: nat)
      requires addrDepth >= 1
      ensures Valid() && fresh(fifo) && fifo.Length == Arith.Pow2(addrDepth) && this.tick == tick
      ensures state == nextstate == Idle
    {
      this.tick := tick;
      fifo := new Byte[Arith.Pow2(addrDepth)](i => seq(8, k => false));
      state, nextstate := Idle, Idle;
      nextwrite, nextread, tickCounter, tx := 0, 0, 0, true;
    }

    method WrEn() returns (enabled: bool)
      requires Valid()
      ensures enabled <==> |Value().Queue()| < fifo.Length - 1
    {
      enabled := Ring.Next(nextwrite, fifo.Length) != nextread;
      Ring.PushKeepsQueueIffNotFull(fifo[..], nextread, nextwrite, fifo[0]);
    }

    // The process that assigns nextstate, tick_counter and tx; later assignments override earlier ones.
    method FsmProcess(reset: bool, dataTx: Byte) returns (nextstate': Phase, tickCounter': nat, tx': bool)
      requires Valid()
      ensures Tx.Fsm(nextstate', tickCounter', tx') == Tx.FsmEdge(tick, Value(), reset, dataTx)
    {
      nextstate', tickCounter', tx' := nextstate, tickCounter, tx;
      if state == Idle {
        if nextwrite != nextread {
          nextstate' := Start;
          tickCounter' := 0;
          tx' := false;
        } else {
          tx' := true;
        }
      } else {
        if tickCounter == tick {
          tickCounter' := 0;
        } else {
          tickCounter' := tickCounter + 1;
        }
      }
      if tickCounter == tick {
        match state {
          case Idle =>
          case Start =>
            nextstate', tx' := Data(0), dataTx[0];
          case Data(i) =>
            if i < 7 {
              nextstate', tx' := Data(i + 1), dataTx[i + 1];
            } else {
              nextstate', tx' := Stop, true;
            }
          case Stop =>
            nextstate', tx' := Idle, true;
        }
      }
      if reset {
        tickCounter', tx', nextstate' := 0, true, Idle;
      }
    }

    method RisingEdge(reset: bool, wr: bool, wdata: Byte)
      requires Valid()
      modifies this, fifo
      ensures Valid()
      ensures Value() == Tx.Edge(tick, old(Value()), reset, if wr then Tx.Write(wdata) else Tx.NoWrite)
    {
      var nextread' := nextread;
      if reset {
        nextread' := 0;
      } else if state == Stop && nextstate == Idle {
        nextread' := Ring.Next(nextread, fifo.Length);
      }

      var nextstate', tickCounter', tx' := FsmProcess(reset, fifo[nextread]);

      if reset {
        nextwrite := 0;
      } else if wr {
        fifo[nextwrite] := wdata;
        nextwrite := Ring.Next(nextwrite, fifo.Length);
      }
      state, nextstate, nextread, tickCounter, tx := nextstate, nextstate', nextread', tickCounter', tx';
    }

    // Reset held over two edges, from any state.
    method Reset()
      requires Valid()
      modifies this, fifo
      ensures Valid() && Tx.AtRest(Value())
    {
      RisingEdge(true, false, fifo[0]);
      RisingEdge(true, false, fifo[0]);
    }
  }

  class Receiver {
    const tick: nat
    const fifo: array<Byte>
    var state: Phase
    var tickCounter: nat
    var puffer: Byte
    var nextwrite: nat
    var nextread: nat

    ghost predicate Valid()
      reads this
    {
      fifo.Length == Rx.RING_SIZE && nextwrite < Rx.RING_SIZE && nextread < Rx.RING_SIZE
    }

    ghost function Value(): Rx.Rx
      reads this, fifo
    {
      Rx.Rx(Rx.Core(state, tickCounter, puffer), fifo[..], nextwrite, nextread)
    }

    constructor (tick: nat)
      ensures Valid() && fresh(fifo) && this.tick == tick && state == Idle && tickCounter == 0
    {
      this.tick := tick;
      fifo := new Byte[Rx.RING_SIZE](i => seq(8, k => false));
      state, tickCounter, nextwrite, nextread := Idle, 0, 0, 0;
      puffer := seq(8, k => false);
    }

    // rd_en and rdata: the oldest unread byte falls through.
    method Peek() returns (rdEn: bool, rdata: Byte)
      requires Valid()
      ensures rdEn <==> Value().Queue() != []
      ensures rdEn ==> rdata == Value().Queue()[0]
    {
      rdEn, rdata := nextread != nextwrite, fifo[nextread];
    }

    method RisingEdge(reset: bool, rd: bool, rx: bool)
      requires Valid()
      modifies this, fifo
      ensures Valid()
      ensures Value() == Rx.Edge(tick, old(Value()), reset, rd, rx)
    {
      var nextread' := nextread;
      if rd {
        nextread' := Ring.Next(nextread, Rx.RING_SIZE);
      }
      if reset {
        nextread' := 0;
      }

      var state', tickCounter', nextwrite', puffer' := state, tickCounter + 1, nextwrite, puffer;
      match state {
        case Idle =>
          tickCounter' := 0;
          if !rx {
            state' := Start;
          }
        case Start =>
          if tickCounter == tick / 2 {
            tickCounter', state' := 0, Data(0);
          }
        case Data(i) =>
          if tickCounter == tick {
            puffer' := puffer[i := rx];
            tickCounter' := 0;
            state' := if i < 7 then Data(i + 1) else Stop;
          }
        case Stop =>
          if tickCounter == tick {
            fifo[nextwrite] := puffer;
            nextwrite' := Ring.Next(nextwrite, Rx.RING_SIZE);
            tickCounter', state' := 0, Idle;
          }
      }
      if reset {
        state', nextwrite' := Idle, 0;
      }
      state, tickCounter, puffer, nextwrite, nextread := state', tickCounter', puffer', nextwrite', nextread';
    }
  }

  class Capitalisation {
    var wr: bool
    var rd: bool
    var wdata: Byte

    ghost function Value(): Cap.Hand
      reads this
    {
      Cap.Hand(wr, rd, wdata)
    }

    constructor ()
      ensures !wr && !rd
    {
      wr, rd, wdata := false, false, seq(8, k => false);
    }

    // Any event of clk, rising or falling.
    method ClkEvent(reset: bool, rdata: Byte, rdEn: bool, wrEn: bool)
      modifies this
      ensures Value() == Cap.HandEvent(old(Value()), reset, rdata, rdEn, wrEn)
      ensures reset ==> !wr
    {
      wr := false;
      rd := false;
      if wrEn && rdEn {
        wr := true;
        rd := true;
        if Cap.Unsigned(rdata) > 0x60 && Cap.Unsigned(rdata) < 0x7B {
          wdata := rdata[..5] + [false] + rdata[6..];
        } else {
          wdata := rdata;
        }
      }
      if reset {
        wr := false;
      }
    }
  }
}
