# Verified models of the GHDL/VPI examples

A Dafny model of the four parts of this repository that have real state machines, concurrency or
arithmetic, and proofs of what they do over whole runs. `dafny verify dfyconfig.toml` checks it all.

**UART and capitalisation relay** (`Ring`, `Uart`, `UartTx`, `UartRx`, `Link`, `Tolerance`, `CapRelay`,
`Chain`, `UartDevices`). A state is the value of every register between clock events, and an event reads
only values from before it, as signal updates do (section 12.6.4 of IEEE Std 1076-1993). All results
hold for every `tick >= 1`, any byte stream, and any moments of writing. `UartTx` proves the waveform
on the line and that no clock is wasted; `UartRx` says what a line must look like to be heard; `Link` joins the two and proves that
bytes arrive; `Tolerance` gives the exact bound on the sender's bit time; `CapRelay` models both clock
edges and proves the relay conserves bytes and keeps up; `Chain` puts a transmitter in front of it and
so discharges the pacing assumption. `UartDevices` has the entities as objects whose registers are
assigned in the order of the processes' statements, each method proved equal to the model's step.

**MyHDL co-simulation** (`MyHdl`, `MyHdlInterface`). The callbacks of the VPI module and the simulator's
event queue as a multiset of events (`vpi_register_cb`, section 27.33 of IEEE Std 1364-2005):
simultaneous callbacks run in any order, the read-only one last.

**ghdlex software FIFO** (`SoftFifo`, `Peek`, `Blocking`, `LogicCodec`, `Echo`, `SimFifo`). The ring as a
class that refines a bounded queue; the unlocked peek as interleaved byte steps; the retry loops; the
conversion between bytes and `std_logic`; and the two-thread echo in which the VHDL process decides by
the flag of the previous clock. `SimFifo` has the C side of `fifo_io` and that process over two real
FIFO objects.

**Built-in self test** (`Bits`, `AddSub`, `Lfsr`, `Signature`, `Bist`, `BistDevices`). The shift register,
the add/subtract unit and its faulty copy, and the signature registers, for any width, and what the
whole bench prints. `Arith` holds facts about division and powers of two.

Where the code and its comments disagree the model follows the code:

- The status of the write side is never "full": the second test in `fifo_status` replaces the answer of
  the first (`examples/ghdlex/fifo.c:138-147`), see `SoftFifo.Fifo.WriteStatus`.
- VHDL's `RXE` is index 2 (`examples/ghdlex/libfifo.vhdl:31`) and so reads C's `RXAE`
  (`examples/ghdlex/fifo.h:28`): `data_valid` means that more than one word is queued.
- The `OVR` and `UNR` bits passed in clear the flags of the other queue than the one whose flags come
  back (`examples/ghdlex/fifo.c:226-228` against `261-262`), see `SimFifo.FifoIo`.
- The range assertion on the MyHDL delay comes after the product with 1000 has wrapped to 64 bits
  (`examples/VPI/vpi-ex-myhdl/myhdl_vpi.c:319-321`), see `MyHdl.LongStepTakenForDeltaIff`.

## Model

| member | source | states |
|---|---|---|
| Ring.PopPush | examples/dossmatik_UART/srcs/tx/UART_TX_8N1.vhd:50-85 | an edge that may both release the oldest byte and store a new one takes the head off the queue and appends at its end, although the pointers wrap |
| Ring.PushKeepsQueueIffNotFull | examples/dossmatik_UART/srcs/tx/UART_TX_8N1.vhd:50 | the guard of `wr_en` is exact: a push keeps the queued bytes if and only if it is high; pushing into a full ring loses them all |
| Uart.FrameLength | examples/dossmatik_UART/srcs/tx/UART_TX_8N1.vhd:87-158 | a frame with its turn-around takes ten bit times and three clocks |
| Uart.FrameLevels | examples/dossmatik_UART/srcs/tx/UART_TX_8N1.vhd:87-158 | the level at each clock of a frame: low for T+1, data bit i for the T clocks from T+1+iT on, least significant first, then high |
| UartTx.ResetTwice | examples/dossmatik_UART/srcs/tx/UART_TX_8N1.vhd:53-82 | two edges of reset bring any state to rest |
| UartTx.ResetOnceIff | examples/dossmatik_UART/srcs/tx/UART_TX_8N1.vhd:64-69 | one edge of reset does so if and only if `nextstate` was idle, because `state` is not reset itself |
| UartTx.ResetOnceReleasesIff | examples/dossmatik_UART/srcs/tx/UART_TX_8N1.vhd:53-69 | after one edge of reset and one without, the queue claims every slot but the first if nextstate was stop, and is empty otherwise; the invariant of runs holds from there |
| UartTx.ResetOnceSendsUnwrittenIff | examples/dossmatik_UART/srcs/tx/UART_TX_8N1.vhd:53-158 | with no write at all, the transmitter then sends bytes if and only if nextstate was stop at the reset: every slot but the first, in well-formed frames |
| UartTx.QueueStep | examples/dossmatik_UART/srcs/tx/UART_TX_8N1.vhd:53-82 | an edge dequeues exactly when the frame is released and enqueues exactly the byte written |
| UartTx.AcceptedStep | examples/dossmatik_UART/srcs/tx/UART_TX_8N1.vhd:53-85 | accepted bytes stay equal to sent bytes followed by queued ones |
| UartTx.RunObserves | examples/dossmatik_UART/srcs/tx/UART_TX_8N1.vhd:71-158 | every byte written under a run counts as accepted, in order, and element k of the line is tx after k edges |
| UartTx.IdleStays | examples/dossmatik_UART/srcs/tx/UART_TX_8N1.vhd:87-104 | an idle edge with nothing queued changes no register but tx, which is high |
| UartTx.Grow | examples/dossmatik_UART/srcs/tx/UART_TX_8N1.vhd:87-158 | while a byte is queued, each edge extends the part of its frame on the line by exactly the level it drives, whatever is written meanwhile |
| UartTx.InvStep | examples/dossmatik_UART/srcs/tx/UART_TX_8N1.vhd:50-158 | the invariant tying state, nextstate, counter, rings and the whole line history is kept by every edge |
| UartTx.WaveformTheorem | examples/dossmatik_UART/srcs/tx/UART_TX_8N1.vhd:50-158 | after reset, for all writes under `wr_en`: the line is one well-formed frame per byte sent, in order, with high gaps, then a proper prefix of the frame of the queue's head; the unsent bytes are still queued |
| UartTx.DrivenLength | examples/dossmatik_UART/srcs/tx/UART_TX_8N1.vhd:58-60 | the slot is released exactly one clock before a frame of 10T+3 clocks is complete |
| UartTx.WorkStep | examples/dossmatik_UART/srcs/tx/UART_TX_8N1.vhd:87-158 | every clock with a byte queued does one clock of the work that is left, and a write adds 10T+3: a frame follows at once while a byte is queued |
| UartTx.DrainTheorem | examples/dossmatik_UART/srcs/tx/UART_TX_8N1.vhd:50-158 | once nothing more is written, all accepted bytes have been sent if and only if the clocks left for them have passed, at most 10T+3 for each queued byte |
| UartRx.ResetOnce | examples/dossmatik_UART/srcs/rx/UART_RX_8N1.vhd:47-148 | one edge of reset empties the ring and stops the state machine, and overrides nothing else: a complete byte is still stored |
| UartRx.CounterStaysInRange | examples/dossmatik_UART/srcs/rx/UART_RX_8N1.vhd:42-82 | the counter never leaves its declared range 0 to tick+1, under any input |
| UartRx.QueueStep | examples/dossmatik_UART/srcs/rx/UART_RX_8N1.vhd:47-61 | an edge dequeues exactly on a read and enqueues exactly the byte completed, while the 64-entry ring has room |
| UartRx.HoldsSixtyThree | examples/dossmatik_UART/srcs/rx/UART_RX_8N1.vhd:34-39 | a completed byte joins the queue exactly when fewer than 63 are there; at 63 the whole queue is lost |
| UartRx.HearsPrefix | examples/dossmatik_UART/srcs/rx/UART_RX_8N1.vhd:64-148 | where the state machine stands after n clocks of a stretch that carries a byte: idle, busy with n clocks elapsed and the low bits collected, or done |
| UartRx.HearsAll | examples/dossmatik_UART/srcs/rx/UART_RX_8N1.vhd:64-148 | a stretch with the right levels at the eight sampling instants is heard as that byte and nothing else, and leaves the receiver ready |
| UartRx.HearsNothing | examples/dossmatik_UART/srcs/rx/UART_RX_8N1.vhd:72-78 | a line at rest is never heard as a byte |
| Link.FrameCarries | examples/dossmatik_UART/srcs/rx/UART_RX_8N1.vhd:80-140 | every frame of the transmitter, with any gap after it, has the right level at each sampling instant of the receiver, for every tick |
| Link.HearsWave | examples/dossmatik_UART/srcs/rx/UART_RX_8N1.vhd:64-148 | any number of frames and gaps is heard as exactly their bytes: no drift |
| Link.HearsTransmitter | examples/dossmatik_UART/srcs/rx/UART_RX_8N1.vhd:64-148 | one clock behind a transmitter, the receiver has heard the bytes sent and at most the one in flight |
| Link.EndToEnd | examples/dossmatik_UART/srcs/tx/UART_TX_8N1.vhd:53-158 | with `tx` wired to `rx`: in every reachable state the bytes pushed by the receiver are those sent by the transmitter, plus its head from the middle of the stop bit on |
| Link.ReaderConservation | examples/dossmatik_UART/srcs/rx/UART_RX_8N1.vhd:47-61 | the bytes pushed are those read followed by those in the ring, while the reader keeps pace |
| Link.Projection | examples/dossmatik_UART/srcs/tx/UART_TX_8N1.vhd:53-158 | in the link the transmitter runs as it would alone on the requests given, and the receiver hears its line one clock late |
| Link.ReadsTake | examples/dossmatik_UART/srcs/rx/UART_RX_8N1.vhd:49-59 | every read takes a byte: as many bytes have been read as there were reads |
| Link.LinkConservation | examples/dossmatik_UART/srcs/rx/UART_RX_8N1.vhd:47-148 | accepted bytes = read bytes, then the receiver's ring, then the unheard part of the transmitter's ring |
| Link.AllArrivesIff | examples/dossmatik_UART/srcs/rx/UART_RX_8N1.vhd:64-148 | once nothing more is written, the receiver has pushed all accepted bytes if and only if the clocks left for sending them, less the unheard end of the last frame, have passed |
| Tolerance.WithinAsDrift | examples/dossmatik_UART/srcs/rx/UART_RX_8N1.vhd:80-140 | the tolerance condition as two one-sided bounds: 9(P-T) <= h+2 and 10(T-P) <= T-h-2 |
| Tolerance.HearsStretches | examples/dossmatik_UART/srcs/rx/UART_RX_8N1.vhd:64-148 | in a stream each stretch only has to carry its own byte, however many came before |
| Tolerance.ToleranceIff | examples/dossmatik_UART/srcs/rx/UART_RX_8N1.vhd:64-148 | every stream of back-to-back frames with bit time P is received whole, each start bit on its first low clock, if and only if 9P <= 9T+h+2 <= 10P |
| Tolerance.NominalRateIff | examples/dossmatik_UART/srcs/rx/UART_RX_8N1.vhd:41-42 | a sender at exactly clk_freq/baudrate, one clock per bit faster than the receiver, is followed if and only if tick >= 21 |
| Tolerance.BitDuration | examples/dossmatik_UART/srcs/rx/tb_UART_RX_8N1.vhd:20-34 | sampled on whole clocks, a bit at the rational rate lasts tick or tick+1 clocks |
| Tolerance.ExactRate | examples/dossmatik_UART/srcs/rx/tb_UART_RX_8N1.vhd:20-34 | an endless back-to-back sender at the exact rational rate, at any phase, is received whole for every tick >= 21 |
| CapRelay.CapitaliseIsUpperCase | examples/dossmatik_UART/srcs/capitalisation/capitalisation.vhd:36-41 | clearing bit 5 in the range compared is the upper case of a to z and changes nothing else; the result has no lower-case letter |
| CapRelay.UnsignedIsValue | examples/dossmatik_UART/srcs/capitalisation/capitalisation.vhd:36-37 | the number compared is the one the vector stands for with bit 0 lowest |
| CapRelay.HandMeans | examples/dossmatik_UART/srcs/capitalisation/capitalisation.vhd:29-46 | rd is high exactly while there is a byte and room, wr exactly then without reset; wdata changes only with rd |
| CapRelay.FallingConserves | examples/dossmatik_UART/srcs/capitalisation/capitalisation.vhd:29-46 | the falling-edge evaluation settles the handshake on the present ring states |
| CapRelay.RisingConserves | examples/dossmatik_UART/srcs/capitalisation/top_capitalisation.vhd:83-125 | a rising edge moves a byte from ring to ring as one transfer, with the processes reading pre-edge values |
| CapRelay.RelayConservation | examples/dossmatik_UART/srcs/capitalisation/top_capitalisation.vhd:83-125 | for any level on rx at any time, while the receiver ring keeps at most 63 bytes: capitals of the bytes received = sent, then the transmitter ring, then capitals of the receiver ring; `wr` only with room, `rd` only when not empty |
| CapRelay.RisingPaced | examples/dossmatik_UART/srcs/capitalisation/top_capitalisation.vhd:83-125 | where the last byte is, by the number of clocks since it was received: the relay turns a byte round in 10T+4 clocks |
| CapRelay.RelayLossless | examples/dossmatik_UART/srcs/capitalisation/top_capitalisation.vhd:83-125 | if bytes complete at least 10T+3 clocks apart, each ring holds at most one byte in every reachable state, nothing overflows, and the line carries the capitals in order as well-formed frames |
| Chain.TransmitterIsInTime | examples/dossmatik_UART/srcs/tx/UART_TX_8N1.vhd:53-158 | a transmitter of this design never makes a receiver complete bytes closer together than 10T+3 clocks |
| Chain.ChainOnTrack | examples/dossmatik_UART/srcs/capitalisation/top_capitalisation.vhd:83-125 | with such a source on the relay's rx the pacing assumption holds in every reachable state |
| Chain.HearsSource | examples/dossmatik_UART/srcs/rx/UART_RX_8N1.vhd:64-148 | the relay has received what the source has sent and at most the byte in flight |
| Chain.ChainCapitalises | examples/dossmatik_UART/srcs/capitalisation/top_capitalisation.vhd:83-125 | source and relay together: the output line carries well-formed frames of the capitals of the bytes written, and every accepted byte is in exactly one place |
| Chain.AllComesOut | examples/dossmatik_UART/srcs/capitalisation/top_capitalisation.vhd:83-125 | once nothing more is written, and the clocks left at the source and one turn-round have passed, the relay has sent the capitals of all bytes written |
| UartDevices.Transmitter.WrEn | examples/dossmatik_UART/srcs/tx/UART_TX_8N1.vhd:50 | `wr_en` is high exactly when the queue is shorter than the ring size less one |
| UartDevices.Transmitter.FsmProcess | examples/dossmatik_UART/srcs/tx/UART_TX_8N1.vhd:87-158 | the process with its overriding assignments computes the model's next nextstate, counter and level |
| UartDevices.Transmitter.RisingEdge | examples/dossmatik_UART/srcs/tx/UART_TX_8N1.vhd:53-158 | one edge on the registers in place is one step of the model |
| UartDevices.Transmitter.Reset | examples/dossmatik_UART/srcs/tx/UART_TX_8N1.vhd:151-155 | reset held two edges leaves the device at rest |
| UartDevices.Receiver.Peek | examples/dossmatik_UART/srcs/rx/UART_RX_8N1.vhd:47-61 | `rd_en` says whether a byte is queued, and `rdata` is then the oldest |
| UartDevices.Receiver.RisingEdge | examples/dossmatik_UART/srcs/rx/UART_RX_8N1.vhd:49-148 | one edge on the registers in place is one step of the model |
| UartDevices.Capitalisation.ClkEvent | examples/dossmatik_UART/srcs/capitalisation/capitalisation.vhd:29-46 | one event of clk, of either direction, is one step of the handshake model; wdata keeps its value without a transfer |
| MyHdl.MaskAgrees | examples/VPI/vpi-ex-myhdl/myhdl_vpi.c:283-289 | the masked 32-bit time assertion follows from agreement in full width |
| MyHdl.ReadonlyKeeps | examples/VPI/vpi-ex-myhdl/myhdl_vpi.c:253-350 | the read-only callback keeps the protocol invariant for every cooperative reply |
| MyHdl.RearmingKeeps | examples/VPI/vpi-ex-myhdl/myhdl_vpi.c:352-439 | the delay and delta callbacks keep it, in whatever order simultaneous ones run |
| MyHdl.ReportUpdatesMirror | examples/VPI/vpi-ex-myhdl/myhdl_vpi.c:290-305 | a report brings MyHDL's copy of every net up to date and clears all change flags |
| MyHdl.ReplyIsDriven | examples/VPI/vpi-ex-myhdl/myhdl_vpi.c:314-347 | a reply that repeats the time is driven by the delta callback that follows, as it came |
| MyHdl.ActNets | examples/VPI/vpi-ex-myhdl/myhdl_vpi.c:441-449 | a change sets the value and the flag of its own net and no other, and a report clears every flag |
| MyHdl.ChangesAre | examples/VPI/vpi-ex-myhdl/myhdl_vpi.c:291-304 | a report lists a net if and only if it is flagged, with its value |
| MyHdl.ChangesInOrder | examples/VPI/vpi-ex-myhdl/myhdl_vpi.c:291-304 | each listed net once, in order |
| MyHdl.RunTells | examples/VPI/vpi-ex-myhdl/myhdl_vpi.c:314-348 | pli_time, delta, the values driven and the end of the run are functions of the replies alone |
| MyHdl.NetTells | examples/VPI/vpi-ex-myhdl/myhdl_vpi.c:441-449 | over every run a net has the value it was given last, and is flagged if and only if that was after the last report |
| MyHdl.ReportIsExact | examples/VPI/vpi-ex-myhdl/myhdl_vpi.c:279-310 | after every run the next report carries the time of the last reply, is made at that time, and lists exactly the nets given a value since the report before |
| MyHdl.AssertionFailsIff | examples/VPI/vpi-ex-myhdl/myhdl_vpi.c:289-347 | which times, delays and deltas fail an assertion, in both directions |
| MyHdl.CosimulationAgrees | examples/VPI/vpi-ex-myhdl/myhdl_vpi.c:253-449 | over every run with a cooperative MyHDL: no assertion fails, every report is made at exactly pli_time*1000+delta and strictly later than the last, the values driven are those of the replies that repeat the time, as given, in order, but for the last while its delta callback is pending, and MyHDL knows every unflagged net |
| MyHdl.ReadOnlyIsPaired | examples/VPI/vpi-ex-myhdl/myhdl_vpi.c:222-247 | at most one read-only callback is pending, and a delta callback is pending one time unit later |
| MyHdl.DeltaCallbackMeans | examples/VPI/vpi-ex-myhdl/myhdl_vpi.c:387-439 | a left-over delta callback finds delta = 0 and changes nothing; any other is the only pending event and runs exactly on target |
| MyHdl.NextReport | examples/VPI/vpi-ex-myhdl/myhdl_vpi.c:319-439 | the co-simulation never stalls: some event can always run, and every other callback brings the next read-only one nearer |
| MyHdl.AgreesIffCooperative | examples/VPI/vpi-ex-myhdl/myhdl_vpi.c:318-348 | a reply keeps both times together without a failed assertion if and only if it does not run back, its step fits 32 bits, and delta stays below 1000 |
| MyHdl.LongStepTakenForDeltaIff | examples/VPI/vpi-ex-myhdl/myhdl_vpi.c:319-347 | the range assertion comes after the product with 1000 wraps: a step forward is taken for one more delta cycle if and only if it is a multiple of 2^61 |
| MyHdlInterface.Interface.constructor | examples/VPI/vpi-ex-myhdl/myhdl_vpi.c:149-250 | the first call sets the globals and registers the first pair of callbacks |
| MyHdlInterface.Interface.CollectChanges | examples/VPI/vpi-ex-myhdl/myhdl_vpi.c:291-304 | the scan collects exactly the flagged nets, in order, and clears every flag |
| MyHdlInterface.Interface.ReadonlyCallback | examples/VPI/vpi-ex-myhdl/myhdl_vpi.c:253-350 | the callback on the globals in place is the model's step |
| MyHdlInterface.Interface.DelayCallback | examples/VPI/vpi-ex-myhdl/myhdl_vpi.c:352-385 | likewise |
| MyHdlInterface.Interface.DeltaCallback | examples/VPI/vpi-ex-myhdl/myhdl_vpi.c:387-439 | likewise, including the early return |
| MyHdlInterface.Interface.ChangeCallback | examples/VPI/vpi-ex-myhdl/myhdl_vpi.c:441-449 | likewise, for one net |
| SoftFifo.Fifo.constructor | examples/ghdlex/fifo.c:31-45 | an empty queue of the given size |
| SoftFifo.Fifo.Write | examples/ghdlex/fifo.c:170-195 | appends exactly min(n, size - fill) bytes in order; overrun is flagged exactly when the ring was full; head = (tail + fill) mod size is kept although the loop stops when the indices meet |
| SoftFifo.Fifo.Read | examples/ghdlex/fifo.c:100-123 | takes exactly min(n, fill) of the oldest bytes in order; underrun is flagged exactly when the ring was empty |
| SoftFifo.Fifo.Get | examples/ghdlex/fifo.c:62-78 | copies min(n, fill) of the oldest bytes, one at least, and leaves them queued; from an empty ring, whatever the slots hold, once round at most |
| SoftFifo.Fifo.Advance | examples/ghdlex/fifo.c:80-98 | for every n, tail and fill with their 16-bit wrap; within the fill and without overflow it drops the n oldest bytes; an empty ring is an underrun |
| SoftFifo.Fifo.Fill | examples/ghdlex/fifo.c:125-132 | the number of bytes queued |
| SoftFifo.Fifo.ReadStatus | examples/ghdlex/fifo.c:148-158 | RXE means not empty, RXAE neither empty nor exactly one word |
| SoftFifo.Fifo.WriteStatus | examples/ghdlex/fifo.c:138-147 | TXF is always high, also when the ring is full |
| SoftFifo.CutTailIff | examples/ghdlex/fifo.c:90 | the 16-bit sum leaves the right tail if and only if it does not overflow |
| SoftFifo.WriteKeepsAlignment | examples/ghdlex/fifo.c:170-195 | with size, fill and length in whole words, what a partial write leaves is in whole words |
| Peek.WriterStep | examples/ghdlex/fifo.c:182-190 | no step of a write in progress disturbs the queued bytes, the tail or the reader |
| Peek.NotAtHead | examples/ghdlex/fifo.c:70-74 | the reader's pointer meets head, even while head stands one past the end, only beyond the bytes queued at the start |
| Peek.PeekIsStable | examples/ghdlex/fifo.c:62-78 | interleaved byte by byte with any writes, the unlocked peek copies exactly the oldest bytes that were queued when it began, as many as wanted |
| Peek.ReaderTerminates | examples/ghdlex/fifo.c:70-74 | every step of the peek uses up a bounded amount of work |
| Peek.PeekAlone | examples/ghdlex/fifo.c:62-78 | without a writer the peek makes exactly min(n, fill) copies, one at least; from an empty ring once round at most |
| Peek.WriteAppends | examples/ghdlex/fifo.c:170-195 | however a peek interleaves with it, a write counts nothing before the unlock, and then the queue is the old one and as much of the source as fitted |
| Peek.WriterTerminates | examples/ghdlex/fifo.c:182-192 | every step of a write uses up a bounded amount of work |
| Blocking.BlockingRead | examples/ghdlex/thread.c:28-46 | for n < 65536, against any peer that writes between the calls, the loop terminates as its replay says: same outcome, bytes and final queue; it flags no underrun |
| Blocking.PeerWritesWhatFits | examples/ghdlex/fifo.c:170-195 | in the replay the other thread fills the queue with its next packet, up to the brim, and nothing else changes |
| Blocking.ReadTheorem | examples/ghdlex/thread.c:28-46 | about the replay: the stream is the first queue, then the accepted prefix of each packet of the peer; success if and only if n bytes of it came in time, with its first n read across all chunks; timeout if and only if five polls saw an empty queue, with everything read |
| Blocking.ReadIsGreedy | examples/ghdlex/thread.c:41-42 | a read that found bytes ends the transfer or empties the queue |
| Blocking.ReadFromSilentPeer | examples/ghdlex/thread.c:28-46 | alone with the queue, a read succeeds if and only if n bytes are there, and else takes what there is |
| Blocking.ReadFromReadyPeer | examples/ghdlex/thread.c:28-46 | a read never times out on a peer with something to write before each call |
| Blocking.BlockingWrite | examples/ghdlex/thread.c:48-67 | against any peer that reads between the calls, the loop terminates as its replay says: same outcome and final queue; it flags no overrun |
| Blocking.PeerReadsWhatIsThere | examples/ghdlex/fifo.c:100-123 | in the replay the other thread takes what it asks for, or all there is, from the front |
| Blocking.WriteTheorem | examples/ghdlex/thread.c:48-67 | about the replay: first queue and moved prefix of the buffer = bytes the peer read, then the final queue; success, with the whole buffer moved, if and only if the peer made room for it; timeout if and only if five polls saw a full queue |
| Blocking.WriteIsGreedy | examples/ghdlex/thread.c:62-64 | a write that found room ends the transfer or fills the queue |
| Blocking.WriteToSilentPeer | examples/ghdlex/thread.c:48-67 | alone with the queue, a write succeeds if and only if the buffer fits, and else fills the queue |
| Blocking.WriteToReadyPeer | examples/ghdlex/thread.c:48-67 | a write never times out on a peer that reads something before each call |
| Blocking.NeverBelowMultiple | examples/ghdlex/fifo.c:100-103 | because each call sees the count modulo 65536, no number of calls brings it below its multiple of 65536 |
| Blocking.CompletesIff | examples/ghdlex/thread.c:33-45 | a request can be completed if and only if it is below 65536 bytes |
| LogicCodec.LogicToUint | examples/ghdlex/helpers.c:40-54 | succeeds exactly on vectors of the characters 2 and 3, with the number they stand for, cut to 32 bits |
| LogicCodec.NumberSplit | examples/ghdlex/helpers.c:40-54 | the number in terms of the characters: a leading 3 weighs 2^(length - 1) |
| LogicCodec.UintToLogic | examples/ghdlex/helpers.c:56-69 | element k is the character 3 or 2 by the bit of weight 2^(nbits - 1 - k) |
| LogicCodec.LogicToBytes | examples/ghdlex/helpers.c:71-79 | the byte of each group of eight elements; a group that is not binary repeats the accumulator, at first uninitialised |
| LogicCodec.BytesOfBinary | examples/ghdlex/helpers.c:71-79 | on binary elements what the accumulator held before does not matter |
| LogicCodec.StaleGroupRepeats | examples/ghdlex/helpers.c:71-79 | a group that is not binary gives the byte of the group before it |
| LogicCodec.BytesToLogic | examples/ghdlex/helpers.c:81-87 | the eight elements of each byte |
| LogicCodec.ByteAt | examples/ghdlex/helpers.c:81-87 | elements 8k to 8k+7 are those of byte k |
| LogicCodec.GroupAt | examples/ghdlex/helpers.c:71-79 | byte k is the number of elements 8k to 8k+7 |
| LogicCodec.FillLogic | examples/ghdlex/helpers.c:89-94 | every element set to the given value |
| LogicCodec.NumberOfLogic | examples/ghdlex/helpers.c:40-69 | reading back what was written gives the low bits of the number, for any width |
| LogicCodec.LogicOfNumber | examples/ghdlex/helpers.c:40-69 | writing out what was read from a binary vector gives the vector |
| LogicCodec.BytesRoundTrip | examples/ghdlex/helpers.c:71-87 | logic_to_bytes undoes bytes_to_logic |
| LogicCodec.LogicRoundTrip | examples/ghdlex/helpers.c:71-87 | bytes_to_logic undoes logic_to_bytes on binary vectors of whole bytes |
| Echo.StepSafe | examples/ghdlex/simfifo.vhdl:55-82 | every step of either thread keeps the invariant that the words a past decision relies on are still queued |
| Echo.EchoIsSafe | examples/ghdlex/simfifo.vhdl:51-82 | under any interleaving with the C writer the process never underruns and never echoes an undefined value, although it decides by the flag of the clock before; for words of up to the 32 bytes that the C side handles |
| Echo.WholeWords | examples/ghdlex/fifo.c:80-98 | with size and writes in whole words of w bytes, in every reachable state the queue holds whole words: RXE high means at least w bytes, RXAE at least 2w, so the unchecked subtraction never underflows |
| Echo.EmitMoves | examples/ghdlex/fifo.c:230-235 | the word echoed is the oldest queued one, byte for byte, as far as there is room |
| Echo.UnderrunsIff | examples/ghdlex/fifo.c:86-93 | the advance counts as an underrun exactly when no whole word is there |
| Echo.WriteTakesWhatFits | examples/ghdlex/fifo.c:170-195 | a write queues exactly what fits behind what is there, and is credited with exactly that |
| Echo.ReadTakesOldest | examples/ghdlex/fifo.c:100-123 | a read hands over exactly min(n, fill) of the oldest bytes |
| Echo.AcceptedIsWritten | examples/ghdlex/fifo.c:170-195 | if no write exceeds the room, the bytes accepted are those of all writes, in order |
| Echo.EchoRepeats | examples/ghdlex/simfifo.vhdl:51-82 | over every run, read back or not, the bytes of the words echoed are the accepted ones up to those still queued, in order |
| Echo.EchoConserves | examples/ghdlex/fifo.c:206-263 | while at most one FIFO's worth is outstanding: accepted = read back, then FROM_SIM, then what is not yet echoed of TO_SIM |
| Echo.ClockMoves | examples/ghdlex/simfifo.vhdl:55-82 | a clock that finds data_valid high takes exactly one word, room or not, and leaves data_valid high exactly when another remains; the other FIFO gets what it has room for |
| Echo.BurstDrains | examples/ghdlex/simfifo.vhdl:55-81 | k >= 2 ordinary words that find data_valid low are taken one per clock, in order, and all after k+1 clocks, whether or not the other FIFO has room; with room they are all there |
| Echo.LoneWordStays | examples/ghdlex/simfifo.vhdl:55-66 | a single word is never taken, after any number of clocks |
| Echo.TerminatesIff | examples/ghdlex/simfifo.vhdl:68-70 | the word that raises sigterm is the one with all bytes 255 |
| Echo.TerminatorIsSeenIff | examples/ghdlex/thread.c:134-138 | a terminating word behind j others is seen after exactly j+2 clocks if a second word is queued with it, and never if it is alone: why two bytes are sent |
| SimFifo.FifoIo | examples/ghdlex/fifo.c:206-263 | writes and advances as asked, 32 bytes at most, then reports status, error flags and the peeked word over what the buffer held; clears each error flag of the other queue |
| SimFifo.WordsPass | examples/ghdlex/fifo.c:230-250 | a vector made from bytes is written as those bytes, as far as there is room, and a peek that finds enough yields the oldest bytes |
| SimFifo.ShortPeek | examples/ghdlex/fifo.c:248-250 | a peek that finds less than asked for yields what is there and then what the buffer held |
| SimFifo.ClockMeans | examples/ghdlex/simfifo.vhdl:55-82 | one clock of the echo machine, from a safe state, in closed form: the word at hand is defined and it alone moves |
| SimFifo.Process.RisingEdge | examples/ghdlex/simfifo.vhdl:51-82 | one rising edge of the process over two FIFO objects is one clock of the echo machine |
| Bits.AddIsModular | examples/ygdes_ghdl_extra/lfsr4/BIST_addsub.vhdl:59 | the unsigned addition of two vectors is addition modulo a power of two |
| AddSub.ReferenceAdds | examples/ygdes_ghdl_extra/lfsr4/BIST_addsub.vhdl:47-63 | for operands of any width, with the select bit clear the single addition gives A + B + carry in, carry out included |
| AddSub.ReferenceSubtracts | examples/ygdes_ghdl_extra/lfsr4/BIST_addsub.vhdl:47-63 | with it set, (A - B - carry in) modulo 2^(n+1) |
| AddSub.FaultyDiffers | examples/ygdes_ghdl_extra/lfsr4/BIST_addsub.vhdl:67-84 | the faulty copy differs in result bit n and no other, exactly when the trigger pattern is there and that bit was 0 |
| AddSub.TriggeredMeans | examples/ygdes_ghdl_extra/lfsr4/BIST_addsub.vhdl:79 | the trigger pattern is a property of the operand B: its top seven bits are 54 |
| AddSub.FaultyVal | examples/ygdes_ghdl_extra/lfsr4/BIST_addsub.vhdl:67-84 | the fault in numbers: it adds 2^(n-1) exactly then |
| Lfsr.BackUndoesStep | examples/ygdes_ghdl_extra/lfsr4/lfsr4.vhdl:825-839 | the step is injective for each din: the previous register can be computed back, for every size and taps below it |
| Lfsr.StepUndoesBack | examples/ygdes_ghdl_extra/lfsr4/lfsr4.vhdl:825-839 | and onto |
| Lfsr.RunIsInjective | examples/ygdes_ghdl_extra/lfsr4/lfsr4.vhdl:825-839 | different registers stay different under any common input |
| Lfsr.RegisterIsRecurrence | examples/ygdes_ghdl_extra/lfsr4/lfsr4.vhdl:825-842 | the register is the window of the last `size` outputs of the linear recurrence of its polynomial driven by din |
| Lfsr.NeverZero | examples/ygdes_ghdl_extra/lfsr4/lfsr4.vhdl:825-839 | with din = 0 a register that is not zero never becomes zero |
| Lfsr.RunReturns | examples/ygdes_ghdl_extra/lfsr4/lfsr4.vhdl:825-839 | with din = 0 every run from such a register returns to it within 2^size - 1 clocks |
| Signature.RegisterIsRecurrence | examples/ygdes_ghdl_extra/lfsr4/BIST_signature.vhdl:82-92 | without responses the register is a window on the linear recurrence of its polynomial, taps 1, 2, 5 and 7 |
| Signature.StepIsLinear | examples/ygdes_ghdl_extra/lfsr4/BIST_signature.vhdl:80-107 | a step of the difference of two registers is the difference of their steps |
| Signature.Superposition | examples/ygdes_ghdl_extra/lfsr4/BIST_signature.vhdl:80-107 | the difference of two signatures is one register started with the difference and fed the differences of the streams |
| Signature.DifferForever | examples/ygdes_ghdl_extra/lfsr4/BIST_signature.vhdl:80-107 | while responses agree, signatures differ exactly if they differed before |
| Signature.Travels | examples/ygdes_ghdl_extra/lfsr4/BIST_signature.vhdl:80-107 | the lowest difference moves down one bit a clock, whatever arrives above it |
| Signature.FirstDifferenceShows | examples/ygdes_ghdl_extra/lfsr4/BIST_signature.vhdl:120-128 | when the first difference, at bit p+1, reaches the printed bit, and that nothing shows before |
| Bist.OpsAfter | examples/ygdes_ghdl_extra/lfsr4/BIST_signature.vhdl:31-37 | the operands after k clocks are those of the free-running shift register |
| Bist.SignaturesFold | examples/ygdes_ghdl_extra/lfsr4/BIST_signature.vhdl:80-107 | each signature register, started at 1, holds the fold of every result of its own unit |
| Bist.SignaturesDiffer | examples/ygdes_ghdl_extra/lfsr4/BIST_signature.vhdl:39-107 | in the bench the signatures differ by a register started at zero and fed the fault's differences |
| Bist.FirstFaultIsPrinted | examples/ygdes_ghdl_extra/lfsr4/BIST_signature.vhdl:109-132 | if result t is the first to show the fault, the bench prints 0 up to clock t+n-1 and 1 at clock t+n, whatever later results show |
| Bist.SilentIff | examples/ygdes_ghdl_extra/lfsr4/BIST_signature.vhdl:109-132 | the bench prints nothing but 0 for a number of clocks if and only if no result up to n clocks before the last shows the fault |
| BistDevices.ShiftRegister.Process | examples/ygdes_ghdl_extra/lfsr4/lfsr4.vhdl:825-839 | the clocked process in place is the model's step; reset loads init_val |
| BistDevices.SignatureRegister.Process | examples/ygdes_ghdl_extra/lfsr4/BIST_signature.vhdl:80-107 | likewise for a signature register; reset loads 1 |
| BistDevices.TestBench.Cycle | examples/ygdes_ghdl_extra/lfsr4/BIST_signature.vhdl:26-107 | one rising edge of the three registers, with the results of the operands before it, is one clock of the bench |
| BistDevices.TestBench.Drive | examples/ygdes_ghdl_extra/lfsr4/BIST_signature.vhdl:109-132 | bit j of line i is the one printed after clock i * columns + j + 1 |

## Left out

- Values of `std_logic` other than '0' and '1' on wires and registers: lines and registers have two levels; the software FIFO's conversions do model the others.
- Power-up values of registers without a declared one: runs of the UART start after reset (of the transmitter, held two edges).
- UART ticks below 1, which the code's comparisons do not support.
- Receiver ring overflow: `Ring.PushKeepsQueueIffNotFull` says what it loses; the run theorems assume it away.
- Reset during a run of the relay or the link.
- CapRelay.RelayLossless: asks for a transmitter ring of three slots or more, so an address depth of at least 2; `top_capitalisation.vhd` uses 5.
- Tolerance.ExactRate: the edges of the line are rounded up to whole clocks; the testbench's own rounding of the bit time to nanoseconds is not modelled.
- The START handshake, the pipes and the text of the MyHDL messages: a report is a record of times and changes, a reply a time and values.
- A MyHDL process that goes away (empty read): the simulation finishes, and nothing more is stated.
- `$from_myhdl`, the argument limits (MAXARGS, MAXLINE) and the memory they guard.
- SimFifo.FifoIo: asks for a vector of whole bytes, because the original reads and writes past any other, and for an advance within the fill whose 16-bit sum does not overflow; `SoftFifo.Fifo.Advance` says what a larger one does to the fields, and `Echo.EchoIsSafe` that the echo never makes one.
- Echo.EchoIsSafe: describes words of more than 32 bytes as the machine would move them whole, where the C side cuts them.
- That the blocking loops then run for ever on a request of 65536 bytes or more: the methods ask for fewer.
- The counter and the printing of simfifo.vhdl, and the body of the C thread beyond its reads, writes and terminating message.
- Memory ordering weaker than the order of the statements: the peek's interleaving lets a store and the increment of head go either way round, but the lock and the unlock are atomic steps.
- The netpp variants, pipes, ptys, framebuffer, timers and parallel port: calls into the operating system or a library.
- The tap tables of the shift registers: any taps below the size are covered; that those of the table give the longest period is a result of the paper they come from.
- The two-tap table of lfsr2.vhdl and the other test benches of that directory.
