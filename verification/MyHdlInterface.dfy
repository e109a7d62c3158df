/** The callbacks of the MyHDL interface as methods that update its globals and the event queue in place. */
module MyHdlInterface {
  import opened MyHdl

  class Interface {
    // Globals of the interface.
    var pliTime: nat
    var delta: nat
    const changeFlag: array<bool>
    var bufcp: seq<string>
    // The simulator.
    var now: nat
    var queue: multiset<Event>
    var nets: seq<string>
    var finished: bool
    var failed: bool
    // What has been exchanged.
    ghost var reports: seq<Report>
    ghost var put: seq<seq<string>>

    ghost predicate Valid()
      reads this
    {
      changeFlag.Length == |nets|
    }

    ghost function Value(): Sim
      reads this, changeFlag
    {
      Sim(now, queue, nets, pliTime, delta, changeFlag[..], bufcp, finished, failed, reports, put)
    }

    // to_myhdl_calltf at time 0, with the initial values of its arguments.
    constructor (nets: seq<string>)
      ensures Valid() && fresh(changeFlag) && Initial(Value()) && this.nets == nets
    {
      this.nets := nets;
      changeFlag := new bool[|nets|](i => false);
      pliTime, delta, now, bufcp := 0, 0, 0, [];
      finished, failed := false, false;
      reports, put := [], [];
      queue := multiset{Event(0, ReadOnly), Event(1, Delta)};
    }

    method Register(after: nat, kind: Kind)
      modifies this`queue
      ensures Value() == MyHdl.Register(old(Value()), after, kind)
    {
      queue := queue + multiset{Event(now + after, kind)};
    }

    // The scan over the arguments of $to_myhdl: collects and clears the flagged nets.
    method CollectChanges() returns (changes: seq<(nat, string)>)
      requires Valid()
      modifies changeFlag
      ensures changes == Changes(old(changeFlag[..]), nets, 0)
      ensures changeFlag[..] == NoFlags(|nets|)
    {
      ghost var flags := changeFlag[..];
      var i := 0;
      changes := [];
      while i < |nets|
        invariant 0 <= i <= |nets|
        invariant changes + Changes(flags, nets, i) == Changes(flags, nets, 0)
        invariant forall k :: i <= k < |nets| ==> changeFlag[k] == flags[k]
        invariant forall k :: 0 <= k < i ==> !changeFlag[k]
      {
        if changeFlag[i] {
          changes := changes + [(i, nets[i])];
          changeFlag[i] := false;
        }
        i := i + 1;
      }
    }

    method SendReport() returns (changes: seq<(nat, string)>)
      requires Valid()
      modifies this`failed, this`reports, changeFlag
      ensures Value() == MyHdl.SendReport(old(Value()))
      ensures changes == Changes(old(changeFlag[..]), nets, 0)
    {
      if now % U32 != (pliTime * 1000 + delta) % U64 % U32 {
        failed := true;
      }
      changes := CollectChanges();
      reports := reports + [Report(pliTime, delta, now, changes)];
    }

    method Advance(delay: nat, time: nat)
      modifies this`failed, this`delta, this`pliTime, this`queue
      ensures Value() == MyHdl.Advance(old(Value()), delay, time)
    {
      hide CastDelay, MyHdl.Register;
      if delay <= delta {
        failed := true;
      }
      var after := CastDelay(delay, delta);
      delta := 0;
      pliTime := time;
      Register(after, Delay);
    }

    method Cycle()
      modifies this`failed, this`delta
      ensures Value() == MyHdl.Cycle(old(Value()))
    {
      delta := delta + 1;
      if delta >= 1000 {
        failed := true;
      }
    }

    method TakeReply(time: nat, values: seq<string>)
      modifies this`bufcp, this`failed, this`delta, this`pliTime, this`queue
      ensures Value() == MyHdl.TakeReply(old(Value()), time, values)
    {
      hide DelayOf, MyHdl.Advance, MyHdl.Cycle;
      bufcp := values;
      var delay := DelayOf(pliTime, time);
      if delay > 0xFFFF_FFFF {
        failed := true;
      }
      if delay > 0 {
        Advance(delay, time);
      } else {
        Cycle();
      }
    }

    method ReadonlyCallback(reply: Reply) returns (changes: seq<(nat, string)>)
      requires Valid()
      modifies this, changeFlag
      ensures Valid() && nets == old(nets)
      ensures Value() == MyHdl.ReadonlyCallback(old(Value()), reply)
      ensures changes == Changes(old(changeFlag[..]), nets, 0)
    {
      changes := SendReport();
      match reply
      case Down =>
        finished := true;
      case Reply(time, values) =>
        TakeReply(time, values);
    }

    method DelayCallback()
      requires Valid()
      modifies this`queue
      ensures Value() == MyHdl.DelayCallback(old(Value()))
    {
      Register(0, ReadOnly);
      Register(1, Delta);
    }

    method DeltaCallback()
      requires Valid()
      modifies this`queue, this`put
      ensures Value() == MyHdl.DeltaCallback(old(Value()))
    {
      hide MyHdl.Register;
      if delta == 0 {
        return;
      }
      put := put + [bufcp];
      Register(0, ReadOnly);
      Register(1, Delta);
    }

    method ChangeCallback(i: nat, value: string)
      requires Valid() && i < |nets|
      modifies this`nets, changeFlag
      ensures Valid() && Value() == MyHdl.ChangeCallback(old(Value()), i, value)
    {
      nets := nets[i := value];
      changeFlag[i] := true;
    }

    // The simulator takes one event from its queue and calls the routine registered for it.
    method Fire(e: Event, reply: Reply)
      requires Valid() && e in queue
      modifies this, changeFlag
      ensures Valid() && Value() == MyHdl.Fire(old(Value()), e, reply)
    {
      hide MyHdl.ReadonlyCallback, MyHdl.DelayCallback, MyHdl.DeltaCallback;
      now := e.time;
      queue := queue - multiset{e};
      match e.kind
      case ReadOnly =>
        var changes := ReadonlyCallback(reply);
      case Delay =>
        DelayCallback();
      case Delta =>
        DeltaCallback();
    }
  }
}
