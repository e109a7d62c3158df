/**
 * The MyHDL co-simulation scheduler: callbacks that re-register one another on the simulator's event
 * queue (vpi_register_cb, section 27.33 of IEEE Std 1364-2005). Simulated time is to stay at
 * 1000 units per MyHDL time step plus one per delta cycle.
 */
module MyHdl {
  import Arith

  // cbReadOnlySynch with readonly_callback; cbAfterDelay with delay_callback or delta_callback.
  datatype Kind = ReadOnly | Delay | Delta
  datatype Event = Event(time: nat, kind: Kind)

  // What MyHDL answers to a report: nothing any more, or its time and the values to drive.
  datatype Reply = Down | Reply(time: nat, values: seq<string>)

  // One read-only callback: the globals it ran with, the simulated time, and the changed nets sent.
  datatype Report = Report(pliTime: nat, delta: nat, time: nat, changes: seq<(nat, string)>)

  /** The simulator's time, queue and nets, the globals of the interface, and what has been exchanged. */
  datatype Sim = Sim(now: nat, queue: multiset<Event>, nets: seq<string>,
                     pliTime: nat, delta: nat, changeFlag: seq<bool>, bufcp: seq<string>,
                     finished: bool, failed: bool,
                     reports: seq<Report>, put: seq<seq<string>>)
  {
    predicate Valid() {
      |changeFlag| == |nets|
    }

    // The time at which the interface believes the next read-only callback runs.
    function Target(): nat {
      pliTime * 1000 + delta
    }
  }

  const U32: nat := 0x1_0000_0000
  const U64: nat := 0x1_0000_0000_0000_0000

  // ---- The callbacks --------------------------------------------------------------------------

  // The flagged nets from index i on, with their values.
  function Changes(changeFlag: seq<bool>, nets: seq<string>, i: nat): seq<(nat, string)>
    requires |changeFlag| == |nets| && i <= |nets|
    decreases |nets| - i
  {
    if i == |nets| then []
    else (if changeFlag[i] then [(i, nets[i])] else []) + Changes(changeFlag, nets, i + 1)
  }

  function NoFlags(n: nat): (flags: seq<bool>)
    ensures |flags| == n && forall i :: 0 <= i < n ==> !flags[i]
  {
    seq(n, i => false)
  }

  // (myhdl_time - pli_time) * 1000 in 64-bit unsigned arithmetic.
  function DelayOf(pliTime: nat, time: nat): nat {
    ((time - pliTime) * 1000) % U64
  }

  // The delay registered, after subtracting delta in 64 bits and a cast to 32.
  function CastDelay(delay: nat, delta: nat): nat {
    ((delay - delta) % U64) % U32
  }

  function Register(s: Sim, after: nat, kind: Kind): Sim {
    s.(queue := s.queue + multiset{Event(s.now + after, kind)})
  }

  // The first half of readonly_callback: the masked time check and the report.
  function SendReport(s: Sim): (s': Sim)
    requires s.Valid()
    ensures s'.Valid()
  {
    s.(failed := s.failed || s.now % U32 != (s.pliTime * 1000 + s.delta) % U64 % U32,
       reports := s.reports + [Report(s.pliTime, s.delta, s.now, Changes(s.changeFlag, s.nets, 0))],
       changeFlag := NoFlags(|s.nets|))
  }

  // MyHDL is at a later time: its delay callback is registered.
  function Advance(s: Sim, delay: nat, time: nat): Sim {
    Register(s.(failed := s.failed || delay <= s.delta, delta := 0, pliTime := time),
             CastDelay(delay, s.delta), Delay)
  }

  // MyHDL is at the same time: one more delta cycle.
  function Cycle(s: Sim): Sim {
    s.(delta := s.delta + 1, failed := s.failed || s.delta + 1 >= 1000)
  }

  // The second half: what becomes of MyHDL's answer.
  function TakeReply(s: Sim, time: nat, values: seq<string>): Sim {
    var delay := DelayOf(s.pliTime, time);
    var r := s.(bufcp := values, failed := s.failed || delay >= U32);
    if delay > 0 then Advance(r, delay, time) else Cycle(r)
  }

  function ReadonlyCallback(s: Sim, reply: Reply): (s': Sim)
    requires s.Valid()
    ensures s'.Valid()
  {
    match reply
    case Down => SendReport(s).(finished := true)
    case Reply(time, values) => TakeReply(SendReport(s), time, values)
  }

  // Registers the next read-only callback at this time and a delta callback one unit later.
  function Rearm(s: Sim): Sim {
    Register(Register(s, 0, ReadOnly), 1, Delta)
  }

  function DelayCallback(s: Sim): Sim {
    Rearm(s)
  }

  function DeltaCallback(s: Sim): Sim {
    if s.delta == 0 then s else Rearm(s.(put := s.put + [s.bufcp]))
  }

  // A net takes a new value; its change callback flags it.
  function ChangeCallback(s: Sim, i: nat, value: string): Sim
    requires s.Valid() && i < |s.nets|
  {
    s.(nets := s.nets[i := value], changeFlag := s.changeFlag[i := true])
  }

  // ---- The simulator --------------------------------------------------------------------------

  // The earliest events may run, in any order except that a read-only callback is the last of its time.
  predicate Enabled(s: Sim, e: Event) {
    && !s.finished && e in s.queue
    && forall f :: f in s.queue ==> e.time < f.time || (e.time == f.time && (e.kind != ReadOnly || f.kind == ReadOnly))
  }

  function Fire(s: Sim, e: Event, reply: Reply): (s': Sim)
    requires s.Valid()
    ensures s'.Valid()
  {
    var at := s.(now := e.time, queue := s.queue - multiset{e});
    match e.kind
    case ReadOnly => ReadonlyCallback(at, reply)
    case Delay => DelayCallback(at)
    case Delta => DeltaCallback(at)
  }

  datatype Action = Callback(e: Event, reply: Reply) | Change(net: nat, value: string)

  // to_myhdl_calltf, at time 0.
  predicate Initial(s: Sim) {
    && s.Valid() && s.now == s.pliTime == s.delta == 0
    && s.queue == multiset{Event(0, ReadOnly), Event(1, Delta)}
    && s.changeFlag == NoFlags(|s.nets|)
    && !s.finished && !s.failed && s.reports == [] && s.put == []
  }

  // What MyHDL promises: time does not run back, a step fits the 32-bit delay, and there are at
  // most 999 delta cycles per time.
  predicate Cooperative(s: Sim, reply: Reply) {
    reply.Reply? ==>
      && s.pliTime <= reply.time < U64 && (reply.time - s.pliTime) * 1000 < U32
      && (reply.time == s.pliTime ==> s.delta < 999)
  }

  predicate Allowed(s: Sim, a: Action)
    requires s.Valid()
  {
    match a
    case Callback(e, reply) => Enabled(s, e) && (e.kind == ReadOnly ==> Cooperative(s, reply))
    case Change(net, value) => net < |s.nets|
  }

  function Act(s: Sim, a: Action): (s': Sim)
    requires s.Valid() && Allowed(s, a)
    ensures s'.Valid()
  {
    match a
    case Callback(e, reply) => Fire(s, e, reply)
    case Change(net, value) => ChangeCallback(s, net, value)
  }

  // s' is reachable from s by the given actions.
  predicate Reaches(s: Sim, actions: seq<Action>, s': Sim)
    requires s.Valid()
    decreases |actions|
  {
    if actions == [] then s' == s
    else Allowed(s, actions[0]) && Reaches(Act(s, actions[0]), actions[1..], s')
  }

  // ---- The phases of the protocol -------------------------------------------------------------

  // A read-only callback is due, with its delta callback one unit later.
  predicate Armed(s: Sim) {
    s.now <= s.Target() && s.queue == multiset{Event(s.Target(), ReadOnly), Event(s.Target() + 1, Delta)}
  }

  // The same, with a delta callback left over from the previous time still due first.
  predicate ArmedLate(s: Sim) {
    && s.delta == 0 && s.now == s.Target()
    && s.queue == multiset{Event(s.now, ReadOnly), Event(s.now, Delta), Event(s.now + 1, Delta)}
  }

  // MyHDL asked for another delta cycle.
  predicate Cycling(s: Sim) {
    s.delta > 0 && s.now + 1 == s.Target() && s.queue == multiset{Event(s.Target(), Delta)}
  }

  // MyHDL advanced its time; the delta callback registered before is left over.
  predicate Advancing(s: Sim) {
    && s.delta == 0 && s.now < s.Target()
    && s.queue == multiset{Event(s.now + 1, Delta), Event(s.Target(), Delay)}
  }

  predicate Waiting(s: Sim) {
    s.delta == 0 && s.now <= s.Target() && s.queue == multiset{Event(s.Target(), Delay)}
  }

  predicate InPhase(s: Sim) {
    Armed(s) || ArmedLate(s) || Cycling(s) || Advancing(s) || Waiting(s)
  }

  predicate Before(p: (nat, nat), q: (nat, nat)) {
    p.0 < q.0 || (p.0 == q.0 && p.1 < q.1)
  }

  // Every report ran exactly on time, and each at a later (pli_time, delta) than the one before.
  predicate OnTime(s: Sim) {
    && (forall i :: 0 <= i < |s.reports| ==>
          s.reports[i].time == s.reports[i].pliTime * 1000 + s.reports[i].delta)
    && (forall i, j :: 0 <= i < j < |s.reports| ==>
          Before((s.reports[i].pliTime, s.reports[i].delta), (s.reports[j].pliTime, s.reports[j].delta)))
    && (forall i :: 0 <= i < |s.reports| && !s.finished ==>
          Before((s.reports[i].pliTime, s.reports[i].delta), (s.pliTime, s.delta)))
  }

  predicate Inv(s: Sim) {
    && s.Valid() && !s.failed && s.delta < 1000
    && (!s.finished ==> InPhase(s))
    && OnTime(s)
  }

  // ---- Which event can run in each phase ------------------------------------------------------

  lemma ArmedRuns(s: Sim, e: Event)
    requires Armed(s) && Enabled(s, e)
    ensures e == Event(s.Target(), ReadOnly)
  {
  }

  lemma ArmedLateRuns(s: Sim, e: Event)
    requires ArmedLate(s) && Enabled(s, e)
    ensures e == Event(s.now, Delta)
  {
  }

  lemma AdvancingRuns(s: Sim, e: Event)
    requires Advancing(s) && Enabled(s, e)
    ensures e == Event(s.now + 1, Delta) || (e == Event(s.Target(), Delay) && s.Target() == s.now + 1)
  {
  }

  // ---- What it does to the phase --------------------------------------------------------------

  // The masked assertion of the source follows from agreement in full.
  lemma MaskAgrees(t: nat)
    ensures t % U32 == t % U64 % U32
  {
    var q, r := t / U64, t % U64;
    assert t == U32 * (U32 * q) + r;
    assert r == U32 * (r / U32) + r % U32;
    assert t == U32 * (U32 * q + r / U32) + r % U32;
  }

  lemma DelayExact(pliTime: nat, time: nat)
    requires pliTime <= time && (time - pliTime) * 1000 < U32
    ensures DelayOf(pliTime, time) == time * 1000 - pliTime * 1000
    ensures time > pliTime ==> DelayOf(pliTime, time) >= 1000
  {
  }

  lemma SmallDelay(delay: nat, delta: nat)
    requires delta <= delay < U32
    ensures CastDelay(delay, delta) == delay - delta
  {
  }

  // A reply with the same time: one more delta cycle.
  lemma ArmedToCycling(s: Sim, reply: Reply)
    requires s.Valid() && Armed(s) && reply.Reply? && Cooperative(s, reply) && reply.time == s.pliTime
    ensures var s' := Fire(s, Event(s.Target(), ReadOnly), reply);
            && s'.failed == s.failed && s'.finished == s.finished
            && s'.pliTime == s.pliTime && s'.delta == s.delta + 1 <= 999
            && s'.bufcp == reply.values && s'.put == s.put
            && Cycling(s')
  {
    var t := s.Target();
    MaskAgrees(t);
    DelayExact(s.pliTime, reply.time);
    hide DelayOf, CastDelay, Changes;
    assert s.queue - multiset{Event(t, ReadOnly)} == multiset{Event(t + 1, Delta)};
  }

  // A reply with a later time: the delay callback is due exactly at that time.
  lemma ArmedToAdvancing(s: Sim, reply: Reply)
    requires s.Valid() && Armed(s) && s.delta < 1000
    requires reply.Reply? && Cooperative(s, reply) && reply.time > s.pliTime
    ensures var s' := Fire(s, Event(s.Target(), ReadOnly), reply);
            && s'.failed == s.failed && s'.finished == s.finished
            && s'.pliTime == reply.time && s'.delta == 0 && s'.put == s.put
            && Advancing(s')
  {
    var t := s.Target();
    MaskAgrees(t);
    DelayExact(s.pliTime, reply.time);
    SmallDelay(DelayOf(s.pliTime, reply.time), s.delta);
    hide DelayOf, CastDelay, Changes;
    assert s.queue - multiset{Event(t, ReadOnly)} == multiset{Event(t + 1, Delta)};
  }

  lemma ArmedLateToArmed(s: Sim, reply: Reply)
    requires s.Valid() && ArmedLate(s)
    ensures Armed(Fire(s, Event(s.now, Delta), reply))
  {
    var e := Event(s.now, Delta);
    assert s.queue - multiset{e} == multiset{Event(s.now, ReadOnly), Event(s.now + 1, Delta)};
  }

  lemma CyclingToArmed(s: Sim, reply: Reply)
    requires s.Valid() && Cycling(s)
    ensures Armed(Fire(s, Event(s.Target(), Delta), reply))
  {
  }

  lemma AdvancingToWaiting(s: Sim, reply: Reply)
    requires s.Valid() && Advancing(s)
    ensures Waiting(Fire(s, Event(s.now + 1, Delta), reply))
  {
  }

  lemma AdvancingToArmedLate(s: Sim, reply: Reply)
    requires s.Valid() && Advancing(s) && s.Target() == s.now + 1
    ensures ArmedLate(Fire(s, Event(s.Target(), Delay), reply))
  {
    assert s.queue - multiset{Event(s.Target(), Delay)} == multiset{Event(s.Target(), Delta)};
  }

  lemma WaitingToArmed(s: Sim, reply: Reply)
    requires s.Valid() && Waiting(s)
    ensures Armed(Fire(s, Event(s.Target(), Delay), reply))
  {
  }

  // ---- The invariant --------------------------------------------------------------------------

  lemma OnTimeStep(s: Sim, s': Sim, r: Report)
    requires OnTime(s) && !s.finished && s'.reports == s.reports + [r]
    requires r.pliTime == s.pliTime && r.delta == s.delta && r.time == s.Target()
    requires s'.finished || Before((s.pliTime, s.delta), (s'.pliTime, s'.delta))
    ensures OnTime(s')
  {
  }

  lemma NotCycling(s: Sim)
    requires Armed(s) || ArmedLate(s) || Advancing(s) || Waiting(s)
    ensures !Cycling(s)
  {
  }

  lemma ReadonlyKeeps(s: Sim, reply: Reply)
    requires Inv(s) && !s.finished && Armed(s) && Cooperative(s, reply)
    ensures Inv(Fire(s, Event(s.Target(), ReadOnly), reply))
  {
    var s' := Fire(s, Event(s.Target(), ReadOnly), reply);
    NotCycling(s);
    MaskAgrees(s.Target());
    if reply.Reply? {
      if reply.time == s.pliTime {
        ArmedToCycling(s, reply);
      } else {
        ArmedToAdvancing(s, reply);
        NotCycling(s');
      }
    }
    hide OnTime, Armed, Cycling, Advancing, DelayOf, Changes;
    OnTimeStep(s, s', s'.reports[|s.reports|]);
  }

  // Every other callback finds delta = 0 and changes no global, or drives the values last received.
  lemma RearmingChanges(s: Sim, e: Event, reply: Reply)
    requires s.Valid() && e.kind != ReadOnly
    ensures var s' := Fire(s, e, reply);
            s' == s.(now := e.time, queue := s'.queue,
                     put := s.put + (if e.kind == Delta && s.delta > 0 then [s.bufcp] else []))
  {
  }

  lemma Rearms(s: Sim, e: Event, reply: Reply)
    requires s.Valid() && InPhase(s) && !Armed(s) && Enabled(s, e)
    ensures var s' := Fire(s, e, reply);
            InPhase(s') && !Cycling(s') && e.kind != ReadOnly
    ensures Cycling(s) <==> e.kind == Delta && s.delta > 0
  {
    hide Fire;
    var s' := Fire(s, e, reply);
    if Cycling(s) {
      CyclingToArmed(s, reply);
    } else if ArmedLate(s) {
      ArmedLateRuns(s, e);
      ArmedLateToArmed(s, reply);
    } else if Advancing(s) {
      AdvancingRuns(s, e);
      if e.kind == Delta {
        AdvancingToWaiting(s, reply);
      } else {
        AdvancingToArmedLate(s, reply);
      }
    } else {
      WaitingToArmed(s, reply);
    }
    hide *;
    NotCyclingAfter(s');
  }

  lemma NotCyclingAfter(s: Sim)
    requires Armed(s) || ArmedLate(s) || Waiting(s)
    ensures InPhase(s) && !Cycling(s)
  {
  }

  lemma RearmingKeeps(s: Sim, e: Event, reply: Reply)
    requires Inv(s) && !s.finished && !Armed(s) && Enabled(s, e)
    ensures Inv(Fire(s, e, reply)) && e.kind != ReadOnly
  {
    Rearms(s, e, reply);
    RearmingChanges(s, e, reply);
    hide Armed, ArmedLate, Cycling, Advancing, Waiting, Enabled, OnTime, Fire, InPhase;
    StaysInvariant(s, Fire(s, e, reply));
  }

  lemma StaysInvariant(s: Sim, s': Sim)
    requires Inv(s) && !s.finished && InPhase(s') && !Cycling(s')
    requires s' == s.(now := s'.now, queue := s'.queue, put := s.put + (if Cycling(s) then [s.bufcp] else []))
    ensures Inv(s')
  {
  }

  lemma ChangeKeeps(s: Sim, net: nat, value: string)
    requires Inv(s) && net < |s.nets|
    ensures Inv(ChangeCallback(s, net, value))
  {
    hide InPhase, OnTime, Cycling;
    SamePhase(s, ChangeCallback(s, net, value));
    OnTimeSame(s, ChangeCallback(s, net, value));
  }

  lemma SamePhase(s: Sim, s': Sim)
    requires s' == s.(nets := s'.nets, changeFlag := s'.changeFlag)
    ensures InPhase(s') == InPhase(s) && Cycling(s') == Cycling(s)
  {
    assert s'.Target() == s.Target() && s'.now == s.now && s'.queue == s.queue && s'.delta == s.delta;
    assert Armed(s') == Armed(s) by {}
    assert ArmedLate(s') == ArmedLate(s) by {}
    assert Cycling(s') == Cycling(s) by {}
    assert Advancing(s') == Advancing(s) by {}
    assert Waiting(s') == Waiting(s) by {}
    hide Armed, ArmedLate, Cycling, Advancing, Waiting;
  }

  lemma OnTimeSame(s: Sim, s': Sim)
    requires s' == s.(nets := s'.nets, changeFlag := s'.changeFlag) && OnTime(s)
    ensures OnTime(s')
  {
  }

  // ---- The nets as MyHDL sees them ------------------------------------------------------------

  function Apply(mirror: seq<string>, changes: seq<(nat, string)>): (m: seq<string>)
    ensures |m| == |mirror|
    decreases |changes|
  {
    if changes == [] then mirror
    else
      var (i, value) := changes[0];
      Apply(if i < |mirror| then mirror[i := value] else mirror, changes[1..])
  }

  // What the reports so far have told MyHDL, starting from the initial values.
  function Mirror(initial: seq<string>, reports: seq<Report>): (m: seq<string>)
    ensures |m| == |initial|
  {
    if reports == [] then initial
    else Apply(Mirror(initial, reports[..|reports| - 1]), reports[|reports| - 1].changes)
  }

  // Values can be out of date for flagged nets only.
  predicate UpToDate(mirror: seq<string>, changeFlag: seq<bool>, nets: seq<string>) {
    && |mirror| == |changeFlag| == |nets|
    && forall i :: 0 <= i < |nets| && !changeFlag[i] ==> mirror[i] == nets[i]
  }

  lemma {:induction false} ApplyChanges(mirror: seq<string>, changeFlag: seq<bool>, nets: seq<string>, i: nat)
    requires |changeFlag| == |nets| == |mirror| && i <= |nets|
    requires forall k :: i <= k < |nets| && !changeFlag[k] ==> mirror[k] == nets[k]
    ensures Apply(mirror, Changes(changeFlag, nets, i)) == mirror[..i] + nets[i..]
    decreases |nets| - i
  {
    if i < |nets| {
      var rest := Changes(changeFlag, nets, i + 1);
      var mirror' := mirror[i := nets[i]];
      if changeFlag[i] {
        assert Changes(changeFlag, nets, i)[1..] == rest;
        ApplyChanges(mirror', changeFlag, nets, i + 1);
        assert mirror'[..i + 1] + nets[i + 1..] == mirror[..i] + nets[i..];
      } else {
        assert Changes(changeFlag, nets, i) == rest;
        ApplyChanges(mirror, changeFlag, nets, i + 1);
        assert mirror[..i + 1] + nets[i + 1..] == mirror[..i] + nets[i..];
      }
    }
  }

  lemma ReportUpdatesMirror(initial: seq<string>, s: Sim, e: Event, reply: Reply)
    requires s.Valid() && e.kind == ReadOnly && UpToDate(Mirror(initial, s.reports), s.changeFlag, s.nets)
    ensures var s' := Fire(s, e, reply);
            Mirror(initial, s'.reports) == s'.nets == s.nets && s'.changeFlag == NoFlags(|s.nets|)
  {
    var s' := Fire(s, e, reply);
    assert s'.reports[..|s.reports|] == s.reports;
    ApplyChanges(Mirror(initial, s.reports), s.changeFlag, s.nets, 0);
  }

  lemma ActUpToDate(initial: seq<string>, s: Sim, a: Action)
    requires s.Valid() && Allowed(s, a) && UpToDate(Mirror(initial, s.reports), s.changeFlag, s.nets)
    ensures var s' := Act(s, a); UpToDate(Mirror(initial, s'.reports), s'.changeFlag, s'.nets)
  {
    hide Mirror, Changes, Enabled;
    if a.Callback? {
      if a.e.kind == ReadOnly {
        ReportUpdatesMirror(initial, s, a.e, a.reply);
      } else {
        RearmingChanges(s, a.e, a.reply);
      }
    }
  }

  // ---- A run as its actions tell it -----------------------------------------------------------

  // MyHDL's view of the time: its last time, and the replies that have repeated it.
  datatype Clock = Clock(time: nat, delta: nat)

  predicate IsReport(a: Action) {
    a.Callback? && a.e.kind == ReadOnly
  }

  function Tick(c: Clock, a: Action): Clock {
    if !IsReport(a) || a.reply.Down? then c
    else if a.reply.time == c.time then Clock(c.time, c.delta + 1)
    else Clock(a.reply.time, 0)
  }

  function TickAll(c: Clock, actions: seq<Action>): Clock
    decreases |actions|
  {
    if actions == [] then c else TickAll(Tick(c, actions[0]), actions[1..])
  }

  // The values of the replies that repeat the time, in order: those MyHDL wants driven.
  function Asks(c: Clock, a: Action): seq<seq<string>> {
    if IsReport(a) && a.reply.Reply? && a.reply.time == c.time then [a.reply.values] else []
  }

  function Asked(c: Clock, actions: seq<Action>): seq<seq<string>>
    decreases |actions|
  {
    if actions == [] then [] else Asks(c, actions[0]) + Asked(Tick(c, actions[0]), actions[1..])
  }

  predicate Quits(actions: seq<Action>)
    decreases |actions|
  {
    actions != [] && ((IsReport(actions[0]) && actions[0].reply.Down?) || Quits(actions[1..]))
  }

  // The value net i was given last, if any.
  function ValueAfter(value: string, i: nat, actions: seq<Action>): string
    decreases |actions|
  {
    if actions == [] then value
    else
      var a := actions[0];
      ValueAfter(if a.Change? && a.net == i then a.value else value, i, actions[1..])
  }

  // Whether net i was given a value after the last report.
  predicate ChangedSinceReport(changed: bool, i: nat, actions: seq<Action>)
    decreases |actions|
  {
    if actions == [] then changed
    else
      var a := actions[0];
      ChangedSinceReport(if a.Change? && a.net == i then true else changed && !IsReport(a), i, actions[1..])
  }

  function Now(s: Sim): Clock {
    Clock(s.pliTime, s.delta)
  }

  // What has been driven, and what the pending delta callback is about to drive.
  function Driving(s: Sim): seq<seq<string>> {
    s.put + (if !s.finished && Cycling(s) then [s.bufcp] else [])
  }

  lemma ReplyDrives(s: Sim, reply: Reply)
    requires s.Valid() && !s.finished && Armed(s) && s.delta < 1000 && reply.Reply? && Cooperative(s, reply)
    ensures var a := Callback(Event(s.Target(), ReadOnly), reply);
            var s' := Fire(s, a.e, reply);
            && Now(s') == Tick(Now(s), a) && Driving(s') == Driving(s) + Asks(Now(s), a) && !s'.finished
  {
    NotCycling(s);
    if reply.time == s.pliTime {
      ArmedToCycling(s, reply);
    } else {
      assert reply.time > s.pliTime;
      ArmedToAdvancing(s, reply);
      NotCycling(Fire(s, Event(s.Target(), ReadOnly), reply));
    }
    hide Armed, Cycling, Advancing, Fire, Cooperative;
  }

  lemma DownDrives(s: Sim)
    requires s.Valid() && Armed(s) && !s.finished
    ensures var a := Callback(Event(s.Target(), ReadOnly), Down);
            var s' := Fire(s, a.e, Down);
            && Now(s') == Now(s) && Driving(s') == Driving(s) && s'.finished
  {
    NotCycling(s);
    hide Armed, Cycling, Changes;
  }

  lemma ReportDrives(s: Sim, reply: Reply)
    requires Inv(s) && !s.finished && Armed(s) && Cooperative(s, reply)
    ensures var a := Callback(Event(s.Target(), ReadOnly), reply);
            var s' := Fire(s, a.e, reply);
            && Now(s') == Tick(Now(s), a) && Driving(s') == Driving(s) + Asks(Now(s), a)
            && s'.finished == reply.Down?
  {
    hide Armed, Cycling, Fire, Cooperative, Driving;
    if reply.Down? {
      DownDrives(s);
      assert Driving(s) + [] == Driving(s);
    } else {
      ReplyDrives(s, reply);
    }
  }

  lemma RearmingDrives(s: Sim, e: Event, reply: Reply)
    requires Inv(s) && !s.finished && !Armed(s) && Enabled(s, e)
    ensures var s' := Fire(s, e, reply);
            Now(s') == Now(s) && Driving(s') == Driving(s) && s'.finished == s.finished && e.kind != ReadOnly
  {
    Rearms(s, e, reply);
    RearmingChanges(s, e, reply);
    hide Inv, Armed, Cycling, Enabled, Fire, InPhase;
  }

  lemma ChangeDrives(s: Sim, net: nat, value: string)
    requires s.Valid() && net < |s.nets|
    ensures Driving(ChangeCallback(s, net, value)) == Driving(s)
  {
    SamePhase(s, ChangeCallback(s, net, value));
    hide Cycling;
  }

  lemma ActDrives(s: Sim, a: Action)
    requires Inv(s) && Allowed(s, a)
    ensures var s' := Act(s, a);
            && Now(s') == Tick(Now(s), a) && Driving(s') == Driving(s) + Asks(Now(s), a)
            && s'.finished == (s.finished || (IsReport(a) && a.reply.Down?))
  {
    match a
    case Callback(e, reply) =>
      if Armed(s) {
        ArmedRuns(s, e);
        hide Inv, Armed, Fire, Cooperative, Driving;
        ReportDrives(s, reply);
      } else {
        RearmingDrives(s, e, reply);
        hide *;
        SameClock(s, a);
      }
    case Change(net, value) =>
      ChangeDrives(s, net, value);
      hide Driving;
  }

  lemma SameClock(s: Sim, a: Action)
    requires a.Callback? && a.e.kind != ReadOnly
    ensures s.Valid() && Allowed(s, a) ==> Act(s, a) == Fire(s, a.e, a.reply)
    ensures Tick(Now(s), a) == Now(s) && Driving(s) + Asks(Now(s), a) == Driving(s) && !IsReport(a)
  {
    hide Fire, Driving;
  }

  // What an action does to a net: a change sets its value and its flag, a report clears the flag.
  lemma ActNets(s: Sim, a: Action, i: nat)
    requires s.Valid() && Allowed(s, a) && i < |s.nets|
    ensures var s' := Act(s, a);
            && |s'.nets| == |s.nets|
            && s'.nets[i] == (if a.Change? && a.net == i then a.value else s.nets[i])
            && s'.changeFlag[i] == (if a.Change? && a.net == i then true else s.changeFlag[i] && !IsReport(a))
  {
    hide DelayOf, CastDelay, Changes, Enabled;
  }

  /**
   * A run as its actions tell it. The interface's time, the values it has driven or is about to, and
   * the value and flag of every net are functions of MyHDL's replies and the simulator's changes.
   */
  lemma {:induction false} RunTells(s: Sim, actions: seq<Action>, s': Sim)
    requires Inv(s) && Reaches(s, actions, s')
    ensures Inv(s') && Now(s') == TickAll(Now(s), actions) && Driving(s') == Driving(s) + Asked(Now(s), actions)
    ensures s'.finished == (s.finished || Quits(actions))
    decreases |actions|
  {
    hide OnTime, InPhase, Allowed, Act, Driving, Tick, Asks, Now;
    if actions == [] {
      assert Driving(s) + [] == Driving(s);
    } else {
      ActKeeps(s, actions[0]);
      ActDrives(s, actions[0]);
      RunTells(Act(s, actions[0]), actions[1..], s');
    }
  }

  lemma {:induction false} NetTells(s: Sim, actions: seq<Action>, s': Sim, i: nat)
    requires s.Valid() && Reaches(s, actions, s') && i < |s.nets|
    ensures s'.Valid() && |s'.nets| == |s.nets|
    ensures s'.nets[i] == ValueAfter(s.nets[i], i, actions)
    ensures s'.changeFlag[i] == ChangedSinceReport(s.changeFlag[i], i, actions)
    decreases |actions|
  {
    hide Allowed, Act;
    if actions != [] {
      ActNets(s, actions[0], i);
      NetTells(Act(s, actions[0]), actions[1..], s', i);
    }
  }

  // The reported nets are the flagged ones with their values.
  lemma {:induction false} ChangesAre(changeFlag: seq<bool>, nets: seq<string>, i: nat)
    requires |changeFlag| == |nets| && i <= |nets|
    ensures forall k: nat, v: string :: (k, v) in Changes(changeFlag, nets, i) <==>
                                        i <= k < |nets| && changeFlag[k] && v == nets[k]
    decreases |nets| - i
  {
    if i < |nets| {
      ChangesAre(changeFlag, nets, i + 1);
      NextChange(changeFlag, nets, i);
      var first, rest := if changeFlag[i] then [(i, nets[i])] else [], Changes(changeFlag, nets, i + 1);
      hide Changes;
      assert forall c :: c in first + rest <==> c in first || c in rest;
    }
  }

  lemma NextChange(changeFlag: seq<bool>, nets: seq<string>, i: nat)
    requires |changeFlag| == |nets| && i < |nets|
    ensures Changes(changeFlag, nets, i)
         == (if changeFlag[i] then [(i, nets[i])] else []) + Changes(changeFlag, nets, i + 1)
  {
  }

  // Each is reported once, and in order.
  lemma {:induction false} ChangesInOrder(changeFlag: seq<bool>, nets: seq<string>, i: nat)
    requires |changeFlag| == |nets| && i <= |nets|
    ensures forall x :: 0 <= x < |Changes(changeFlag, nets, i)| ==> i <= Changes(changeFlag, nets, i)[x].0
    ensures forall x, y :: 0 <= x < y < |Changes(changeFlag, nets, i)| ==>
                           Changes(changeFlag, nets, i)[x].0 < Changes(changeFlag, nets, i)[y].0
    decreases |nets| - i
  {
    if i < |nets| {
      ChangesInOrder(changeFlag, nets, i + 1);
      NextChange(changeFlag, nets, i);
      hide Changes;
    }
  }

  // ---- Whole runs -----------------------------------------------------------------------------

  lemma ActKeeps(s: Sim, a: Action)
    requires Inv(s) && Allowed(s, a)
    ensures Inv(Act(s, a))
  {
    match a
    case Callback(e, reply) =>
      if Armed(s) {
        ArmedRuns(s, e);
        hide Inv, Armed, Fire, Enabled, Cooperative;
        ReadonlyKeeps(s, reply);
      } else {
        RearmingKeeps(s, e, reply);
      }
    case Change(net, value) =>
      ChangeKeeps(s, net, value);
  }

  lemma {:induction false} RunKeeps(s: Sim, actions: seq<Action>, s': Sim, initial: seq<string>)
    requires Inv(s) && Reaches(s, actions, s')
    requires UpToDate(Mirror(initial, s.reports), s.changeFlag, s.nets)
    ensures Inv(s') && UpToDate(Mirror(initial, s'.reports), s'.changeFlag, s'.nets)
    decreases |actions|
  {
    hide Allowed, Act, OnTime, InPhase, Mirror;
    if actions != [] {
      ActKeeps(s, actions[0]);
      ActUpToDate(initial, s, actions[0]);
      RunKeeps(Act(s, actions[0]), actions[1..], s', initial);
    }
  }

  lemma StartInv(s: Sim)
    requires Initial(s)
    ensures Inv(s) && UpToDate(Mirror(s.nets, s.reports), s.changeFlag, s.nets)
  {
  }

  /**
   * The co-simulation theorem. Over every run with a cooperative MyHDL, whatever the order of
   * simultaneous callbacks and whatever the nets do: no assertion fails, every report was made at
   * exactly pli_time * 1000 + delta in full width, at a strictly later (pli_time, delta) than the last,
   * the values of every reply that repeats the time are driven exactly once and in order, but for the
   * last while its delta callback is pending, and MyHDL knows the value of every net not flagged as
   * changed.
   */
  lemma CosimulationAgrees(s: Sim, actions: seq<Action>, s': Sim)
    requires Initial(s) && Reaches(s, actions, s')
    ensures !s'.failed && OnTime(s') && (!s'.finished ==> InPhase(s'))
    ensures var asked := Asked(Clock(0, 0), actions);
            if !s'.finished && Cycling(s') then asked != [] && s'.put == asked[..|asked| - 1] else s'.put == asked
    ensures UpToDate(Mirror(s.nets, s'.reports), s'.changeFlag, s'.nets)
  {
    StartInv(s);
    StartDrives(s);
    hide Initial, Reaches, Mirror, InPhase, Cycling;
    RunKeeps(s, actions, s', s.nets);
    RunTells(s, actions, s');
    assert [] + Asked(Clock(0, 0), actions) == Asked(Clock(0, 0), actions);
    assert (s'.put + [s'.bufcp])[..|s'.put|] == s'.put;
  }

  lemma StartDrives(s: Sim)
    requires Initial(s)
    ensures Driving(s) == [] && Now(s) == Clock(0, 0) && !s.finished
  {
    assert Armed(s);
    NotCycling(s);
  }

  /**
   * What MyHDL is told. After any run the next report is made with MyHDL's own time, at that time, and
   * lists exactly the nets that were given a value since the report before, with their latest values,
   * in order; it is the last report exactly if MyHDL goes down.
   */
  lemma ReportIsExact(s: Sim, actions: seq<Action>, s': Sim, a: Action)
    requires Initial(s) && Reaches(s, actions, s') && s'.Valid() && Allowed(s', a) && IsReport(a)
    ensures var t, c := Act(s', a), TickAll(Clock(0, 0), actions);
            && t.finished == a.reply.Down?
            && |t.reports| == |s'.reports| + 1 && t.reports[..|s'.reports|] == s'.reports
            && var r := t.reports[|s'.reports|];
            && r.pliTime == c.time && r.delta == c.delta && r.time == c.time * 1000 + c.delta
            && ListsChanges(r.changes, s.nets, actions)
  {
    hide *;
    StartInv(s);
    StartDrives(s);
    RunTells(s, actions, s');
    ReportMeans(s', a);
    ChangesAreListed(s, actions, s');
    ReportFields(s', TickAll(Clock(0, 0), actions), Act(s', a).reports, s'.reports);
  }

  // What a report lists after the given actions.
  ghost predicate ListsChanges(changes: seq<(nat, string)>, initial: seq<string>, actions: seq<Action>) {
    && (forall k: nat, v: string :: (k, v) in changes <==>
          k < |initial| && ChangedSinceReport(false, k, actions) && v == ValueAfter(initial[k], k, actions))
    && (forall x, y :: 0 <= x < y < |changes| ==> changes[x].0 < changes[y].0)
  }

  lemma ChangesAreListed(s: Sim, actions: seq<Action>, s': Sim)
    requires Initial(s) && Reaches(s, actions, s') && s'.Valid()
    ensures ListsChanges(Changes(s'.changeFlag, s'.nets, 0), s.nets, actions)
  {
    ChangesAre(s'.changeFlag, s'.nets, 0);
    ChangesInOrder(s'.changeFlag, s'.nets, 0);
    NetCount(s, actions, s');
    assert forall k: nat :: k < |s.nets| ==> !s.changeFlag[k];
    hide Initial, Reaches, Changes;
    forall k: nat | k < |s.nets|
      ensures s'.nets[k] == ValueAfter(s.nets[k], k, actions)
      ensures s'.changeFlag[k] == ChangedSinceReport(false, k, actions)
    {
      NetTells(s, actions, s', k);
    }
    hide ValueAfter, ChangedSinceReport;
  }

  lemma ActCount(s: Sim, a: Action)
    requires s.Valid() && Allowed(s, a)
    ensures |Act(s, a).nets| == |s.nets|
  {
    hide DelayOf, CastDelay, Changes, Enabled, Cooperative;
  }

  lemma {:induction false} NetCount(s: Sim, actions: seq<Action>, s': Sim)
    requires s.Valid() && Reaches(s, actions, s')
    ensures |s'.nets| == |s.nets|
    decreases |actions|
  {
    hide Allowed, Act;
    if actions != [] {
      ActCount(s, actions[0]);
      NetCount(Act(s, actions[0]), actions[1..], s');
    }
  }

  lemma ReportFields(s: Sim, c: Clock, reports: seq<Report>, before: seq<Report>)
    requires Now(s) == c && |reports| > |before|
    requires reports == before + [Report(s.pliTime, s.delta, s.Target(), reports[|before|].changes)]
    ensures |reports| == |before| + 1 && reports[..|before|] == before
    ensures var r := reports[|before|];
            r.pliTime == c.time && r.delta == c.delta && r.time == c.time * 1000 + c.delta
  {
  }

  lemma ReportMeans(s: Sim, a: Action)
    requires Inv(s) && Allowed(s, a) && IsReport(a)
    ensures !s.finished && Act(s, a).finished == a.reply.Down?
    ensures Act(s, a).reports
         == s.reports + [Report(s.pliTime, s.delta, s.Target(), Changes(s.changeFlag, s.nets, 0))]
  {
    if Armed(s) {
      ArmedRuns(s, a.e);
      hide Changes, DelayOf, CastDelay, Inv;
    } else {
      hide Fire;
      Rearms(s, a.e, a.reply);
    }
  }

  // At most one read-only callback is pending; it is due on target, with a delta callback one unit later.
  lemma ReadOnlyIsPaired(s: Sim, e: Event)
    requires Inv(s) && !s.finished && e in s.queue && e.kind == ReadOnly
    ensures e == Event(s.Target(), ReadOnly) && s.queue[e] == 1
    ensures Event(e.time + 1, Delta) in s.queue
  {
  }

  // A left-over delta callback finds delta = 0 and does nothing at all; one that finds another
  // value is the only pending event and runs exactly on target.
  lemma DeltaCallbackMeans(s: Sim, e: Event, reply: Reply)
    requires Inv(s) && Enabled(s, e) && e.kind == Delta
    ensures s.delta == 0 ==> Fire(s, e, reply) == s.(now := e.time, queue := s.queue - multiset{e})
    ensures s.delta > 0 ==> e.time == s.Target() && s.queue == multiset{e} && Armed(Fire(s, e, reply))
  {
  }

  // How many callbacks can run before the next read-only callback.
  function Wait(s: Sim): nat {
    if Armed(s) then 0 else if ArmedLate(s) || Cycling(s) || Waiting(s) then 1 else 2
  }

  // The co-simulation never stalls: an event can always run, and after at most two callbacks it is
  // the read-only one.
  lemma NextReport(s: Sim) returns (e: Event)
    requires Inv(s) && !s.finished
    ensures Enabled(s, e) && (Armed(s) <==> e.kind == ReadOnly)
    ensures forall f, reply :: Enabled(s, f) && f.kind != ReadOnly ==> Wait(Fire(s, f, reply)) < Wait(s)
  {
    e := FirstEvent(s);
    forall f, reply | Enabled(s, f) && f.kind != ReadOnly
      ensures Wait(Fire(s, f, reply)) < Wait(s)
    {
      WaitShrinks(s, f, reply);
    }
  }

  lemma FirstEvent(s: Sim) returns (e: Event)
    requires Inv(s) && !s.finished
    ensures Enabled(s, e) && (Armed(s) <==> e.kind == ReadOnly)
  {
    if Armed(s) {
      e := Event(s.Target(), ReadOnly);
    } else if ArmedLate(s) {
      e := Event(s.now, Delta);
    } else if Cycling(s) {
      e := Event(s.Target(), Delta);
    } else if Advancing(s) {
      e := Event(s.now + 1, Delta);
    } else {
      e := Event(s.Target(), Delay);
    }
  }

  lemma WaitShrinks(s: Sim, e: Event, reply: Reply)
    requires Inv(s) && !s.finished && Enabled(s, e) && e.kind != ReadOnly
    ensures Wait(Fire(s, e, reply)) < Wait(s)
  {
    if Armed(s) {
      ArmedRuns(s, e);
    } else {
      OnlyEvent(s, e);
      hide Fire, Enabled;
      WaitShrinksRearming(s, e, reply);
    }
  }

  // In the phases with one pending event, that one runs.
  lemma OnlyEvent(s: Sim, e: Event)
    requires Enabled(s, e)
    ensures Cycling(s) ==> e == Event(s.Target(), Delta)
    ensures Waiting(s) ==> e == Event(s.Target(), Delay)
  {
  }

  lemma WaitShrinksRearming(s: Sim, e: Event, reply: Reply)
    requires s.Valid() && InPhase(s) && !Armed(s) && Enabled(s, e)
    requires Cycling(s) ==> e == Event(s.Target(), Delta)
    requires Waiting(s) ==> e == Event(s.Target(), Delay)
    ensures Wait(Fire(s, e, reply)) < Wait(s)
  {
    hide Fire, Enabled;
    if Cycling(s) {
      CyclingToArmed(s, reply);
    } else if ArmedLate(s) {
      ArmedLateRuns(s, e);
      ArmedLateToArmed(s, reply);
    } else if Waiting(s) {
      WaitingToArmed(s, reply);
    } else {
      AdvancingRuns(s, e);
      if e.kind == Delta {
        AdvancingToWaiting(s, reply);
      } else {
        AdvancingToArmedLate(s, reply);
      }
    }
  }

  // ---- Exactly when a reply keeps the times together ------------------------------------------

  lemma PendingDelay(s: Sim, e: Event)
    requires InPhase(s) && e in s.queue && e.kind == Delay
    ensures e.time == s.Target()
  {
  }

  lemma AdvanceQueues(s: Sim, reply: Reply)
    requires s.Valid() && Armed(s) && reply.Reply?
    requires s.delta < DelayOf(s.pliTime, reply.time) < U32
    ensures var e := Event(s.Target() + DelayOf(s.pliTime, reply.time) - s.delta, Delay);
            e in Fire(s, Event(s.Target(), ReadOnly), reply).queue
  {
    SmallDelay(DelayOf(s.pliTime, reply.time), s.delta);
    hide DelayOf, CastDelay, Changes;
  }

  lemma ReadonlyGlobals(s: Sim, reply: Reply)
    requires s.Valid() && reply.Reply?
    requires !Fire(s, Event(s.Target(), ReadOnly), reply).failed
    ensures var s', delay := Fire(s, Event(s.Target(), ReadOnly), reply), DelayOf(s.pliTime, reply.time);
            if delay > 0 then s.delta < delay < U32 && s'.Target() == reply.time * 1000
            else s.delta < 999 && s'.pliTime == s.pliTime
  {
  }

  lemma CooperativeBy(s: Sim, reply: Reply, delay: nat)
    requires reply.Reply? && reply.time < U64
    requires if delay > 0 then delay < U32 && s.Target() + delay - s.delta == reply.time * 1000
             else s.delta < 999 && s.pliTime == reply.time
    ensures Cooperative(s, reply)
  {
  }

  lemma AgreeingIsCooperative(s: Sim, reply: Reply)
    requires s.Valid() && Armed(s) && reply.Reply? && reply.time < U64
    requires var s' := Fire(s, Event(s.Target(), ReadOnly), reply);
             !s'.failed && s'.pliTime == reply.time && InPhase(s')
    ensures Cooperative(s, reply)
  {
    hide *;
    var s' := Fire(s, Event(s.Target(), ReadOnly), reply);
    var delay := DelayOf(s.pliTime, reply.time);
    ReadonlyGlobals(s, reply);
    if delay > 0 {
      AdvanceQueues(s, reply);
      PendingDelay(s', Event(s.Target() + delay - s.delta, Delay));
    }
    CooperativeBy(s, reply, delay);
  }

  /**
   * A reply leaves the interface in agreement, at the time MyHDL gave and without a failed assertion,
   * exactly when it is cooperative.
   */
  lemma AgreesIffCooperative(s: Sim, reply: Reply)
    requires Inv(s) && !s.finished && Armed(s) && reply.Reply? && reply.time < U64
    ensures var s' := Fire(s, Event(s.Target(), ReadOnly), reply);
            !s'.failed && s'.pliTime == reply.time && InPhase(s') <==> Cooperative(s, reply)
  {
    if Cooperative(s, reply) {
      if reply.time == s.pliTime {
        ArmedToCycling(s, reply);
      } else {
        ArmedToAdvancing(s, reply);
      }
    }
    var s' := Fire(s, Event(s.Target(), ReadOnly), reply);
    hide Armed, Fire, Cooperative, InPhase;
    if !s'.failed && s'.pliTime == reply.time && InPhase(s') {
      AgreeingIsCooperative(s, reply);
    }
  }

  // The product with 1000 wraps to zero exactly for the multiples of 2 to the 61.
  lemma WrapsToZeroIff(step: nat)
    ensures (step * 1000) % 0x1_0000_0000_0000_0000 == 0 <==> step % 0x2000_0000_0000_0000 == 0
  {
    var wrap := 0x2000_0000_0000_0000;
    if step % wrap == 0 {
      var q := step / wrap;
      assert step * 1000 == (125 * q) * U64;
      Arith.DivUnique(step * 1000, U64, 125 * q, 0);
    }
    if (step * 1000) % U64 == 0 {
      // 125 has an inverse modulo 2 to the 61.
      var m, inverse := (step * 1000) / U64, 2066035336255469781;
      assert step * 1000 == m * U64;
      assert step == (m * inverse - 112 * step) * wrap;
      Arith.DivUnique(step, wrap, m * inverse - 112 * step, 0);
    }
  }

  /**
   * The range assertion on the delay comes after the product with 1000 has wrapped. A step forward is
   * taken for one more delta cycle exactly when it is a multiple of 2 to the 61, so not only when it is
   * none.
   */
  lemma LongStepTakenForDeltaIff(s: Sim, reply: Reply)
    requires Inv(s) && !s.finished && Armed(s) && s.delta < 999
    requires reply.Reply? && s.pliTime <= reply.time < U64
    ensures var s' := Fire(s, Event(s.Target(), ReadOnly), reply);
            !s'.failed && s'.pliTime == s.pliTime && s'.delta == s.delta + 1
            <==> (reply.time - s.pliTime) % 0x2000_0000_0000_0000 == 0
  {
    MaskAgrees(s.Target());
    WrapsToZeroIff(reply.time - s.pliTime);
    hide Changes, CastDelay;
  }

  /**
   * When an assertion fails: on a report, when the times differ in their low 32 bits; on a reply that
   * finds them in agreement, when the wrapped product leaves 32 bits, does not exceed delta, or is zero
   * for the thousandth time.
   */
  lemma AssertionFailsIff(s: Sim, time: nat, values: seq<string>)
    requires s.Valid() && !s.failed
    ensures SendReport(s).failed <==> s.now % 0x1_0000_0000 != (s.pliTime * 1000 + s.delta) % 0x1_0000_0000
    ensures var delay := ((time - s.pliTime) * 1000) % 0x1_0000_0000_0000_0000;
            TakeReply(s, time, values).failed
            <==> delay > 0xFFFF_FFFF || 0 < delay <= s.delta || (delay == 0 && s.delta >= 999)
  {
    MaskAgrees(s.Target());
    hide Changes, CastDelay;
  }

  // A reply that repeats the time is driven by the delta callback that follows, as it came.
  lemma ReplyIsDriven(s: Sim, reply: Reply, ignored: Reply)
    requires Inv(s) && !s.finished && Armed(s) && reply.Reply? && Cooperative(s, reply) && reply.time == s.pliTime
    ensures var s' := Fire(s, Event(s.Target(), ReadOnly), reply);
            var e := Event(s'.Target(), Delta);
            Enabled(s', e) && Fire(s', e, ignored).put == s.put + [reply.values] && Armed(Fire(s', e, ignored))
  {
    ArmedToCycling(s, reply);
    var s' := Fire(s, Event(s.Target(), ReadOnly), reply);
    CyclingToArmed(s', ignored);
    RearmingChanges(s', Event(s'.Target(), Delta), ignored);
    hide Fire, Armed;
  }
}
