/** From the text of an SMS to the two pins of the pilot wire: one order, one exchange. */
module EndToEnd {
  import opened Text
  import opened StateFile
  import opened SmsGrammar
  import opened Wire
  import opened Control
  import P = ControlProperties
  import X = TextEffects
  import T = FleetTrace
  import S = Serving
  import Firmware
  import F = Fleet

  /** The base hears one SMS and takes it. */
  lemma Heard(w: F.World, sms: Sms, seed: nat)
    requires w.base.queue == [] && Accepts(w.base.ctl, sms.0) && !AsksReboot(sms.1)
    ensures var v := F.Step(F.Step(w, F.ToBase(Arrive(sms), seed)), F.ToBase(Commands, seed));
            && v.base.ctl == Handle(w.base.ctl, sms) && v.nodes == w.nodes && v.nextConn == w.nextConn
  {
    hide *;
    var a, b := F.ToBase(Arrive(sms), seed), F.ToBase(Commands, seed);
    BaseTakes(w.base, sms);
    BaseOnly(w, a);
    BaseOnly(F.Step(w, a), b);
  }

  lemma BaseTakes(b: Base, sms: Sms)
    requires b.queue == [] && Accepts(b.ctl, sms.0) && !AsksReboot(sms.1)
    ensures !Restarts(b, Arrive(sms)) && !Restarts(Control.Step(b, Arrive(sms)), Commands)
    ensures Control.Step(Control.Step(b, Arrive(sms)), Commands).ctl == Handle(b.ctl, sms)
  {
    P.OneTick(b.ctl, sms);
    hide Handle, AsksReboot, Accepts;
    assert [sms][1..] == [] && [] + [sms] == [sms];
    assert !GoesDown(b.ctl, [sms]);
    hide Drain, GoesDown, Taken, Boot;
  }

  lemma BaseOnly(w: F.World, e: F.Event)
    requires e.ToBase?
    ensures var v := F.Step(w, e);
            v.base == Control.Step(w.base, e.input) && v.nodes == w.nodes && v.nextConn == w.nextConn
  {
    hide Control.Step, Restarts;
  }

  lemma AskStep(w: F.World, id: nat)
    requires id in w.nodes && w.nodes[id].phase == F.Resting
    requires ByteText(w.nodes[id].name) && |w.nodes[id].name| < 32
    ensures var v := F.Step(w, F.Ask(id));
            && id in v.nodes && v.nodes[id].phase == F.Waiting(w.nextConn) && w.nextConn in v.requests
            && v.nodes[id].name == w.nodes[id].name && v.base == w.base
  {
    hide EncodeRequest, Firmware.Begin, NameField, ByteText;
  }

  lemma ServeStep(w: F.World, conn: nat, at: int)
    requires conn in w.requests
    ensures var v := F.Step(w, F.Serve(conn, at));
            v.nodes == w.nodes && v.answers == F.Served(w, conn, at).answers
  {
    F.ServedLinks(w, conn, at);
    hide F.Served, F.Noted;
  }

  lemma ReadStep(w: F.World, id: nat, now: nat, state: byte)
    requires id in w.nodes && w.nodes[id].phase.Waiting? && w.nodes[id].phase.conn in w.answers
    requires var m := w.answers[w.nodes[id].phase.conn].bytes;
             |m| == MESSAGE_SIZE && Judge(m) == Accepted(state) && state <= 3
    ensures var v := F.Step(w, F.Finish(id, F.Read, now));
            id in v.nodes && v.nodes[id].fw.state == state
            && Firmware.Drives(v.nodes[id].fw.positive, v.nodes[id].fw.negative, state)
  {
    hide Judge;
    Firmware.PinsExactly(state);
    hide Firmware.Pins, Firmware.Drives;
  }

  /** What is told at the moment the base answers is what the heater shows when it has read
      the answer. */
  lemma {:induction false} AnswerShows(w0: F.World, events: seq<F.Event>, id: nat, at: int, now: nat)
    requires F.Initial(w0) && id in F.Run(w0, events).nodes && F.Run(w0, events).nodes[id].phase == F.Resting
    ensures var w := F.Run(w0, events);
            var v := F.Step(F.Step(F.Step(w, F.Ask(id)), F.Serve(w.nextConn, at)), F.Finish(id, F.Read, now));
            id in v.nodes && T.Shows(v.nodes[id].fw, Lookup(w.base.ctl.mem, Upper(w.nodes[id].name)))
  {
    var w := F.Run(w0, events);
    F.RunOk(w0, events);
    NodeFacts(w0, events, w, id);
    AskStep(w, id);
    var events1 := events + [F.Ask(id)];
    var w1 := F.Step(w, F.Ask(id));
    OneMoreEvent(w0, events, F.Ask(id));
    F.RunOk(w0, events1);
    WaitingFacts(w0, events1, w1, id);
    var conn, n1 := w.nextConn, w1.nodes[id];
    F.ServedAnswer(w0, events1, w1, n1, at);
    ServeStep(w1, conn, at);
    var w2 := F.Step(w1, F.Serve(conn, at));
    ToldNow(w0, events1, n1.name);
    var told := Lookup(w.base.ctl.mem, Upper(n1.name));
    CodesAreStates(told);
    ReadStep(w2, id, now, StateCode(told));
    hide *;
    T.CodeShows(F.Step(w2, F.Finish(id, F.Read, now)).nodes[id].fw, told);
  }

  lemma CodesAreStates(s: HeaterState)
    ensures StateCode(s) <= 3
  {
  }

  lemma OneMoreEvent(w0: F.World, events: seq<F.Event>, e: F.Event)
    ensures F.Run(w0, events + [e]) == F.Step(F.Run(w0, events), e)
  {
    hide F.Step;
    assert (events + [e])[..|events|] == events;
  }

  lemma NodeFacts(w0: F.World, events: seq<F.Event>, w: F.World, id: nat)
    requires F.WorldOk(w0, events, w) && id in w.nodes
    ensures ByteText(w.nodes[id].name) && |w.nodes[id].name| < 32
  {
    assert F.NodeOk(w0, events, w, w.nodes[id]);
  }

  lemma WaitingFacts(w0: F.World, events: seq<F.Event>, w: F.World, id: nat)
    requires F.WorldOk(w0, events, w) && id in w.nodes
    ensures F.NodeOk(w0, events, w, w.nodes[id])
  {
  }

  lemma ToldNow(w0: F.World, events: seq<F.Event>, name: string)
    ensures F.ToldAt(w0, events, |events|, name)
            == StateCode(Lookup(F.Run(w0, events).base.ctl.mem, Upper(name)))
  {
    assert events[..|events|] == events;
  }

  /** One order to a heater, heard by the base and taken; then one exchange of that heater. */
  ghost function AfterOrder(w: F.World, sms: Sms, id: nat, at: int, now: nat, seed: nat): F.World {
    var v := F.Step(F.Step(w, F.ToBase(Arrive(sms), seed)), F.ToBase(Commands, seed));
    F.Step(F.Step(F.Step(v, F.Ask(id)), F.Serve(v.nextConn, at)), F.Finish(id, F.Read, now))
  }

  lemma {:induction false} OrderShows(
      w0: F.World, events: seq<F.Event>, id: nat, sms: Sms, at: int, now: nat, seed: nat)
    requires F.Initial(w0) && P.Good(w0.base.ctl) && !AsksReboot(sms.1)
    requires var w := F.Run(w0, events);
             id in w.nodes && w.nodes[id].phase == F.Resting && w.base.queue == [] && Accepts(w.base.ctl, sms.0)
    ensures var w := F.Run(w0, events);
            var v := AfterOrder(w, sms, id, at, now, seed);
            id in v.nodes && T.Shows(v.nodes[id].fw, Lookup(Handle(w.base.ctl, sms).mem, Upper(w.nodes[id].name)))
  {
    var w := F.Run(w0, events);
    var a, b := F.ToBase(Arrive(sms), seed), F.ToBase(Commands, seed);
    Heard(w, sms, seed);
    OneMoreEvent(w0, events, a);
    OneMoreEvent(w0, events + [a], b);
    hide F.Run, F.Step, F.Initial, Handle, Accepts, AsksReboot, Lookup, T.Shows;
    AnswerShows(w0, events + [a] + [b], id, at, now);
  }

  lemma {:induction false} BaseIsGood(w0: F.World, events: seq<F.Event>)
    requires P.Good(w0.base.ctl)
    ensures P.Good(F.Run(w0, events).base.ctl)
  {
    F.BaseRuns(w0, events);
    P.RunGood(w0.base, F.Inputs(events));
  }

  /** Off means off. In any reachable fleet whose base has nothing queued, an order to a heater
      by its name, or to all, in any case and padding, from a phone that is heard, and then one
      exchange of that heater, leave it in the ordered state, by the number of that state and
      by its two pins. */
  lemma {:induction false} OrderReachesPins(
      w0: F.World, events: seq<F.Event>, id: nat, sms: Sms, at: int, now: nat, seed: nat)
    requires F.Initial(w0) && P.Good(w0.base.ctl)
    requires var w := F.Run(w0, events);
             id in w.nodes && w.nodes[id].phase == F.Resting && w.base.queue == [] && Accepts(w.base.ctl, sms.0)
    ensures var w := F.Run(w0, events);
            var t, name := Normalise(sms.1), Upper(w.nodes[id].name);
            var v := AfterOrder(w, sms, id, at, now, seed);
            (t == "HEATER " + name + " OFF" || t == "ALL OFF" ==>
               id in v.nodes && var f := v.nodes[id].fw; f.state == 0 && f.positive && !f.negative)
            && (t == "HEATER " + name + " DEFROST" || t == "ALL DEFROST" ==>
               id in v.nodes && var f := v.nodes[id].fw; f.state == 1 && !f.positive && f.negative)
            && (t == "HEATER " + name + " ECO" || t == "ALL ECO" ==>
               id in v.nodes && var f := v.nodes[id].fw; f.state == 2 && f.positive && f.negative)
            && (t == "HEATER " + name + " COMFORT" || t == "ALL COMFORT" ==>
               id in v.nodes && var f := v.nodes[id].fw; f.state == 3 && !f.positive && !f.negative)
            && (t == "HEATER " + name + " ON" || t == "ALL ON" ==>
               id in v.nodes && var f := v.nodes[id].fw; f.state == 3 && !f.positive && !f.negative)
  {
    var w := F.Run(w0, events);
    var t, name := Normalise(sms.1), Upper(w.nodes[id].name);
    var v := AfterOrder(w, sms, id, at, now, seed);
    F.RunOk(w0, events);
    NameFacts(w0, events, w, id);
    BaseIsGood(w0, events);
    hide *;
    OrdersHere(t, name);
    forall s | Orders(t, name, s) ensures id in v.nodes && T.Shows(v.nodes[id].fw, s) {
      TextTold(w.base.ctl, sms, name, s);
      OrderShows(w0, events, id, sms, at, now, seed);
    }
    if id in v.nodes { ShownIs(v.nodes[id].fw); }
  }

  /** The texts that order a state for a heater of that name. */
  predicate Orders(t: string, name: string, s: HeaterState) {
    match s
    case Off => t == "HEATER " + name + " OFF" || t == "ALL OFF"
    case Defrost => t == "HEATER " + name + " DEFROST" || t == "ALL DEFROST"
    case Eco => t == "HEATER " + name + " ECO" || t == "ALL ECO"
    case Comfort =>
      t == "HEATER " + name + " COMFORT" || t == "ALL COMFORT" || t == "HEATER " + name + " ON" || t == "ALL ON"
  }

  lemma OrdersHere(t: string, name: string)
    ensures t == "HEATER " + name + " OFF" || t == "ALL OFF" ==> Orders(t, name, Off)
    ensures t == "HEATER " + name + " DEFROST" || t == "ALL DEFROST" ==> Orders(t, name, Defrost)
    ensures t == "HEATER " + name + " ECO" || t == "ALL ECO" ==> Orders(t, name, Eco)
    ensures t == "HEATER " + name + " COMFORT" || t == "ALL COMFORT" ==> Orders(t, name, Comfort)
    ensures t == "HEATER " + name + " ON" || t == "ALL ON" ==> Orders(t, name, Comfort)
    ensures forall s :: Orders(t, name, s) ==> t != "" && (t[0] == 'H' || t[0] == 'A')
  {
  }

  lemma ShownIs(f: Firmware.Fw)
    ensures T.Shows(f, Off) ==> f.state == 0 && f.positive && !f.negative
    ensures T.Shows(f, Defrost) ==> f.state == 1 && !f.positive && f.negative
    ensures T.Shows(f, Eco) ==> f.state == 2 && f.positive && f.negative
    ensures T.Shows(f, Comfort) ==> f.state == 3 && !f.positive && !f.negative
  {
  }

  lemma {:induction false} TextTold(c: Ctl, sms: Sms, name: string, s: HeaterState)
    requires P.Good(c) && Accepts(c, sms.0) && ValidName(name) && Orders(Normalise(sms.1), name, s)
    ensures !AsksReboot(sms.1) && Lookup(Handle(c, sms).mem, name) == s
  {
    OrdersHere(Normalise(sms.1), name);
    OrdersAreNoReboot(sms.1, name);
    X.AllOrder(c, sms.0, sms.1);
    X.HeaterOrderTexts(c, sms.0, sms.1, name);
    OrderTold(c, sms, name);
    hide Normalise, Handle, X.AllTold, X.OneTold, X.Replied, X.FileDefault, X.FileHeater, AsksReboot, Lookup, Accepts;
    hide P.Good, ValidName;
  }

  lemma NameFacts(w0: F.World, events: seq<F.Event>, w: F.World, id: nat)
    requires F.WorldOk(w0, events, w) && id in w.nodes
    ensures ValidName(Upper(w.nodes[id].name))
  {
    assert F.NodeOk(w0, events, w, w.nodes[id]);
    UpperOfName(w.nodes[id].name);
  }

  lemma OrdersAreNoReboot(content: string, name: string)
    ensures var t := Normalise(content);
            (t != "" && (t[0] == 'H' || t[0] == 'A') ==> !AsksReboot(content))
  {
    X.RebootText(content);
    hide Parse, Normalise;
  }

  lemma OrderTold(c: Ctl, sms: Sms, name: string)
    ensures var d := Handle(c, sms);
            && (X.AllTold(c, d, Off) || X.OneTold(c, d, name, Off) ==> Lookup(d.mem, name) == Off)
            && (X.AllTold(c, d, Defrost) || X.OneTold(c, d, name, Defrost) ==> Lookup(d.mem, name) == Defrost)
            && (X.AllTold(c, d, Eco) || X.OneTold(c, d, name, Eco) ==> Lookup(d.mem, name) == Eco)
            && (X.AllTold(c, d, Comfort) || X.OneTold(c, d, name, Comfort) ==> Lookup(d.mem, name) == Comfort)
  {
    hide Handle, Lookup;
  }
}
