/** The reboot alarm in the fleet: exactly when serving a request makes the base send one. */
module FleetAlarms {
  import opened StateFile
  import opened Wire
  import opened Control
  import D = Devices
  import S = Serving
  import F = Fleet
  import Firmware

  /** A message number as it goes on the wire. */
  function Numbered(seed: nat, sent: nat): nat {
    D.HeaterCounter(seed, sent) % WORD64
  }

  predicate NodeCounted(n: F.Node) {
    && ValidName(n.name) && |n.name| < 31 && ByteText(n.name)
    && n.seed < 0x1000_0000
    && n.fw.counter == Numbered(n.seed, n.sent)
  }

  /** The bytes on a connection are the request of the heater that is on record for it. */
  predicate Recorded(o: F.Origin, m: seq<byte>) {
    && ValidName(o.name) && |o.name| < 31 && ByteText(o.name)
    && o.seed < 0x1000_0000
    && m == EncodeRequest(o.mac, Numbered(o.seed, o.sent), NameField(o.name))
  }

  /** The counter stored for an address with a heater on record is that of the request of
      this heater that was served last. */
  ghost predicate Filed(r: D.Registry, last: map<nat, F.Origin>) {
    && last.Keys <= r.counters.Keys
    && forall v :: v in last ==> last[v].seed < 0x1000_0000 && r.counters[v] == Numbered(last[v].seed, last[v].sent)
  }

  /** The requests under way: those on record are heaters' requests. */
  ghost predicate Underway(w: F.World) {
    && (forall c :: c in w.requests ==>
          |w.requests[c]| == MESSAGE_SIZE && (c in w.origins ==> Recorded(w.origins[c], w.requests[c])))
    && (forall c :: c in w.origins ==> c < w.nextConn)
  }

  ghost predicate Counted(w: F.World) {
    && (forall id :: id in w.nodes ==> NodeCounted(w.nodes[id]))
    && Underway(w)
    && Filed(w.registry, w.lastServed)
  }

  // ---------------------------------------------------------------- the counters

  lemma OneMore(seed: nat, sent: nat)
    ensures Numbered(seed, sent + 1) == (Numbered(seed, sent) + 1) % WORD64
  {
    var v := D.HeaterCounter(seed, sent);
    assert D.HeaterCounter(seed, sent + 1) == v + 1;
    assert v == v / WORD64 * WORD64 + v % WORD64;
  }

  lemma BootCounted(n: F.Node, seed: nat)
    requires NodeCounted(n) && seed < 0x1000_0000
    ensures NodeCounted(F.Booted(n, seed))
  {
    assert seed * 0x1_0000_0000 <= 0x0FFF_FFFF * 0x1_0000_0000;
  }

  lemma BegunCounted(n: F.Node, o: Firmware.Outcome)
    requires NodeCounted(n)
    ensures NodeCounted(F.Begun(n, o))
  {
    OneMore(n.seed, n.sent);
    hide Numbered;
  }

  lemma SameCounter(f: Firmware.Fw, o: Firmware.Outcome, now: nat, e: Firmware.Event)
    ensures Firmware.FailSafe(Firmware.Conclude(f, o, now)).counter == f.counter
    ensures !e.Cycle? ==> Firmware.Step(f, e).counter == f.counter
  {
  }

  lemma ConcludedCounted(w: F.World, n: F.Node, how: F.Ending, now: nat)
    requires NodeCounted(n) && n.phase.Waiting?
    ensures NodeCounted(F.Concluded(w, n, how, now))
  {
    hide Firmware.FailSafe, Firmware.Conclude, Numbered, Judge;
    forall o ensures Firmware.FailSafe(Firmware.Conclude(n.fw, o, now)).counter == n.fw.counter {
      SameCounter(n.fw, o, now, Firmware.Idle);
    }
  }

  // --------------------------------------------------------------- event by event

  lemma {:induction false} NodesCounted(w: F.World, e: F.Event)
    requires Counted(w)
    ensures forall id :: id in F.Step(w, e).nodes ==> NodeCounted(F.Step(w, e).nodes[id])
  {
    forall id | id in F.Step(w, e).nodes ensures NodeCounted(F.Step(w, e).nodes[id]) {
      NodeAfter(w, e, id);
    }
  }

  lemma NodeAfter(w: F.World, e: F.Event, id: nat)
    requires Counted(w) && id in F.Step(w, e).nodes
    ensures NodeCounted(F.Step(w, e).nodes[id])
  {
    hide Firmware.FailSafe, Firmware.Conclude, Firmware.Step, Numbered, Control.Step, EncodeRequest;
    hide F.Served, F.Booted, F.Begun, F.Concluded, NameField, Recorded, Filed;
    assert id in w.nodes by {
      if e.Serve? && e.conn in w.requests { F.ServedLinks(w, e.conn, e.at); }
    }
    var n := w.nodes[id];
    assert NodeCounted(n);
    match e
    case ToNode(_, fe) => if fe.Cycle? {} else { SameCounter(n.fw, Firmware.TimedOut, 0, fe); }
    case Fail(_, o, now) =>
      BegunCounted(n, o);
      SameCounter(F.Begun(n, o).fw, o, now, Firmware.Idle);
    case Ask(_) => BegunCounted(n, Firmware.TimedOut);
    case Finish(_, how, now) => if n.phase.Waiting? { ConcludedCounted(w, n, how, now); }
    case Reboot(_, seed) => if seed < 0x1000_0000 { BootCounted(n, seed); }
    case Serve(conn, at) => if conn in w.requests { F.ServedLinks(w, conn, at); }
    case _ =>
  }

  /** What the base reads in a recorded request. */
  lemma RecordedRead(o: F.Origin, m: seq<byte>)
    requires Recorded(o, m)
    ensures |m| == MESSAGE_SIZE && S.IsRequest(m)
    ensures SenderMac(m) == PackMac(o.mac) && Counter(m) == Numbered(o.seed, o.sent)
  {
    RequestRoundTrip(o.mac, Numbered(o.seed, o.sent), o.name);
  }

  lemma ServedEffect(w: F.World, conn: nat, at: int)
    requires Counted(w) && conn in w.requests && conn in w.origins
    ensures var o, v := w.origins[conn], F.Served(w, conn, at);
            && v.requests == w.requests - {conn} && v.origins == w.origins && v.nextConn == w.nextConn
            && v.registry.counters == w.registry.counters[PackMac(o.mac) := Numbered(o.seed, o.sent)]
            && v.alerts == if S.Alarming(w.registry, w.requests[conn])
                           then w.alerts + [Message(w.base.ctl.mem.emergency, DeviceRebooted(PackMac(o.mac)))]
                           else w.alerts
  {
    hide Numbered, NodeCounted, Filed, PackMac, Counter, EncodeReply, RequestName, S.Told, S.IsRequest, D.Rebooted;
    RecordedRead(w.origins[conn], w.requests[conn]);
    hide Recorded, S.Alarming;
  }

  lemma StrangerEffect(w: F.World, conn: nat, at: int)
    requires conn in w.requests && |w.requests[conn]| == MESSAGE_SIZE
    ensures var m, v := w.requests[conn], F.Served(w, conn, at);
            && v.requests == w.requests - {conn} && v.origins == w.origins && v.nextConn == w.nextConn
            && v.registry.counters == if S.IsRequest(m) then w.registry.counters[SenderMac(m) := Counter(m)]
                                      else w.registry.counters
  {
    hide SenderMac, Counter, EncodeReply, RequestName, S.Told, S.IsRequest, D.Rebooted, S.Alarming;
  }

  lemma FiledMore(r: D.Registry, more: D.Registry, last: map<nat, F.Origin>, mac: nat, o: F.Origin)
    requires Filed(r, last) && o.seed < 0x1000_0000
    requires more.counters == r.counters[mac := Numbered(o.seed, o.sent)]
    ensures Filed(more, last[mac := o])
  {
    hide Numbered;
  }

  lemma FiledLess(r: D.Registry, more: D.Registry, last: map<nat, F.Origin>, mac: nat, counter: Word64)
    requires Filed(r, last)
    ensures more.counters == r.counters[mac := counter] ==> Filed(more, last - {mac})
    ensures more.counters == r.counters ==> Filed(more, last)
  {
    hide Numbered;
  }

  lemma {:induction false} ServeCounted(w: F.World, conn: nat, at: int)
    requires Counted(w) && conn in w.requests
    ensures var v := F.Served(w, conn, at);
            && v.requests == w.requests - {conn} && v.origins == w.origins && v.nextConn == w.nextConn
            && Filed(v.registry, F.Noted(w, conn))
  {
    hide F.Served, NodeCounted, PackMac, Numbered, Filed, SenderMac, Counter, S.IsRequest;
    var after := F.Served(w, conn, at).registry;
    if conn in w.origins {
      var o := w.origins[conn];
      assert Recorded(o, w.requests[conn]);
      ServedEffect(w, conn, at);
      hide Recorded;
      FiledMore(w.registry, after, w.lastServed, PackMac(o.mac), o);
    } else {
      hide Recorded;
      StrangerEffect(w, conn, at);
      FiledLess(w.registry, after, w.lastServed, SenderMac(w.requests[conn]), Counter(w.requests[conn]));
    }
  }

  lemma AskedRecorded(w: F.World, id: nat)
    requires Counted(w) && id in w.nodes
    ensures var v := F.Asked(w, id);
            v.registry == w.registry && v.lastServed == w.lastServed && Underway(v)
  {
    hide EncodeRequest, Numbered, F.Begun, NameField;
    assert NodeCounted(w.nodes[id]);
  }

  lemma OthersKeep(w: F.World, e: F.Event)
    requires Underway(w) && !e.Stranger?
    requires e.Serve? ==> e.conn !in w.requests
    requires e.Ask? && e.id in w.nodes ==> !(ByteText(w.nodes[e.id].name) && |w.nodes[e.id].name| < 32)
    ensures var v := F.Step(w, e);
            && Underway(v)
            && ((v.registry == D.Registry(map[], map[]) && v.lastServed == map[])
                || (v.registry == w.registry && v.lastServed == w.lastServed))
  {
    hide F.Served, F.Noted, F.Asked, F.Concluded, F.Begun, F.Booted, F.Ended, Control.Step, Firmware.Step, ByteText;
    hide Recorded, Restarts, F.Readable;
  }

  lemma StrangerKeeps(w: F.World, m: seq<byte>)
    requires Underway(w)
    ensures var v := F.Step(w, F.Stranger(m));
            Underway(v) && v.registry == w.registry && v.lastServed == w.lastServed
  {
    hide Recorded, Terminated, S.IsRequest, Payload;
  }

  lemma {:induction false} StepCounted(w: F.World, e: F.Event)
    requires Counted(w)
    ensures Counted(F.Step(w, e))
  {
    NodesCounted(w, e);
    hide NodeCounted, Recorded, F.Served, F.Noted, F.Asked, F.Concluded, F.Begun, F.Booted, F.Ended;
    hide Control.Step, Firmware.Step, ByteText, Restarts, F.Readable;
    if e.Serve? && e.conn in w.requests {
      ServeCounted(w, e.conn, e.at);
      hide Filed;
    } else if e.Ask? && e.id in w.nodes && ByteText(w.nodes[e.id].name) && |w.nodes[e.id].name| < 32 {
      AskedRecorded(w, e.id);
      hide Filed;
    } else if e.Stranger? {
      StrangerKeeps(w, e.m);
      hide F.Step;
    } else {
      OthersKeep(w, e);
      hide F.Step;
    }
  }

  /** Nobody on record yet, as when the base has just started. */
  predicate NoneServed(w: F.World) {
    w.lastServed == map[] && w.origins == map[]
  }

  lemma {:induction false} RunCounted(w0: F.World, events: seq<F.Event>)
    requires F.Initial(w0) && NoneServed(w0)
    ensures Counted(F.Run(w0, events))
  {
    if events == [] {
      forall id | id in w0.nodes ensures NodeCounted(w0.nodes[id]) {
        var n := w0.nodes[id];
        assert forall i :: 0 <= i < |n.name| ==> IsAlnum(n.name[i]);
        assert n.fw.counter == n.seed * Firmware.WORD32;
        assert n.seed * 0x1_0000_0000 <= 0x0FFF_FFFF * 0x1_0000_0000;
      }
    } else {
      hide F.Step, Counted, F.Initial, NoneServed;
      RunCounted(w0, events[..|events| - 1]);
      StepCounted(F.Run(w0, events[..|events| - 1]), events[|events| - 1]);
    }
  }

  lemma NotWrapped(o: F.Origin)
    requires o.seed < 0x1000_0000 && o.sent < 0x1_0000_0000 - 100
    ensures Numbered(o.seed, o.sent) == D.HeaterCounter(o.seed, o.sent)
  {
    assert o.seed * 0x1_0000_0000 <= 0x0FFF_FFFF * 0x1_0000_0000;
  }

  /** The two requests are of different boots, or more than 100 messages apart. */
  predicate Jumped(was: F.Origin, o: F.Origin) {
    was.seed != o.seed || was.sent - o.sent > 100 || o.sent - was.sent > 100
  }

  predicate LowCounter(o: F.Origin) {
    o.sent < 0x1_0000_0000 - 100
  }

  lemma JumpSeen(was: F.Origin, o: F.Origin)
    requires was.seed < 0x1000_0000 && o.seed < 0x1000_0000 && LowCounter(was) && LowCounter(o)
    ensures D.Rebooted(Numbered(o.seed, o.sent), Numbered(was.seed, was.sent)) <==> Jumped(was, o)
  {
    NotWrapped(o);
    NotWrapped(was);
    D.AlarmExactly(was.seed, was.sent, o.seed, o.sent);
  }

  predicate Low(w: F.World, o: F.Origin) {
    LowCounter(o) && (PackMac(o.mac) in w.lastServed ==> LowCounter(w.lastServed[PackMac(o.mac)]))
  }

  /** Serving a request of this origin is an alarm: its address was served since the base
      started; and, when the last request served under it was a heater's, that was of
      another boot or more than 100 messages away; when it was a stranger's, the two
      counters are more than 100 apart as the base computes it. */
  predicate Alarmed(w: F.World, o: F.Origin) {
    var mac := PackMac(o.mac);
    mac in w.registry.counters
    && if mac in w.lastServed then Jumped(w.lastServed[mac], o)
       else D.Rebooted(Numbered(o.seed, o.sent), w.registry.counters[mac])
  }

  lemma {:induction false} AlarmingExactly(w: F.World, conn: nat)
    requires Counted(w) && conn in w.requests && conn in w.origins
    ensures |w.requests[conn]| == MESSAGE_SIZE
    ensures Low(w, w.origins[conn]) ==> (S.Alarming(w.registry, w.requests[conn]) <==> Alarmed(w, w.origins[conn]))
  {
    hide PackMac, Numbered, NodeCounted, LowCounter, Jumped, D.Rebooted, Counter, SenderMac, S.IsRequest;
    var o, mac := w.origins[conn], PackMac(w.origins[conn].mac);
    assert Recorded(o, w.requests[conn]);
    RecordedRead(o, w.requests[conn]);
    if Low(w, o) && mac in w.lastServed {
      JumpSeen(w.lastServed[mac], o);
    }
  }

  lemma ServeStep(w: F.World, conn: nat, at: int)
    requires conn in w.requests
    ensures F.Step(w, F.Serve(conn, at)).alerts == F.Served(w, conn, at).alerts
  {
    hide F.Served;
  }

  lemma {:induction false} AlarmWhenServed(w: F.World, conn: nat, at: int)
    requires Counted(w) && conn in w.requests && conn in w.origins
    ensures Low(w, w.origins[conn]) ==>
              F.Step(w, F.Serve(conn, at)).alerts
              == w.alerts + if Alarmed(w, w.origins[conn])
                            then [Message(w.base.ctl.mem.emergency, DeviceRebooted(PackMac(w.origins[conn].mac)))]
                            else []
  {
    AlarmingExactly(w, conn);
    ServedEffect(w, conn, at);
    ServeStep(w, conn, at);
    hide F.Step, F.Served, Low, Alarmed, PackMac, S.Alarming, Recorded, Filed, NodeCounted;
    assert w.alerts + [] == w.alerts;
  }

  /** The alarm over every run of one base, any heaters that numbered fewer than 2^32 - 100
      messages since they were switched on, and any other clients: serving a heater's request
      sends one to the emergency phone, for the address it came from, exactly when the
      address was served since the base started and the request last served under it was of
      another boot (another seed) or more than 100 messages away. */
  lemma {:induction false} RebootAlarmExactly(w0: F.World, events: seq<F.Event>, conn: nat, at: int)
    requires F.Initial(w0) && NoneServed(w0)
    requires conn in F.Run(w0, events).requests && conn in F.Run(w0, events).origins
    ensures var w, o := F.Run(w0, events), F.Run(w0, events).origins[conn];
            Low(w, o) ==>
              F.Step(w, F.Serve(conn, at)).alerts
              == w.alerts + if Alarmed(w, o)
                            then [Message(w.base.ctl.mem.emergency, DeviceRebooted(PackMac(o.mac)))] else []
  {
    RunCounted(w0, events);
    hide *;
    AlarmWhenServed(F.Run(w0, events), conn, at);
  }
}
