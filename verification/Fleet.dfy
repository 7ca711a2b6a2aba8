/** One base station and any number of heaters, talking over connections of their own: how
    old can the state of a heater be? */
module Fleet {
  import opened Text
  import opened StateFile
  import opened SmsGrammar
  import opened Wire
  import opened Firmware
  import opened ErrorLog
  import opened Control
  import D = Devices
  import S = Serving
  import P = ControlProperties
  import H = History

  /** A heater between requests, or with a request out on a connection. */
  datatype Phase = Resting | Waiting(conn: nat)

  /** A successful exchange: its connection, and the steps at which its request was sent and
      served and its reply read. */
  datatype Success = Success(conn: nat, asked: nat, served: nat, finished: nat)

  /** A commissioned heater. asked, number, failed, last and value are auxiliary: the step
      and the message number of the request that is out, the failed cycles since the last
      success or boot, and that success with the state it brought. So are seed and sent: the
      seed of the last boot and the messages numbered since. */
  datatype Node = Node(
    fw: Fw, name: string, mac: Mac, phase: Phase,
    asked: nat, number: nat, failed: nat, last: Option<Success>, value: byte, seed: nat, sent: nat)

  /** A reply on its way, and the step at which the base computed it. */
  datatype Answer = Answer(bytes: seq<byte>, served: nat)

  /** Who sent a request: its address and name, the seed of that boot, and how many messages
      it had numbered since. */
  datatype Origin = Origin(mac: Mac, name: string, seed: nat, sent: nat)

  /** origins and lastServed are auxiliary: who sent the request of each connection, and for
      each packed address the last request served since the base started. */
  datatype World = World(
    base: Base, registry: D.Registry, replyCounter: nat, alerts: seq<Message>, own: Mac,
    nodes: map<nat, Node>, requests: map<nat, seq<byte>>, answers: map<nat, Answer>,
    nextConn: nat, clock: nat, origins: map<nat, Origin>, lastServed: map<nat, Origin>)

  /** How a heater comes away from a request that was sent. */
  datatype Ending = Timeout | CutShort | Read

  datatype Event =
    | ToBase(input: Input, seed: nat)           // to the base; the seed is that of a next process, if one starts
    | Stranger(m: seq<byte>)                    // a message of some other client is out
    | ToNode(id: nat, e: Firmware.Event)        // WiFi events, timer, a loop without a request
    | Fail(id: nat, o: Outcome, now: nat)       // a cycle that ends before the request is out
    | Ask(id: nat)                              // the whole request is out
    | Serve(conn: nat, at: int)                 // the base answers one request
    | Finish(id: nat, how: Ending, now: nat)    // the cycle ends
    | Reboot(id: nat, seed: nat)

  function Booted(n: Node, seed: nat): Node {
    n.(fw := Firmware.Boot(seed), phase := Resting, failed := 0, last := None, value := DEFROST,
       seed := seed, sent := 0)
  }

  /** The start of a cycle; once connected it takes a message number. */
  function Begun(n: Node, o: Outcome): Node {
    n.(fw := Begin(n.fw, o), sent := if o.NoConnection? then n.sent else n.sent + 1)
  }

  /** The end of a cycle that was begun: its outcome, then the fail-safe of the loop. */
  function Ended(n: Node, o: Outcome, now: nat): Node {
    n.(fw := FailSafe(Conclude(n.fw, o, now)), phase := Resting, failed := n.failed + 1)
  }

  function Obeyed(n: Node, state: byte, s: Success, now: nat): Node {
    n.(fw := FailSafe(Conclude(n.fw, Judged(Accepted(state)), now)), phase := Resting, failed := 0,
       last := Some(s), value := state)
  }

  /** What the heater makes of the reply that is there when it looks. */
  function Concluded(w: World, n: Node, how: Ending, now: nat): Node
    requires n.phase.Waiting?
  {
    var c := n.phase.conn;
    if how == Timeout || c !in w.answers then Ended(n, TimedOut, now)
    else if how == CutShort || |w.answers[c].bytes| != MESSAGE_SIZE then Ended(n, ReadFailed, now)
    else
      var v := Judge(w.answers[c].bytes);
      if v.Accepted? then Obeyed(n, v.state, Success(c, n.asked, w.answers[c].served, w.clock), now)
      else Ended(n, Judged(v), now)
  }

  predicate Interrupts(e: Firmware.Event) {
    e.WifiUp? || e.WifiDown? || e.Timer?
  }

  function SetNode(w: World, id: nat, n: Node): World {
    w.(nodes := w.nodes[id := n])
  }

  /** The base reads the request of a connection and answers it. */
  function Served(w: World, conn: nat, at: int): World
    requires conn in w.requests
  {
    var m := w.requests[conn];
    if |m| != MESSAGE_SIZE then w
    else
      var net := S.Net(w.registry, [], w.alerts, w.replyCounter);
      var e := S.Serve(net, w.base.ctl.mem, conn, m, at, w.own);
      w.(registry := e.registry, alerts := e.outbox, replyCounter := e.counter,
         requests := w.requests - {conn},
         answers := if e.replies == [] then w.answers
                    else w.answers[conn := Answer(e.replies[0].1, w.clock)])
  }

  /** A request sent: the cycle is begun and the message is on a connection of its own. */
  function Asked(w: World, id: nat): World
    requires id in w.nodes && ByteText(w.nodes[id].name) && |w.nodes[id].name| < 32
  {
    var n := w.nodes[id];
    SetNode(w, id, Begun(n, TimedOut).(phase := Waiting(w.nextConn), asked := w.clock, number := n.fw.counter))
    .(requests := w.requests[w.nextConn := EncodeRequest(n.mac, n.fw.counter, NameField(n.name))],
      origins := w.origins[w.nextConn := Origin(n.mac, n.name, n.seed, n.sent)],
      nextConn := w.nextConn + 1)
  }

  /** Who is on record for the address of a request once it is served: its heater, or
      nobody when it is a stranger's. */
  function Noted(w: World, conn: nat): map<nat, Origin>
    requires conn in w.requests
  {
    var m := w.requests[conn];
    if conn in w.origins then w.lastServed[PackMac(w.origins[conn].mac) := w.origins[conn]]
    else if S.IsRequest(m) then w.lastServed - {SenderMac(m)}
    else w.lastServed
  }

  /** Messages the base can read to their end: no runaway scan for the name. */
  predicate Readable(m: seq<byte>) {
    |m| == MESSAGE_SIZE && (S.IsRequest(m) ==> Terminated(Payload(m)))
  }

  /** One event, when it can happen at all. */
  ghost function Effect(w: World, e: Event): World {
    match e
    case ToBase(i, seed) =>
      var v := w.(base := Control.Step(w.base, i));
      if Restarts(w.base, i)
      then v.(registry := D.Registry(map[], map[]), replyCounter := seed * 0x1_0000_0000 % WORD64,
              requests := map[], lastServed := map[])
      else v
    case Stranger(m) =>
      if Readable(m) then w.(requests := w.requests[w.nextConn := m], nextConn := w.nextConn + 1) else w
    case ToNode(id, fe) =>
      if id in w.nodes && (Interrupts(fe) || (fe.Idle? && w.nodes[id].phase.Resting?))
      then SetNode(w, id, w.nodes[id].(fw := Firmware.Step(w.nodes[id].fw, fe)))
      else w
    case Fail(id, o, now) =>
      if id in w.nodes && w.nodes[id].phase.Resting? && (o.NoConnection? || o.WriteFailed?)
      then SetNode(w, id, Ended(Begun(w.nodes[id], o), o, now))
      else w
    case Ask(id) =>
      if id in w.nodes && w.nodes[id].phase.Resting? && ByteText(w.nodes[id].name) && |w.nodes[id].name| < 32
      then Asked(w, id) else w
    case Serve(conn, at) => if conn in w.requests then Served(w, conn, at).(lastServed := Noted(w, conn)) else w
    case Finish(id, how, now) =>
      if id in w.nodes && w.nodes[id].phase.Waiting?
      then SetNode(w, id, Concluded(w, w.nodes[id], how, now)) else w
    case Reboot(id, seed) =>
      if id in w.nodes && seed < 0x1000_0000 then SetNode(w, id, Booted(w.nodes[id], seed)) else w
  }

  ghost function Step(w: World, e: Event): World {
    Effect(w, e).(clock := w.clock + 1)
  }

  ghost function Run(w: World, events: seq<Event>): World {
    if events == [] then w else Step(Run(w, events[..|events| - 1]), events[|events| - 1])
  }

  /** Power-on: registered heaters, nothing sent, any base. */
  ghost predicate Initial(w: World) {
    && w.clock == 0 && w.nextConn == 0 && w.requests == map[] && w.answers == map[] && w.replyCounter < WORD64
    && forall id :: id in w.nodes ==>
         var n := w.nodes[id];
         && ValidName(n.name) && |n.name| < 31
         && n.phase == Resting && n.failed == 0 && n.last == None && n.value == DEFROST
         && n.seed < 0x1000_0000 && n.sent == 0 && n.fw == Firmware.Boot(n.seed)
  }

  // ------------------------------------------------------------------ invariant

  /** What the base tells a heater of that name after the first k events. */
  ghost function ToldAt(w0: World, events: seq<Event>, k: nat, name: string): byte
    requires k <= |events|
  {
    StateCode(Lookup(Run(w0, events[..k]).base.ctl.mem, Upper(name)))
  }

  /** What was last obeyed was told by the base, at a step within that exchange. */
  ghost predicate ObeysBase(w0: World, events: seq<Event>, n: Node) {
    match n.last
    case None => n.value == DEFROST
    case Some(s) => s.asked <= s.served < s.finished < |events| && n.value == ToldAt(w0, events, s.served, n.name)
  }

  /** A name as registration lets it through. */
  predicate Named(n: Node) {
    ValidName(n.name) && |n.name| < 31 && ByteText(n.name)
  }

  /** What is on the connection of a waiting heater is its request, or a reply computed
      since it was sent. */
  ghost predicate ConnectionOk(w0: World, events: seq<Event>, w: World, n: Node)
    requires Named(n)
  {
    n.phase.Waiting? ==>
      var c := n.phase.conn;
      && c < w.nextConn && n.asked < |events| && n.number < WORD64
      && (c in w.requests ==> w.requests[c] == EncodeRequest(n.mac, n.number, NameField(n.name)))
      && (c in w.answers ==>
            && n.asked <= w.answers[c].served < |events| && |w.answers[c].bytes| == MESSAGE_SIZE
            && Judge(w.answers[c].bytes) == Accepted(ToldAt(w0, events, w.answers[c].served, n.name)))
  }

  ghost predicate NodeOk(w0: World, events: seq<Event>, w: World, n: Node) {
    && Named(n)
    && n.fw.counter < WORD64
    && Tracks(n.fw, n.failed, n.value)
    && ObeysBase(w0, events, n)
    && ConnectionOk(w0, events, w, n)
  }

  predicate Apart(a: Phase, b: Phase) {
    a.Waiting? && b.Waiting? ==> a.conn != b.conn
  }

  ghost predicate Separate(w: World) {
    && (forall c :: c in w.requests ==> c < w.nextConn)
    && (forall c :: c in w.answers ==> c < w.nextConn)
    && (forall i :: i in w.nodes && w.nodes[i].phase.Waiting? ==> w.nodes[i].phase.conn < w.nextConn)
    && (forall i, j :: i in w.nodes && j in w.nodes && i != j ==> Apart(w.nodes[i].phase, w.nodes[j].phase))
  }

  ghost predicate WorldOk(w0: World, events: seq<Event>, w: World) {
    && w.clock == |events| && w.replyCounter < WORD64
    && Separate(w)
    && forall id :: id in w.nodes ==> NodeOk(w0, events, w, w.nodes[id])
  }

  lemma ToldAtPrefix(w0: World, events: seq<Event>, e: Event, k: nat, name: string)
    requires k <= |events|
    ensures ToldAt(w0, events + [e], k, name) == ToldAt(w0, events, k, name)
  {
    assert (events + [e])[..k] == events[..k];
  }

  /** A node keeps its invariant through an event that leaves its connection alone. */
  lemma NodeStays(w0: World, events: seq<Event>, e: Event, w: World, v: World, n: Node)
    requires NodeOk(w0, events, w, n) && v.nextConn >= w.nextConn
    requires n.phase.Waiting? ==>
               var c := n.phase.conn;
               && (c in v.requests ==> c in w.requests && v.requests[c] == w.requests[c])
               && (c in v.answers ==> c in w.answers && v.answers[c] == w.answers[c])
    ensures NodeOk(w0, events + [e], v, n)
  {
    hide ToldAt, Tracks, Judge, EncodeRequest;
    if n.last.Some? { ToldAtPrefix(w0, events, e, n.last.value.served, n.name); }
    if n.phase.Waiting? && n.phase.conn in v.answers {
      ToldAtPrefix(w0, events, e, w.answers[n.phase.conn].served, n.name);
    }
  }

  // ------------------------------------------------- the fail-safe in two halves

  lemma BeginTracks(f: Fw, o: Outcome, failed: nat, value: byte)
    requires Tracks(f, failed, value) && f.counter < WORD64
    ensures Tracks(Begin(f, o), failed, value) && Begin(f, o).counter < WORD64
  {
  }

  lemma EndTracks(f: Fw, o: Outcome, now: nat, failed: nat, value: byte)
    requires Tracks(f, failed, value) && (Succeeds(o) ==> o.verdict.state <= 3)
    ensures var g := FailSafe(Conclude(f, o, now));
            g.counter == f.counter
            && if Succeeds(o) then Tracks(g, 0, o.verdict.state) else Tracks(g, failed + 1, value)
  {
    hide Pins, Pushed, CodeOf;
  }

  lemma InterruptTracks(f: Fw, e: Firmware.Event, failed: nat, value: byte)
    requires Tracks(f, failed, value) && !e.Cycle?
    ensures Tracks(Firmware.Step(f, e), failed, value) && Firmware.Step(f, e).counter == f.counter
  {
  }

  lemma BootTracks(seed: nat)
    ensures Tracks(Firmware.Boot(seed), 0, DEFROST)
  {
  }

  // -------------------------------------------------------------- event by event

  lemma NodesStay(w0: World, events: seq<Event>, e: Event, w: World, v: World, touched: set<nat>)
    requires WorldOk(w0, events, w) && v.nextConn >= w.nextConn
    requires forall id :: id in v.nodes && id !in touched ==> id in w.nodes && v.nodes[id] == w.nodes[id]
    requires forall c :: c in v.requests && c < w.nextConn ==> c in w.requests && v.requests[c] == w.requests[c]
    requires forall c :: c in v.answers && c < w.nextConn ==> c in w.answers && v.answers[c] == w.answers[c]
    ensures forall id :: id in v.nodes && id !in touched ==> NodeOk(w0, events + [e], v, v.nodes[id])
  {
    forall id | id in v.nodes && id !in touched ensures NodeOk(w0, events + [e], v, v.nodes[id]) {
      assert NodeOk(w0, events, w, w.nodes[id]);
      NodeStays(w0, events, e, w, v, v.nodes[id]);
    }
  }

  lemma NodeEventOk(w0: World, events: seq<Event>, e: Event, w: World, fe: Firmware.Event, n: Node, v: World)
    requires NodeOk(w0, events, w, n) && !fe.Cycle?
    requires v.requests == w.requests && v.answers == w.answers && v.nextConn == w.nextConn
    ensures NodeOk(w0, events + [e], v, n.(fw := Firmware.Step(n.fw, fe)))
  {
    NodeStays(w0, events, e, w, v, n);
    InterruptTracks(n.fw, fe, n.failed, n.value);
    hide Firmware.Step, Tracks, ToldAt, Judge, EncodeRequest;
  }

  lemma EndedOk(w0: World, events: seq<Event>, e: Event, w: World, n: Node, o: Outcome, now: nat, v: World)
    requires NodeOk(w0, events, w, n) && !Succeeds(o)
    requires v.requests == w.requests && v.answers == w.answers && v.nextConn == w.nextConn
    ensures NodeOk(w0, events + [e], v, Ended(n, o, now))
  {
    hide FailSafe, Conclude, Tracks, ToldAt, Judge, EncodeRequest, ConnectionOk;
    NodeStays(w0, events, e, w, v, n);
    EndTracks(n.fw, o, now, n.failed, n.value);
    RestingOk(w0, events + [e], v, Ended(n, o, now));
  }

  lemma FinishOk(w0: World, events: seq<Event>, e: Event, w: World, n: Node, how: Ending, now: nat, v: World)
    requires NodeOk(w0, events, w, n) && n.phase.Waiting? && w.clock == |events|
    requires v.requests == w.requests && v.answers == w.answers && v.nextConn == w.nextConn
    ensures NodeOk(w0, events + [e], v, Concluded(w, n, how, now))
  {
    var c := n.phase.conn;
    if how == Read && c in w.answers {
      var a := w.answers[c];
      var state := ToldAt(w0, events, a.served, n.name);
      var s := Success(c, n.asked, a.served, w.clock);
      assert Concluded(w, n, how, now) == Obeyed(n, state, s, now);
      EndTracks(n.fw, Judged(Accepted(state)), now, n.failed, n.value);
      ToldAtPrefix(w0, events, e, a.served, n.name);
      hide FailSafe, Conclude, Tracks, ToldAt, Judge, EncodeRequest, ConnectionOk;
      RestingOk(w0, events + [e], v, Obeyed(n, state, s, now));
    } else {
      EndedOk(w0, events, e, w, n, if how == Timeout || c !in w.answers then TimedOut else ReadFailed, now, v);
    }
  }

  lemma RestingOk(w0: World, events: seq<Event>, w: World, n: Node)
    requires n.phase.Resting? && Named(n)
    ensures ConnectionOk(w0, events, w, n)
  {
  }

  lemma BegunOk(w0: World, events: seq<Event>, w: World, n: Node, o: Outcome)
    requires NodeOk(w0, events, w, n)
    ensures NodeOk(w0, events, w, Begun(n, o))
  {
    BeginTracks(n.fw, o, n.failed, n.value);
    hide Begin, Tracks, ToldAt, Judge, EncodeRequest;
  }

  lemma WaitingOk(w0: World, events: seq<Event>, w: World, v: World, b: Node, number: nat)
    requires NodeOk(w0, events, w, b) && w.clock < |events| && number < WORD64 && w.nextConn !in w.answers
    requires v.nextConn == w.nextConn + 1 && v.answers == w.answers && w.nextConn in v.requests
    requires v.requests[w.nextConn] == EncodeRequest(b.mac, number, NameField(b.name))
    ensures NodeOk(w0, events, v, b.(phase := Waiting(w.nextConn), asked := w.clock, number := number))
  {
    hide Tracks, ToldAt, Judge, EncodeRequest;
  }

  lemma {:induction false} AskOk(w0: World, events: seq<Event>, e: Event, w: World, id: nat)
    requires WorldOk(w0, events, w) && id in w.nodes && w.nodes[id].phase.Resting?
    ensures ByteText(w.nodes[id].name) && |w.nodes[id].name| < 32
    ensures NodeOk(w0, events + [e], Asked(w, id), Asked(w, id).nodes[id])
  {
    hide Tracks, Begin, ToldAt, Judge, EncodeRequest, NameField, ByteText;
    var n := w.nodes[id];
    assert NodeOk(w0, events, w, n);
    BegunOk(w0, events, w, n, TimedOut);
    NodeStays(w0, events, e, w, w, Begun(n, TimedOut));
    hide NodeOk;
    WaitingOk(w0, events + [e], w, Asked(w, id), Begun(n, TimedOut), n.fw.counter);
  }

  /** The base answers the request of a waiting heater with what it tells that name now. */
  lemma {:induction false} ServedAnswer(w0: World, events: seq<Event>, w: World, n: Node, at: int)
    requires w == Run(w0, events) && WorldOk(w0, events, w)
    requires NodeOk(w0, events, w, n) && n.phase.Waiting? && n.phase.conn in w.requests
    ensures var c := n.phase.conn;
            var v := Served(w, c, at);
            && c !in v.requests && c in v.answers && v.answers[c].served == w.clock
            && |v.answers[c].bytes| == MESSAGE_SIZE
            && Judge(v.answers[c].bytes) == Accepted(ToldAt(w0, events, |events|, n.name))
  {
    var c := n.phase.conn;
    assert events[..|events|] == events;
    var net := S.Net(w.registry, [], w.alerts, w.replyCounter);
    S.RequestServed(net, w.base.ctl.mem, c, n.mac, n.number, n.name, at, w.own);
    hide S.Serve, Judge, EncodeRequest, Lookup, Run;
  }

  lemma {:induction false} ServeOk(w0: World, events: seq<Event>, e: Event, w: World, conn: nat, at: int, n: Node)
    requires w == Run(w0, events) && WorldOk(w0, events, w)
    requires NodeOk(w0, events, w, n) && conn in w.requests
    ensures NodeOk(w0, events + [e], Served(w, conn, at), n)
  {
    hide S.Serve, Judge, EncodeRequest, ToldAt, Tracks, Run;
    var v := Served(w, conn, at);
    if n.phase == Waiting(conn) {
      ServedAnswer(w0, events, w, n, at);
      assert w.clock == |events|;
      ToldAtPrefix(w0, events, e, |events|, n.name);
      if n.last.Some? { ToldAtPrefix(w0, events, e, n.last.value.served, n.name); }
    } else {
      NodeStays(w0, events, e, w, v, n);
    }
  }

  lemma PhaseAfter(w: World, e: Event, id: nat)
    requires id in Step(w, e).nodes
    ensures id in w.nodes
    ensures var p := Step(w, e).nodes[id].phase;
            p == w.nodes[id].phase || p == Resting || (p == Waiting(w.nextConn) && e == Ask(id))
  {
    hide S.Serve, EncodeRequest, Judge, FailSafe, Conclude, Begin, Firmware.Step, Control.Step, NameField, ByteText;
  }

  lemma LinksAfter(w: World, e: Event)
    requires Separate(w)
    ensures var v := Step(w, e);
            && v.nextConn == (if v.nextConn == w.nextConn then w.nextConn else w.nextConn + 1)
            && (forall c :: c in v.requests ==> c < v.nextConn)
            && (forall c :: c in v.answers ==> c < v.nextConn)
            && (e.Ask? && (exists id :: id in v.nodes && v.nodes[id].phase == Waiting(w.nextConn))
                ==> v.nextConn == w.nextConn + 1)
  {
    hide Asked, Served, Noted, Concluded, Ended, Begun, Booted, FailSafe, Firmware.Step, Control.Step;
    hide NameField, ByteText, Restarts, Readable;
    if e.Ask? && e.id in w.nodes && ByteText(w.nodes[e.id].name) && |w.nodes[e.id].name| < 32 {
      AskedLinks(w, e.id);
    } else if e.Serve? && e.conn in w.requests {
      ServedLinks(w, e.conn, e.at);
    } else if e.ToBase? || e.Stranger? {
      OtherLinks(w, e);
      hide Step;
    }
  }

  lemma AskedLinks(w: World, id: nat)
    requires id in w.nodes && ByteText(w.nodes[id].name) && |w.nodes[id].name| < 32
    ensures var v := Asked(w, id);
            v.nextConn == w.nextConn + 1 && v.requests.Keys == w.requests.Keys + {w.nextConn} && v.answers == w.answers
  {
    hide EncodeRequest, Begun, NameField, ByteText;
  }

  lemma ServedLinks(w: World, conn: nat, at: int)
    requires conn in w.requests
    ensures var v := Served(w, conn, at);
            && v.nextConn == w.nextConn && v.requests.Keys <= w.requests.Keys
            && v.answers.Keys <= w.answers.Keys + {conn} && v.nodes == w.nodes
  {
    hide S.Serve;
  }

  lemma {:induction false} SeparateStays(w: World, e: Event)
    requires Separate(w)
    ensures Separate(Step(w, e))
  {
    hide Step;
    var v := Step(w, e);
    LinksAfter(w, e);
    forall i | i in v.nodes && v.nodes[i].phase.Waiting? ensures v.nodes[i].phase.conn < v.nextConn {
      PhaseAfter(w, e, i);
    }
    forall i, j | i in v.nodes && j in v.nodes && i != j ensures Apart(v.nodes[i].phase, v.nodes[j].phase) {
      PhaseAfter(w, e, i);
      PhaseAfter(w, e, j);
      assert Apart(w.nodes[i].phase, w.nodes[j].phase);
    }
  }

  lemma ServedCounter(w: World, conn: nat, at: int)
    requires conn in w.requests && w.replyCounter < WORD64
    ensures Served(w, conn, at).replyCounter < WORD64
  {
  }

  lemma {:induction false} BaseEventOk(w0: World, events: seq<Event>, e: Event)
    requires WorldOk(w0, events, Run(w0, events)) && (e.ToBase? || e.Stranger?)
    ensures var v := Step(Run(w0, events), e);
            forall id :: id in v.nodes ==> NodeOk(w0, events + [e], v, v.nodes[id])
  {
    var w := Run(w0, events);
    var v := Step(w, e);
    OtherLinks(w, e);
    hide Step, NodeOk, Run, Separate;
    NodesStay(w0, events, e, w, v, {});
  }

  lemma OtherLinks(w: World, e: Event)
    requires e.ToBase? || e.Stranger?
    ensures var v := Step(w, e);
            && v.nodes == w.nodes && v.answers == w.answers
            && w.nextConn <= v.nextConn <= w.nextConn + 1
            && v.requests.Keys <= w.requests.Keys + (if v.nextConn > w.nextConn then {w.nextConn} else {})
            && (forall c :: c in v.requests && c < w.nextConn ==> c in w.requests && v.requests[c] == w.requests[c])
  {
    hide Control.Step, Restarts, Readable, Served, Noted, Asked, Concluded, Ended, Begun, Booted, Firmware.Step;
    hide ByteText, Interrupts;
  }

  lemma {:induction false} ServeEventOk(w0: World, events: seq<Event>, e: Event)
    requires WorldOk(w0, events, Run(w0, events)) && e.Serve?
    ensures var v := Step(Run(w0, events), e);
            forall id :: id in v.nodes ==> NodeOk(w0, events + [e], v, v.nodes[id])
  {
    hide S.Serve, EncodeRequest, Judge, FailSafe, Conclude, Begin, Firmware.Step, Control.Step, NodeOk, Run, NameField;
    hide Served, Noted;
    var w := Run(w0, events);
    var v := Step(w, e);
    if e.conn in w.requests {
      ServedLinks(w, e.conn, e.at);
      forall id | id in v.nodes ensures NodeOk(w0, events + [e], v, v.nodes[id]) {
        ServeOk(w0, events, e, w, e.conn, e.at, w.nodes[id]);
        SameLinks(w0, events + [e], Served(w, e.conn, e.at), v, v.nodes[id]);
      }
    } else {
      NodesStay(w0, events, e, w, v, {});
    }
  }

  lemma {:induction false} SingleEventOk(w0: World, events: seq<Event>, e: Event)
    requires WorldOk(w0, events, Run(w0, events)) && (e.ToNode? || e.Reboot?)
    ensures var v := Step(Run(w0, events), e);
            forall id :: id in v.nodes ==> NodeOk(w0, events + [e], v, v.nodes[id])
  {
    hide S.Serve, EncodeRequest, Judge, FailSafe, Conclude, Begin, Firmware.Step, Control.Step, NodeOk, Run, NameField;
    hide Served, Noted, Booted, Asked, Concluded, Ended, Begun;
    var w := Run(w0, events);
    var v := Step(w, e);
    if v.nodes == w.nodes {
      NodesStay(w0, events, e, w, v, {});
    } else {
      NodesStay(w0, events, e, w, v, {e.id});
      if e.ToNode? {
        NodeEventOk(w0, events, e, w, e.e, w.nodes[e.id], v);
      } else {
        RebootOk(w0, events, e, w, w.nodes[e.id], e.seed, v);
      }
    }
  }

  lemma {:induction false} CycleEventOk(w0: World, events: seq<Event>, e: Event)
    requires WorldOk(w0, events, Run(w0, events)) && (e.Fail? || e.Finish?)
    ensures var v := Step(Run(w0, events), e);
            forall id :: id in v.nodes ==> NodeOk(w0, events + [e], v, v.nodes[id])
  {
    hide S.Serve, EncodeRequest, Judge, FailSafe, Conclude, Begin, Firmware.Step, Control.Step, NodeOk, Run, NameField;
    hide Served, Noted, Booted, Asked, Concluded, Ended, Begun;
    var w := Run(w0, events);
    var v := Step(w, e);
    if v.nodes == w.nodes {
      NodesStay(w0, events, e, w, v, {});
    } else {
      NodesStay(w0, events, e, w, v, {e.id});
      if e.Fail? {
        FailOk(w0, events, e, w, w.nodes[e.id], e.o, e.now, v);
      } else {
        FinishOk(w0, events, e, w, w.nodes[e.id], e.how, e.now, v);
      }
    }
  }

  lemma {:induction false} AskEventOk(w0: World, events: seq<Event>, e: Event)
    requires WorldOk(w0, events, Run(w0, events)) && e.Ask?
    ensures var v := Step(Run(w0, events), e);
            forall id :: id in v.nodes ==> NodeOk(w0, events + [e], v, v.nodes[id])
  {
    hide S.Serve, EncodeRequest, Judge, FailSafe, Conclude, Begin, Firmware.Step, Control.Step, NodeOk, Run, NameField;
    hide Served, Noted, Booted, Concluded, Ended, Begun;
    var w := Run(w0, events);
    var v := Step(w, e);
    if v.nodes == w.nodes {
      NodesStay(w0, events, e, w, v, {});
    } else {
      NodesStay(w0, events, e, w, v, {e.id});
      AskOk(w0, events, e, w, e.id);
      SameLinks(w0, events + [e], Asked(w, e.id), v, v.nodes[e.id]);
    }
  }

  lemma SameLinks(w0: World, events: seq<Event>, w: World, v: World, n: Node)
    requires NodeOk(w0, events, w, n)
    requires v.requests == w.requests && v.answers == w.answers && v.nextConn == w.nextConn
    ensures NodeOk(w0, events, v, n)
  {
  }

  lemma {:induction false} FailOk(
      w0: World, events: seq<Event>, e: Event, w: World, n: Node, o: Outcome, now: nat, v: World)
    requires NodeOk(w0, events, w, n) && n.phase.Resting? && (o.NoConnection? || o.WriteFailed?)
    requires v.requests == w.requests && v.answers == w.answers && v.nextConn == w.nextConn
    ensures NodeOk(w0, events + [e], v, Ended(Begun(n, o), o, now))
  {
    BegunOk(w0, events, w, n, o);
    EndedOk(w0, events, e, w, Begun(n, o), o, now, v);
  }

  lemma RebootOk(w0: World, events: seq<Event>, e: Event, w: World, n: Node, seed: nat, v: World)
    requires NodeOk(w0, events, w, n) && seed < 0x1000_0000
    ensures NodeOk(w0, events + [e], v, Booted(n, seed))
  {
    BootTracks(seed);
    hide Tracks;
  }

  lemma {:induction false} StepOk(w0: World, events: seq<Event>, e: Event)
    requires WorldOk(w0, events, Run(w0, events))
    ensures WorldOk(w0, events + [e], Step(Run(w0, events), e))
  {
    var w := Run(w0, events);
    SeparateStays(w, e);
    if e.Serve? && e.conn in w.requests { ServedCounter(w, e.conn, e.at); }
    if e.ToBase? || e.Stranger? {
      BaseEventOk(w0, events, e);
    } else if e.Serve? {
      ServeEventOk(w0, events, e);
    } else if e.ToNode? || e.Reboot? {
      SingleEventOk(w0, events, e);
    } else if e.Ask? {
      AskEventOk(w0, events, e);
    } else {
      CycleEventOk(w0, events, e);
    }
    hide Served, NodeOk, Separate, Run, Concluded, Asked, Control.Step, Firmware.Step;
  }

  lemma {:induction false} RunOk(w0: World, events: seq<Event>)
    requires Initial(w0)
    ensures WorldOk(w0, events, Run(w0, events))
  {
    hide Step, WorldOk, Initial;
    if events == [] {
      StartOk(w0);
    } else {
      var front, e := events[..|events| - 1], events[|events| - 1];
      RunOk(w0, front);
      StepOk(w0, front, e);
      assert front + [e] == events;
    }
  }

  lemma StartOk(w0: World)
    requires Initial(w0)
    ensures WorldOk(w0, [], w0)
  {
    forall id | id in w0.nodes ensures NodeOk(w0, [], w0, w0.nodes[id]) {
      var n := w0.nodes[id];
      BootTracks(n.seed);
      assert n.fw.counter == n.seed * Firmware.WORD32;
      assert forall i :: 0 <= i < |n.name| ==> IsAlnum(n.name[i]);
    }
  }

  // ----------------------------------------------------------------- the results

  /** Bounded staleness, over every run of one base and any heaters: a heater is in the
      state the base told its name at a step within its last successful exchange, as long as
      fewer than 15 cycles failed since; else, and before any success, in defrost, which is 1. Its
      two pins are those of that state, and it claims to be connected only below 15. */
  lemma {:induction false} BoundedStaleness(w0: World, events: seq<Event>, id: nat)
    requires Initial(w0) && id in Run(w0, events).nodes
    ensures var n := Run(w0, events).nodes[id];
            && (n.last.Some? ==> n.last.value.asked <= n.last.value.served < n.last.value.finished < |events|)
            && n.fw.state == (if n.last.Some? && n.failed < 15
                              then ToldAt(w0, events, n.last.value.served, n.name) else 1)
            && Drives(n.fw.positive, n.fw.negative, n.fw.state)
            && (n.fw.led == ConnectedToBase ==> n.fw.failures < 15)
  {
    RunOk(w0, events);
    NodeBound(w0, events, Run(w0, events), Run(w0, events).nodes[id]);
    hide Run, ToldAt, Drives, NodeOk;
  }

  lemma NodeBound(w0: World, events: seq<Event>, w: World, n: Node)
    requires NodeOk(w0, events, w, n)
    ensures n.last.Some? ==> n.last.value.asked <= n.last.value.served < n.last.value.finished < |events|
    ensures n.fw.state == if n.last.Some? && n.failed < 15
                          then ToldAt(w0, events, n.last.value.served, n.name) else 1
    ensures Drives(n.fw.positive, n.fw.negative, n.fw.state)
    ensures n.fw.led == ConnectedToBase ==> n.fw.failures < 15
  {
    PinsExactly(n.fw.state);
    hide ToldAt, Pins, Drives, ConnectionOk;
  }

  /** What the base was put through. */
  function Inputs(events: seq<Event>): seq<Input> {
    if events == [] then []
    else
      var e := events[|events| - 1];
      Inputs(events[..|events| - 1]) + if e.ToBase? then [e.input] else []
  }

  lemma StepBase(w: World, e: Event)
    ensures Step(w, e).base == if e.ToBase? then Control.Step(w.base, e.input) else w.base
  {
    hide Control.Step, Restarts, S.Serve, Noted, Concluded, EncodeRequest, Firmware.Step, Begin, Ended;
  }

  lemma {:induction false} BaseRuns(w0: World, events: seq<Event>)
    ensures Run(w0, events).base == Control.Run(w0.base, Inputs(events))
  {
    if events != [] {
      hide Control.Step, Step;
      var front, e := events[..|events| - 1], events[|events| - 1];
      BaseRuns(w0, front);
      StepBase(Run(w0, front), e);
      var i := Inputs(front);
      if e.ToBase? {
        assert Inputs(events)[..|i|] == i && Inputs(events)[|i|] == e.input;
      } else {
        assert Inputs(events) == i;
      }
    }
  }

  /** What the base tells a name after k events is the last ALL order, order to that very
      name or fallback among the inputs it was put through by then. */
  lemma {:induction false} ToldIsLastOrder(w0: World, events: seq<Event>, k: nat, name: string)
    requires P.Good(w0.base.ctl) && k <= |events|
    ensures var start := w0.base.ctl;
            ToldAt(w0, events, k, name)
            == StateCode(H.LastFor(H.RunLog(w0.base, Inputs(events[..k])), Upper(name),
                                   Lookup(start.mem, Upper(name)), Lookup(Load(start.file), Upper(name))))
  {
    BaseRuns(w0, events[..k]);
    H.LookupIsLastSetting(w0.base, Inputs(events[..k]), Upper(name));
    hide Run, H.RunLog, H.LastFor, Lookup, Inputs, Load, P.Good;
  }
}
