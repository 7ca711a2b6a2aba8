/** Bounded staleness told by the events alone: which exchange of a heater was its last, and
    how many of its cycles failed since. */
module FleetTrace {
  import opened StateFile
  import opened Wire
  import Control
  import S = Serving
  import Firmware
  import F = Fleet
  import P = ControlProperties
  import H = History
  import opened Text

  /** What an event is to a heater: no end of a cycle, the end of one that failed or that
      brought a reply it obeys, or its power-on. */
  datatype CycleEnd = NoEnd | Bad | Good | PowerOn

  /** There is a whole reply to read, and it is accepted. */
  predicate Delivered(w: F.World, conn: nat, how: F.Ending) {
    && how == F.Read && conn in w.answers
    && |w.answers[conn].bytes| == MESSAGE_SIZE && Judge(w.answers[conn].bytes).Accepted?
  }

  function EndOf(w: F.World, e: F.Event, id: nat): CycleEnd {
    if id !in w.nodes then NoEnd
    else
      var phase := w.nodes[id].phase;
      match e
      case Fail(i, o, _) => if i == id && phase.Resting? && (o.NoConnection? || o.WriteFailed?) then Bad else NoEnd
      case Finish(i, how, _) =>
        if i != id || phase.Resting? then NoEnd else if Delivered(w, phase.conn, how) then Good else Bad
      case Reboot(i, seed) => if i == id && seed < 0x1000_0000 then PowerOn else NoEnd
      case _ => NoEnd
  }

  ghost function LastEnd(w0: F.World, events: seq<F.Event>, id: nat): CycleEnd
    requires events != []
  {
    EndOf(F.Run(w0, events[..|events| - 1]), events[|events| - 1], id)
  }

  /** The failed cycles of a heater since its last successful one, or its power-on. */
  ghost function FailedSince(w0: F.World, events: seq<F.Event>, id: nat): nat {
    if events == [] then 0
    else
      match LastEnd(w0, events, id)
      case NoEnd => FailedSince(w0, events[..|events| - 1], id)
      case Bad => FailedSince(w0, events[..|events| - 1], id) + 1
      case _ => 0
  }

  /** The step of the last successful cycle of a heater since its power-on. */
  ghost function LastSuccess(w0: F.World, events: seq<F.Event>, id: nat): Option<nat> {
    if events == [] then None
    else
      match LastEnd(w0, events, id)
      case Good => Some(|events| - 1)
      case PowerOn => None
      case _ => LastSuccess(w0, events[..|events| - 1], id)
  }

  /** Event k is this heater's request going out on a connection that is new. */
  ghost predicate AskedAt(w0: F.World, events: seq<F.Event>, k: nat, id: nat, conn: nat) {
    k < |events| && events[k] == F.Ask(id)
    && var w := F.Run(w0, events[..k]); id in w.nodes && w.nodes[id].phase == F.Resting && w.nextConn == conn
  }

  /** Event k is the base answering the request on that connection. */
  ghost predicate ServedAt(w0: F.World, events: seq<F.Event>, k: nat, conn: nat) {
    k < |events| && events[k].Serve? && events[k].conn == conn && conn in F.Run(w0, events[..k]).requests
  }

  /** Event k is this heater, waiting on that connection, reading a reply it obeys. */
  ghost predicate ReadAt(w0: F.World, events: seq<F.Event>, k: nat, id: nat, conn: nat) {
    k < |events|
    && var w := F.Run(w0, events[..k]);
       id in w.nodes && w.nodes[id].phase == F.Waiting(conn) && EndOf(w, events[k], id) == Good
  }

  ghost predicate Exchange(w0: F.World, events: seq<F.Event>, id: nat, s: F.Success) {
    && AskedAt(w0, events, s.asked, id, s.conn)
    && ServedAt(w0, events, s.served, s.conn)
    && ReadAt(w0, events, s.finished, id, s.conn)
  }

  /** That exchange, in this order, ended at this step. */
  ghost predicate Completed(w0: F.World, events: seq<F.Event>, id: nat, s: F.Success, finished: nat) {
    Exchange(w0, events, id, s) && s.asked < s.served < s.finished == finished < |events|
  }

  // ------------------------------------------------------------------ invariant

  ghost predicate NodeTraced(w0: F.World, events: seq<F.Event>, id: nat, n: F.Node) {
    && (n.phase.Waiting? ==> AskedAt(w0, events, n.asked, id, n.phase.conn))
    && n.failed == FailedSince(w0, events, id)
    && (n.last == None ==> LastSuccess(w0, events, id) == None)
    && (n.last.Some? ==> LastSuccess(w0, events, id) == Some(n.last.value.finished)
                         && Exchange(w0, events, id, n.last.value))
  }

  ghost predicate Traced(w0: F.World, events: seq<F.Event>, w: F.World) {
    && w.clock == |events|
    && (forall c :: c in w.answers ==> ServedAt(w0, events, w.answers[c].served, c))
    && (forall id :: id in w.nodes ==> NodeTraced(w0, events, id, w.nodes[id]))
  }

  lemma PrefixFacts(w0: F.World, events: seq<F.Event>, e: F.Event, k: nat, id: nat, conn: nat)
    ensures AskedAt(w0, events, k, id, conn) ==> AskedAt(w0, events + [e], k, id, conn)
    ensures ServedAt(w0, events, k, conn) ==> ServedAt(w0, events + [e], k, conn)
    ensures ReadAt(w0, events, k, id, conn) ==> ReadAt(w0, events + [e], k, id, conn)
  {
    hide F.Run, EndOf;
    if k < |events| {
      assert (events + [e])[..k] == events[..k] && (events + [e])[k] == events[k];
    }
  }

  lemma ExchangeStays(w0: F.World, events: seq<F.Event>, e: F.Event, id: nat, s: F.Success)
    requires Exchange(w0, events, id, s)
    ensures Exchange(w0, events + [e], id, s)
  {
    hide AskedAt, ServedAt, ReadAt;
    PrefixFacts(w0, events, e, s.asked, id, s.conn);
    PrefixFacts(w0, events, e, s.served, id, s.conn);
    PrefixFacts(w0, events, e, s.finished, id, s.conn);
  }

  // ---------------------------------------------------------------- what one event does

  /** How a node changes, by what the event is to it. */
  predicate Follows(w: F.World, e: F.Event, id: nat, v: F.Node)
    requires id in w.nodes
  {
    var n := w.nodes[id];
    match EndOf(w, e, id)
    case NoEnd =>
      && v.failed == n.failed && v.last == n.last
      && ((v.phase == n.phase && v.asked == n.asked)
          || (e == F.Ask(id) && n.phase == F.Resting && v.phase == F.Waiting(w.nextConn) && v.asked == w.clock))
    case Bad => v.failed == n.failed + 1 && v.last == n.last && v.phase == F.Resting
    case Good =>
      && n.phase.Waiting? && n.phase.conn in w.answers
      && v.failed == 0 && v.phase == F.Resting
      && v.last == Some(F.Success(n.phase.conn, n.asked, w.answers[n.phase.conn].served, w.clock))
    case PowerOn => v.failed == 0 && v.last == None && v.phase == F.Resting
  }

  lemma BystanderFollows(w: F.World, e: F.Event, id: nat)
    requires id in F.Step(w, e).nodes
    requires e.ToBase? || e.Stranger? || e.ToNode? || e.Serve?
    ensures id in w.nodes && Follows(w, e, id, F.Step(w, e).nodes[id])
  {
    hide F.Served, F.Noted, Control.Step, Control.Restarts, Firmware.Step, F.Readable;
    if e.Serve? && e.conn in w.requests { F.ServedLinks(w, e.conn, e.at); }
  }

  lemma AskerFollows(w: F.World, e: F.Event, id: nat)
    requires id in F.Step(w, e).nodes && e.Ask?
    ensures id in w.nodes && Follows(w, e, id, F.Step(w, e).nodes[id])
  {
    hide Firmware.Begin, NameField, ByteText, EncodeRequest;
  }

  lemma EndedNode(n: F.Node, o: Firmware.Outcome, now: nat)
    ensures var v := F.Ended(F.Begun(n, o), o, now);
            v.failed == n.failed + 1 && v.last == n.last && v.phase == F.Resting
  {
    hide Firmware.FailSafe, Firmware.Conclude, Firmware.Begin;
  }

  lemma FinishFollows(w: F.World, e: F.Event, id: nat)
    requires id in F.Step(w, e).nodes && e.Finish?
    ensures id in w.nodes && Follows(w, e, id, F.Step(w, e).nodes[id])
  {
    hide F.Concluded, Delivered;
    if e.id in w.nodes && w.nodes[e.id].phase.Waiting? { ConcludedNode(w, w.nodes[e.id], e.how, e.now); }
  }

  lemma FailFollows(w: F.World, e: F.Event, id: nat)
    requires id in F.Step(w, e).nodes && e.Fail?
    ensures id in w.nodes && Follows(w, e, id, F.Step(w, e).nodes[id])
  {
    hide F.Ended, F.Begun;
    if e.id in w.nodes { EndedNode(w.nodes[e.id], e.o, e.now); }
  }

  lemma BootFollows(w: F.World, e: F.Event, id: nat)
    requires id in F.Step(w, e).nodes && e.Reboot?
    ensures id in w.nodes && Follows(w, e, id, F.Step(w, e).nodes[id])
  {
    hide Firmware.Boot;
  }

  lemma NodeAfter(w: F.World, e: F.Event, id: nat)
    requires id in F.Step(w, e).nodes
    ensures id in w.nodes && Follows(w, e, id, F.Step(w, e).nodes[id])
  {
    if e.Ask? {
      AskerFollows(w, e, id);
    } else if e.Fail? {
      FailFollows(w, e, id);
    } else if e.Finish? {
      FinishFollows(w, e, id);
    } else if e.Reboot? {
      BootFollows(w, e, id);
    } else {
      BystanderFollows(w, e, id);
    }
    hide F.Step, Follows;
  }

  lemma ConcludedNode(w: F.World, n: F.Node, how: F.Ending, now: nat)
    requires n.phase.Waiting?
    ensures var v := F.Concluded(w, n, how, now);
            v.phase == F.Resting
            && if Delivered(w, n.phase.conn, how) then
                 n.phase.conn in w.answers && v.failed == 0
                 && v.last == Some(F.Success(n.phase.conn, n.asked, w.answers[n.phase.conn].served, w.clock))
               else v.failed == n.failed + 1 && v.last == n.last
  {
    hide Firmware.FailSafe, Firmware.Conclude, Judge;
  }

  lemma AnswersAfter(w: F.World, e: F.Event, c: nat)
    requires c in F.Step(w, e).answers
    ensures var v := F.Step(w, e);
            (c in w.answers && v.answers[c] == w.answers[c])
            || (e.Serve? && e.conn == c && c in w.requests && v.answers[c].served == w.clock)
  {
    hide F.Noted, F.Concluded, F.Begun, F.Booted, F.Ended, Control.Step, Control.Restarts, Firmware.Step;
    hide S.Serve, ByteText, NameField, EncodeRequest, F.Readable;
  }

  lemma OneMore(w0: F.World, events: seq<F.Event>, e: F.Event, id: nat)
    ensures var all, end := events + [e], EndOf(F.Run(w0, events), e, id);
            && FailedSince(w0, all, id)
               == (if end == NoEnd then FailedSince(w0, events, id)
                   else if end == Bad then FailedSince(w0, events, id) + 1 else 0)
            && LastSuccess(w0, all, id)
               == (if end == Good then Some(|events|) else if end == PowerOn then None
                   else LastSuccess(w0, events, id))
  {
    hide F.Run, EndOf;
    var all := events + [e];
    assert all[..|all| - 1] == events && all[|all| - 1] == e;
  }

  lemma ThisOne(w0: F.World, events: seq<F.Event>, e: F.Event, id: nat, conn: nat)
    ensures var w := F.Run(w0, events);
            && (e == F.Ask(id) && id in w.nodes && w.nodes[id].phase == F.Resting ==>
                  AskedAt(w0, events + [e], |events|, id, w.nextConn))
            && (id in w.nodes && w.nodes[id].phase == F.Waiting(conn) && EndOf(w, e, id) == Good ==>
                  ReadAt(w0, events + [e], |events|, id, conn))
            && (e.Serve? && e.conn == conn && conn in w.requests ==> ServedAt(w0, events + [e], |events|, conn))
  {
    hide F.Run, EndOf;
    assert (events + [e])[..|events|] == events;
  }

  lemma NewExchange(w0: F.World, events: seq<F.Event>, e: F.Event, w: F.World, id: nat, s: F.Success)
    requires w == F.Run(w0, events) && Traced(w0, events, w) && id in w.nodes && EndOf(w, e, id) == Good
    requires w.nodes[id].phase == F.Waiting(s.conn) && s.conn in w.answers
    requires s.asked == w.nodes[id].asked && s.served == w.answers[s.conn].served && s.finished == |events|
    ensures Exchange(w0, events + [e], id, s)
  {
    hide F.Run, EndOf, AskedAt, ReadAt, ServedAt, FailedSince, LastSuccess;
    assert NodeTraced(w0, events, id, w.nodes[id]);
    PrefixFacts(w0, events, e, s.asked, id, s.conn);
    PrefixFacts(w0, events, e, s.served, id, s.conn);
    ThisOne(w0, events, e, id, s.conn);
  }

  lemma OldFacts(w0: F.World, events: seq<F.Event>, e: F.Event, id: nat, n: F.Node)
    requires NodeTraced(w0, events, id, n)
    ensures n.last.Some? ==> Exchange(w0, events + [e], id, n.last.value)
    ensures n.phase.Waiting? ==> AskedAt(w0, events + [e], n.asked, id, n.phase.conn)
  {
    hide Exchange, AskedAt, FailedSince, LastSuccess, ServedAt, ReadAt;
    if n.last.Some? { ExchangeStays(w0, events, e, id, n.last.value); }
    if n.phase.Waiting? { PrefixFacts(w0, events, e, n.asked, id, n.phase.conn); }
  }

  lemma {:induction false} NodeStep(w0: F.World, events: seq<F.Event>, e: F.Event, w: F.World, id: nat)
    requires w == F.Run(w0, events) && Traced(w0, events, w) && id in F.Step(w, e).nodes
    ensures NodeTraced(w0, events + [e], id, F.Step(w, e).nodes[id])
  {
    NodeAfter(w, e, id);
    OneMore(w0, events, e, id);
    var n, v := w.nodes[id], F.Step(w, e).nodes[id];
    OldFacts(w0, events, e, id, n);
    ThisOne(w0, events, e, id, 0);
    hide F.Run, F.Step, EndOf, AskedAt, ServedAt, ReadAt, Exchange, FailedSince, LastSuccess;
    if EndOf(w, e, id) == Good {
      NewExchange(w0, events, e, w, id, v.last.value);
    }
  }

  lemma {:induction false} AnswerStep(w0: F.World, events: seq<F.Event>, e: F.Event, w: F.World, c: nat)
    requires w == F.Run(w0, events) && Traced(w0, events, w) && c in F.Step(w, e).answers
    ensures ServedAt(w0, events + [e], F.Step(w, e).answers[c].served, c)
  {
    AnswersAfter(w, e, c);
    hide F.Run, F.Step, NodeTraced, ServedAt;
    ThisOne(w0, events, e, 0, c);
    if c in w.answers { PrefixFacts(w0, events, e, w.answers[c].served, 0, c); }
  }

  lemma {:induction false} RunTraced(w0: F.World, events: seq<F.Event>)
    requires F.Initial(w0)
    ensures Traced(w0, events, F.Run(w0, events))
  {
    if events != [] {
      var front, e := events[..|events| - 1], events[|events| - 1];
      var w := F.Run(w0, front);
      RunTraced(w0, front);
      assert front + [e] == events;
      assert F.Step(w, e).clock == w.clock + 1 by { hide F.Effect; }
      hide F.Run, F.Step, F.Initial, NodeTraced, ServedAt;
      forall c | c in F.Step(w, e).answers ensures ServedAt(w0, events, F.Step(w, e).answers[c].served, c) {
        AnswerStep(w0, front, e, w, c);
      }
      forall id | id in F.Step(w, e).nodes ensures NodeTraced(w0, events, id, F.Step(w, e).nodes[id]) {
        NodeStep(w0, front, e, w, id);
      }
      assert F.Run(w0, events) == F.Step(w, e) by { RunOne(w0, events); }
    }
  }

  lemma RunOne(w0: F.World, events: seq<F.Event>)
    requires events != []
    ensures F.Run(w0, events) == F.Step(F.Run(w0, events[..|events| - 1]), events[|events| - 1])
  {
    hide F.Step;
  }

  /** Bounded staleness by the events alone. A heater that has not completed an exchange
      since its power-on is in DEFROST. Else let its last one be that whose reply it read at
      step finished: there are earlier steps, first asked, at which it sent the request of
      that very connection, then served, at which the base answered it; and it is in the
      state the base told its name at step served if fewer than 15 of its cycles failed after
      finished, else in DEFROST. */
  lemma {:induction false} StalenessByEvents(w0: F.World, events: seq<F.Event>, id: nat)
    requires F.Initial(w0) && id in F.Run(w0, events).nodes
    ensures var n := F.Run(w0, events).nodes[id];
            Firmware.Drives(n.fw.positive, n.fw.negative, n.fw.state)
            && match LastSuccess(w0, events, id)
            case None => n.fw.state == 1
            case Some(finished) =>
              exists s: F.Success ::
                && Completed(w0, events, id, s, finished)
                && n.fw.state == if FailedSince(w0, events, id) < 15
                                 then F.ToldAt(w0, events, s.served, n.name) else 1
  {
    RunTraced(w0, events);
    F.BoundedStaleness(w0, events, id);
    var n := F.Run(w0, events).nodes[id];
    assert NodeTraced(w0, events, id, n);
    if n.last.Some? {
      var s := n.last.value;
      assert s.asked != s.served by {
        hide F.Run;
        assert events[s.asked] == F.Ask(id) && events[s.served].Serve?;
      }
      hide F.Run, F.ToldAt, AskedAt, ServedAt, ReadAt, LastSuccess, FailedSince, Firmware.Drives;
      assert Completed(w0, events, id, s, s.finished);
    }
  }

  /** A heater shows a state: the state itself, by its number, and the two pins. */
  predicate Shows(f: Firmware.Fw, s: HeaterState) {
    match s
    case Off => f.state == 0 && f.positive && !f.negative
    case Defrost => f.state == 1 && !f.positive && f.negative
    case Eco => f.state == 2 && f.positive && f.negative
    case Comfort => f.state == 3 && !f.positive && !f.negative
  }

  lemma CodeShows(f: Firmware.Fw, s: HeaterState)
    requires Firmware.Drives(f.positive, f.negative, f.state) && f.state == StateCode(s)
    ensures Shows(f, s)
  {
  }

  /** From SMS to pilot wire, by the events alone: a heater that completed an exchange since
      its power-on, and failed fewer than 15 cycles after it, shows the state of the last ALL
      order, order to its very name or fallback that the base had taken when it answered in
      that exchange, where a restart of the base forgets what it had not saved; any other
      heater shows defrost. */
  lemma {:induction false} HeaterFollowsLastOrder(w0: F.World, events: seq<F.Event>, id: nat)
    requires F.Initial(w0) && P.Good(w0.base.ctl) && id in F.Run(w0, events).nodes
    ensures var n := F.Run(w0, events).nodes[id];
            match LastSuccess(w0, events, id)
            case None => Shows(n.fw, Defrost)
            case Some(finished) =>
              exists s: F.Success ::
                && Completed(w0, events, id, s, finished)
                && Shows(n.fw, if FailedSince(w0, events, id) < 15 then LastOrder(w0, events[..s.served], n.name)
                               else Defrost)
  {
    StalenessByEvents(w0, events, id);
    var n := F.Run(w0, events).nodes[id];
    hide *;
    if LastSuccess(w0, events, id).Some? {
      var finished := LastSuccess(w0, events, id).value;
      var s: F.Success :|
        && Completed(w0, events, id, s, finished)
        && n.fw.state == if FailedSince(w0, events, id) < 15 then F.ToldAt(w0, events, s.served, n.name) else 1;
      ToldLastOrder(w0, events, s.served, n.name);
      DefrostIsOne();
      CodeShows(n.fw, if FailedSince(w0, events, id) < 15 then LastOrder(w0, events[..s.served], n.name) else Defrost);
      assert Completed(w0, events, id, s, s.finished);
    } else {
      DefrostIsOne();
      CodeShows(n.fw, Defrost);
    }
  }

  lemma DefrostIsOne()
    ensures StateCode(Defrost) == 1
  {
  }

  lemma ToldLastOrder(w0: F.World, events: seq<F.Event>, k: nat, name: string)
    requires P.Good(w0.base.ctl) && k <= |events|
    ensures F.ToldAt(w0, events, k, name) == StateCode(LastOrder(w0, events[..k], name))
  {
    F.ToldIsLastOrder(w0, events, k, name);
    hide F.ToldAt, F.Inputs, H.RunLog, H.LastFor, Load, Lookup, P.Good;
  }

  /** The last order for a name among the inputs of the base. */
  ghost function LastOrder(w0: F.World, events: seq<F.Event>, name: string): HeaterState {
    var start := w0.base.ctl;
    H.LastFor(H.RunLog(w0.base, F.Inputs(events)), Upper(name),
              Lookup(start.mem, Upper(name)), Lookup(Load(start.file), Upper(name)))
  }
}
