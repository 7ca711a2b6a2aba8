/** How the base answers the messages of devices, as functions: the specification of
    parseMessage, sendHeaterState and handleConnections. */
module Serving {
  import opened Text
  import opened StateFile
  import opened Wire
  import opened Devices
  import opened Control
  import C = Connections

  /** What serving messages changes: the registry, the replies put on each connection, the
      SMS sent, and the reply counter. */
  datatype Net = Net(registry: Registry, replies: seq<(int, seq<byte>)>, outbox: seq<Message>, counter: nat)

  /** One message, and when it was read: on the steady clock and on the wall clock. */
  datatype Reading = Message(data: seq<byte>, seen: int, at: int) | Broken | EndOfFile(seen: int)

  /** What was read from the connections that poll found ready. */
  type Ready = map<int, Reading>

  /** The state a device is told: a nameless device gets the default. */
  function Told(p: Persistent, name: string): HeaterState {
    if name != "" then Lookup(p, name) else p.default
  }

  predicate IsRequest(m: seq<byte>) {
    |m| == MESSAGE_SIZE && Version(m) == 1 && Kind(m) == REQ_HEATER_STATE
  }

  predicate Alarming(r: Registry, m: seq<byte>)
    requires |m| == MESSAGE_SIZE
  {
    SenderMac(m) in r.counters && Rebooted(Counter(m), r.counters[SenderMac(m)])
  }

  /** One message from the connection fd. Anything but a version 1 request is ignored. */
  function Serve(n: Net, p: Persistent, fd: int, m: seq<byte>, at: int, own: Mac): Net
    requires |m| == MESSAGE_SIZE
  {
    if !IsRequest(m) then n
    else
      var name := RequestName(Payload(m));
      var state := Told(p, name);
      Net(
        Apply(n.registry, Request(SenderMac(m), Counter(m), Device(name, at, state))),
        n.replies + [(fd, EncodeReply(own, n.counter, StateCode(state)))],
        if Alarming(n.registry, m)
        then n.outbox + [Control.Message(p.emergency, DeviceRebooted(SenderMac(m)))] else n.outbox,
        (n.counter + 1) % WORD64)
  }

  /** Only a 64-byte message of version 1 and type 1 does anything at all. */
  lemma OnlyRequestsServed(n: Net, p: Persistent, fd: int, m: seq<byte>, at: int, own: Mac)
    requires |m| == 64
    ensures Serve(n, p, fd, m, at, own) == n <==> !(m[0] == 1 && m[1] == 1)
  {
    if IsRequest(m) { assert |Serve(n, p, fd, m, at, own).replies| == |n.replies| + 1; }
    hide RequestName, SenderMac, Counter, EncodeReply, Alarming;
  }

  predicate ReadyFor(ready: Ready) {
    forall fd :: fd in ready && ready[fd].Message? ==>
      |ready[fd].data| == MESSAGE_SIZE && (IsRequest(ready[fd].data) ==> Terminated(Payload(ready[fd].data)))
  }

  /** The ready connections served in list order. */
  function ServeAll(n: Net, p: Persistent, conns: seq<C.Connection>, ready: Ready, own: Mac): Net
    requires ReadyFor(ready)
    decreases conns
  {
    if conns == [] then n
    else ServeAll(ServeOne(n, p, conns[0], ready, own), p, conns[1..], ready, own)
  }

  function ServeOne(n: Net, p: Persistent, c: C.Connection, ready: Ready, own: Mac): Net
    requires ReadyFor(ready)
  {
    if c.fd in ready && ready[c.fd].Message? then Serve(n, p, c.fd, ready[c.fd].data, ready[c.fd].at, own) else n
  }

  /** What becomes of one connection: closed at end of file, refreshed by a request. */
  function After(c: C.Connection, ready: Ready): seq<C.Connection> {
    if c.fd !in ready then [c]
    else match ready[c.fd]
      case EndOfFile(_) => []
      case Broken => [c]
      case Message(m, seen, _) => if IsRequest(m) then [c.(lastSeen := seen)] else [c]
  }

  function AfterAll(conns: seq<C.Connection>, ready: Ready): seq<C.Connection> {
    if conns == [] then [] else After(conns[0], ready) + AfterAll(conns[1..], ready)
  }

  function Hang(c: C.Connection, ready: Ready): seq<int> {
    if c.fd in ready && ready[c.fd].EndOfFile? then [c.fd] else []
  }

  function HungUp(conns: seq<C.Connection>, ready: Ready): seq<int> {
    if conns == [] then [] else Hang(conns[0], ready) + HungUp(conns[1..], ready)
  }

  /** A request of a heater as its firmware builds it is answered with a reply that the
      firmware accepts as the state that name is to be in, and is filed under its MAC. */
  lemma RequestServed(n: Net, p: Persistent, fd: int, mac: Mac, sent: nat, name: string, at: int, own: Mac)
    requires ValidName(name) && |name| < 32 && sent < WORD64 && n.counter < WORD64
    ensures ByteText(name)
    ensures var m := EncodeRequest(mac, sent, NameField(name));
            var state := Lookup(p, Upper(name));
            var e := Serve(n, p, fd, m, at, own);
            && IsRequest(m) && Terminated(Payload(m))
            && |e.replies| == |n.replies| + 1
            && e.replies[|n.replies|].0 == fd
            && |e.replies[|n.replies|].1| == MESSAGE_SIZE
            && e.replies[|n.replies|].1[16]
               == (match state case Off => 0 case Defrost => 1 case Eco => 2 case Comfort => 3)
            && Judge(e.replies[|n.replies|].1) == Accepted(StateCode(state))
            && HasHeader(e.replies[|n.replies|].1, 2, own, n.counter) && e.counter == (n.counter + 1) % WORD64
            && e.registry == Apply(n.registry, Request(PackMac(mac), sent, Device(Upper(name), at, state)))
  {
    RequestRoundTrip(mac, sent, name);
    UpperOfName(name);
    NotNameless(Upper(name));
    var m, state := EncodeRequest(mac, sent, NameField(name)), Lookup(p, Upper(name));
    assert IsRequest(m) && Told(p, Upper(name)) == state;
    hide *;
    ServeIs(n, p, fd, m, at, own);
    ReplyRoundTrip(own, n.counter, state);
    ReplyLayout(own, n.counter, state);
  }

  lemma NotNameless(name: string)
    requires StoredName(name)
    ensures name != ""
  {
  }

  lemma ServeIs(n: Net, p: Persistent, fd: int, m: seq<byte>, at: int, own: Mac)
    requires IsRequest(m)
    ensures var name := RequestName(Payload(m));
            var e := Serve(n, p, fd, m, at, own);
            && |e.replies| == |n.replies| + 1
            && e.replies[|n.replies|] == (fd, EncodeReply(own, n.counter, StateCode(Told(p, name))))
            && e.counter == (n.counter + 1) % WORD64
            && e.registry == Apply(n.registry, Request(SenderMac(m), Counter(m), Device(name, at, Told(p, name))))
  {
    hide RequestName, EncodeReply, Alarming, SenderMac, Counter, Told, Apply;
  }

  /** A request without a valid name is answered with the default state. */
  lemma NamelessServed(n: Net, p: Persistent, fd: int, m: seq<byte>, at: int, own: Mac)
    requires IsRequest(m) && RequestName(Payload(m)) == "" && n.counter < WORD64
    ensures var e := Serve(n, p, fd, m, at, own);
            && |e.replies| == |n.replies| + 1 && e.replies[|n.replies|].0 == fd
            && e.replies[|n.replies|].1[16]
               == (match p.default case Off => 0 case Defrost => 1 case Eco => 2 case Comfort => 3)
            && SenderMac(m) in e.registry.devices && e.registry.devices[SenderMac(m)] == Device("", at, p.default)
  {
    ReplyLayout(own, n.counter, p.default);
    hide HasHeader, RequestName, EncodeReply, Alarming, SenderMac, Counter;
  }

  lemma AfterOne(c: C.Connection, ready: Ready)
    ensures if c.fd in ready && ready[c.fd].EndOfFile? then After(c, ready) == []
            else |After(c, ready)| == 1 && After(c, ready)[0].fd == c.fd
  {
  }

  /** handleConnections closes each connection that hung up, and it unlists those only. */
  lemma {:induction false} AfterAllFds(conns: seq<C.Connection>, ready: Ready, fd: int)
    ensures C.Listed(conns, fd) == C.Listed(AfterAll(conns, ready), fd) + C.Count(HungUp(conns, ready), fd)
  {
    if conns != [] {
      hide After;
      var rest, gone := AfterAll(conns[1..], ready), HungUp(conns[1..], ready);
      AfterAllFds(conns[1..], ready, fd);
      AfterOne(conns[0], ready);
      if conns[0].fd in ready && ready[conns[0].fd].EndOfFile? {
        assert AfterAll(conns, ready) == rest;
        assert HungUp(conns, ready)[0] == conns[0].fd && HungUp(conns, ready)[1..] == gone;
      } else {
        assert HungUp(conns, ready) == gone;
        assert AfterAll(conns, ready)[0].fd == conns[0].fd && AfterAll(conns, ready)[1..] == rest;
      }
    }
  }

  /** The event that serving one connection is, for the connection list. */
  function EventOf(c: C.Connection, ready: Ready): seq<C.Timed> {
    if c.fd !in ready then []
    else match ready[c.fd]
      case EndOfFile(seen) => [(C.HangUp(c.fd), seen)]
      case Broken => []
      case Message(m, seen, _) => if IsRequest(m) then [(C.Refresh(c.fd), seen)] else []
  }

  function EventsOf(conns: seq<C.Connection>, ready: Ready): seq<C.Timed> {
    if conns == [] then [] else EventOf(conns[0], ready) + EventsOf(conns[1..], ready)
  }

  lemma {:induction false} WithoutPast(done: seq<C.Connection>, c: C.Connection, rest: seq<C.Connection>)
    requires forall x :: x in done ==> x.fd != c.fd
    ensures C.Without(done + [c] + rest, c.fd) == done + rest
  {
    var all := done + [c] + rest;
    if done == [] {
      assert all[1..] == rest && done + rest == rest;
    } else {
      assert all[1..] == done[1..] + [c] + rest && all[0] == done[0];
      WithoutPast(done[1..], c, rest);
      assert [done[0]] + (done[1..] + rest) == done + rest;
    }
  }

  lemma RefreshedPast(done: seq<C.Connection>, c: C.Connection, rest: seq<C.Connection>, seen: int)
    requires C.DistinctFds(done + [c] + rest)
    ensures C.Refreshed(done + [c] + rest, c.fd, seen) == done + [c.(lastSeen := seen)] + rest
  {
    var all := done + [c] + rest;
    assert all[|done|] == c;
  }

  lemma OneServed(done: seq<C.Connection>, c: C.Connection, rest: seq<C.Connection>, ready: Ready)
    requires C.DistinctFds(done + [c] + rest)
    ensures C.Apply(done + [c] + rest, EventOf(c, ready)) == (done + After(c, ready)) + rest
  {
    var all := done + [c] + rest;
    assert all[|done|] == c && forall k :: 0 <= k < |done| ==> all[k] == done[k];
    hide IsRequest, C.DistinctFds;
    if c.fd in ready && ready[c.fd].EndOfFile? {
      WithoutPast(done, c, rest);
      assert done + [] == done;
    } else if c.fd in ready && ready[c.fd].Message? {
      RefreshedPast(done, c, rest, ready[c.fd].seen);
    }
  }

  lemma StillDistinct(done: seq<C.Connection>, c: C.Connection, rest: seq<C.Connection>, ready: Ready)
    requires C.DistinctFds(done + [c] + rest)
    ensures C.DistinctFds((done + After(c, ready)) + rest)
  {
    AfterOne(c, ready);
    hide After;
    var all, now := done + [c] + rest, (done + After(c, ready)) + rest;
    if |After(c, ready)| == 1 {
      assert forall k :: 0 <= k < |now| ==> now[k].fd == all[k].fd;
    } else {
      assert now == done + rest;
      assert forall k :: 0 <= k < |now| ==> now[k] == all[if k < |done| then k else k + 1];
    }
  }

  lemma {:induction false} ApplyConcat(conns: seq<C.Connection>, a: seq<C.Timed>, b: seq<C.Timed>)
    ensures C.Apply(conns, a + b) == C.Apply(C.Apply(conns, a), b)
    decreases a
  {
    if a == [] {
      assert a + b == b;
    } else {
      assert (a + b)[1..] == a[1..] + b;
      ApplyConcat(C.Step(conns, a[0].0, a[0].1), a[1..], b);
    }
  }

  /** Serving a list is a run of refresh and hang-up events on it, so that conservation and
      the idle bound hold of handleConnections too. */
  lemma {:induction false} ServingIsEvents(done: seq<C.Connection>, conns: seq<C.Connection>, ready: Ready)
    requires C.DistinctFds(done + conns)
    ensures C.Apply(done + conns, EventsOf(conns, ready)) == done + AfterAll(conns, ready)
    decreases conns
  {
    if conns == [] {
    } else {
      var c, rest := conns[0], conns[1..];
      assert done + conns == done + [c] + rest;
      OneServed(done, c, rest, ready);
      StillDistinct(done, c, rest, ready);
      hide After, EventOf, C.DistinctFds, C.Step;
      ApplyConcat(done + conns, EventOf(c, ready), EventsOf(rest, ready));
      ServingIsEvents(done + After(c, ready), rest, ready);
      Regroup(done, After(c, ready), AfterAll(rest, ready));
    }
  }
}
