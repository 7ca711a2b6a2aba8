/** The connection list of the base station: every accepted descriptor is listed until it
    is closed, once, and no connection stays idle much longer than ten minutes. */
module Connections {

  /** Times are in nanoseconds of the steady clock. */
  datatype Connection = Connection(fd: int, lastSeen: int)

  const MINUTE: int := 60_000_000_000

  /** duration_cast to minutes: truncates towards zero. */
  function WholeMinutes(d: int): int {
    if d >= 0 then d / MINUTE else -((-d) / MINUTE)
  }

  predicate Stale(c: Connection, now: int) {
    WholeMinutes(now - c.lastSeen) > 10
  }

  /** "More than ten minutes" in whole minutes means eleven or more. */
  lemma StaleAtEleven(c: Connection, now: int)
    ensures Stale(c, now) <==> now - c.lastSeen >= 660_000_000_000
  {
    var d := now - c.lastSeen;
    if d >= 0 {
      assert d == d / MINUTE * MINUTE + d % MINUTE;
    }
  }

  /** What a sweep keeps, in the order it was in. */
  function Swept(conns: seq<Connection>, now: int): seq<Connection> {
    if conns == [] then []
    else (if Stale(conns[0], now) then [] else [conns[0]]) + Swept(conns[1..], now)
  }

  /** The descriptors a sweep closes. */
  function SweptAway(conns: seq<Connection>, now: int): seq<int> {
    if conns == [] then []
    else (if Stale(conns[0], now) then [conns[0].fd] else []) + SweptAway(conns[1..], now)
  }

  function Fds(conns: seq<Connection>): seq<int> {
    seq(|conns|, i requires 0 <= i < |conns| => conns[i].fd)
  }

  predicate DistinctFds(conns: seq<Connection>) {
    forall i, j :: 0 <= i < j < |conns| ==> conns[i].fd != conns[j].fd
  }

  // ------------------------------------------------------------------ the events

  datatype Event =
    | Accept(fd: int)      // handleNewDevice
    | Refresh(fd: int)     // a heater state request was read from it
    | HangUp(fd: int)      // end of file was read from it
    | Sweep                // the stale timer fired

  function Refreshed(conns: seq<Connection>, fd: int, now: int): seq<Connection> {
    seq(|conns|, i requires 0 <= i < |conns| =>
      if conns[i].fd == fd then conns[i].(lastSeen := now) else conns[i])
  }

  function Without(conns: seq<Connection>, fd: int): seq<Connection> {
    if conns == [] then []
    else if conns[0].fd == fd then conns[1..]
    else [conns[0]] + Without(conns[1..], fd)
  }

  function Step(conns: seq<Connection>, e: Event, now: int): seq<Connection> {
    match e
    case Accept(fd) => conns + [Connection(fd, now)]
    case Refresh(fd) => Refreshed(conns, fd, now)
    case HangUp(fd) => Without(conns, fd)
    case Sweep => Swept(conns, now)
  }

  /** The close calls an event brings about. */
  function Closes(conns: seq<Connection>, e: Event, now: int): seq<int> {
    match e
    case HangUp(fd) => if fd in Fds(conns) then [fd] else []
    case Sweep => SweptAway(conns, now)
    case _ => []
  }

  function Accepts(e: Event): seq<int> {
    if e.Accept? then [e.fd] else []
  }

  // ---------------------------------------------------------------- conservation

  function Count(s: seq<int>, fd: int): nat {
    if s == [] then 0 else (if s[0] == fd then 1 else 0) + Count(s[1..], fd)
  }

  /** How often a descriptor is listed. */
  function Listed(conns: seq<Connection>, fd: int): nat {
    if conns == [] then 0 else (if conns[0].fd == fd then 1 else 0) + Listed(conns[1..], fd)
  }

  lemma {:induction false} ListedMember(conns: seq<Connection>, fd: int)
    ensures Listed(conns, fd) > 0 <==> fd in Fds(conns)
  {
    if conns != [] {
      ListedMember(conns[1..], fd);
      FdsCons(conns);
    }
  }

  lemma FdsCons(conns: seq<Connection>)
    requires conns != []
    ensures Fds(conns) == [conns[0].fd] + Fds(conns[1..])
  {
  }

  lemma {:induction false} SweptConserves(conns: seq<Connection>, now: int, fd: int)
    ensures Listed(conns, fd) == Listed(Swept(conns, now), fd) + Count(SweptAway(conns, now), fd)
  {
    if conns != [] {
      SweptConserves(conns[1..], now, fd);
      if Stale(conns[0], now) {
        assert Swept(conns, now) == Swept(conns[1..], now);
      } else {
        assert SweptAway(conns, now) == SweptAway(conns[1..], now);
      }
    }
  }

  lemma {:induction false} WithoutConserves(conns: seq<Connection>, gone: int, fd: int)
    ensures Listed(conns, fd) == Listed(Without(conns, gone), fd) + if gone == fd && Listed(conns, fd) > 0 then 1 else 0
  {
    if conns != [] && conns[0].fd != gone {
      WithoutConserves(conns[1..], gone, fd);
    }
  }

  lemma {:induction false} RefreshedConserves(conns: seq<Connection>, touched: int, now: int, fd: int)
    ensures Listed(Refreshed(conns, touched, now), fd) == Listed(conns, fd)
  {
    if conns != [] {
      RefreshedConserves(conns[1..], touched, now, fd);
      assert Refreshed(conns, touched, now)[1..] == Refreshed(conns[1..], touched, now);
    }
  }

  lemma {:induction false} ListedAppend(conns: seq<Connection>, c: Connection, fd: int)
    ensures Listed(conns + [c], fd) == Listed(conns, fd) + if c.fd == fd then 1 else 0
  {
    if conns != [] {
      ListedAppend(conns[1..], c, fd);
      assert (conns + [c])[1..] == conns[1..] + [c];
    }
  }

  /** One event: what is accepted and what was listed is what is closed and what is listed
      after it, each descriptor as often. */
  lemma StepConserves(conns: seq<Connection>, e: Event, now: int, fd: int)
    ensures Listed(conns, fd) + Count(Accepts(e), fd)
            == Listed(Step(conns, e, now), fd) + Count(Closes(conns, e, now), fd)
  {
    match e
    case Accept(f) => ListedAppend(conns, Connection(f, now), fd);
    case Refresh(f) => RefreshedConserves(conns, f, now, fd);
    case HangUp(f) => WithoutConserves(conns, f, fd); ListedMember(conns, f);
    case Sweep => SweptConserves(conns, now, fd);
  }

  /** The events of a run and when they came. */
  type Timed = (Event, int)

  function Run(events: seq<Timed>): seq<Connection> {
    if events == [] then []
    else
      var e := events[|events| - 1];
      Step(Run(events[..|events| - 1]), e.0, e.1)
  }

  /** The list after more events. */
  function Apply(conns: seq<Connection>, events: seq<Timed>): seq<Connection>
    decreases events
  {
    if events == [] then conns else Apply(Step(conns, events[0].0, events[0].1), events[1..])
  }

  lemma {:induction false} RunThenApply(a: seq<Timed>, b: seq<Timed>)
    ensures Run(a + b) == Apply(Run(a), b)
    decreases b
  {
    if b == [] {
      assert a + b == a;
    } else {
      assert a + b == (a + [b[0]]) + b[1..];
      assert (a + [b[0]])[..|a|] == a;
      RunThenApply(a + [b[0]], b[1..]);
    }
  }

  function TimesAccepted(events: seq<Timed>, fd: int): nat {
    if events == [] then 0
    else TimesAccepted(events[..|events| - 1], fd) + Count(Accepts(events[|events| - 1].0), fd)
  }

  function TimesClosed(events: seq<Timed>, fd: int): nat {
    if events == [] then 0
    else
      var front, e := events[..|events| - 1], events[|events| - 1];
      TimesClosed(front, fd) + Count(Closes(Run(front), e.0, e.1), fd)
  }

  /** Over any run a descriptor was accepted as often as it was closed and is listed: none
      leaks and none is closed twice for one accept. */
  lemma {:induction false} Conservation(events: seq<Timed>, fd: int)
    ensures TimesAccepted(events, fd) == TimesClosed(events, fd) + Listed(Run(events), fd)
  {
    if events != [] {
      var front, e := events[..|events| - 1], events[|events| - 1];
      Conservation(front, fd);
      StepConserves(Run(front), e.0, e.1, fd);
    }
  }

  /** The operating system hands out a descriptor only while it is not open. */
  predicate FreshAccepts(events: seq<Timed>) {
    events == []
    || (var front, e := events[..|events| - 1], events[|events| - 1];
        FreshAccepts(front)
        && (e.0.Accept? ==> TimesAccepted(front, e.0.fd) == TimesClosed(front, e.0.fd)))
  }

  /** Then the listed descriptors are distinct and are exactly those accepted and not
      closed since. */
  lemma {:induction false} ListedAreOpen(events: seq<Timed>, fd: int)
    requires FreshAccepts(events)
    ensures Listed(Run(events), fd) <= 1
    ensures Listed(Run(events), fd) == 1 <==> TimesAccepted(events, fd) > TimesClosed(events, fd)
  {
    Conservation(events, fd);
    if events != [] {
      var front, e := events[..|events| - 1], events[|events| - 1];
      ListedAreOpen(front, fd);
      Conservation(front, fd);
      StepConserves(Run(front), e.0, e.1, fd);
    }
  }

  lemma {:induction false} OnceMeansDistinct(conns: seq<Connection>)
    requires forall fd :: Listed(conns, fd) <= 1
    ensures DistinctFds(conns)
  {
    if conns != [] {
      var rest := conns[1..];
      forall fd ensures Listed(rest, fd) <= 1 { assert Listed(conns, fd) <= 1; }
      OnceMeansDistinct(rest);
      assert Listed(conns, conns[0].fd) <= 1;
      ListedMember(rest, conns[0].fd);
      forall i, j | 0 <= i < j < |conns| ensures conns[i].fd != conns[j].fd {
        assert rest[j - 1] == conns[j];
        if i == 0 { assert Fds(rest)[j - 1] == conns[j].fd; } else { assert rest[i - 1] == conns[i]; }
      }
    }
  }

  lemma AlwaysDistinct(events: seq<Timed>)
    requires FreshAccepts(events)
    ensures DistinctFds(Run(events))
  {
    forall fd ensures Listed(Run(events), fd) <= 1 { ListedAreOpen(events, fd); }
    OnceMeansDistinct(Run(events));
  }

  // ------------------------------------------------------------------ idle bound

  /** When the last sweep was, starting from the start of the timer. */
  function LastSweep(events: seq<Timed>, start: int): int {
    if events == [] then start
    else if events[|events| - 1].0.Sweep? then events[|events| - 1].1
    else LastSweep(events[..|events| - 1], start)
  }

  function LastTime(events: seq<Timed>, start: int): int {
    if events == [] then start else events[|events| - 1].1
  }

  predicate InOrder(events: seq<Timed>, start: int) {
    events == []
    || (var front := events[..|events| - 1];
        InOrder(front, start) && LastTime(front, start) <= LastTime(events, start))
  }

  lemma {:induction false} SweptMember(conns: seq<Connection>, now: int, c: Connection)
    requires c in Swept(conns, now)
    ensures c in conns && !Stale(c, now)
  {
    if c !in [conns[0]] || Stale(conns[0], now) {
      SweptMember(conns[1..], now, c);
    }
  }

  lemma {:induction false} WithoutMember(conns: seq<Connection>, fd: int, c: Connection)
    requires c in Without(conns, fd)
    ensures c in conns
  {
    if conns[0].fd != fd && c != conns[0] {
      WithoutMember(conns[1..], fd, c);
    }
  }

  lemma {:induction false} SweepBefore(events: seq<Timed>, start: int)
    requires InOrder(events, start)
    ensures LastSweep(events, start) <= LastTime(events, start)
  {
    if events != [] {
      SweepBefore(events[..|events| - 1], start);
    }
  }

  lemma {:induction false} SeenSinceSweep(events: seq<Timed>, start: int, c: Connection)
    requires InOrder(events, start) && c in Run(events)
    ensures c.lastSeen > LastSweep(events, start) - 11 * MINUTE
  {
    var front, e := events[..|events| - 1], events[|events| - 1];
    var was := Run(front);
    SweepBefore(front, start);
    if c in was && !e.0.Sweep? {
      SeenSinceSweep(front, start, c);
    } else {
      match e.0
      case Accept(fd) =>
      case Refresh(fd) =>
        var i :| 0 <= i < |was| && c == Refreshed(was, fd, e.1)[i];
        assert was[i] in was;
      case HangUp(fd) => WithoutMember(was, fd, c);
      case Sweep => SweptMember(was, e.1, c); StaleAtEleven(c, e.1);
    }
  }

  /** When this descriptor was last accepted or sent a request. */
  function LastHeard(events: seq<Timed>, fd: int): int {
    if events == [] then 0
    else
      var e := events[|events| - 1];
      if e.0 == Accept(fd) || e.0 == Refresh(fd) then e.1 else LastHeard(events[..|events| - 1], fd)
  }

  /** A listed connection was last seen when its descriptor was last accepted or sent a
      request: every request counts, and nothing else does. */
  lemma {:induction false} SeenIsHeard(events: seq<Timed>, c: Connection)
    requires FreshAccepts(events) && c in Run(events)
    ensures c.lastSeen == LastHeard(events, c.fd)
  {
    var front, e := events[..|events| - 1], events[|events| - 1];
    var was := Run(front);
    match e.0
    case Accept(fd) =>
      if c in was {
        SeenIsHeard(front, c);
        ListedWhenIn(was, c);
        ListedAreOpen(front, fd);
      }
    case Refresh(fd) =>
      var i :| 0 <= i < |was| && c == Refreshed(was, fd, e.1)[i];
      assert was[i] in was;
      SeenIsHeard(front, was[i]);
    case HangUp(fd) =>
      WithoutMember(was, fd, c);
      SeenIsHeard(front, c);
    case Sweep =>
      SweptMember(was, e.1, c);
      SeenIsHeard(front, c);
  }

  lemma ListedWhenIn(conns: seq<Connection>, c: Connection)
    requires c in conns
    ensures Listed(conns, c.fd) > 0
  {
    ListedMember(conns, c.fd);
    var i :| 0 <= i < |conns| && conns[i] == c;
    assert Fds(conns)[i] == c.fd;
  }

  lemma {:induction false} SweptExactly(conns: seq<Connection>, now: int, c: Connection)
    ensures c in Swept(conns, now) <==> c in conns && !Stale(c, now)
  {
    if conns != [] {
      SweptExactly(conns[1..], now, c);
      hide Stale;
      assert c in conns <==> c == conns[0] || c in conns[1..];
    }
  }

  /** So a sweep drops a connection exactly when its last request, or its accept, is eleven
      minutes old or more. */
  lemma SweepIsDue(events: seq<Timed>, now: int, c: Connection)
    requires FreshAccepts(events) && c in Run(events)
    ensures c !in Step(Run(events), Sweep, now) <==> now - LastHeard(events, c.fd) >= 660_000_000_000
  {
    SeenIsHeard(events, c);
    StaleAtEleven(c, now);
    SweptExactly(Run(events), now, c);
  }

  /** With sweeps at most period apart, no listed connection is ever idle for eleven minutes
      and a period, at any time before the next sweep is due. */
  lemma IdleBound(events: seq<Timed>, start: int, now: int, period: int, c: Connection)
    requires InOrder(events, start) && c in Run(events)
    requires now <= LastSweep(events, start) + period
    ensures now - c.lastSeen < 660_000_000_000 + period
  {
    SeenSinceSweep(events, start, c);
  }
}
