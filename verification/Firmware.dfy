/** The commissioned heater as a value machine: the request cycle with its eight outcomes,
    the fail-safe, the output pins and the WiFi events. */
module Firmware {
  import opened Wire
  import opened ErrorLog

  datatype Led = NoWifi | NoBase | ConnectedToBase

  const WORD32: nat := 0x1_0000_0000
  const DEFROST: byte := 1
  const REQUEST_STATE_FAILURE_THRESHOLD: nat := 15

  /** The globals of the firmware. pending is the one event bit; positive and negative are
      the output pins. */
  datatype Fw = Fw(
    state: byte, failures: nat, sinceBoot: nat, led: Led, pending: bool, counter: nat,
    errors: seq<ErrorRecord>, positive: bool, negative: bool)

  /** How a request cycle ends. */
  datatype Outcome = NoConnection | WriteFailed | TimedOut | ReadFailed | Judged(verdict: Verdict)

  /** The pilot wire signal for a state. */
  function Pins(state: byte): (bool, bool) {
    if state == 1 then (false, true)
    else if state == 2 then (true, true)
    else if state == 3 then (false, false)
    else (true, false)
  }

  /** The two pins that go with each state, and with no other: off is positive alone, defrost
      negative alone, eco both, comfort neither. */
  predicate Drives(positive: bool, negative: bool, state: byte) {
    && (positive && !negative <==> state == 0)
    && (!positive && negative <==> state == 1)
    && (positive && negative <==> state == 2)
    && (!positive && !negative <==> state == 3)
  }

  lemma PinsExactly(state: byte)
    requires state <= 3
    ensures Drives(Pins(state).0, Pins(state).1, state)
  {
  }

  function Set(f: Fw, state: byte): Fw {
    f.(state := state, positive := Pins(state).0, negative := Pins(state).1)
  }

  predicate Succeeds(o: Outcome) {
    o.Judged? && o.verdict.Accepted?
  }

  function CodeOf(o: Outcome): ErrorCode
    requires !Succeeds(o)
  {
    match o
    case NoConnection => CannotConnect
    case WriteFailed => WriteFailure
    case TimedOut => ReplyTimeout
    case ReadFailed => ReadFailure
    case Judged(BadVersion) => ProtocolNotSupported
    case Judged(BadType) => InvalidType
    case Judged(BadState) => InvalidState
  }

  /** What the error page says of each way a cycle can fail. */
  lemma ErrorTexts()
    ensures Describe(CodeOf(NoConnection)) == "Cannot connect to base station"
    ensures Describe(CodeOf(WriteFailed)) == "Failed to send message to base station"
    ensures Describe(CodeOf(TimedOut)) == "Timeout waiting for reply from base station"
    ensures Describe(CodeOf(ReadFailed)) == "Failed to read message from client"
    ensures Describe(CodeOf(Judged(BadVersion))) == "Message protocol not supported"
    ensures Describe(CodeOf(Judged(BadType))) == "Received invalid message type"
    ensures Describe(CodeOf(Judged(BadState))) == "Received invalid heater state"
  {
  }

  /** What the outcome of one cycle does, at time now. */
  function Conclude(f: Fw, o: Outcome, now: nat): Fw {
    if Succeeds(o) then Set(f.(led := ConnectedToBase, failures := 0), o.verdict.state)
    else f.(failures := (f.failures + 1) % WORD32, sinceBoot := (f.sinceBoot + 1) % WORD32,
            errors := Pushed(f.errors, ErrorRecord(CodeOf(o), now)))
  }

  /** The cycle takes the event bit and, once connected, a message number. */
  function Begin(f: Fw, o: Outcome): Fw {
    f.(pending := false, counter := if o.NoConnection? then f.counter else (f.counter + 1) % WORD64)
  }

  /** The fail-safe at the end of every loop. */
  function FailSafe(f: Fw): Fw {
    if f.failures == REQUEST_STATE_FAILURE_THRESHOLD then Set(f, DEFROST).(led := NoBase) else f
  }

  /** setup_commissioned with a 28-bit seed. */
  function Boot(seed: nat): Fw {
    Set(Fw(DEFROST, 0, 0, NoWifi, false, seed * WORD32, [], false, false), DEFROST)
  }

  datatype Event =
    | WifiUp | WifiDown | Timer
    | Idle                                  // a loop without a request cycle
    | Cycle(outcome: Outcome, now: nat)     // a loop with one

  function Step(f: Fw, e: Event): Fw {
    match e
    case WifiUp => f.(pending := true, led := NoBase)
    case WifiDown => f.(led := NoWifi)
    case Timer => f.(pending := true)
    case Idle => FailSafe(f)
    case Cycle(o, now) => FailSafe(Conclude(Begin(f, o), o, now))
  }

  function Run(f: Fw, events: seq<Event>): Fw {
    if events == [] then f else Step(Run(f, events[..|events| - 1]), events[|events| - 1])
  }

  // ------------------------------------------------------------- over every run

  /** Failed cycles since the last success, or since the start. */
  function FailedSince(events: seq<Event>): nat {
    if events == [] then 0
    else
      var e := events[|events| - 1];
      if !e.Cycle? then FailedSince(events[..|events| - 1])
      else if Succeeds(e.outcome) then 0
      else FailedSince(events[..|events| - 1]) + 1
  }

  /** The state of the last accepted reply, and DEFROST before the first. */
  function LastAccepted(events: seq<Event>): byte {
    if events == [] then DEFROST
    else
      var e := events[|events| - 1];
      if e.Cycle? && Succeeds(e.outcome) then e.outcome.verdict.state
      else LastAccepted(events[..|events| - 1])
  }

  predicate Honest(events: seq<Event>) {
    forall e :: e in events && e.Cycle? && Succeeds(e.outcome) ==> e.outcome.verdict.state <= 3
  }

  /** The failure word against the true count: they agree until the fail-safe has acted, and
      afterwards, when the word may wrap, the heater stays in DEFROST. */
  ghost predicate Tracks(f: Fw, failed: nat, last: byte) {
    && f.failures == failed % WORD32
    && f.state == (if failed < REQUEST_STATE_FAILURE_THRESHOLD then last else DEFROST)
    && (failed >= REQUEST_STATE_FAILURE_THRESHOLD ==> f.led != ConnectedToBase)
    && (f.positive, f.negative) == Pins(f.state)
    && f.state <= 3 && last <= 3
  }

  lemma StepTracks(f: Fw, e: Event, failed: nat, last: byte)
    requires Tracks(f, failed, last)
    requires e.Cycle? && Succeeds(e.outcome) ==> e.outcome.verdict.state <= 3
    ensures if e.Cycle? && Succeeds(e.outcome) then Tracks(Step(f, e), 0, e.outcome.verdict.state)
            else Tracks(Step(f, e), if e.Cycle? then failed + 1 else failed, last)
  {
    hide Pins, Pushed, CodeOf;
  }

  lemma {:induction false} RunTracks(seed: nat, events: seq<Event>)
    requires Honest(events)
    ensures Tracks(Run(Boot(seed), events), FailedSince(events), LastAccepted(events))
  {
    if events != [] {
      var front, e := events[..|events| - 1], events[|events| - 1];
      assert forall x :: x in front ==> x in events;
      RunTracks(seed, front);
      assert e in events;
      StepTracks(Run(Boot(seed), front), e, FailedSince(front), LastAccepted(front));
    }
  }

  /** Fail-safe over every run: the heater is in the state of the last accepted reply while
      fewer than 15 cycles failed since, else in defrost, which is 1; the two pins are those
      of that state; and the LED says connected only below 15. No bound on the run: the
      failure word may wrap. */
  lemma {:induction false} FailSafeAlways(seed: nat, events: seq<Event>)
    requires Honest(events)
    ensures var f := Run(Boot(seed), events);
            && f.state == (if FailedSince(events) < 15 then LastAccepted(events) else 1)
            && Drives(f.positive, f.negative, f.state)
            && (f.led == ConnectedToBase ==> f.failures < 15 && f.failures == FailedSince(events))
  {
    RunTracks(seed, events);
    PinsExactly(Run(Boot(seed), events).state);
    hide Run, Boot, FailedSince, LastAccepted, Pins, Drives;
  }

  /** A request is due exactly when WiFi came up or the timer fired since the last cycle. */
  function Due(events: seq<Event>): bool {
    events != []
    && match events[|events| - 1]
       case WifiUp => true
       case Timer => true
       case Cycle(_, _) => false
       case _ => Due(events[..|events| - 1])
  }

  lemma {:induction false} PendingExactly(seed: nat, events: seq<Event>)
    ensures Run(Boot(seed), events).pending == Due(events)
  {
    hide Pins, Pushed;
    if events != [] { PendingExactly(seed, events[..|events| - 1]); }
  }

  /** The LED after a run: off the network, on it without the base, or connected, as the
      last event that shows on it says. The loop that finds the fifteenth failure shows. */
  function LedAfter(events: seq<Event>): Led {
    if events == [] then NoWifi
    else
      var front, e := events[..|events| - 1], events[|events| - 1];
      match e
      case WifiUp => NoBase
      case WifiDown => NoWifi
      case Timer => LedAfter(front)
      case _ =>
        if e.Cycle? && Succeeds(e.outcome) then ConnectedToBase
        else if FailedSince(events) % 0x1_0000_0000 == 15 then NoBase
        else LedAfter(front)
  }

  lemma {:induction false} LedExactly(seed: nat, events: seq<Event>)
    requires Honest(events)
    ensures Run(Boot(seed), events).led == LedAfter(events)
  {
    if events != [] {
      var front := events[..|events| - 1];
      assert forall x :: x in front ==> x in events;
      LedExactly(seed, front);
      RunTracks(seed, front);
      RunTracks(seed, events);
      hide Pins, Pushed, LastAccepted;
    }
  }

  /** The errors recorded by a run, oldest first. */
  function Failed(events: seq<Event>): seq<ErrorRecord> {
    if events == [] then []
    else
      var front, e := events[..|events| - 1], events[|events| - 1];
      if e.Cycle? && !Succeeds(e.outcome) then Failed(front) + [ErrorRecord(CodeOf(e.outcome), e.now)]
      else Failed(front)
  }

  lemma {:induction false} ErrorsArePushed(seed: nat, events: seq<Event>)
    ensures Run(Boot(seed), events).errors == PushedAll(Failed(events))
  {
    if events != [] {
      var front, e := events[..|events| - 1], events[|events| - 1];
      ErrorsArePushed(seed, front);
      if e.Cycle? && !Succeeds(e.outcome) {
        assert Failed(events)[..|Failed(events)| - 1] == Failed(front);
      }
    }
  }

  /** After any run the error queue holds exactly its last five errors in order. */
  lemma ErrorsAreLastFive(seed: nat, events: seq<Event>)
    ensures var all := Failed(events);
            Run(Boot(seed), events).errors == if |all| <= 5 then all else all[|all| - 5..]
  {
    ErrorsArePushed(seed, events);
    LastFive(Failed(events));
  }

  lemma StepSinceBoot(f: Fw, e: Event)
    ensures Step(f, e).sinceBoot
            == if e.Cycle? && !Succeeds(e.outcome) then (f.sinceBoot + 1) % WORD32 else f.sinceBoot
  {
    hide Pins, Pushed;
  }

  /** The count of failures since boot, in 32 bits. */
  lemma {:induction false} FailuresSinceBoot(seed: nat, events: seq<Event>)
    ensures Run(Boot(seed), events).sinceBoot == |Failed(events)| % 0x1_0000_0000
  {
    if events != [] {
      hide Step;
      var front, e := events[..|events| - 1], events[|events| - 1];
      FailuresSinceBoot(seed, front);
      StepSinceBoot(Run(Boot(seed), front), e);
    }
  }

  /** Messages numbered by a run. */
  function Sent(events: seq<Event>): nat {
    if events == [] then 0
    else
      var e := events[|events| - 1];
      Sent(events[..|events| - 1]) + if e.Cycle? && !e.outcome.NoConnection? then 1 else 0
  }

  lemma StepCounter(f: Fw, e: Event)
    ensures Step(f, e).counter
            == if e.Cycle? && !e.outcome.NoConnection? then (f.counter + 1) % WORD64 else f.counter
  {
  }

  /** The message counter is the seed in the upper half and the number of messages below. */
  lemma {:induction false} CounterIsSeedAndSent(seed: nat, events: seq<Event>)
    requires seed < 0x1000_0000 && Sent(events) < WORD32
    ensures Run(Boot(seed), events).counter == seed * 0x1_0000_0000 + Sent(events)
  {
    assert seed * WORD32 <= 0x0FFF_FFFF * WORD32;
    if events != [] {
      hide Step;
      var front := events[..|events| - 1];
      CounterIsSeedAndSent(seed, front);
      StepCounter(Run(Boot(seed), front), events[|events| - 1]);
    }
  }
}
