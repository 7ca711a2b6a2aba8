/** What the three watchdogs do to the base over a run: the messages they send to the
    emergency phone, and the fallback. */
module Notices {
  import opened StateFile
  import opened Watchdog
  import opened Control

  datatype Dog = Modem | Daemon | Wifi

  /** The input that is a check of this watchdog. */
  predicate IsCheck(dog: Dog, i: Input) {
    match dog
    case Modem => i.Check3G?
    case Daemon => i.CheckDaemon?
    case Wifi => i.CheckWifi?
  }

  function SeenBy(dog: Dog, i: Input): Seen
    requires IsCheck(dog, i)
  {
    i.seen
  }

  function Counter(dog: Dog, b: Base): nat {
    match dog
    case Modem => b.threeG
    case Daemon => b.daemon
    case Wifi => b.wifi
  }

  /** What befell the counter over a run: the checks, and the restarts. */
  ghost function Looks(dog: Dog, b: Base, inputs: seq<Input>): seq<Look> {
    if inputs == [] then []
    else
      var front, i := inputs[..|inputs| - 1], inputs[|inputs| - 1];
      Looks(dog, b, front)
      + if IsCheck(dog, i) then [SeenBy(dog, i)] else if Restarts(Run(b, front), i) then [Restarted] else []
  }

  /** The SMS that the checks of this watchdog sent in a run, in order. */
  ghost function SentBy(dog: Dog, b: Base, inputs: seq<Input>): seq<Message> {
    if inputs == [] then []
    else
      var front, i := inputs[..|inputs| - 1], inputs[|inputs| - 1];
      var m := Run(b, front);
      SentBy(dog, b, front)
      + if IsCheck(dog, i) && |m.ctl.outbox| <= |Step(m, i).ctl.outbox|
        then Step(m, i).ctl.outbox[|m.ctl.outbox|..] else []
  }

  /** The emergency phone is this one all through the run, or there is none if it is "". */
  ghost predicate Throughout(b: Base, inputs: seq<Input>, phone: string) {
    Run(b, inputs).ctl.mem.emergency == phone
    && (inputs == [] || Throughout(b, inputs[..|inputs| - 1], phone))
  }

  /** Acts in words: what is sent for an alarm, if anything is, and for a notice. */
  function Texted(acts: seq<Act>, phone: string, alarm: seq<Body>, notice: Body): seq<Message>
    requires |alarm| <= 1
  {
    if acts == [] then []
    else
      Texted(acts[..|acts| - 1], phone, alarm, notice)
      + match acts[|acts| - 1]
        case Alarm => if alarm == [] then [] else [Message(phone, alarm[0])]
        case Notice => [Message(phone, notice)]
  }

  lemma {:induction false} CounterIsOfLooks(dog: Dog, b: Base, inputs: seq<Input>)
    ensures Counter(dog, Run(b, inputs)) == CountAll(Counter(dog, b), Looks(dog, b, inputs))
  {
    if inputs != [] {
      var front, i := inputs[..|inputs| - 1], inputs[|inputs| - 1];
      var m, looks := Run(b, front), Looks(dog, b, front);
      CounterIsOfLooks(dog, b, front);
      CounterStep(dog, m, i);
      hide Step, Count, CountAll, Restarts, IsCheck, SeenBy, Counter;
      if IsCheck(dog, i) {
        OneMoreCheck(Counter(dog, b), looks, SeenBy(dog, i), 1);
      } else if Restarts(m, i) {
        OneMoreCheck(Counter(dog, b), looks, Restarted, 1);
      } else {
        assert looks + [] == looks;
      }
    }
  }

  lemma CounterStep(dog: Dog, b: Base, i: Input)
    ensures Counter(dog, Step(b, i))
            == if IsCheck(dog, i) then Count(Counter(dog, b), SeenBy(dog, i))
               else if Restarts(b, i) then Count(Counter(dog, b), Restarted) else Counter(dog, b)
  {
    hide Drain, Taken, GoesDown, After3G, AfterDaemon, AfterWifi, Boot;
  }

  // ---------------------------------------------------------------------- one check

  lemma WifiSays(b: Base, s: Seen)
    ensures var acts, phone := Acts(b.wifi, s, 15, 1), b.ctl.mem.emergency;
            Step(b, CheckWifi(s)).ctl
            == b.ctl.(outbox := b.ctl.outbox
                                + if phone == "" then [] else Texted(acts, phone, [WifiLost], WifiRestored))
  {
    TextedShort(b.ctl.mem.emergency, [WifiLost], WifiRestored);
    hide Texted;
    assert b.ctl.outbox + [] == b.ctl.outbox;
  }

  lemma DaemonSays(b: Base, s: Seen)
    ensures var acts, phone := Acts(b.daemon, s, 6, 1), b.ctl.mem.emergency;
            Step(b, CheckDaemon(s)).ctl
            == b.ctl.(mem := if acts == [Alarm] then AllDefrost(b.ctl.mem) else b.ctl.mem,
                      outbox := b.ctl.outbox + if phone == "" then [] else Texted(acts, phone, [], FallbackOver))
  {
    TextedShort(b.ctl.mem.emergency, [], FallbackOver);
    hide Texted;
    assert b.ctl.outbox + [] == b.ctl.outbox;
  }

  lemma ModemSays(b: Base, s: Seen)
    ensures var acts, phone := Acts(b.threeG, s, 6, 6), b.ctl.mem.emergency;
            Step(b, Check3G(s)).ctl
            == b.ctl.(mem := if acts == [Alarm] then AllDefrost(b.ctl.mem) else b.ctl.mem,
                      outbox := b.ctl.outbox + Texted(acts, phone, [], FallbackOver))
  {
    TextedShort(b.ctl.mem.emergency, [], FallbackOver);
    hide Texted;
    assert b.ctl.outbox + [] == b.ctl.outbox;
  }

  /** The default and every stored heater at DEFROST, the phones as they are. */
  function AllDefrost(p: Persistent): Persistent {
    Persistent(Defrost, map n | n in p.heaters :: Defrost, p.whitelist, p.emergency)
  }

  lemma TextedShort(phone: string, alarm: seq<Body>, notice: Body)
    requires |alarm| <= 1
    ensures Texted([], phone, alarm, notice) == []
    ensures Texted([Alarm], phone, alarm, notice) == if alarm == [] then [] else [Message(phone, alarm[0])]
    ensures Texted([Notice], phone, alarm, notice) == [Message(phone, notice)]
  {
    assert [Alarm][..0] == [] && [Notice][..0] == [];
  }

  lemma TextedOne(acts: seq<Act>, act: seq<Act>, phone: string, alarm: seq<Body>, notice: Body)
    requires |alarm| <= 1 && |act| <= 1
    ensures Texted(acts + act, phone, alarm, notice)
            == Texted(acts, phone, alarm, notice) + Texted(act, phone, alarm, notice)
  {
    TextedShort(phone, alarm, notice);
    if act == [] {
      assert acts + act == acts;
    } else {
      assert act == [act[0]] && (acts + act)[..|acts|] == acts;
    }
  }

  // ---------------------------------------------------------------------- every run

  function Threshold(dog: Dog): nat {
    if dog == Wifi then 15 else 6
  }

  function Floor(dog: Dog): nat {
    if dog == Modem then 6 else 1
  }

  /** What one check sends, whichever watchdog it is of. */
  function Messages(dog: Dog, acts: seq<Act>, phone: string): seq<Message> {
    match dog
    case Modem => Texted(acts, phone, [], FallbackOver)
    case Daemon => if phone == "" then [] else Texted(acts, phone, [], FallbackOver)
    case Wifi => if phone == "" then [] else Texted(acts, phone, [WifiLost], WifiRestored)
  }

  lemma CheckSends(dog: Dog, b: Base, i: Input)
    requires IsCheck(dog, i)
    ensures Step(b, i).ctl.outbox
            == b.ctl.outbox
             + Messages(dog, Acts(Counter(dog, b), SeenBy(dog, i), Threshold(dog), Floor(dog)), b.ctl.mem.emergency)
  {
    match dog
    case Modem => ModemSays(b, i.seen);
    case Daemon => DaemonSays(b, i.seen);
    case Wifi => WifiSays(b, i.seen);
    hide Texted, Acts, Step;
  }

  lemma MessagesOne(dog: Dog, acts: seq<Act>, act: seq<Act>, phone: string)
    requires |act| <= 1
    ensures Messages(dog, acts + act, phone) == Messages(dog, acts, phone) + Messages(dog, act, phone)
  {
    TextedOne(acts, act, phone, [], FallbackOver);
    TextedOne(acts, act, phone, [WifiLost], WifiRestored);
    hide Texted;
  }

  lemma {:induction false} SentIsOfLooks(dog: Dog, b: Base, inputs: seq<Input>, phone: string)
    requires Throughout(b, inputs, phone)
    ensures SentBy(dog, b, inputs)
            == Messages(dog, RunActs(Counter(dog, b), Looks(dog, b, inputs), Threshold(dog), Floor(dog)), phone)
  {
    if inputs == [] {
      TextedShort(phone, [], FallbackOver);
      TextedShort(phone, [WifiLost], WifiRestored);
    } else {
      var front, i := inputs[..|inputs| - 1], inputs[|inputs| - 1];
      var m, looks := Run(b, front), Looks(dog, b, front);
      SentIsOfLooks(dog, b, front, phone);
      CounterIsOfLooks(dog, b, front);
      if IsCheck(dog, i) { CheckSends(dog, m, i); }
      StillPhone(b, inputs, phone);
      SilentRestart(Counter(dog, m), Threshold(dog), Floor(dog));
      hide Step, Run, Acts, RunActs, CountAll, Restarts, IsCheck, SeenBy, Counter, Messages;
      hide Threshold, Floor, Throughout;
      var more := if IsCheck(dog, i) then [SeenBy(dog, i)] else if Restarts(m, i) then [Restarted] else [];
      assert Looks(dog, b, inputs) == looks + more;
      if more == [] {
        assert looks + more == looks;
      } else {
        var act := Acts(Counter(dog, m), more[0], Threshold(dog), Floor(dog));
        OneMoreAct(Counter(dog, b), looks, more[0], Threshold(dog), Floor(dog));
        OneAct(Counter(dog, m), more[0], Threshold(dog), Floor(dog));
        MessagesOne(dog, RunActs(Counter(dog, b), looks, Threshold(dog), Floor(dog)), act, phone);
        NoMessages(dog, phone);
        assert looks + [more[0]] == looks + more;
      }
    }
  }

  lemma OneAct(n: nat, l: Look, threshold: nat, floor: nat)
    ensures |Acts(n, l, threshold, floor)| <= 1
  {
  }

  lemma NoMessages(dog: Dog, phone: string)
    ensures Messages(dog, [], phone) == []
  {
    TextedShort(phone, [], FallbackOver);
    TextedShort(phone, [WifiLost], WifiRestored);
  }

  lemma SilentRestart(n: nat, threshold: nat, floor: nat)
    ensures Acts(n, Restarted, threshold, floor) == []
  {
  }

  lemma StillPhone(b: Base, inputs: seq<Input>, phone: string)
    requires Throughout(b, inputs, phone) && inputs != []
    ensures Run(b, inputs[..|inputs| - 1]).ctl.mem.emergency == phone
    ensures Throughout(b, inputs[..|inputs| - 1], phone)
  {
  }

  /** Over any run in which the emergency phone stays as it is: the WiFi checks send it, in
      order, an alarm for each fifteenth failure in a row and a notice for each recovery from
      any failure; and nothing at all when there is no emergency phone. */
  lemma {:induction false} WifiMessages(b: Base, inputs: seq<Input>, phone: string)
    requires Throughout(b, inputs, phone)
    ensures SentBy(Wifi, b, inputs)
            == if phone == "" then []
               else Texted(RunActs(b.wifi, Looks(Wifi, b, inputs), 15, 1), phone, [WifiLost], WifiRestored)
  {
    SentIsOfLooks(Wifi, b, inputs, phone);
    hide Texted, RunActs, Looks, SentBy, Throughout;
  }

  /** The daemon checks: a notice for each recovery from any failure, no message for the
      fallback, and nothing when there is no emergency phone. */
  lemma {:induction false} DaemonMessages(b: Base, inputs: seq<Input>, phone: string)
    requires Throughout(b, inputs, phone)
    ensures SentBy(Daemon, b, inputs)
            == if phone == "" then []
               else Texted(RunActs(b.daemon, Looks(Daemon, b, inputs), 6, 1), phone, [], FallbackOver)
  {
    SentIsOfLooks(Daemon, b, inputs, phone);
    hide Texted, RunActs, Looks, SentBy, Throughout;
  }

  /** The 3G checks: a notice for each recovery from six failures or more, even when there is
      no emergency phone to send it to. */
  lemma {:induction false} ModemMessages(b: Base, inputs: seq<Input>, phone: string)
    requires Throughout(b, inputs, phone)
    ensures SentBy(Modem, b, inputs)
            == Texted(RunActs(b.threeG, Looks(Modem, b, inputs), 6, 6), phone, [], FallbackOver)
  {
    SentIsOfLooks(Modem, b, inputs, phone);
    hide Texted, RunActs, Looks, SentBy, Throughout;
  }

  /** The fallback: at the sixth failure in a row of the 3G module or the daemon, as the looks
      of the run have it, every heater is at DEFROST; a check changes the settings in no other
      way. */
  lemma {:induction false} FallbackExactly(b: Base, inputs: seq<Input>, i: Input)
    requires i.Check3G? || i.CheckDaemon? || i.CheckWifi?
    ensures var m := Run(b, inputs);
            var falls := (i.Check3G? && Fires(CountAll(b.threeG, Looks(Modem, b, inputs)), i.seen, 6))
                      || (i.CheckDaemon? && Fires(CountAll(b.daemon, Looks(Daemon, b, inputs)), i.seen, 6));
            Step(m, i).ctl.mem == if falls then AllDefrost(m.ctl.mem) else m.ctl.mem
  {
    CounterIsOfLooks(Modem, b, inputs);
    CounterIsOfLooks(Daemon, b, inputs);
    var m := Run(b, inputs);
    match i
    case Check3G(s) => ModemSays(m, s);
    case CheckDaemon(s) => DaemonSays(m, s);
    case CheckWifi(s) => WifiSays(m, s);
    hide Run, Step, Looks, CountAll, Count, Texted, AllDefrost;
  }
}
