/** What holds of the base station over every run. */
module ControlProperties {
  import opened Text
  import opened StateFile
  import opened SmsGrammar
  import opened Watchdog
  import opened Control

  // ------------------------------------------------------- the state invariant

  /** Settings are well formed and a locked base has a whitelist. */
  ghost predicate Good(c: Ctl) {
    && WellFormed(c.mem)
    && (c.locked ==> c.mem.whitelist != {})
  }

  lemma {:induction false} BootGood(file: Option<string>)
    ensures Good(Boot(file))
  {
    match file
    case Some(text) => LoadIsStable(text);
    case None =>
  }

  /** A name taken from a normalised text is a name as the map stores it. */
  lemma {:induction false} NameStored(content: string, name: string, w: Word)
    requires Meaning(content) == Heater(name, w)
    ensures StoredName(name)
  {
    var c := Normalise(content);
    UpperIdempotent(Trim(content));
    HeaterComesFrom(c, name, w);
    var p := "HEATER ";
    if c == HeaterText(name, w) {
      Inside(p, name, " " + Spell(w));
    } else {
      Inside(p, name, "");
      assert c == p + name + "";
    }
    assert Upper(name) == name;
  }

  lemma Inside(p: string, name: string, e: string)
    requires Upper(p + name + e) == p + name + e
    ensures Upper(name) == name
  {
    var c := p + name + e;
    assert forall i :: 0 <= i < |name| ==> name[i] == c[|p| + i] == Upper(c)[|p| + i];
  }

  lemma {:induction false} SettingGood(c: Ctl, from: string, cmd: Command)
    requires Good(c) && (cmd.All? || (cmd.Heater? && StoredName(cmd.name)))
    ensures Good(Execute(c, from, cmd))
  {
    hide Render, ValidPhone, StoredName;
  }

  lemma {:induction false} ExecuteGood(c: Ctl, from: string, cmd: Command)
    requires Good(c) && (cmd.Heater? ==> StoredName(cmd.name))
    ensures Good(Execute(c, from, cmd))
  {
    hide Render, Load, ValidPhone, StoredName;
    match cmd
    case All(_) => SettingGood(c, from, cmd);
    case Heater(_, _) => SettingGood(c, from, cmd);
    case AddPhone(_) => PhonesGood(c, from, cmd);
    case RemovePhone(_) => PhonesGood(c, from, cmd);
    case SetEmergency(_) => PhonesGood(c, from, cmd);
    case AskSystem(_) => BootGood(Some(c.file));
    case _ =>
  }

  lemma {:induction false} HandleGood(c: Ctl, sms: Sms)
    requires Good(c)
    ensures Good(Handle(c, sms))
  {
    hide Meaning, Execute, Good;
    var cmd := Meaning(sms.1);
    if cmd.Heater? { NameStored(sms.1, cmd.name, cmd.w); }
    ExecuteGood(c, sms.0, cmd);
  }

  lemma {:induction false} PhonesGood(c: Ctl, from: string, cmd: Command)
    requires Good(c) && (cmd.AddPhone? || cmd.RemovePhone? || cmd.SetEmergency?)
    ensures Good(ExecutePhones(c, from, cmd))
  {
    hide Render, ValidPhone, StoredName;
  }

  lemma {:induction false} DrainGood(c: Ctl, q: seq<Sms>)
    requires Good(c)
    ensures Good(Drain(c, q))
    decreases q
  {
    if q != [] {
      HandleGood(c, q[0]);
      if !EndsCall(c, q[0]) { DrainGood(Handle(c, q[0]), q[1..]); }
    }
  }

  lemma StepGood(b: Base, i: Input)
    requires Good(b.ctl)
    ensures Good(Step(b, i).ctl)
  {
    match i
    case Commands => DrainGood(b.ctl, b.queue);
    case Restart => BootGood(Some(b.ctl.file));
    case _ =>
  }

  /** Safety over every run, restarts included: the settings stay well formed, and locked
      implies a non-empty whitelist. */
  lemma {:induction false} RunGood(b: Base, inputs: seq<Input>)
    requires Good(b.ctl)
    ensures Good(Run(b, inputs).ctl)
  {
    if inputs != [] {
      var front := inputs[..|inputs| - 1];
      RunGood(b, front);
      StepGood(Run(b, front), inputs[|inputs| - 1]);
    }
  }

  lemma EveryRunGood(file: Option<string>, inputs: seq<Input>)
    ensures Good(Run(Start(file), inputs).ctl)
  {
    BootGood(file);
    RunGood(Start(file), inputs);
  }

  // ------------------------------------------------------- fallbacks over a run

  /** What befell the 3G counter over a run: its checks, and the restarts. */
  ghost function Looks3G(b: Base, inputs: seq<Input>): seq<Look> {
    if inputs == [] then []
    else
      var front, i := inputs[..|inputs| - 1], inputs[|inputs| - 1];
      Looks3G(b, front)
      + if i.Check3G? then [i.seen] else if Restarts(Run(b, front), i) then [Restarted] else []
  }

  /** What a step does as a 3G check: puts all heaters into the fallback state, or tells the
      emergency phone that the fallback is over. */
  ghost function StepActs(b: Base, i: Input): seq<Act> {
    if !i.Check3G? then []
    else if Step(b, i).ctl == Say(b.ctl, b.ctl.mem.emergency, FallbackOver) then [Notice]
    else if Step(b, i).ctl == SetFallback(b.ctl) && Fires(b.threeG, i.seen, MODULE_3G_ERROR_THRESHOLD) then [Alarm]
    else []
  }

  /** The fallbacks and notices of a run, in order. */
  ghost function Acts3G(b: Base, inputs: seq<Input>): seq<Act> {
    if inputs == [] then []
    else
      var front := inputs[..|inputs| - 1];
      Acts3G(b, front) + StepActs(Run(b, front), inputs[|inputs| - 1])
  }

  function Fallbacks(acts: seq<Act>): nat {
    if acts == [] then 0 else Fallbacks(acts[..|acts| - 1]) + if acts[|acts| - 1] == Alarm then 1 else 0
  }

  lemma Step3G(b: Base, i: Input)
    ensures Step(b, i).threeG
            == if i.Check3G? then Count(b.threeG, i.seen) else if Restarts(b, i) then 0 else b.threeG
    ensures StepActs(b, i)
            == if i.Check3G? then Acts(b.threeG, i.seen, MODULE_3G_ERROR_THRESHOLD, MODULE_3G_ERROR_THRESHOLD) else []
  {
    hide Drain, Taken, GoesDown, AfterDaemon, AfterWifi, Boot;
    assert |Say(b.ctl, b.ctl.mem.emergency, FallbackOver).outbox| == |b.ctl.outbox| + 1;
  }

  lemma RestartedActs(n: nat, threshold: nat)
    ensures !Fires(n, Restarted, threshold) && Count(n, Restarted) == 0
    ensures Acts(n, Restarted, threshold, threshold) == []
  {
  }

  /** The fallbacks and notices of a run, whatever else comes in between, are those of what
      its 3G checks saw and of its restarts, which put the counter back in silence. */
  lemma {:induction false} ActsAreRun(b: Base, inputs: seq<Input>)
    ensures Run(b, inputs).threeG == CountAll(b.threeG, Looks3G(b, inputs))
    ensures Acts3G(b, inputs)
            == RunActs(b.threeG, Looks3G(b, inputs), 6, 6)
  {
    if inputs != [] {
      var front, i := inputs[..|inputs| - 1], inputs[|inputs| - 1];
      var m, looks := Run(b, front), Looks3G(b, front);
      ActsAreRun(b, front);
      Step3G(m, i);
      RestartedActs(m.threeG, MODULE_3G_ERROR_THRESHOLD);
      hide Step, StepActs, RunActs, CountAll, Acts, Count, Restarts;
      if i.Check3G? || Restarts(m, i) {
        var look := if i.Check3G? then i.seen else Restarted;
        OneMoreAct(b.threeG, looks, look, MODULE_3G_ERROR_THRESHOLD, MODULE_3G_ERROR_THRESHOLD);
        OneMoreCheck(b.threeG, looks, look, MODULE_3G_ERROR_THRESHOLD);
      } else {
        assert Looks3G(b, inputs) == looks;
      }
    }
  }

  /** Over any run of a freshly started base, fallbacks and notices strictly alternate, a
      fallback first, exactly when every outage of six failed checks ends with a recovery
      before the counter goes round, but for the last one, which may be cut by a restart or
      go round once. */
  lemma RunsAlternate(file: Option<string>, inputs: seq<Input>)
    ensures Alternate(Acts3G(Start(file), inputs), false)
            <==> Announced(Stretches(Looks3G(Start(file), inputs), 0), 6)
  {
    hide Alternate, Announced, Stretches, Looks3G, Acts3G, RunActs, Boot;
    ActsAreRun(Start(file), inputs);
    FallbacksAlternate(Looks3G(Start(file), inputs), MODULE_3G_ERROR_THRESHOLD);
  }

  lemma {:induction false} FallbacksAreFired(n: nat, looks: seq<Look>, threshold: nat)
    ensures Fallbacks(RunActs(n, looks, threshold, threshold)) == Fired(n, looks, threshold)
  {
    if looks != [] {
      var front, look := looks[..|looks| - 1], looks[|looks| - 1];
      assert looks == front + [look];
      FallbacksAreFired(n, front, threshold);
      OneMoreAct(n, front, look, threshold, threshold);
      OneMoreCheck(n, front, look, threshold);
      var before, act := RunActs(n, front, threshold, threshold), Acts(CountAll(n, front), look, threshold, threshold);
      hide RunActs, Fired, CountAll, Count;
      assert act == [] ==> before + act == before;
      assert act != [] ==> (before + act)[..|before + act| - 1] == before;
    }
  }

  /** Over any run of a freshly started base, whatever else comes in between, the fallbacks
      are the outages of six or more failed 3G checks, one each, exactly when no outage
      takes the 32-bit counter round to six again. A restart ends an outage. */
  lemma OneFallbackPerOutage(file: Option<string>, inputs: seq<Input>)
    ensures var stretches := Stretches(Looks3G(Start(file), inputs), 0);
            Fallbacks(Acts3G(Start(file), inputs)) == HowMany(stretches, 6)
            <==> NoWrap(stretches, 6)
  {
    hide Looks3G, Acts3G, Fallbacks, Stretches, HowMany, NoWrap, Boot;
    ActsAreRun(Start(file), inputs);
    FallbacksAreFired(0, Looks3G(Start(file), inputs), MODULE_3G_ERROR_THRESHOLD);
    OneEventPerStretch(Looks3G(Start(file), inputs), MODULE_3G_ERROR_THRESHOLD);
  }

  /** One failed look at the daemon or at WiFi below the threshold, then a recovery: the
      emergency phone is told of a recovery, and nothing else has happened. */
  lemma NoticeWithoutFallback(b: Base)
    requires b.ctl.mem.emergency != ""
    ensures b.daemon < 5 ==>
              Step(Step(b, CheckDaemon(Failed)), CheckDaemon(Recovered)).ctl
              == Say(b.ctl, b.ctl.mem.emergency, FallbackOver)
    ensures b.wifi < 14 ==>
              Step(Step(b, CheckWifi(Failed)), CheckWifi(Recovered)).ctl
              == Say(b.ctl, b.ctl.mem.emergency, WifiRestored)
  {
    hide SetFallback;
  }

  // ------------------------------------------------------------ heater orders

  /** The reply to a heater order means the order it answers. */
  lemma {:induction false} ReplyMeansOrder(name: string, w: Word)
    requires StoredName(name)
    ensures Meaning(HeaterText(name, w)) == Heater(name, w)
  {
    var reply := HeaterText(name, w);
    UpperConcat("HEATER " + name, " " + Spell(w));
    UpperConcat("HEATER ", name);
    assert Upper("HEATER ") == "HEATER " && Upper(" " + Spell(w)) == " " + Spell(w);
    HeaterRoundTrip("", reply, "", name, w);
    assert "" + reply + "" == reply;
  }

  /** The state each word orders. */
  function Ordered(w: Word): HeaterState {
    match w
    case WordOff => Off
    case WordDefrost => Defrost
    case WordEco => Eco
    case WordComfort => Comfort
    case WordOn => Comfort
  }

  lemma OrderEffect(c: Ctl, sms: Sms, name: string, w: Word, n: string)
    requires Accepts(c, sms.0) && Meaning(sms.1) == Heater(name, w)
    ensures Lookup(Handle(c, sms).mem, n) == if n == name then Ordered(w) else Lookup(c.mem, n)
    ensures Handle(c, sms).outbox == c.outbox + [Message(sms.0, Words(HeaterText(name, w)))]
  {
    hide Meaning, Render, HeaterText;
  }

  /** A heater order in the documented form, in any cases and padding, from an accepted
      phone sets that heater and no other; its reply, sent back, is the same order. */
  lemma {:induction false} HeaterOrder(c: Ctl, from: string, l: string, text: string, r: string, name: string, w: Word)
    requires Accepts(c, from)
    requires AllSpace(l) && AllSpace(r) && ValidName(name) && Upper(text) == HeaterText(Upper(name), w)
    ensures var d := Handle(c, (from, l + text + r));
            && (forall n :: Lookup(d.mem, n) == if n == Upper(name) then Ordered(w) else Lookup(c.mem, n))
            && d.outbox == c.outbox + [Message(from, Words(HeaterText(Upper(name), w)))]
            && Meaning(HeaterText(Upper(name), w)) == Meaning(l + text + r)
  {
    HeaterRoundTrip(l, text, r, name, w);
    UpperOfName(name);
    ReplyMeansOrder(Upper(name), w);
    hide *;
    var sms := (from, l + text + r);
    forall n ensures Lookup(Handle(c, sms).mem, n) == if n == Upper(name) then Ordered(w) else Lookup(c.mem, n) {
      OrderEffect(c, sms, Upper(name), w, n);
    }
    OrderEffect(c, sms, Upper(name), w, "");
  }

  // ------------------------------------------------------------------ the lock

  /** Commands handled one after the other, with no stop at a dropped one. */
  ghost function HandleAll(c: Ctl, cs: seq<Sms>): Ctl
    decreases cs
  {
    if cs == [] then c else HandleAll(Handle(c, cs[0]), cs[1..])
  }

  function FromListed(cs: seq<Sms>, whitelist: set<string>): seq<Sms> {
    if cs == [] then []
    else (if cs[0].0 in whitelist then [cs[0]] else []) + FromListed(cs[1..], whitelist)
  }

  /** The commands that end the lock: from a listed phone, the right PIN, or the reboot that
      leaves the lock behind. */
  predicate EndsLock(whitelist: set<string>, sms: Sms) {
    sms.0 in whitelist && (Meaning(sms.1) == Unlock(PIN) || AsksReboot(sms.1))
  }

  /** One command against a locked base: the lock ends exactly with the right PIN or DEBUG
      REBOOT from a listed phone; until then the whitelist stays, and phones that are not
      listed change nothing at all. */
  lemma LockedHandle(c: Ctl, sms: Sms)
    requires c.locked && c.mem.whitelist != {}
    ensures Handle(c, sms).locked <==> !EndsLock(c.mem.whitelist, sms)
    ensures sms.0 !in c.mem.whitelist ==> Handle(c, sms) == c
    ensures !AsksReboot(sms.1) ==> Handle(c, sms).mem.whitelist == c.mem.whitelist
    ensures sms.0 in c.mem.whitelist && AsksReboot(sms.1) ==> Handle(c, sms) == Afresh(c.file)
  {
    hide Meaning, Render, Load;
  }

  lemma {:induction false} LockHolds(c: Ctl, cs: seq<Sms>)
    requires c.locked && c.mem.whitelist != {}
    requires forall k :: 0 <= k < |cs| ==> !EndsLock(c.mem.whitelist, cs[k])
    ensures HandleAll(c, cs).locked && HandleAll(c, cs).mem.whitelist == c.mem.whitelist
    ensures HandleAll(c, cs) == HandleAll(c, FromListed(cs, c.mem.whitelist))
    decreases cs
  {
    if cs != [] {
      HeldOnce(c, cs[0]);
      hide Handle, EndsLock;
      var d := Handle(c, cs[0]);
      assert forall k :: 0 <= k < |cs[1..]| ==> cs[1..][k] == cs[k + 1];
      LockHolds(d, cs[1..]);
      var more := FromListed(cs[1..], c.mem.whitelist);
      assert cs[0].0 in c.mem.whitelist ==> ([cs[0]] + more)[0] == cs[0] && ([cs[0]] + more)[1..] == more;
      assert [] + more == more;
    }
  }

  lemma HeldOnce(c: Ctl, sms: Sms)
    requires c.locked && c.mem.whitelist != {} && !EndsLock(c.mem.whitelist, sms)
    ensures Handle(c, sms).locked && Handle(c, sms).mem.whitelist == c.mem.whitelist
    ensures sms.0 !in c.mem.whitelist ==> Handle(c, sms) == c
  {
    LockedHandle(c, sms);
    hide Handle, Execute, Meaning, Afresh;
  }

  /** Over any commands, the base is locked all the way exactly when none of them is the
      right PIN or DEBUG REBOOT from a phone listed when it was locked. */
  lemma {:induction false} LockHeldExactly(c: Ctl, cs: seq<Sms>)
    requires c.locked && c.mem.whitelist != {}
    ensures (forall j :: 0 <= j <= |cs| ==> HandleAll(c, cs[..j]).locked)
            <==> forall k :: 0 <= k < |cs| ==> !EndsLock(c.mem.whitelist, cs[k])
    decreases |cs|
  {
    hide Handle, EndsLock, HandleAll;
    if forall k :: 0 <= k < |cs| ==> !EndsLock(c.mem.whitelist, cs[k]) {
      forall j | 0 <= j <= |cs| ensures HandleAll(c, cs[..j]).locked { LockHolds(c, cs[..j]); }
    } else {
      var front, last := cs[..|cs| - 1], cs[|cs| - 1];
      LockHeldExactly(c, front);
      if forall k :: 0 <= k < |front| ==> !EndsLock(c.mem.whitelist, front[k]) {
        LockHolds(c, front);
        LastEnds(c, cs);
        assert cs[..|cs|] == cs;
      } else {
        var j :| 0 <= j <= |front| && !HandleAll(c, front[..j]).locked;
        assert cs[..j] == front[..j];
      }
    }
  }

  lemma {:induction false} LastEnds(c: Ctl, cs: seq<Sms>)
    requires cs != []
    requires var d := HandleAll(c, cs[..|cs| - 1]);
             d.locked && d.mem.whitelist == c.mem.whitelist != {} && EndsLock(c.mem.whitelist, cs[|cs| - 1])
    ensures !HandleAll(c, cs).locked
  {
    var front, last := cs[..|cs| - 1], cs[|cs| - 1];
    LockedHandle(HandleAll(c, front), last);
    hide Handle, EndsLock;
    HandleAllConcat(c, front, [last]);
    assert front + [last] == cs && [last][1..] == [];
    assert HandleAll(HandleAll(c, front), [last]) == Handle(HandleAll(c, front), last);
  }

  lemma MeaningOfReboot()
    ensures AsksReboot("DEBUG REBOOT")
  {
    hide Parse;
    NormaliseFixed("DEBUG REBOOT");
    ParseReboot("DEBUG REBOOT");
  }

  /** A listed phone that does not know the PIN texts DEBUG REBOOT: the base is on its file
      again, and every phone is heard. */
  lemma RebootEndsLock(c: Ctl, from: string)
    requires c.locked && from in c.mem.whitelist
    ensures var d := Handle(c, (from, "DEBUG REBOOT"));
            d == Afresh(c.file) && !d.locked && forall other :: Accepts(d, other)
  {
    MeaningOfReboot();
    hide Meaning, Load;
  }

  // ------------------------------------------------------------------ the queue

  lemma {:induction false} DrainHandlesPrefix(c: Ctl, q: seq<Sms>)
    ensures Drain(c, q) == HandleAll(c, q[..Taken(c, q)])
    decreases q
  {
    hide Handle, EndsCall;
    if q != [] {
      var k := Taken(c, q);
      assert q[..k][0] == q[0];
      if EndsCall(c, q[0]) {
        assert q[..1][1..] == [];
        assert HandleAll(Handle(c, q[0]), []) == Handle(c, q[0]);
      } else {
        DrainHandlesPrefix(Handle(c, q[0]), q[1..]);
        assert q[..k][1..] == q[1..][..k - 1];
      }
    }
  }

  /** A tick ends in a reboot exactly when the last command it takes asks for one, and is
      from a phone that is heard at that point. What comes of it is a restart there. */
  lemma {:induction false} GoesDownExactly(c: Ctl, q: seq<Sms>)
    requires q != []
    ensures var k := Taken(c, q) - 1;
            && (GoesDown(c, q) <==> Accepts(HandleAll(c, q[..k]), q[k].0) && AsksReboot(q[k].1))
            && (GoesDown(c, q) ==> Drain(c, q) == Afresh(HandleAll(c, q[..k]).file))
    decreases q
  {
    hide *;
    var k := Taken(c, q) - 1;
    var d, rest := Handle(c, q[0]), q[1..];
    CallHead(c, q);
    HandlesHead(c, q, k);
    if EndsCall(c, q[0]) {
      EndOfCall(c, q[0]);
    } else {
      CallHead(d, rest);
      if rest != [] { GoesDownExactly(d, rest); } else { EndOfCall(c, q[0]); }
    }
  }

  /** How far one tick goes: every command it takes but the last is from a phone that is heard
      at that point and is no DEBUG REBOOT; and it leaves commands behind only when the last
      one was refused or rebooted. */
  lemma {:induction false} TakenExactly(c: Ctl, q: seq<Sms>)
    requires q != []
    ensures var k := Taken(c, q) - 1;
            && 0 <= k < |q|
            && (forall j :: 0 <= j < k ==> Accepts(HandleAll(c, q[..j]), q[j].0) && !AsksReboot(q[j].1))
            && (k < |q| - 1 ==> !Accepts(HandleAll(c, q[..k]), q[k].0) || AsksReboot(q[k].1))
    decreases q
  {
    hide *;
    var k := Taken(c, q) - 1;
    var d, rest := Handle(c, q[0]), q[1..];
    CallHead(c, q);
    CallHead(d, rest);
    EndOfCall(c, q[0]);
    HandlesHead(c, q, 0);
    if !EndsCall(c, q[0]) && rest != [] {
      TakenExactly(d, rest);
      HandlesHead(c, q, k);
      forall j | 0 <= j < k ensures Accepts(HandleAll(c, q[..j]), q[j].0) && !AsksReboot(q[j].1) {
        HandlesHead(c, q, j);
        if j > 0 { assert q[j] == rest[j - 1]; }
      }
    }
  }

  lemma CallHead(c: Ctl, q: seq<Sms>)
    ensures q == [] ==> Taken(c, q) == 0 && !GoesDown(c, q) && Drain(c, q) == c
    ensures q != [] ==>
              var d := Handle(c, q[0]);
              if EndsCall(c, q[0]) then Taken(c, q) == 1 && GoesDown(c, q) == Accepts(c, q[0].0) && Drain(c, q) == d
              else Taken(c, q) == 1 + Taken(d, q[1..]) && GoesDown(c, q) == GoesDown(d, q[1..])
                   && Drain(c, q) == Drain(d, q[1..])
  {
    hide Handle, EndsCall, Accepts;
  }

  lemma HandlesHead(c: Ctl, q: seq<Sms>, k: nat)
    requires k <= |q| && q != []
    ensures HandleAll(c, q[..k]) == if k == 0 then c else HandleAll(Handle(c, q[0]), q[1..][..k - 1])
  {
    hide Handle;
    if k > 0 { assert q[..k][0] == q[0] && q[..k][1..] == q[1..][..k - 1]; }
  }

  lemma EndOfCall(c: Ctl, sms: Sms)
    ensures EndsCall(c, sms) <==> !Accepts(c, sms.0) || AsksReboot(sms.1)
    ensures Accepts(c, sms.0) && AsksReboot(sms.1) ==> Handle(c, sms) == Afresh(c.file)
  {
    if Accepts(c, sms.0) && AsksReboot(sms.1) { RebootIsAfresh(c, sms); }
    hide Handle, Accepts, AsksReboot, Afresh;
  }

  lemma RebootIsAfresh(c: Ctl, sms: Sms)
    requires Accepts(c, sms.0) && AsksReboot(sms.1)
    ensures Handle(c, sms) == Afresh(c.file)
  {
    hide Meaning, Accepts, Afresh, Render, ExecutePhones, HeaterText, Spell;
  }

  lemma {:induction false} HandleAllConcat(c: Ctl, a: seq<Sms>, b: seq<Sms>)
    ensures HandleAll(c, a + b) == HandleAll(HandleAll(c, a), b)
    decreases a
  {
    if a == [] {
      assert a + b == b;
    } else {
      assert (a + b)[1..] == a[1..] + b;
      HandleAllConcat(Handle(c, a[0]), a[1..], b);
    }
  }

  function Arrivals(inputs: seq<Input>): seq<Sms> {
    if inputs == [] then []
    else
      var i := inputs[|inputs| - 1];
      Arrivals(inputs[..|inputs| - 1]) + if i.Arrive? then [i.sms] else []
  }

  /** What becomes of an SMS that leaves the queue: executed; dropped because the base is
      locked to its sender; or lost with the queue when the process ends. */
  datatype Fate = Executed(sms: Sms) | Refused(sms: Sms) | Lost(sms: Sms)

  function Texts(fates: seq<Fate>): (r: seq<Sms>)
    ensures |r| == |fates|
  {
    seq(|fates|, k requires 0 <= k < |fates| => fates[k].sms)
  }

  ghost function DrainFates(c: Ctl, q: seq<Sms>): seq<Fate>
    decreases q
  {
    if q == [] then []
    else if !Accepts(c, q[0].0) then [Refused(q[0])]
    else if EndsCall(c, q[0]) then [Executed(q[0])]
    else [Executed(q[0])] + DrainFates(Handle(c, q[0]), q[1..])
  }

  function AllLost(q: seq<Sms>): seq<Fate> {
    seq(|q|, k requires 0 <= k < |q| => Lost(q[k]))
  }

  ghost function StepFates(b: Base, i: Input): seq<Fate> {
    match i
    case Commands =>
      DrainFates(b.ctl, b.queue)
      + if GoesDown(b.ctl, b.queue) then AllLost(b.queue[Taken(b.ctl, b.queue)..]) else []
    case Restart => AllLost(b.queue)
    case _ => []
  }

  /** The fates of a run, in the order they come about. */
  ghost function Fates(b: Base, inputs: seq<Input>): seq<Fate> {
    if inputs == [] then []
    else
      var front := inputs[..|inputs| - 1];
      Fates(b, front) + StepFates(Run(b, front), inputs[|inputs| - 1])
  }

  /** An executed DEBUG REBOOT. */
  predicate Reboots(f: Fate) {
    f.Executed? && AsksReboot(f.sms.1)
  }

  predicate Rebooted(fates: seq<Fate>) {
    exists f :: f in fates && Reboots(f)
  }

  lemma RebootedHead(fates: seq<Fate>)
    ensures Rebooted(fates) <==> fates != [] && (Reboots(fates[0]) || Rebooted(fates[1..]))
  {
    assert fates != [] ==> fates == [fates[0]] + fates[1..];
    if Rebooted(fates) {
      var f :| f in fates && Reboots(f);
      assert f == fates[0] || f in fates[1..];
    }
  }

  lemma {:induction false} DrainTexts(c: Ctl, q: seq<Sms>)
    ensures Texts(DrainFates(c, q)) == q[..Taken(c, q)]
    ensures forall f :: f in DrainFates(c, q) ==> !f.Lost?
    ensures GoesDown(c, q) <==> Rebooted(DrainFates(c, q))
    decreases q
  {
    hide Handle, Accepts, Texts, AsksReboot, Rebooted;
    TextsHead([]);
    RebootedHead([]);
    if q != [] {
      RebootedHead([Refused(q[0])]);
      RebootedHead([Executed(q[0])]);
      RebootedHead([Executed(q[0])] + DrainFates(Handle(c, q[0]), q[1..]));
      var d := Handle(c, q[0]);
      DrainTexts(d, q[1..]);
      TextsHead([Refused(q[0])]);
      TextsHead([Executed(q[0])]);
      TextsHead([Executed(q[0])] + DrainFates(d, q[1..]));
      TakeOneMore(q, Taken(d, q[1..]));
    }
  }

  lemma TextsHead(fates: seq<Fate>)
    ensures Texts(fates) == if fates == [] then [] else [fates[0].sms] + Texts(fates[1..])
  {
  }

  lemma TakeOneMore(q: seq<Sms>, k: nat)
    requires k < |q|
    ensures q[..k + 1] == [q[0]] + q[1..][..k] && q[..1] == [q[0]] && q[..0] == []
  {
  }

  lemma LostTexts(q: seq<Sms>)
    ensures Texts(AllLost(q)) == q && Survivors(AllLost(q)) == []
    ensures forall f :: f in AllLost(q) ==> f.Lost?
  {
    NoneSurvive(AllLost(q));
  }

  lemma {:induction false} StepConserves(b: Base, i: Input)
    ensures Texts(StepFates(b, i)) + Step(b, i).queue == b.queue + if i.Arrive? then [i.sms] else []
    ensures (exists f :: f in StepFates(b, i) && f.Lost?)
            ==> i == Restart || Rebooted(StepFates(b, i))
  {
    hide Handle, Drain, DrainFates, Taken, GoesDown, After3G, AfterDaemon, AfterWifi, Boot, Texts, AllLost, Reboots;
    match i
    case Commands =>
      DrainTexts(b.ctl, b.queue);
      var rest := b.queue[Taken(b.ctl, b.queue)..];
      LostTexts(rest);
      LostTexts([]);
      TextsConcat(DrainFates(b.ctl, b.queue), if GoesDown(b.ctl, b.queue) then AllLost(rest) else []);
      TextsHead([]);
    case Restart =>
      LostTexts(b.queue);
    case _ =>
      TextsHead([]);
  }

  lemma TextsConcat(a: seq<Fate>, b: seq<Fate>)
    ensures Texts(a + b) == Texts(a) + Texts(b)
  {
  }

  /** Conservation over every run, checks and restarts included: the SMS that left the queue
      followed by those still in it are those that were in it and those that arrived, in
      order, each once; and none is lost but to a restart or an executed DEBUG REBOOT. */
  lemma {:induction false} QueueConserved(b: Base, inputs: seq<Input>)
    ensures Texts(Fates(b, inputs)) + Run(b, inputs).queue == b.queue + Arrivals(inputs)
    ensures (exists f :: f in Fates(b, inputs) && f.Lost?)
            ==> Restart in inputs || Rebooted(Fates(b, inputs))
  {
    if inputs == [] {
      assert Texts([]) + b.queue == b.queue + [];
    } else {
      var front, i := inputs[..|inputs| - 1], inputs[|inputs| - 1];
      assert i in inputs && forall x :: x in front ==> x in inputs;
      var m := Run(b, front);
      QueueConserved(b, front);
      StepConserves(m, i);
      TextsConcat(Fates(b, front), StepFates(m, i));
      hide Step, StepFates, Texts, Reboots;
      var more := if i.Arrive? then [i.sms] else [];
      Regroup(Texts(Fates(b, front)), Texts(StepFates(m, i)), Step(m, i).queue);
      Regroup(Texts(Fates(b, front)), m.queue, more);
      Regroup(b.queue, Arrivals(front), more);
    }
  }

  // ----------------------------------------------------------- ticks cannot be seen

  /** The SMS that were handled: all but the lost ones. */
  function Survivors(fates: seq<Fate>): seq<Sms> {
    if fates == [] then []
    else Survivors(fates[..|fates| - 1]) + if fates[|fates| - 1].Lost? then [] else [fates[|fates| - 1].sms]
  }

  lemma {:induction false} SurvivorsConcat(a: seq<Fate>, b: seq<Fate>)
    ensures Survivors(a + b) == Survivors(a) + Survivors(b)
    decreases b
  {
    if b == [] {
      assert a + b == a;
    } else {
      var front := b[..|b| - 1];
      assert (a + b)[..|a + b| - 1] == a + front;
      SurvivorsConcat(a, front);
    }
  }

  lemma {:induction false} NoneSurvive(fates: seq<Fate>)
    ensures (forall f :: f in fates ==> f.Lost?) ==> Survivors(fates) == []
  {
    if fates != [] {
      var front := fates[..|fates| - 1];
      assert forall f :: f in front ==> f in fates;
      NoneSurvive(front);
    }
  }

  lemma {:induction false} AllSurvive(fates: seq<Fate>)
    ensures (forall f :: f in fates ==> !f.Lost?) ==> Survivors(fates) == Texts(fates)
  {
    if fates != [] {
      var front, last := fates[..|fates| - 1], fates[|fates| - 1];
      assert forall f :: f in front ==> f in fates;
      AllSurvive(front);
      assert front + [last] == fates;
      TextsConcat(front, [last]);
    }
  }

  lemma {:induction false} StepSurvivors(b: Base, i: Input)
    requires i.Arrive? || i.Commands?
    ensures Step(b, i).ctl == HandleAll(b.ctl, Survivors(StepFates(b, i)))
  {
    hide Handle, Drain, DrainFates, Taken, GoesDown, Texts, AllLost, Survivors;
    if i.Commands? {
      var fates, rest := DrainFates(b.ctl, b.queue), b.queue[Taken(b.ctl, b.queue)..];
      DrainHandlesPrefix(b.ctl, b.queue);
      DrainTexts(b.ctl, b.queue);
      AllSurvive(fates);
      LostTexts(rest);
      SurvivorsConcat(fates, AllLost(rest));
      assert fates + [] == fates && Survivors(fates) + [] == Survivors(fates);
    } else {
      NoneSurvive([]);
    }
  }

  /** Whatever the interleaving of arrivals and ticks, the state reached is the one of
      handling one by one the commands that were not lost; so when none is, how they fell
      into ticks, and that a dropped sender ends a tick early, cannot be told from the
      outcome: it is that of the arrivals up to the queue that is left. */
  lemma {:induction false} TicksUnobservable(b: Base, inputs: seq<Input>)
    requires forall i :: i in inputs ==> i.Arrive? || i.Commands?
    ensures Run(b, inputs).ctl == HandleAll(b.ctl, Survivors(Fates(b, inputs)))
    ensures (forall f :: f in Fates(b, inputs) ==> !f.Lost?) ==>
              var all, left := b.queue + Arrivals(inputs), |Run(b, inputs).queue|;
              left <= |all| && Run(b, inputs).ctl == HandleAll(b.ctl, all[..|all| - left])
  {
    hide Handle, Survivors, Step, StepFates;
    if inputs == [] {
      NoneSurvive([]);
    } else {
      var front, i := inputs[..|inputs| - 1], inputs[|inputs| - 1];
      assert i in inputs;
      var m := Run(b, front);
      TicksUnobservable(b, front);
      StepSurvivors(m, i);
      SurvivorsConcat(Fates(b, front), StepFates(m, i));
      HandleAllConcat(b.ctl, Survivors(Fates(b, front)), Survivors(StepFates(m, i)));
    }
    LeftAtTheEnd(b, inputs);
  }

  lemma LeftAtTheEnd(b: Base, inputs: seq<Input>)
    ensures var all, left := b.queue + Arrivals(inputs), |Run(b, inputs).queue|;
            && left <= |all|
            && ((forall f :: f in Fates(b, inputs) ==> !f.Lost?) ==>
                  Survivors(Fates(b, inputs)) == all[..|all| - left])
  {
    QueueConserved(b, inputs);
    AllSurvive(Fates(b, inputs));
    hide *;
    var texts, q := Texts(Fates(b, inputs)), Run(b, inputs).queue;
    assert (texts + q)[..|texts|] == texts;
  }

  lemma OneTickOfTwo(b: Base, first: Sms, other: Sms)
    requires b.queue == [first, other] && Accepts(b.ctl, first.0) && AsksReboot(first.1)
    ensures Step(b, Commands) == Start(Some(b.ctl.file))
    ensures StepFates(b, Commands) == [Executed(first), Lost(other)]
  {
    RebootIsAfresh(b.ctl, first);
    hide Afresh, AsksReboot, Handle, Accepts;
    assert EndsCall(b.ctl, first) && b.queue[1..] == [other];
    assert AllLost([other]) == [Lost(other)];
  }

  lemma TwoTicks(b: Base, first: Sms, other: Sms)
    requires b.queue == [first] && Accepts(b.ctl, first.0) && AsksReboot(first.1)
    ensures Step(Step(Step(b, Commands), Arrive(other)), Commands).ctl == Handle(Afresh(b.ctl.file), other)
  {
    RebootIsAfresh(b.ctl, first);
    hide Afresh, AsksReboot, Handle, Accepts;
    assert EndsCall(b.ctl, first);
    assert [] + [other] == [other];
    OneTick(Afresh(b.ctl.file), other);
  }

  /** A reboot shows them: two commands in one tick, DEBUG REBOOT and any other, and the other
      is lost; the same two in two ticks, and it is handled. */
  lemma {:induction false} RebootShowsTicks(b: Base, from: string, other: Sms)
    requires b.queue == [] && Accepts(b.ctl, from)
    ensures var first, second := Arrive((from, "DEBUG REBOOT")), Arrive(other);
            && Step(Step(Step(b, first), second), Commands) == Start(Some(b.ctl.file))
            && StepFates(Step(Step(b, first), second), Commands) == [Executed((from, "DEBUG REBOOT")), Lost(other)]
            && Step(Step(Step(Step(b, first), Commands), second), Commands).ctl == Handle(Afresh(b.ctl.file), other)
  {
    MeaningOfReboot();
    var sms := (from, "DEBUG REBOOT");
    hide Afresh, AsksReboot, Handle, Accepts, Drain, GoesDown, Taken, StepFates, Boot;
    assert b.queue + [sms] == [sms] && [sms] + [other] == [sms, other];
    OneTickOfTwo(b.(queue := [sms, other]), sms, other);
    TwoTicks(b.(queue := [sms]), sms, other);
  }

  lemma OneTick(c: Ctl, sms: Sms)
    ensures Drain(c, [sms]) == Handle(c, sms)
  {
    hide Handle;
    assert [sms][1..] == [];
    assert Drain(Handle(c, sms), []) == Handle(c, sms);
  }

  function Ticks(n: nat): seq<Input> {
    seq(n, i => Commands)
  }

  lemma TickTakes(b: Base)
    ensures |Step(b, Commands).queue| <= if b.queue == [] then 0 else |b.queue| - 1
  {
    hide Drain, GoesDown, Handle;
  }

  /** With no arrivals, n commands are gone after at most n ticks. */
  lemma {:induction false} QueueDrains(b: Base, n: nat)
    ensures |Run(b, Ticks(n)).queue| <= if n <= |b.queue| then |b.queue| - n else 0
  {
    if n > 0 {
      assert Ticks(n)[..n - 1] == Ticks(n - 1);
      QueueDrains(b, n - 1);
      var m := Run(b, Ticks(n - 1));
      TickTakes(m);
      hide Step;
      assert Run(b, Ticks(n)) == Step(m, Commands);
    }
  }

  lemma {:induction false} MeaningOfPhoneTexts(no: string)
    requires ValidPhone(no)
    ensures Meaning("ADD PHONE " + no) == AddPhone(["ADD", "PHONE", no])
    ensures Meaning("LOCK") == Lock
    ensures Meaning("UNLOCK " + PIN) == Unlock(PIN)
  {
    hide Parse, Tokens;
    assert NoSpace(no) && Upper(no) == no;
    UpperConcat("ADD PHONE ", no);
    assert Upper("ADD PHONE ") == "ADD PHONE ";
    NormaliseFixed("ADD PHONE " + no);
    AddPhoneRead(no);
    NormaliseFixed("LOCK");
    ParseLock();
    NormaliseFixed("UNLOCK " + PIN);
    UnlockRead(PIN);
  }

  lemma {:induction false} PhoneCommands(c: Ctl, from: string, add: Sms, lock: Sms, unlock: Sms, tokens: seq<string>)
    requires !c.locked && add.0 == lock.0 == unlock.0 == from && ValidPhone(from)
    requires tokens == ["ADD", "PHONE", from] && Meaning(add.1) == AddPhone(tokens)
    requires Meaning(lock.1) == Lock && Meaning(unlock.1) == Unlock(PIN)
    ensures var d := Handle(Handle(c, add), lock);
            && d.locked && d.mem == c.mem.(whitelist := c.mem.whitelist + {from})
            && (forall sms: Sms :: sms.0 !in d.mem.whitelist ==> Handle(d, sms) == d)
            && !Handle(d, unlock).locked && Handle(d, unlock).mem == d.mem
  {
    hide Meaning, Render, ValidPhone;
    var d := Handle(Handle(c, add), lock);
    forall sms: Sms | sms.0 !in d.mem.whitelist ensures Handle(d, sms) == d {
      LockedHandle(d, sms);
    }
  }

  /** The documented procedure: a phone that adds itself and locks is listed, every other
      phone that is not listed is shut out, and it can unlock again. */
  lemma {:induction false} LockProcedure(c: Ctl, from: string)
    requires !c.locked && ValidPhone(from)
    ensures var d := Handle(Handle(c, (from, "ADD PHONE " + from)), (from, "LOCK"));
            && d.locked && d.mem == c.mem.(whitelist := c.mem.whitelist + {from})
            && (forall sms: Sms :: sms.0 !in d.mem.whitelist ==> Handle(d, sms) == d)
            && !Handle(d, (from, "UNLOCK " + PIN)).locked
  {
    hide Handle, Meaning, ValidPhone;
    MeaningOfPhoneTexts(from);
    PhoneCommands(c, from, (from, "ADD PHONE " + from), (from, "LOCK"), (from, "UNLOCK " + PIN),
                  ["ADD", "PHONE", from]);
  }

  lemma {:induction false} HeldHasNoReboot(c: Ctl, q: seq<Sms>)
    requires c.locked && c.mem.whitelist != {}
    requires forall k :: 0 <= k < |q| ==> !EndsLock(c.mem.whitelist, q[k])
    ensures !GoesDown(c, q)
    decreases q
  {
    if q != [] {
      HeldOnce(c, q[0]);
      hide Handle;
      assert !EndsLock(c.mem.whitelist, q[0]);
      hide Meaning;
      if !EndsCall(c, q[0]) {
        assert forall k :: 0 <= k < |q[1..]| ==> q[1..][k] == q[k + 1];
        HeldHasNoReboot(Handle(c, q[0]), q[1..]);
      }
    }
  }

  lemma LockedTick(b: Base, i: Input)
    requires b.ctl.locked && b.ctl.mem.whitelist != {} && i != Restart
    requires forall k :: 0 <= k < |b.queue| ==> !EndsLock(b.ctl.mem.whitelist, b.queue[k])
    ensures Step(b, i).ctl.locked && Step(b, i).ctl.mem.whitelist == b.ctl.mem.whitelist
    ensures !Restarts(b, i)
  {
    hide EndsLock, Handle, HandleAll, GoesDown;
    if i == Commands {
      HeldHasNoReboot(b.ctl, b.queue);
      DrainHandlesPrefix(b.ctl, b.queue);
      LockHolds(b.ctl, b.queue[..Taken(b.ctl, b.queue)]);
    }
  }

  lemma QueuedOrArrived(b: Base, i: Input)
    ensures forall sms :: sms in Step(b, i).queue ==> sms in b.queue || i == Arrive(sms)
  {
    hide Drain, GoesDown, Taken, After3G, AfterDaemon, AfterWifi, Boot;
  }

  ghost predicate NeverRestarts(b: Base, inputs: seq<Input>) {
    inputs == []
    || (NeverRestarts(b, inputs[..|inputs| - 1])
        && !Restarts(Run(b, inputs[..|inputs| - 1]), inputs[|inputs| - 1]))
  }

  /** Over any run without a restart, watchdogs included: as long as neither the right PIN
      nor DEBUG REBOOT arrives from a listed phone, a locked base stays locked, its whitelist
      stays what it was, and no command restarts it. */
  lemma {:induction false} LockedRun(b: Base, inputs: seq<Input>)
    requires b.ctl.locked && b.ctl.mem.whitelist != {} && Restart !in inputs
    requires forall sms :: sms in b.queue + Arrivals(inputs) ==> !EndsLock(b.ctl.mem.whitelist, sms)
    ensures Run(b, inputs).ctl.locked && Run(b, inputs).ctl.mem.whitelist == b.ctl.mem.whitelist
    ensures forall sms :: sms in Run(b, inputs).queue ==> sms in b.queue + Arrivals(inputs)
    ensures NeverRestarts(b, inputs)
  {
    hide EndsLock, Step, Restarts;
    if inputs != [] {
      var front, i := inputs[..|inputs| - 1], inputs[|inputs| - 1];
      assert forall x :: x in front ==> x in inputs;
      assert i in inputs;
      assert forall sms :: sms in b.queue + Arrivals(front) ==> sms in b.queue + Arrivals(inputs);
      LockedRun(b, front);
      LockedTick(Run(b, front), i);
      QueuedOrArrived(Run(b, front), i);
    }
  }
}
