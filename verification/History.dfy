/** What a run changes, what the state file keeps of it, and what a restart brings back. */
module History {
  import opened Text
  import opened StateFile
  import opened SmsGrammar
  import opened Watchdog
  import opened Control
  import opened ControlProperties

  /** A change of the settings, in memory only; the memory written to the file; and the
      memory taken from it. EmergencyTo("") removes the emergency phone. */
  datatype Change =
    | ToAll(state: HeaterState)
    | ToOne(name: string, state: HeaterState)
    | Listed(no: string)
    | Unlisted(no: string)
    | EmergencyTo(no: string)
    | Saved
    | Reloaded

  /** The settings in memory, and those the file would load to. */
  datatype Kept = Kept(mem: Persistent, disk: Persistent)

  function Changed(p: Persistent, c: Change): Persistent {
    match c
    case ToAll(s) => SetAll(p, s)
    case ToOne(name, s) => SetOne(p, name, s)
    case Listed(no) => p.(whitelist := p.whitelist + {no})
    case Unlisted(no) => p.(whitelist := p.whitelist - {no})
    case EmergencyTo(no) => p.(emergency := no)
    case _ => p
  }

  function Apply(k: Kept, c: Change): Kept {
    match c
    case Saved => k.(disk := k.mem)
    case Reloaded => k.(mem := k.disk)
    case _ => k.(mem := Changed(k.mem, c))
  }

  function Replay(k: Kept, log: seq<Change>): Kept {
    if log == [] then k else Apply(Replay(k, log[..|log| - 1]), log[|log| - 1])
  }

  ghost function KeptOf(c: Ctl): Kept {
    Kept(c.mem, Load(c.file))
  }

  /** The file holds the memory. */
  ghost predicate Clean(c: Ctl) {
    Load(c.file) == c.mem
  }

  // ----------------------------------------------------------- the log of a run

  function ChangesBy(c: Ctl, cmd: Command): seq<Change> {
    match cmd
    case All(w) => [ToAll(StateOf(w)), Saved]
    case Heater(name, w) => [ToOne(name, StateOf(w)), Saved]
    case AddPhone(tokens) =>
      if !c.locked && |tokens| == 3 && ValidPhone(tokens[2]) then [Listed(tokens[2]), Saved] else []
    case RemovePhone(tokens) => if !c.locked && |tokens| == 3 then [Unlisted(tokens[2]), Saved] else []
    case SetEmergency(tokens) =>
      if |tokens| == 4 && ValidPhone(tokens[3]) then [EmergencyTo(tokens[3]), Saved] else []
    case RemoveEmergency => [EmergencyTo("")]
    case AskSystem(q) => if q == RebootNow then [Reloaded] else []
    case _ => []
  }

  function ChangesOf(c: Ctl, sms: Sms): seq<Change> {
    if Accepts(c, sms.0) then ChangesBy(c, Meaning(sms.1)) else []
  }

  ghost function DrainLog(c: Ctl, q: seq<Sms>): seq<Change>
    decreases q
  {
    if q == [] then []
    else if EndsCall(c, q[0]) then ChangesOf(c, q[0])
    else ChangesOf(c, q[0]) + DrainLog(Handle(c, q[0]), q[1..])
  }

  /** The changes one input brings about, in order. */
  ghost function StepLog(b: Base, i: Input): seq<Change> {
    match i
    case Commands => DrainLog(b.ctl, b.queue)
    case Check3G(s) => if Fires(b.threeG, s, MODULE_3G_ERROR_THRESHOLD) then [ToAll(Defrost)] else []
    case CheckDaemon(s) => if Fires(b.daemon, s, DAEMON_ERROR_THRESHOLD) then [ToAll(Defrost)] else []
    case Restart => [Reloaded]
    case _ => []
  }

  ghost function RunLog(b: Base, inputs: seq<Input>): seq<Change> {
    if inputs == [] then []
    else
      var front := inputs[..|inputs| - 1];
      RunLog(b, front) + StepLog(Run(b, front), inputs[|inputs| - 1])
  }

  // -------------------------------- memory and file are what the log makes of them

  lemma {:induction false} ReplayConcat(k: Kept, a: seq<Change>, b: seq<Change>)
    ensures Replay(k, a + b) == Replay(Replay(k, a), b)
    decreases b
  {
    if b == [] {
      assert a + b == a;
    } else {
      var front := b[..|b| - 1];
      assert (a + b)[..|a + b| - 1] == a + front;
      ReplayConcat(k, a, front);
    }
  }

  lemma ReplayShort(k: Kept, c: Change)
    ensures Replay(k, []) == k
    ensures Replay(k, [c]) == Apply(k, c)
    ensures Replay(k, [c, Saved]) == Apply(Apply(k, c), Saved)
  {
    assert [c][..0] == [] && [c, Saved][..1] == [c];
  }

  lemma {:induction false} SavedKept(c: Ctl)
    requires WellFormed(c.mem)
    ensures KeptOf(Save(c)) == Kept(c.mem, c.mem)
  {
    RoundTrip(c.mem);
  }

  lemma {:induction false} SettingReplays(c: Ctl, from: string, cmd: Command)
    requires Good(c) && (cmd.All? || (cmd.Heater? && StoredName(cmd.name)))
    ensures Replay(KeptOf(c), ChangesBy(c, cmd)) == KeptOf(Execute(c, from, cmd))
  {
    hide Render, Load, StoredName, ValidPhone;
    SettingGood(c, from, cmd);
    if cmd.All? {
      ReplayShort(KeptOf(c), ToAll(StateOf(cmd.w)));
      SavedKept(c.(mem := SetAll(c.mem, StateOf(cmd.w))));
    } else {
      ReplayShort(KeptOf(c), ToOne(cmd.name, StateOf(cmd.w)));
      SavedKept(c.(mem := SetOne(c.mem, cmd.name, StateOf(cmd.w))));
    }
  }

  lemma {:induction false} AddReplays(c: Ctl, from: string, tokens: seq<string>)
    requires Good(c)
    ensures Replay(KeptOf(c), ChangesBy(c, AddPhone(tokens))) == KeptOf(ExecutePhones(c, from, AddPhone(tokens)))
  {
    hide Render, Load, StoredName, ValidPhone;
    if !c.locked && |tokens| == 3 {
      ReplayShort(KeptOf(c), Listed(tokens[2]));
      if ValidPhone(tokens[2]) {
        SavedKept(c.(mem := c.mem.(whitelist := c.mem.whitelist + {tokens[2]})));
      }
    }
  }

  lemma {:induction false} RemoveReplays(c: Ctl, from: string, tokens: seq<string>)
    requires Good(c)
    ensures Replay(KeptOf(c), ChangesBy(c, RemovePhone(tokens)))
            == KeptOf(ExecutePhones(c, from, RemovePhone(tokens)))
  {
    hide Render, Load, StoredName, ValidPhone;
    if !c.locked && |tokens| == 3 {
      ReplayShort(KeptOf(c), Unlisted(tokens[2]));
      SavedKept(c.(mem := c.mem.(whitelist := c.mem.whitelist - {tokens[2]})));
    }
  }

  lemma {:induction false} EmergencyReplays(c: Ctl, from: string, cmd: Command)
    requires Good(c) && (cmd.SetEmergency? || cmd.RemoveEmergency?)
    ensures Replay(KeptOf(c), ChangesBy(c, cmd)) == KeptOf(ExecutePhones(c, from, cmd))
  {
    hide Render, Load, StoredName, ValidPhone;
    if cmd.RemoveEmergency? {
      ReplayShort(KeptOf(c), EmergencyTo(""));
    } else if |cmd.tokens| == 4 {
      ReplayShort(KeptOf(c), EmergencyTo(cmd.tokens[3]));
      if ValidPhone(cmd.tokens[3]) {
        SavedKept(c.(mem := c.mem.(emergency := cmd.tokens[3])));
      }
    }
  }

  lemma {:induction false} ExecuteReplays(c: Ctl, from: string, cmd: Command)
    requires Good(c) && (cmd.Heater? ==> StoredName(cmd.name))
    ensures Replay(KeptOf(c), ChangesBy(c, cmd)) == KeptOf(Execute(c, from, cmd))
  {
    match cmd
    case All(_) => SettingReplays(c, from, cmd);
    case Heater(_, _) => SettingReplays(c, from, cmd);
    case AddPhone(tokens) => AddReplays(c, from, tokens);
    case RemovePhone(tokens) => RemoveReplays(c, from, tokens);
    case SetEmergency(_) => EmergencyReplays(c, from, cmd);
    case RemoveEmergency => EmergencyReplays(c, from, cmd);
    case AskSystem(q) =>
      ReplayShort(KeptOf(c), Reloaded);
      AnswerKeeps(c, from, q);
    case _ => OthersKeep(c, from, cmd);
  }

  lemma AnswerKeeps(c: Ctl, from: string, q: Query)
    ensures Execute(c, from, AskSystem(q)).file == c.file
    ensures Execute(c, from, AskSystem(q)).mem == if q == RebootNow then Load(c.file) else c.mem
  {
    hide Load;
  }

  lemma OthersKeep(c: Ctl, from: string, cmd: Command)
    requires !cmd.All? && !cmd.Heater? && !cmd.AddPhone? && !cmd.RemovePhone?
    requires !cmd.SetEmergency? && !cmd.RemoveEmergency? && !cmd.AskSystem?
    ensures ChangesBy(c, cmd) == [] && Execute(c, from, cmd).mem == c.mem && Execute(c, from, cmd).file == c.file
  {
  }

  lemma {:induction false} HandleReplays(c: Ctl, sms: Sms)
    requires Good(c)
    ensures Replay(KeptOf(c), ChangesOf(c, sms)) == KeptOf(Handle(c, sms))
  {
    hide Meaning, Execute, ChangesBy, KeptOf, Good, StoredName;
    var cmd := Meaning(sms.1);
    if cmd.Heater? { NameStored(sms.1, cmd.name, cmd.w); }
    ExecuteReplays(c, sms.0, cmd);
  }

  lemma {:induction false} DrainReplays(c: Ctl, q: seq<Sms>)
    requires Good(c)
    ensures Replay(KeptOf(c), DrainLog(c, q)) == KeptOf(Drain(c, q))
    decreases q
  {
    hide Good, Handle, KeptOf, ChangesOf, EndsCall;
    if q != [] {
      var d := Handle(c, q[0]);
      HandleGood(c, q[0]);
      HandleReplays(c, q[0]);
      if !EndsCall(c, q[0]) {
        DrainReplays(d, q[1..]);
        ReplayConcat(KeptOf(c), ChangesOf(c, q[0]), DrainLog(d, q[1..]));
      }
    }
  }

  lemma {:induction false} StepReplays(b: Base, i: Input)
    requires Good(b.ctl)
    ensures Replay(KeptOf(b.ctl), StepLog(b, i)) == KeptOf(Step(b, i).ctl)
  {
    hide Drain, DrainLog, GoesDown, Taken, Load, Render;
    ReplayShort(KeptOf(b.ctl), ToAll(Defrost));
    ReplayShort(KeptOf(b.ctl), Reloaded);
    if i == Commands { DrainReplays(b.ctl, b.queue); }
  }

  /** Over every run, restarts included: the memory, and what the file would load to, are
      what replaying the changes, saves and reloads of the run makes of those at its start. */
  lemma {:induction false} RunIsItsHistory(b: Base, inputs: seq<Input>)
    requires Good(b.ctl)
    ensures var e := Run(b, inputs).ctl;
            Replay(Kept(b.ctl.mem, Load(b.ctl.file)), RunLog(b, inputs)) == Kept(e.mem, Load(e.file))
  {
    hide Step, StepLog, Good;
    if inputs != [] {
      var front, i := inputs[..|inputs| - 1], inputs[|inputs| - 1];
      RunIsItsHistory(b, front);
      RunGood(b, front);
      StepReplays(Run(b, front), i);
      ReplayConcat(KeptOf(b.ctl), RunLog(b, front), StepLog(Run(b, front), i));
    }
  }

  /** The log up to its last save. */
  function UpToSave(log: seq<Change>): (r: seq<Change>)
    ensures |r| <= |log|
  {
    if log == [] || log[|log| - 1] == Saved then log else UpToSave(log[..|log| - 1])
  }

  lemma {:induction false} DiskIsLastSaved(k: Kept, log: seq<Change>)
    ensures Replay(k, log).disk == if UpToSave(log) == [] then k.disk else Replay(k, UpToSave(log)).mem
  {
    if log != [] && log[|log| - 1] != Saved {
      DiskIsLastSaved(k, log[..|log| - 1]);
    }
  }

  /** Over every run the file loads to the memory as it was at the last save. */
  lemma FileIsLastSave(b: Base, inputs: seq<Input>)
    requires Good(b.ctl)
    ensures var kept := UpToSave(RunLog(b, inputs));
            Load(Run(b, inputs).ctl.file)
            == if kept == [] then Load(b.ctl.file) else Replay(Kept(b.ctl.mem, Load(b.ctl.file)), kept).mem
  {
    hide Load, Good, Run, RunLog, Replay, UpToSave;
    RunIsItsHistory(b, inputs);
    DiskIsLastSaved(Kept(b.ctl.mem, Load(b.ctl.file)), RunLog(b, inputs));
  }

  // ----------------------------------------------- what one heater is told, and why

  /** The state given by the last change that concerns this name. A reload forgets what came
      after the last save before it; saved is what the file said at the start. */
  function LastFor(log: seq<Change>, name: string, initial: HeaterState, saved: HeaterState): HeaterState
    decreases |log|
  {
    if log == [] then initial
    else
      var front := log[..|log| - 1];
      match log[|log| - 1]
      case ToAll(s) => s
      case ToOne(n, s) => if n == name then s else LastFor(front, name, initial, saved)
      case Reloaded => if UpToSave(front) == [] then saved else LastFor(UpToSave(front), name, initial, saved)
      case _ => LastFor(front, name, initial, saved)
  }

  lemma {:induction false} LookupReplay(k: Kept, log: seq<Change>, name: string)
    ensures Lookup(Replay(k, log).mem, name) == LastFor(log, name, Lookup(k.mem, name), Lookup(k.disk, name))
    decreases |log|
  {
    if log != [] {
      var front := log[..|log| - 1];
      if log[|log| - 1] == Reloaded {
        DiskIsLastSaved(k, front);
        LookupReplay(k, UpToSave(front), name);
      } else {
        LookupReplay(k, front, name);
      }
    }
  }

  /** History refinement: after any run, what a heater of any name, stored or not, is told
      is the value of the last ALL command, HEATER command for that very name or fallback
      in the history, where a restart forgets what was not saved before it. */
  lemma {:induction false} LookupIsLastSetting(b: Base, inputs: seq<Input>, name: string)
    requires Good(b.ctl)
    ensures Lookup(Run(b, inputs).ctl.mem, name)
            == LastFor(RunLog(b, inputs), name, Lookup(b.ctl.mem, name), Lookup(Load(b.ctl.file), name))
  {
    hide Load, Good, Run, RunLog, Replay, Lookup, LastFor;
    RunIsItsHistory(b, inputs);
    LookupReplay(Kept(b.ctl.mem, Load(b.ctl.file)), RunLog(b, inputs), name);
  }

  // --------------------------------------------------- what a restart loses, exactly

  /** The changes since the last save or reload. */
  function Unsaved(log: seq<Change>): seq<Change> {
    if log == [] || log[|log| - 1] == Saved || log[|log| - 1] == Reloaded then []
    else Unsaved(log[..|log| - 1]) + [log[|log| - 1]]
  }

  predicate OnlyTwo(log: seq<Change>) {
    forall c :: c in log ==> c == ToAll(Defrost) || c == EmergencyTo("")
  }

  lemma {:induction false} UnsavedConcat(a: seq<Change>, b: seq<Change>)
    requires OnlyTwo(Unsaved(a)) && OnlyTwo(Unsaved(b))
    ensures OnlyTwo(Unsaved(a + b))
    decreases b
  {
    if b == [] {
      assert a + b == a;
    } else {
      var front, last := b[..|b| - 1], b[|b| - 1];
      assert (a + b)[..|a + b| - 1] == a + front;
      if last != Saved && last != Reloaded {
        assert Unsaved(b) == Unsaved(front) + [last];
        assert forall c :: c in Unsaved(front) ==> c in Unsaved(b);
        assert last in Unsaved(b);
        UnsavedConcat(a, front);
      }
    }
  }

  lemma UnsavedByOne(c: Ctl, cmd: Command)
    ensures OnlyTwo(Unsaved(ChangesBy(c, cmd)))
  {
    hide ValidPhone;
    var log := ChangesBy(c, cmd);
    assert log == [] || log[|log| - 1] == Saved || log == [Reloaded] || log == [EmergencyTo("")];
    assert [EmergencyTo("")][..0] == [];
  }

  lemma {:induction false} UnsavedByDrain(c: Ctl, q: seq<Sms>)
    ensures OnlyTwo(Unsaved(DrainLog(c, q)))
    decreases q
  {
    hide OnlyTwo, Handle, ChangesBy, Meaning;
    UnsavedByOne(c, Ping);
    assert ChangesBy(c, Ping) == [] by { NoChange(c); }
    if q != [] {
      UnsavedByOne(c, Meaning(q[0].1));
      UnsavedByDrain(Handle(c, q[0]), q[1..]);
      UnsavedConcat(ChangesOf(c, q[0]), DrainLog(Handle(c, q[0]), q[1..]));
    }
  }

  lemma NoChange(c: Ctl)
    ensures ChangesBy(c, Ping) == []
  {
  }

  lemma {:induction false} UnsavedByStep(b: Base, i: Input)
    ensures OnlyTwo(Unsaved(StepLog(b, i)))
  {
    hide DrainLog;
    if i == Commands { UnsavedByDrain(b.ctl, b.queue); }
    assert [ToAll(Defrost)][..0] == [];
  }

  /** In any run, the changes not yet saved are fallbacks and removals of the emergency phone. */
  lemma {:induction false} OnlyTwoSkipFile(b: Base, inputs: seq<Input>)
    ensures forall c :: c in Unsaved(RunLog(b, inputs)) ==> c == ToAll(Defrost) || c == EmergencyTo("")
  {
    if inputs != [] {
      hide StepLog, Run;
      var front, i := inputs[..|inputs| - 1], inputs[|inputs| - 1];
      OnlyTwoSkipFile(b, front);
      UnsavedByStep(Run(b, front), i);
      UnsavedConcat(RunLog(b, front), StepLog(Run(b, front), i));
    }
  }

  function ChangedAll(p: Persistent, log: seq<Change>): Persistent {
    if log == [] then p else Changed(ChangedAll(p, log[..|log| - 1]), log[|log| - 1])
  }

  lemma {:induction false} MemoryIsFileAndUnsaved(k: Kept, log: seq<Change>)
    requires k.mem == k.disk
    ensures Replay(k, log).mem == ChangedAll(Replay(k, log).disk, Unsaved(log))
  {
    if log != [] {
      var front, last := log[..|log| - 1], log[|log| - 1];
      MemoryIsFileAndUnsaved(k, front);
      if last != Saved && last != Reloaded {
        assert Unsaved(log)[..|Unsaved(log)| - 1] == Unsaved(front);
      }
    }
  }

  /** The fallback and the removal of the emergency phone, each when it was done. */
  function Skipping(p: Persistent, fallback: bool, removal: bool): Persistent {
    var q := if fallback then SetAll(p, Defrost) else p;
    if removal then q.(emergency := "") else q
  }

  lemma {:induction false} TwoChanges(p: Persistent, log: seq<Change>)
    requires OnlyTwo(log)
    ensures ChangedAll(p, log) == Skipping(p, ToAll(Defrost) in log, EmergencyTo("") in log)
  {
    if log != [] {
      var front, last := log[..|log| - 1], log[|log| - 1];
      assert log == front + [last] && last in log;
      assert forall c :: c in front ==> c in log;
      TwoChanges(p, front);
      SkippingMore(p, ToAll(Defrost) in front, EmergencyTo("") in front);
    }
  }

  lemma SkippingMore(p: Persistent, fallback: bool, removal: bool)
    ensures SetAll(Skipping(p, fallback, removal), Defrost) == Skipping(p, true, removal)
    ensures Skipping(p, fallback, removal).(emergency := "") == Skipping(p, fallback, true)
  {
  }

  lemma SkippingIsVisible(p: Persistent, fallback: bool, removal: bool)
    ensures Skipping(p, fallback, removal) == p
            <==> (fallback ==> SetAll(p, Defrost) == p) && (removal ==> p.emergency == "")
  {
  }

  lemma CleanRun(b: Base, inputs: seq<Input>)
    requires Good(b.ctl) && Clean(b.ctl)
    ensures var e, last := Run(b, inputs).ctl, Unsaved(RunLog(b, inputs));
            e.mem == Skipping(Load(e.file), ToAll(Defrost) in last, EmergencyTo("") in last)
  {
    hide Good, Run, RunLog, Load;
    RunIsItsHistory(b, inputs);
    MemoryIsFileAndUnsaved(Kept(b.ctl.mem, Load(b.ctl.file)), RunLog(b, inputs));
    OnlyTwoSkipFile(b, inputs);
    TwoChanges(Load(Run(b, inputs).ctl.file), Unsaved(RunLog(b, inputs)));
  }

  /** Durability, exactly, over every run from a base whose file holds its memory, as after
      any start: a restart now would bring back the settings in memory if and only if no
      fallback since the last save changed anything and no emergency phone was removed
      since. */
  lemma {:induction false} DurableExactly(b: Base, inputs: seq<Input>)
    requires Good(b.ctl) && Clean(b.ctl)
    ensures var e, last := Run(b, inputs), Unsaved(RunLog(b, inputs));
            var file := Load(e.ctl.file);
            Step(e, Restart).ctl.mem == e.ctl.mem
            <==> (ToAll(Defrost) in last ==> SetAll(file, Defrost) == file)
                 && (EmergencyTo("") in last ==> file.emergency == "")
  {
    hide Good, Clean, Run, RunLog, Load, Unsaved;
    CleanRun(b, inputs);
    var e, last := Run(b, inputs), Unsaved(RunLog(b, inputs));
    SkippingIsVisible(Load(e.ctl.file), ToAll(Defrost) in last, EmergencyTo("") in last);
  }

  lemma {:induction false} BootClean(file: Option<string>)
    ensures Good(Boot(file)) && Clean(Boot(file))
  {
    BootGood(file);
    RoundTrip(FRESH);
  }

  /** A command is saved, unless it removes an emergency phone that there is. */
  lemma {:induction false} CommandDurableExactly(c: Ctl, sms: Sms)
    requires Good(c) && Clean(c)
    ensures Load(Handle(c, sms).file) == Handle(c, sms).mem
            <==> !(Accepts(c, sms.0) && Meaning(sms.1) == RemoveEmergency && c.mem.emergency != "")
  {
    hide Good, Meaning, Handle, Load;
    HandleReplays(c, sms);
    ChangeKinds(c, Meaning(sms.1));
    hide ChangesBy;
    var k, log := KeptOf(c), ChangesOf(c, sms);
    if log == [EmergencyTo("")] {
      ReplayShort(k, EmergencyTo(""));
    } else if log == [Reloaded] {
      ReplayShort(k, Reloaded);
    } else if log != [] {
      ReplayShort(k, log[0]);
      assert log == [log[0], Saved];
    }
  }

  lemma ChangeKinds(c: Ctl, cmd: Command)
    ensures ChangesBy(c, cmd) == [EmergencyTo("")] <==> cmd == RemoveEmergency
    ensures ChangesBy(c, cmd) == [] || ChangesBy(c, cmd) == [EmergencyTo("")] || ChangesBy(c, cmd) == [Reloaded]
            || (|ChangesBy(c, cmd)| == 2 && ChangesBy(c, cmd)[1] == Saved)
  {
    hide ValidPhone;
  }

  /** A check of the 3G module leaves settings that survive a restart, unless it falls back
      on settings that are not all DEFROST already. */
  lemma FallbackDurableExactly(b: Base, s: Seen)
    requires Clean(b.ctl)
    ensures Step(Step(b, Check3G(s)), Restart).ctl.mem == Step(b, Check3G(s)).ctl.mem
            <==> !Fires(b.threeG, s, 6) || SetAll(b.ctl.mem, Defrost) == b.ctl.mem
    ensures Step(Step(b, Check3G(s)), Restart).ctl.mem == b.ctl.mem
  {
    hide Load;
  }

  /** The same of the SMS daemon. */
  lemma DaemonFallbackDurableExactly(b: Base, s: Seen)
    requires Clean(b.ctl)
    ensures Step(Step(b, CheckDaemon(s)), Restart).ctl.mem == Step(b, CheckDaemon(s)).ctl.mem
            <==> !Fires(b.daemon, s, 6) || SetAll(b.ctl.mem, Defrost) == b.ctl.mem
    ensures Step(Step(b, CheckDaemon(s)), Restart).ctl.mem == b.ctl.mem
  {
    hide Load;
  }

  /** A fallback that is lost: everything at COMFORT and saved, the sixth failed 3G check,
      then a restart. */
  lemma {:induction false} FallbackIsLost()
    ensures var p := Persistent(Comfort, map[], {}, "");
            var b := Base(Save(Ctl(p, false, "", [])), [], 5, 0, 0);
            var e := Step(b, Check3G(Failed));
            && Good(b.ctl) && Clean(b.ctl)
            && e.ctl.mem == p.(default := Defrost)
            && Step(e, Restart).ctl.mem == p
  {
    hide Render, Load;
    var p := Persistent(Comfort, map[], {}, "");
    SavedKept(Ctl(p, false, "", []));
  }

  lemma MeaningOfRemoval()
    ensures Meaning("REMOVE EMERGENCY PHONE") == RemoveEmergency
  {
    hide Parse;
    NormaliseFixed("REMOVE EMERGENCY PHONE");
    ParseRemoval("REMOVE EMERGENCY PHONE");
  }

  /** An emergency phone that comes back: the sender is told that it was removed, it is gone
      from memory, and a restart finds it in the file. */
  lemma RemovalIsLost(b: Base, from: string)
    requires Good(b.ctl) && Clean(b.ctl) && Accepts(b.ctl, from) && b.ctl.mem.emergency != "" && b.queue == []
    ensures var e := Step(Step(b, Arrive((from, "REMOVE EMERGENCY PHONE"))), Commands);
            && e.ctl.outbox == b.ctl.outbox + [Message(from, EmergencyRemoved)]
            && e.ctl.mem == b.ctl.mem.(emergency := "")
            && Step(e, Restart).ctl.mem == b.ctl.mem
  {
    MeaningOfRemoval();
    hide Meaning, Load;
    var sms := (from, "REMOVE EMERGENCY PHONE");
    var m := Step(b, Arrive(sms));
    assert m.queue == [sms] && m.queue[1..] == [];
    OneRemoval(b.ctl, sms);
  }

  lemma OneRemoval(c: Ctl, sms: Sms)
    requires Meaning(sms.1) == RemoveEmergency
    ensures Drain(c, [sms]) == Handle(c, sms) && !GoesDown(c, [sms])
  {
    OneTick(c, sms);
    hide Handle, Meaning;
    assert [sms][1..] == [];
  }

  /** The whitelist does: it is saved with every change, so over every run from a base whose
      file holds its memory, any restart brings back the whitelist as it was. */
  lemma {:induction false} WhitelistIsDurable(b: Base, inputs: seq<Input>)
    requires Good(b.ctl) && Clean(b.ctl)
    ensures Step(Run(b, inputs), Restart).ctl.mem.whitelist == Run(b, inputs).ctl.mem.whitelist
  {
    hide Good, Clean, Run, RunLog, Load, Unsaved;
    CleanRun(b, inputs);
  }

  /** Nor does the lock survive: a restart brings back the whitelist of the file and hears
      every phone, which is what the base did before exactly when it was not locked. */
  lemma LockIsNotDurable(b: Base)
    requires Good(b.ctl)
    ensures Step(b, Restart).ctl.mem == Load(b.ctl.file)
    ensures forall from :: Accepts(Step(b, Restart).ctl, from)
    ensures (forall from :: Accepts(b.ctl, from)) <==> !b.ctl.locked
  {
    if b.ctl.locked {
      assert "" !in b.ctl.mem.whitelist;
      assert !Accepts(b.ctl, "");
    }
  }

  // ------------------------------------------------------------- DEBUG FILESTATE

  /** A text whose last line is ended. */
  function Ended(text: string): string {
    text + if text == "" || text[|text| - 1] == '\n' then "" else "\n"
  }

  lemma {:induction false} FirstLine(file: string)
    requires file != ""
    ensures Head(file, '\n') + "\n" + Ended(Tail(file, '\n')) == Ended(file)
  {
    var i := IndexOf(file, '\n');
    var line, rest := file[..i], Tail(file, '\n');
    if i < |file| {
      assert file == line + "\n" + rest;
      if rest != "" {
        assert file[|file| - 1] == rest[|rest| - 1];
      }
    } else {
      assert line == file;
    }
  }

  /** The reply to DEBUG FILESTATE is the file, with a newline at its end if it has none. */
  lemma {:induction false} DumpExactly(file: string)
    ensures Dump(file) == Ended(file)
    decreases |file|
  {
    if file != "" {
      FirstLine(file);
      DumpExactly(Tail(file, '\n'));
      hide Head, Tail, Ended;
    }
  }
}
