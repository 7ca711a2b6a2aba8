/** What the documented texts do, from the words of the SMS to the settings, the reply and
    the lines of the state file. The text t of a command is the SMS without the blanks around
    it, in capitals. */
module TextEffects {
  import opened Text
  import opened Order
  import opened StateFile
  import opened SmsGrammar
  import opened CommandTexts
  import opened Control
  import opened ControlProperties
  import opened History

  /** Blanks around a text and the case of its letters do not matter. */
  lemma {:induction false} NormalisePadded(l: string, text: string, r: string)
    requires AllSpace(l) && AllSpace(r) && Trimmed(text)
    ensures Normalise(l + text + r) == Upper(text)
  {
    TrimPadded(l, text, r);
  }

  // ------------------------------------------------------------------- the first start

  /** With no file there, the base starts in DEFROST, knows no heater and no phone, is not
      locked, and writes these three lines. */
  lemma {:induction false} FirstStart()
    ensures var b := Start(None);
            && b.ctl.mem == Persistent(Defrost, map[], {}, "") && !b.ctl.locked && b.ctl.outbox == [] && b.queue == []
            && Lines(b.ctl.file) == ["default_heater_state=defrost", "whitelist=", "emergency_phone="]
  {
    hide Render, Lines;
    FirstFile(Persistent(Defrost, map[], {}, ""));
  }

  lemma {:induction false} FirstFile(p: Persistent)
    requires p == Persistent(Defrost, map[], {}, "")
    ensures Lines(Render(p)) == ["default_heater_state=defrost", "whitelist=", "emergency_phone="]
  {
    assert WellFormed(p);
    hide *;
    FileLinesExactly(p);
    LiteralDefault(Defrost);
    NothingListed();
    ThreeLines("default_heater_state=defrost", "whitelist=", "emergency_phone=");
  }

  lemma ThreeLines(a: string, b: string, c: string)
    ensures [a] + [] + [b + "", c + ""] == [a, b, c]
  {
    assert b + "" == b && c + "" == c;
  }

  lemma NothingListed()
    ensures var none: map<string, HeaterState>, nobody: set<string> := map[], {};
            HeaterLineList(Sorted(none.Keys), none) == [] && Joined(Sorted(nobody)) == ""
  {
  }

  // --------------------------------------------------------------------- ALL orders

  /** Every name, stored or not, is told s; nothing else changed; and it is saved. */
  ghost predicate AllTold(c: Ctl, d: Ctl, s: HeaterState) {
    && (forall n :: Lookup(d.mem, n) == s)
    && d.mem.heaters.Keys == c.mem.heaters.Keys
    && d.mem.whitelist == c.mem.whitelist && d.mem.emergency == c.mem.emergency && d.locked == c.locked
    && d.file == Render(d.mem)
  }

  ghost predicate Replied(c: Ctl, d: Ctl, to: string, reply: string) {
    d.outbox == c.outbox + [Message(to, Words(reply))]
  }

  lemma AllEffect(c: Ctl, from: string, content: string, w: Word)
    requires Accepts(c, from) && Meaning(content) == All(w)
    ensures AllTold(c, Handle(c, (from, content)), StateOf(w))
    ensures Replied(c, Handle(c, (from, content)), from, "ALL " + Spell(w))
    ensures Handle(c, (from, content)).mem.default == StateOf(w)
  {
    hide Meaning, Render, Spell, StateOf;
  }

  lemma AllWords()
    ensures "ALL " + Spell(WordOff) == "ALL OFF" && "ALL " + Spell(WordEco) == "ALL ECO"
    ensures "ALL " + Spell(WordDefrost) == "ALL DEFROST" && "ALL " + Spell(WordComfort) == "ALL COMFORT"
    ensures "ALL " + Spell(WordOn) == "ALL ON"
    ensures StateOf(WordOff) == Off && StateOf(WordEco) == Eco && StateOf(WordDefrost) == Defrost
    ensures StateOf(WordComfort) == Comfort && StateOf(WordOn) == Comfort
  {
  }

  /** The line of the default state, which is the first of a saved file. */
  ghost predicate FileDefault(file: string, s: HeaterState) {
    Lines(file) != []
    && match s
       case Off => Lines(file)[0] == "default_heater_state=off"
       case Defrost => Lines(file)[0] == "default_heater_state=defrost"
       case Eco => Lines(file)[0] == "default_heater_state=eco"
       case Comfort => Lines(file)[0] == "default_heater_state=comfort"
  }

  lemma FirstLineOfFile(p: Persistent)
    requires WellFormed(p)
    ensures Lines(Render(p)) != [] && Lines(Render(p))[0] == "default_heater_state=" + StateWord(p.default)
  {
    FileLinesExactly(p);
    hide *;
  }

  lemma LiteralDefault(s: HeaterState)
    ensures "default_heater_state=" + StateWord(s)
            == match s
               case Off => "default_heater_state=off"
               case Defrost => "default_heater_state=defrost"
               case Eco => "default_heater_state=eco"
               case Comfort => "default_heater_state=comfort"
  {
    match s
    case Off => assert "default_heater_state=off" == "default_heater_state=" + "off";
    case Defrost => assert "default_heater_state=defrost" == "default_heater_state=" + "defrost";
    case Eco => assert "default_heater_state=eco" == "default_heater_state=" + "eco";
    case Comfort => assert "default_heater_state=comfort" == "default_heater_state=" + "comfort";
  }

  lemma DefaultInFile(p: Persistent)
    requires WellFormed(p)
    ensures FileDefault(Render(p), p.default)
  {
    FirstLineOfFile(p);
    LiteralDefault(p.default);
    hide Render, Lines, StateWord, WellFormed;
  }

  /** The five ALL texts, from a phone that is heard. */
  lemma {:induction false} AllOrder(c: Ctl, from: string, content: string)
    requires Good(c) && Accepts(c, from)
    ensures var t, d := Normalise(content), Handle(c, (from, content));
            && (t == "ALL OFF" ==> AllTold(c, d, Off) && Replied(c, d, from, t) && FileDefault(d.file, Off))
            && (t == "ALL DEFROST" ==> AllTold(c, d, Defrost) && Replied(c, d, from, t) && FileDefault(d.file, Defrost))
            && (t == "ALL ECO" ==> AllTold(c, d, Eco) && Replied(c, d, from, t) && FileDefault(d.file, Eco))
            && (t == "ALL COMFORT" ==> AllTold(c, d, Comfort) && Replied(c, d, from, t) && FileDefault(d.file, Comfort))
            && (t == "ALL ON" ==> AllTold(c, d, Comfort) && Replied(c, d, from, t) && FileDefault(d.file, Comfort))
  {
    AllTextsExactly(Normalise(content));
    AllWords();
    HandleGood(c, (from, content));
    hide Parse, Normalise, Handle, StateOf, Spell, AllTold, Replied, FileDefault, Lookup;
    if Meaning(content).All? {
      AllEffect(c, from, content, Meaning(content).w);
      DefaultSaved(c, from, content);
    }
  }

  lemma DefaultSaved(c: Ctl, from: string, content: string)
    requires Accepts(c, from) && Meaning(content).All? && Good(Handle(c, (from, content)))
    ensures FileDefault(Handle(c, (from, content)).file, StateOf(Meaning(content).w))
  {
    var d := Handle(c, (from, content));
    AllEffect(c, from, content, Meaning(content).w);
    DefaultInFile(d.mem);
    hide Meaning, Handle, Render, FileDefault, StateOf;
  }

  // ------------------------------------------------------------------ HEATER orders

  /** The name n is told s and has an entry; no other name is told anything new; nothing else
      changed; and it is saved. */
  ghost predicate OneTold(c: Ctl, d: Ctl, n: string, s: HeaterState) {
    && (forall m :: Lookup(d.mem, m) == if m == n then s else Lookup(c.mem, m))
    && n in d.mem.heaters && d.mem.heaters.Keys == c.mem.heaters.Keys + {n}
    && d.mem.default == c.mem.default
    && d.mem.whitelist == c.mem.whitelist && d.mem.emergency == c.mem.emergency && d.locked == c.locked
    && d.file == Render(d.mem)
  }

  lemma HeaterEffect(c: Ctl, from: string, content: string, n: string, w: Word)
    requires Accepts(c, from) && Meaning(content) == Heater(n, w)
    ensures OneTold(c, Handle(c, (from, content)), n, StateOf(w))
    ensures Replied(c, Handle(c, (from, content)), from, HeaterText(n, w))
  {
    hide Meaning, Render, HeaterText, StateOf;
  }

  /** A line of the file for this heater and this state. */
  ghost predicate FileHeater(file: string, n: string, s: HeaterState) {
    match s
    case Off => "heater_" + n + "_state=off" in Lines(file)
    case Defrost => "heater_" + n + "_state=defrost" in Lines(file)
    case Eco => "heater_" + n + "_state=eco" in Lines(file)
    case Comfort => "heater_" + n + "_state=comfort" in Lines(file)
  }

  lemma {:induction false} HeaterInFile(p: Persistent, n: string)
    requires WellFormed(p) && n in p.heaters
    ensures FileHeater(Render(p), n, p.heaters[n])
  {
    FileLinesExactly(p);
    var names := Sorted(p.heaters.Keys);
    hide Render, Lines, Joined, WellFormed, Sorted;
    assert n in names;
    var i :| 0 <= i < |names| && names[i] == n;
    var list := HeaterLineList(names, p.heaters);
    assert list[i] in list;
    assert list[i] == "heater_" + n + "_state=" + StateWord(p.heaters[n]);
    LiteralLine(n, p.heaters[n]);
  }

  lemma LiteralLine(n: string, s: HeaterState)
    ensures "heater_" + n + "_state=" + StateWord(s)
            == match s
               case Off => "heater_" + n + "_state=off"
               case Defrost => "heater_" + n + "_state=defrost"
               case Eco => "heater_" + n + "_state=eco"
               case Comfort => "heater_" + n + "_state=comfort"
  {
    match s
    case Off => assert "_state=off" == "_state=" + "off";
    case Defrost => assert "_state=defrost" == "_state=" + "defrost";
    case Eco => assert "_state=eco" == "_state=" + "eco";
    case Comfort => assert "_state=comfort" == "_state=" + "comfort";
  }

  lemma HeaterWords(n: string)
    ensures HeaterText(n, WordOff) == "HEATER " + n + " OFF"
    ensures HeaterText(n, WordDefrost) == "HEATER " + n + " DEFROST"
    ensures HeaterText(n, WordEco) == "HEATER " + n + " ECO"
    ensures HeaterText(n, WordComfort) == "HEATER " + n + " COMFORT"
    ensures HeaterText(n, WordOn) == "HEATER " + n + " ON"
  {
    assert " " + "OFF" == " OFF" && " " + "DEFROST" == " DEFROST" && " " + "ECO" == " ECO";
    assert " " + "COMFORT" == " COMFORT" && " " + "ON" == " ON";
  }

  lemma {:induction false} HeaterDone(c: Ctl, from: string, content: string, n: string, w: Word)
    requires Good(c) && Accepts(c, from) && ValidName(n) && Normalise(content) == HeaterText(n, w)
    ensures var t, d := Normalise(content), Handle(c, (from, content));
            OneTold(c, d, n, StateOf(w)) && Replied(c, d, from, t) && FileHeater(d.file, n, StateOf(w))
  {
    HeaterTextsExactly(Normalise(content), n, w);
    hide Parse, Normalise, HeaterText, StateOf, Render, FileHeater, Good;
    var d := Handle(c, (from, content));
    HeaterEffect(c, from, content, n, w);
    HandleGood(c, (from, content));
    GoodIsWellFormed(d);
    hide Handle;
    HeaterInFile(d.mem, n);
  }

  lemma GoodIsWellFormed(c: Ctl)
    requires Good(c)
    ensures WellFormed(c.mem)
  {
  }

  /** The five HEATER texts for any valid name, from a phone that is heard. */
  lemma {:induction false} HeaterOrderTexts(c: Ctl, from: string, content: string, n: string)
    requires Good(c) && Accepts(c, from) && ValidName(n)
    ensures var t, d := Normalise(content), Handle(c, (from, content));
            && (t == "HEATER " + n + " OFF" ==>
                  OneTold(c, d, n, Off) && Replied(c, d, from, t) && FileHeater(d.file, n, Off))
            && (t == "HEATER " + n + " DEFROST" ==>
                  OneTold(c, d, n, Defrost) && Replied(c, d, from, t) && FileHeater(d.file, n, Defrost))
            && (t == "HEATER " + n + " ECO" ==>
                  OneTold(c, d, n, Eco) && Replied(c, d, from, t) && FileHeater(d.file, n, Eco))
            && (t == "HEATER " + n + " COMFORT" ==>
                  OneTold(c, d, n, Comfort) && Replied(c, d, from, t) && FileHeater(d.file, n, Comfort))
            && (t == "HEATER " + n + " ON" ==>
                  OneTold(c, d, n, Comfort) && Replied(c, d, from, t) && FileHeater(d.file, n, Comfort))
  {
    HeaterWords(n);
    AllWords();
    hide *;
    forall w: Word | Normalise(content) == HeaterText(n, w)
      ensures var d := Handle(c, (from, content));
              && OneTold(c, d, n, StateOf(w)) && Replied(c, d, from, Normalise(content))
              && FileHeater(d.file, n, StateOf(w))
    {
      HeaterDone(c, from, content, n, w);
    }
  }

  // ------------------------------------------------------------------ phones, the lock

  /** A phone number: 10 to 14 digits. */
  predicate PhoneShape(no: string) {
    10 <= |no| <= 14 && forall c :: c in no ==> c in "0123456789"
  }

  ghost predicate Told(c: Ctl, d: Ctl, to: string, body: Body) {
    d.outbox == c.outbox + [Message(to, body)]
  }

  /** Only the settings and the file changed, and the file loads to them. */
  ghost predicate Kept(c: Ctl, d: Ctl, p: Persistent) {
    d.mem == p && Load(d.file) == p && d.locked == c.locked
  }

  lemma ExecuteRead(c: Ctl, from: string, content: string, cmd: Command)
    requires Accepts(c, from) && Parse(Normalise(content)) == cmd
    ensures Handle(c, (from, content)) == Execute(c, from, cmd)
  {
    hide Execute, Parse, Normalise;
  }

  /** REMOVE PHONE: on an unlocked base the number is off the list, every other phone stays on
      it, and the file loads to that; on a locked base nothing happens. */
  lemma {:induction false} RemovePhoneEffect(c: Ctl, from: string, content: string, no: string)
    requires Good(c) && Accepts(c, from)
    requires no != "" && NoSpace(no) && Normalise(content) == "REMOVE PHONE " + no
    ensures var d := Handle(c, (from, content));
            if c.locked then d == c
            else Kept(c, d, c.mem.(whitelist := c.mem.whitelist - {no})) && Told(c, d, from, PhoneRemoved(no))
  {
    RemovePhoneRead(no);
    ExecuteRead(c, from, content, RemovePhone(["REMOVE", "PHONE", no]));
    hide *;
    ExecuteRemoval(c, from, no);
  }

  lemma ExecuteRemoval(c: Ctl, from: string, no: string)
    requires Good(c)
    ensures var d := Execute(c, from, RemovePhone(["REMOVE", "PHONE", no]));
            if c.locked then d == c
            else Kept(c, d, c.mem.(whitelist := c.mem.whitelist - {no})) && Told(c, d, from, PhoneRemoved(no))
  {
    hide Render, Load, ValidPhone, StoredName;
    SavedKept(c.(mem := c.mem.(whitelist := c.mem.whitelist - {no})));
  }

  /** ADD PHONE: on an unlocked base a number of the right form is listed, and the file loads
      to that; one of another form changes nothing; on a locked base nothing happens. */
  lemma {:induction false} AddPhoneEffect(c: Ctl, from: string, content: string, no: string)
    requires Good(c) && Accepts(c, from)
    requires no != "" && NoSpace(no) && Normalise(content) == "ADD PHONE " + no
    ensures var d := Handle(c, (from, content));
            if c.locked then d == c
            else if PhoneShape(no) then
              Kept(c, d, c.mem.(whitelist := c.mem.whitelist + {no})) && Told(c, d, from, PhoneAdded(no))
            else d == c.(outbox := c.outbox + [Message(from, PhoneInvalid(no))])
  {
    AddPhoneRead(no);
    ExecuteRead(c, from, content, AddPhone(["ADD", "PHONE", no]));
    FormatsExactly(no);
    ShapeIs(no);
    hide *;
    ExecuteAdding(c, from, no);
  }

  lemma ExecuteAdding(c: Ctl, from: string, no: string)
    requires Good(c)
    ensures var d := Execute(c, from, AddPhone(["ADD", "PHONE", no]));
            if c.locked then d == c
            else if ValidPhone(no) then
              Kept(c, d, c.mem.(whitelist := c.mem.whitelist + {no})) && Told(c, d, from, PhoneAdded(no))
            else d == c.(outbox := c.outbox + [Message(from, PhoneInvalid(no))])
  {
    hide Render, Load, StoredName;
    if ValidPhone(no) { SavedKept(c.(mem := c.mem.(whitelist := c.mem.whitelist + {no}))); }
    hide ValidPhone;
  }

  /** SET EMERGENCY PHONE: a number of the right form is the emergency phone, and the file
      loads to that; one of another form changes nothing. */
  lemma {:induction false} SetEmergencyEffect(c: Ctl, from: string, content: string, no: string)
    requires Good(c) && Accepts(c, from)
    requires no != "" && NoSpace(no) && Normalise(content) == "SET EMERGENCY PHONE " + no
    ensures var d := Handle(c, (from, content));
            if PhoneShape(no) then
              Kept(c, d, c.mem.(emergency := no)) && Told(c, d, from, EmergencySet(no))
            else d == c.(outbox := c.outbox + [Message(from, PhoneInvalid(no))])
  {
    SetEmergencyRead(no);
    ExecuteRead(c, from, content, SetEmergency(["SET", "EMERGENCY", "PHONE", no]));
    FormatsExactly(no);
    ShapeIs(no);
    hide *;
    ExecuteSetting(c, from, no);
  }

  lemma ShapeIs(no: string)
    ensures PhoneShape(no) <==> 10 <= |no| <= 14 && forall c :: c in no ==> c in "0123456789"
  {
  }

  lemma ExecuteSetting(c: Ctl, from: string, no: string)
    requires Good(c)
    ensures var d := Execute(c, from, SetEmergency(["SET", "EMERGENCY", "PHONE", no]));
            if ValidPhone(no) then Kept(c, d, c.mem.(emergency := no)) && Told(c, d, from, EmergencySet(no))
            else d == c.(outbox := c.outbox + [Message(from, PhoneInvalid(no))])
  {
    hide Render, Load, StoredName;
    if ValidPhone(no) { SavedKept(c.(mem := c.mem.(emergency := no))); }
    hide ValidPhone;
  }

  /** REMOVE EMERGENCY PHONE, confirmed only when there was one; the file is not written. */
  lemma {:induction false} RemoveEmergencyEffect(c: Ctl, from: string, content: string)
    requires Accepts(c, from) && Normalise(content) == "REMOVE EMERGENCY PHONE"
    ensures var d := Handle(c, (from, content));
            && d.mem == c.mem.(emergency := "") && d.file == c.file && d.locked == c.locked
            && if c.mem.emergency == "" then d.outbox == c.outbox else Told(c, d, from, EmergencyRemoved)
  {
    PhoneTextsExactly(Normalise(content));
    ExecuteRead(c, from, content, RemoveEmergency);
    hide Parse, Normalise, Handle;
  }

  /** LOCK works from a listed phone and from no other. */
  lemma {:induction false} LockEffect(c: Ctl, from: string, content: string)
    requires Accepts(c, from) && Normalise(content) == "LOCK"
    ensures var d := Handle(c, (from, content));
            && d.mem == c.mem && d.file == c.file
            && if from in c.mem.whitelist then d.locked && Told(c, d, from, Locked)
               else d.locked == c.locked && Told(c, d, from, CannotLock)
  {
    PhoneTextsExactly(Normalise(content));
    ExecuteRead(c, from, content, Lock);
    hide Parse, Normalise, Handle;
  }

  /** UNLOCK works when the word after it is 1234, and with no other PIN. */
  lemma {:induction false} UnlockEffect(c: Ctl, from: string, content: string)
    requires Accepts(c, from) && StartsWith(Normalise(content), "UNLOCK ")
    ensures var t, d := Normalise(content), Handle(c, (from, content));
            && |Tokens(t)| >= 2 && d.mem == c.mem && d.file == c.file
            && if Tokens(t)[1] == "1234" then !d.locked && Told(c, d, from, Unlocked)
               else d.locked == c.locked && Told(c, d, from, WrongPin)
  {
    var t := Normalise(content);
    EveryUnlockHasPin(content);
    PhoneTextsExactly(t);
    ExecuteRead(c, from, content, Unlock(Tokens(t)[1]));
    hide Parse, Normalise, Handle, Tokens, StartsWith;
  }

  /** A phone command with more or fewer words than its form has is dropped in silence. */
  lemma {:induction false} WordCountMatters(c: Ctl, from: string, content: string)
    requires Accepts(c, from)
    ensures var t, d := Normalise(content), Handle(c, (from, content));
            && (StartsWith(t, "ADD PHONE ") && |Tokens(t)| != 3 ==> d == c)
            && (StartsWith(t, "REMOVE PHONE ") && |Tokens(t)| != 3 ==> d == c)
            && (StartsWith(t, "SET EMERGENCY PHONE ") && |Tokens(t)| != 4 ==> d == c)
  {
    hide *;
    var t := Normalise(content);
    PhoneTextsExactly(t);
    ExecuteRead(c, from, content, Parse(t));
    WrongCounts(c, from, Tokens(t));
  }

  lemma WrongCounts(c: Ctl, from: string, tokens: seq<string>)
    ensures |tokens| != 3 ==> Execute(c, from, AddPhone(tokens)) == c && Execute(c, from, RemovePhone(tokens)) == c
    ensures |tokens| != 4 ==> Execute(c, from, SetEmergency(tokens)) == c
  {
    hide Say, Render, ValidPhone, HeaterText, Spell, Shown, Dump, Afresh, Lookup;
  }

  /** DEBUG REBOOT is the only text that reboots. */
  lemma {:induction false} RebootText(content: string)
    ensures AsksReboot(content) <==> Normalise(content) == "DEBUG REBOOT"
  {
    HelpAndDebugExactly(Normalise(content));
    hide Parse, Normalise;
  }

  // -------------------------------------------------------------------------- queries

  /** What GET says of a state. */
  predicate Names(word: string, s: HeaterState) {
    match s
    case Off => word == "OFF"
    case Defrost => word == "DEFROST"
    case Eco => word == "ECO"
    case Comfort => word == "COMFORT/ON"
  }

  /** GET DEFAULT tells the default state and changes nothing. */
  lemma {:induction false} GetDefaultEffect(c: Ctl, from: string, content: string)
    requires Accepts(c, from) && Normalise(content) == "GET DEFAULT"
    ensures exists word :: Names(word, c.mem.default)
              && Handle(c, (from, content)) == c.(outbox := c.outbox + [Message(from, Words("DEFAULT: " + word))])
  {
    GetTextsExactly(Normalise(content));
    ExecuteRead(c, from, content, GetDefault);
    hide Parse, Normalise, Handle;
    assert Names(Shown(c.mem.default), c.mem.default);
  }

  /** GET HEATER tells the state of that name, its own or else the default, and changes
      nothing. */
  lemma {:induction false} GetHeaterEffect(c: Ctl, from: string, content: string, n: string)
    requires Accepts(c, from) && ValidName(n) && Normalise(content) == "GET HEATER " + n
    ensures var s := if Upper(n) in c.mem.heaters then c.mem.heaters[Upper(n)] else c.mem.default;
            exists word :: Names(word, s)
              && Handle(c, (from, content))
                 == c.(outbox := c.outbox + [Message(from, Words("HEATER " + Upper(n) + " " + word))])
  {
    var t := Normalise(content);
    GetTextsExactly(t);
    StartsWithConcat("GET HEATER ", n);
    assert t[11..] == n;
    ExecuteRead(c, from, content, GetHeater(Upper(n)));
    hide Parse, Normalise, Handle;
    assert Names(Shown(Lookup(c.mem, Upper(n))), Lookup(c.mem, Upper(n)));
  }

  /** The texts that are only answered: the answer goes to the sender and nothing changes. */
  lemma {:induction false} AnswersOnly(c: Ctl, from: string, content: string)
    requires Accepts(c, from)
    ensures var t, d := Normalise(content), Handle(c, (from, content));
            && (t == "PING" ==> d == Say(c, from, Pong))
            && (t == "VERSION" ==> d == Say(c, from, VersionText))
            && (t == "HELP" ==> d == Say(c, from, HelpText))
            && (t == "GET IP" ==> d == Say(c, from, FromSystem(PublicIp)))
            && (t == "DEBUG FILESTATE" ==> d == Say(c, from, FileText(Dump(c.file))))
            && (t == "DEBUG STATE" ==> d == Say(c, from, StateText(c.mem.default, c.mem.heaters)))
            && (t == "DEBUG WIFI" ==> d == Say(c, from, FromSystem(WifiInfo)))
            && (t == "DEBUG LOG" ==> d == Say(c, from, FromSystem(ServiceLog)))
            && (t == "DEBUG UPTIME" ==> d == Say(c, from, FromSystem(Uptime)))
  {
    var t := Normalise(content);
    AllTextsExactly(t);
    GetTextsExactly(t);
    HelpAndDebugExactly(t);
    HelpOnce();
    HelpIs("HELP");
    ExecuteRead(c, from, content, Parse(t));
    AnswerEffects(c, from);
    hide Parse, Normalise, Handle, Execute, AsksHelp, StartsWith;
  }

  lemma HelpOnce()
    ensures AsksHelp("HELP")
  {
  }

  lemma AnswerEffects(c: Ctl, from: string)
    ensures Execute(c, from, Ping) == Say(c, from, Pong)
    ensures Execute(c, from, AskVersion) == Say(c, from, VersionText)
    ensures Execute(c, from, Help) == Say(c, from, HelpText)
    ensures Execute(c, from, AskSystem(FileState)) == Say(c, from, FileText(Dump(c.file)))
    ensures Execute(c, from, AskSystem(MemoryState)) == Say(c, from, StateText(c.mem.default, c.mem.heaters))
    ensures forall q :: q in {PublicIp, WifiInfo, ServiceLog, Uptime} ==>
              Execute(c, from, AskSystem(q)) == Say(c, from, FromSystem(q))
  {
    hide Say, Render, ExecutePhones, HeaterText, Spell, Shown, Dump, Afresh, Lookup;
  }

  /** A text that is none of the commands is refused to the sender, and changes nothing; so is
      an order or a query with a name that is not valid. */
  lemma {:induction false} RefusedOnly(c: Ctl, from: string, content: string)
    requires Accepts(c, from)
    ensures var r, d := Parse(Normalise(content)), Handle(c, (from, content));
            && (r == Invalid ==> d == Say(c, from, InvalidCommand))
            && (r == BadHeaterName || r == BadGetName ==> d == Say(c, from, NameInvalid))
  {
    hide *;
    ExecuteRead(c, from, content, Parse(Normalise(content)));
    RefusalEffects(c, from);
  }

  lemma RefusalEffects(c: Ctl, from: string)
    ensures Execute(c, from, Invalid) == Say(c, from, InvalidCommand)
    ensures Execute(c, from, BadHeaterName) == Say(c, from, NameInvalid)
    ensures Execute(c, from, BadGetName) == Say(c, from, NameInvalid)
  {
    hide Say, Render, ExecutePhones, HeaterText, Spell, Shown, Dump, Afresh, Lookup;
  }

  // ------------------------------------------------------------- the log is of texts

  lemma ChangesKinds(c: Ctl, cmd: Command, n: string, s: HeaterState)
    ensures ToAll(s) in ChangesBy(c, cmd) <==> cmd.All? && StateOf(cmd.w) == s
    ensures ToOne(n, s) in ChangesBy(c, cmd) <==> cmd.Heater? && cmd.name == n && StateOf(cmd.w) == s
  {
    hide ValidPhone, StateOf;
  }

  lemma LogIsBy(c: Ctl, sms: Sms)
    ensures ChangesOf(c, sms) == if Accepts(c, sms.0) then ChangesBy(c, Parse(Normalise(sms.1))) else []
  {
    hide ChangesBy, Parse, Normalise;
  }

  /** The settings in the history of a run are those of the texts it took: an order to all
      comes from an ALL text of a phone that is heard, with this very word. */
  lemma {:induction false} LoggedAllExactly(c: Ctl, sms: Sms)
    ensures var t, log := Normalise(sms.1), ChangesOf(c, sms);
            && (ToAll(Off) in log <==> Accepts(c, sms.0) && t == "ALL OFF")
            && (ToAll(Defrost) in log <==> Accepts(c, sms.0) && t == "ALL DEFROST")
            && (ToAll(Eco) in log <==> Accepts(c, sms.0) && t == "ALL ECO")
            && (ToAll(Comfort) in log <==> Accepts(c, sms.0) && (t == "ALL COMFORT" || t == "ALL ON"))
  {
    hide *;
    AllTextsExactly(Normalise(sms.1));
    AllKinds(c, Parse(Normalise(sms.1)));
    LogIsBy(c, sms);
  }

  lemma AllKinds(c: Ctl, cmd: Command)
    ensures ToAll(Off) in ChangesBy(c, cmd) <==> cmd == All(WordOff)
    ensures ToAll(Defrost) in ChangesBy(c, cmd) <==> cmd == All(WordDefrost)
    ensures ToAll(Eco) in ChangesBy(c, cmd) <==> cmd == All(WordEco)
    ensures ToAll(Comfort) in ChangesBy(c, cmd) <==> cmd == All(WordComfort) || cmd == All(WordOn)
  {
    ChangesKinds(c, cmd, "", Off);
    ChangesKinds(c, cmd, "", Defrost);
    ChangesKinds(c, cmd, "", Eco);
    ChangesKinds(c, cmd, "", Comfort);
    hide ChangesBy;
  }

  /** The texts that order a heater n, with a word: the documented one, and the nameless one
      for a heater that is called as its word. */
  predicate Orders(t: string, n: string, word: string) {
    t == "HEATER " + n + " " + word || (t == "HEATER " + word && n == word)
  }

  lemma OrdersText(t: string, n: string, w: Word)
    ensures Orders(t, n, Spell(w)) <==> t == HeaterText(n, w) || (t == "HEATER " + Spell(w) && n == Spell(w))
  {
    hide Spell;
    assert "HEATER " + n + " " + Spell(w) == "HEATER " + n + (" " + Spell(w));
  }

  /** And an order to one heater comes from a HEATER text of a phone that is heard. */
  lemma {:induction false} LoggedOneExactly(c: Ctl, sms: Sms, n: string)
    ensures var t, log, heard := Normalise(sms.1), ChangesOf(c, sms), Accepts(c, sms.0) && ValidName(n);
            && (ToOne(n, Off) in log <==> heard && Orders(t, n, "OFF"))
            && (ToOne(n, Defrost) in log <==> heard && Orders(t, n, "DEFROST"))
            && (ToOne(n, Eco) in log <==> heard && Orders(t, n, "ECO"))
            && (ToOne(n, Comfort) in log <==> heard && (Orders(t, n, "COMFORT") || Orders(t, n, "ON")))
  {
    var t := Normalise(sms.1);
    var cmd := Parse(t);
    AllWords();
    Spelled();
    forall w ensures Parse(t) == Heater(n, w) <==> ValidName(n) && Orders(t, n, Spell(w)) {
      HeaterTextsExactly(t, n, w);
      OrdersText(t, n, w);
    }
    forall s ensures ToOne(n, s) in ChangesBy(c, cmd) <==> cmd.Heater? && cmd.name == n && StateOf(cmd.w) == s {
      ChangesKinds(c, cmd, n, s);
    }
    LogIsBy(c, sms);
    hide *;
    assert cmd.Heater? && cmd.name == n ==> cmd == Heater(n, cmd.w);
  }

  lemma Spelled()
    ensures Spell(WordOff) == "OFF" && Spell(WordEco) == "ECO" && Spell(WordDefrost) == "DEFROST"
    ensures Spell(WordComfort) == "COMFORT" && Spell(WordOn) == "ON"
  {
  }
}
