/** Which texts are read as which command, in both directions, for every command that
    parseCommands knows. The HEATER orders are in SmsGrammar. */
module CommandTexts {
  import opened Text
  import opened StateFile
  import opened SmsGrammar

  // ------------------------------------------------ what each part of the ladder says

  lemma RestKinds(c: string)
    ensures var r := ParseRest(c); r.Help? || (r.AskSystem? && r.query != PublicIp) || r.Invalid?
  {
    hide AsksHelp;
  }

  predicate PhoneKind(r: Command) {
    r.Lock? || r.Unlock? || r.AddPhone? || r.RemovePhone? || r.SetEmergency? || r.RemoveEmergency?
  }

  predicate RestKind(r: Command) {
    r.Help? || (r.AskSystem? && r.query != PublicIp) || r.Invalid?
  }

  lemma PhoneKinds(c: string)
    ensures PhoneKind(ParsePhones(c)) || RestKind(ParsePhones(c))
  {
    RestKinds(c);
    hide ParseRest, StartsWith, Tokens;
  }

  predicate QueryKind(r: Command) {
    r.GetDefault? || r.GetHeater? || r.BadGetName? || r == AskSystem(PublicIp)
  }

  lemma QueryKinds(c: string)
    ensures QueryKind(ParseQuery(c)) || PhoneKind(ParseQuery(c)) || RestKind(ParseQuery(c))
  {
    PhoneKinds(c);
    hide ParsePhones, PhoneKind, RestKind, StartsWith, ValidName;
  }

  predicate HeaterKind(r: Command) {
    r.Heater? || r.BadHeaterName?
  }

  lemma NamedKinds(c: string)
    ensures var r := ParseNamed(c); HeaterKind(r) || QueryKind(r) || PhoneKind(r) || RestKind(r)
    ensures !HeaterKind(ParseNamed(c)) ==> ParseNamed(c) == ParseQuery(c)
  {
    QueryKinds(c);
    hide ParseQuery, QueryKind, PhoneKind, RestKind, EndsInWord, ValidName, NameBefore;
  }

  /** A command that is none of the first ones and no HEATER command comes from the part of
      the ladder that knows it. */
  lemma ComesFrom(c: string)
    ensures HeaterKind(Parse(c)) || QueryKind(Parse(c)) || PhoneKind(Parse(c)) || RestKind(Parse(c)) ==>
              Parse(c) == ParseNamed(c)
    ensures QueryKind(Parse(c)) || PhoneKind(Parse(c)) || RestKind(Parse(c)) ==> Parse(c) == ParseQuery(c)
    ensures PhoneKind(Parse(c)) || RestKind(Parse(c)) ==> Parse(c) == ParsePhones(c)
    ensures RestKind(Parse(c)) ==> Parse(c) == ParseRest(c)
  {
    NamedKinds(c);
    QueryLast(c);
    PhonesLast(c);
    hide ParseNamed, ParseQuery, ParsePhones, ParseRest;
  }

  lemma QueryLast(c: string)
    ensures !QueryKind(ParseQuery(c)) ==> ParseQuery(c) == ParsePhones(c)
  {
    hide ParsePhones, ValidName, StartsWith;
  }

  lemma PhonesLast(c: string)
    ensures !PhoneKind(ParsePhones(c)) ==> ParsePhones(c) == ParseRest(c)
  {
    hide ParseRest, Tokens, StartsWith;
  }

  // --------------------------------------------------------- PING, VERSION and ALL

  /** The whole texts at the head of the ladder. */
  lemma {:induction false} AllTextsExactly(c: string)
    ensures Parse(c) == Ping <==> c == "PING"
    ensures Parse(c) == AskVersion <==> c == "VERSION"
    ensures Parse(c) == All(WordOff) <==> c == "ALL OFF"
    ensures Parse(c) == All(WordEco) <==> c == "ALL ECO"
    ensures Parse(c) == All(WordDefrost) <==> c == "ALL DEFROST"
    ensures Parse(c) == All(WordComfort) <==> c == "ALL COMFORT"
    ensures Parse(c) == All(WordOn) <==> c == "ALL ON"
  {
    NamedKinds(c);
    hide ParseNamed;
  }

  // ------------------------------------------------------------------- the queries

  /** A text that starts with none of P, V, H, nor with AL, is read by the later parts. */
  lemma PastHead(c: string)
    requires c != "" && c[0] != 'P' && c[0] != 'V' && c[0] != 'H' && (c[0] == 'A' ==> |c| > 1 && c[1] != 'L')
    ensures Parse(c) == ParseQuery(c)
  {
    if |c| >= 2 { PastAll(c); } else { Single(c); }
    hide Parse, ParseQuery, HeaterCommand, EndsInWord, ValidName;
    NoPrefix(c, "HEATER ");
  }

  lemma Single(c: string)
    requires |c| == 1
    ensures Parse(c) == ParseNamed(c)
  {
    hide ParseNamed;
  }

  lemma StartChars(c: string, p: string, i: nat)
    requires StartsWith(c, p) && i < |p|
    ensures |c| >= |p| && c[i] == p[i]
  {
    assert c[..|p|][i] == c[i];
  }

  lemma {:induction false} GetTextsExactly(c: string)
    ensures Parse(c) == GetDefault <==> c == "GET DEFAULT"
    ensures Parse(c) == AskSystem(PublicIp) <==> c == "GET IP"
    ensures forall n :: Parse(c) == GetHeater(n)
              <==> StartsWith(c, "GET HEATER ") && ValidName(c[11..]) && n == Upper(c[11..])
    ensures Parse(c) == BadGetName <==> StartsWith(c, "GET HEATER ") && !ValidName(c[11..])
  {
    ComesFrom(c);
    PhoneKinds(c);
    if c == "GET DEFAULT" || c == "GET IP" { PastHead(c); }
    if StartsWith(c, "GET HEATER ") {
      var p := "GET HEATER ";
      StartChars(c, p, 0);
      PastHead(c);
      assert c != "GET DEFAULT" by { StartChars(c, p, 4); assert p[4] == 'H' && "GET DEFAULT"[4] == 'D'; }
    }
    hide Parse, ParsePhones, StartsWith, ValidName, ParseNamed, ParseRest;
  }

  // -------------------------------------------------------------- phones and the lock

  lemma PastQuery(c: string)
    requires c != "" && c[0] in "LUARSD" && (c[0] == 'A' ==> |c| > 1 && c[1] != 'L')
    ensures Parse(c) == ParsePhones(c)
  {
    PastHead(c);
    hide ParsePhones, ValidName, Parse;
    NoPrefix(c, "GET HEATER ");
  }

  lemma RemoveBranch(c: string)
    requires StartsWith(c, "REMOVE PHONE ")
    ensures Parse(c) == RemovePhone(Tokens(c))
  {
    var p := "REMOVE PHONE ";
    StartChars(c, p, 0);
    PastQuery(c);
    hide Parse, Tokens, ParseRest;
    NoPrefix(c, "UNLOCK ");
    NoPrefix(c, "ADD PHONE ");
  }

  lemma SetBranch(c: string)
    requires StartsWith(c, "SET EMERGENCY PHONE ")
    ensures Parse(c) == SetEmergency(Tokens(c))
  {
    var p := "SET EMERGENCY PHONE ";
    StartChars(c, p, 0);
    PastQuery(c);
    hide Parse, Tokens, ParseRest;
    NoPrefix(c, "UNLOCK ");
    NoPrefix(c, "ADD PHONE ");
    NoPrefix(c, "REMOVE PHONE ");
  }

  lemma PhoneBranches(c: string)
    ensures ParsePhones(c) == Lock ==> c == "LOCK"
    ensures ParsePhones(c).Unlock? ==> StartsWith(c, "UNLOCK ")
    ensures ParsePhones(c).AddPhone? ==> StartsWith(c, "ADD PHONE ")
    ensures ParsePhones(c).RemovePhone? ==> StartsWith(c, "REMOVE PHONE ")
    ensures ParsePhones(c).SetEmergency? ==> StartsWith(c, "SET EMERGENCY PHONE ")
    ensures ParsePhones(c) == RemoveEmergency ==> c == "REMOVE EMERGENCY PHONE"
  {
    RestKinds(c);
    hide ParseRest, StartsWith, Tokens;
  }

  /** The phone and lock commands. What is read in them are the words of the text. */
  lemma {:induction false} PhoneTextsExactly(c: string)
    ensures Parse(c) == Lock <==> c == "LOCK"
    ensures forall pin :: Parse(c) == Unlock(pin)
              <==> StartsWith(c, "UNLOCK ") && pin == if |Tokens(c)| >= 2 then Tokens(c)[1] else ""
    ensures forall t :: Parse(c) == AddPhone(t) <==> StartsWith(c, "ADD PHONE ") && t == Tokens(c)
    ensures forall t :: Parse(c) == RemovePhone(t) <==> StartsWith(c, "REMOVE PHONE ") && t == Tokens(c)
    ensures forall t :: Parse(c) == SetEmergency(t) <==> StartsWith(c, "SET EMERGENCY PHONE ") && t == Tokens(c)
    ensures Parse(c) == RemoveEmergency <==> c == "REMOVE EMERGENCY PHONE"
  {
    ComesFrom(c);
    PhoneBranches(c);
    if c == "LOCK" { ParseLock(); }
    if StartsWith(c, "UNLOCK ") { ParseUnlock(c); }
    if StartsWith(c, "ADD PHONE ") { ParseAddPhone(c); }
    if StartsWith(c, "REMOVE PHONE ") { RemoveBranch(c); }
    if StartsWith(c, "SET EMERGENCY PHONE ") { SetBranch(c); }
    if c == "REMOVE EMERGENCY PHONE" { ParseRemoval(c); }
    hide Parse, ParsePhones, ParseQuery, ParseNamed, ParseRest, StartsWith, Tokens;
  }

  // --------------------------------------------------------------- HELP and DEBUG

  lemma PastPhonesToRest(c: string)
    requires c != "" && (c[0] == 'H' || c[0] == 'D')
    ensures ParseQuery(c) == ParseRest(c)
  {
    hide ParseRest, Tokens, ValidName;
    NoPrefix(c, "GET HEATER ");
    NoPrefix(c, "UNLOCK ");
    NoPrefix(c, "ADD PHONE ");
    NoPrefix(c, "REMOVE PHONE ");
    NoPrefix(c, "SET EMERGENCY PHONE ");
  }

  lemma HelpRead(c: string)
    requires AsksHelp(c)
    ensures Parse(c) == Help
  {
    var p, q := "HELP", "HEATER ";
    StartChars(c, p, 0);
    StartChars(c, p, 2);
    StartsOtherwise(c);
    NoPrefixAt(c, q, 2);
    PastPhonesToRest(c);
    hide Parse, ParseQuery, AsksHelp, StartsWith;
  }

  lemma HelpIs(c: string)
    ensures AsksHelp(c) <==> StartsWith(c, "HELP") && forall i :: 0 < i < |c| ==> !StartsWith(c[i..], "HELP")
  {
    hide StartsWith;
  }

  lemma DebugRead(c: string)
    requires c != "" && c[0] == 'D'
    ensures Parse(c) == ParseRest(c)
  {
    PastHead(c);
    PastPhonesToRest(c);
    hide Parse, ParseQuery, ParseRest;
  }

  /** HELP, at the start of the text and not again in it, and the DEBUG commands. */
  lemma {:induction false} HelpAndDebugExactly(c: string)
    ensures Parse(c) == Help <==> StartsWith(c, "HELP") && forall i :: 0 < i < |c| ==> !StartsWith(c[i..], "HELP")
    ensures Parse(c) == AskSystem(FileState) <==> c == "DEBUG FILESTATE"
    ensures Parse(c) == AskSystem(MemoryState) <==> c == "DEBUG STATE"
    ensures Parse(c) == AskSystem(RebootNow) <==> c == "DEBUG REBOOT"
    ensures Parse(c) == AskSystem(WifiInfo) <==> c == "DEBUG WIFI"
    ensures Parse(c) == AskSystem(ServiceLog) <==> c == "DEBUG LOG"
    ensures Parse(c) == AskSystem(Uptime) <==> c == "DEBUG UPTIME"
  {
    ComesFrom(c);
    HelpIs(c);
    if AsksHelp(c) {
      HelpRead(c);
      StartChars(c, "HELP", 0);
    } else if c != "" && c[0] == 'D' {
      DebugRead(c);
    }
    hide Parse, ParsePhones, ParseQuery, ParseNamed, AsksHelp, StartsWith;
  }

  /** A text with the HEATER prefix and a state word at its end, but no valid name between. */
  lemma {:induction false} BadHeaterExactly(c: string)
    ensures Parse(c) == BadHeaterName
            <==> StartsWith(c, "HEATER ") && exists w :: EndsWith(c, " " + Spell(w)) && !ValidName(NameBefore(c, w))
  {
    ComesFrom(c);
    QueryKinds(c);
    if StartsWith(c, "HEATER ") {
      forall w | EndsInWord(c, w) ensures Parse(c) == HeaterCommand(c, w) { ParsedBySuffix(c, w); }
    }
    assert forall w :: EndsInWord(c, w) <==> EndsWith(c, " " + Spell(w)) by { hide EndsWith, Spell; }
    hide Parse, ParseQuery, StartsWith, EndsInWord, ValidName, NameBefore;
  }

  // ------------------------------------------------------------- documented phrases

  /** The number in a documented REMOVE PHONE command is the third token. */
  lemma {:induction false} RemovePhoneRead(no: string)
    requires no != "" && NoSpace(no)
    ensures Parse("REMOVE PHONE " + no) == RemovePhone(["REMOVE", "PHONE", no])
  {
    assert "REMOVE PHONE " == "REMOVE" + [' '] + "PHONE" + [' '];
    ThreeTokens("REMOVE", "PHONE", no);
    StartsWithConcat("REMOVE PHONE ", no);
    RemoveBranch("REMOVE PHONE " + no);
  }

  /** The number in a documented SET EMERGENCY PHONE command is the fourth. */
  lemma {:induction false} SetEmergencyRead(no: string)
    requires no != "" && NoSpace(no)
    ensures Parse("SET EMERGENCY PHONE " + no) == SetEmergency(["SET", "EMERGENCY", "PHONE", no])
  {
    assert "SET EMERGENCY PHONE " == "SET" + [' '] + "EMERGENCY" + [' '] + "PHONE" + [' '];
    FourTokens("SET", "EMERGENCY", "PHONE", no);
    StartsWithConcat("SET EMERGENCY PHONE ", no);
    SetBranch("SET EMERGENCY PHONE " + no);
  }

  lemma FourTokens(a: string, b: string, c: string, d: string)
    requires a != "" && b != "" && c != "" && d != "" && NoSpace(a) && NoSpace(b) && NoSpace(c) && NoSpace(d)
    ensures Tokens(a + [' '] + b + [' '] + c + [' '] + d) == [a, b, c, d]
  {
    hide Tokens;
    var rest := [' '] + (c + ([' '] + d));
    TwoTokens(c, d);
    BlankThenWord(b, rest);
    WordThenRest(a, [' '] + (b + rest));
    assert a + [' '] + b + [' '] + c + [' '] + d == a + ([' '] + (b + rest));
  }
}
