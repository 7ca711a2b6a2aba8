/** The grammar of the SMS commands: which text is which command. */
module SmsGrammar {
  import opened Text
  import opened StateFile

  /** The state words of the ALL and HEATER commands, in the order they are tried. */
  datatype Word = WordOff | WordEco | WordDefrost | WordComfort | WordOn

  function Spell(w: Word): string {
    match w
    case WordOff => "OFF"
    case WordEco => "ECO"
    case WordDefrost => "DEFROST"
    case WordComfort => "COMFORT"
    case WordOn => "ON"
  }

  function StateOf(w: Word): HeaterState {
    match w
    case WordOff => Off
    case WordEco => Eco
    case WordDefrost => Defrost
    case WordComfort => Comfort
    case WordOn => Comfort
  }

  datatype Command =
    | Ping
    | AskVersion
    | All(w: Word)
    | Heater(name: string, w: Word)
    | BadHeaterName
    | GetDefault
    | GetHeater(name: string)
    | BadGetName
    | Lock
    | Unlock(pin: string)
    | AddPhone(tokens: seq<string>)
    | RemovePhone(tokens: seq<string>)
    | SetEmergency(tokens: seq<string>)
    | RemoveEmergency
    | Help
    | AskSystem(query: Query)
    | Invalid

  /** GET IP and the DEBUG commands. */
  datatype Query = PublicIp | FileState | MemoryState | RebootNow | WifiInfo | ServiceLog | Uptime

  /** What parseCommands does to a text before it looks at it. */
  function Normalise(content: string): string {
    Upper(Trim(content))
  }

  /** The text between "HEATER " and the state word: two substr calls with unsigned
      lengths, so that on "HEATER OFF" the second one wraps and clamps. */
  function NameBefore(c: string, w: Word): string
    requires StartsWith(c, "HEATER ")
  {
    Between(c, 7, |Spell(w)| + 1)
  }

  function HeaterCommand(c: string, w: Word): Command
    requires StartsWith(c, "HEATER ")
  {
    if ValidName(NameBefore(c, w)) then Heater(NameBefore(c, w), w) else BadHeaterName
  }

  predicate EndsInWord(c: string, w: Word) {
    EndsWith(c, " " + Spell(w))
  }

  /** content.rfind("HELP") == 0: it starts the text and does not come again. */
  predicate AsksHelp(c: string) {
    StartsWith(c, "HELP") && forall i :: 1 <= i < |c| ==> !StartsWith(c[i..], "HELP")
  }

  /** The HEATER branches and what follows them. */
  function ParseNamed(c: string): Command {
    if StartsWith(c, "HEATER ") && EndsInWord(c, WordOff) then HeaterCommand(c, WordOff)
    else if StartsWith(c, "HEATER ") && EndsInWord(c, WordEco) then HeaterCommand(c, WordEco)
    else if StartsWith(c, "HEATER ") && EndsInWord(c, WordDefrost) then HeaterCommand(c, WordDefrost)
    else if StartsWith(c, "HEATER ") && EndsInWord(c, WordComfort) then HeaterCommand(c, WordComfort)
    else if StartsWith(c, "HEATER ") && EndsInWord(c, WordOn) then HeaterCommand(c, WordOn)
    else ParseQuery(c)
  }

  function ParseQuery(c: string): Command {
    if c == "GET DEFAULT" then GetDefault
    else if StartsWith(c, "GET HEATER ") then
      if ValidName(c[11..]) then GetHeater(Upper(c[11..])) else BadGetName
    else if c == "GET IP" then AskSystem(PublicIp)
    else ParsePhones(c)
  }

  function ParsePhones(c: string): Command {
    if c == "LOCK" then Lock
    else if StartsWith(c, "UNLOCK ") then
      Unlock(if |Tokens(c)| >= 2 then Tokens(c)[1] else "")
    else if StartsWith(c, "ADD PHONE ") then AddPhone(Tokens(c))
    else if StartsWith(c, "REMOVE PHONE ") then RemovePhone(Tokens(c))
    else if StartsWith(c, "SET EMERGENCY PHONE ") then SetEmergency(Tokens(c))
    else if c == "REMOVE EMERGENCY PHONE" then RemoveEmergency
    else ParseRest(c)
  }

  function ParseRest(c: string): Command {
    if AsksHelp(c) then Help
    else if c == "DEBUG FILESTATE" then AskSystem(FileState)
    else if c == "DEBUG STATE" then AskSystem(MemoryState)
    else if c == "DEBUG REBOOT" then AskSystem(RebootNow)
    else if c == "DEBUG WIFI" then AskSystem(WifiInfo)
    else if c == "DEBUG LOG" then AskSystem(ServiceLog)
    else if c == "DEBUG UPTIME" then AskSystem(Uptime)
    else Invalid
  }

  /** The ladder of parseCommands on a normalised text. */
  function Parse(c: string): Command {
    if c == "PING" then Ping
    else if c == "VERSION" then AskVersion
    else if c == "ALL OFF" then All(WordOff)
    else if c == "ALL ECO" then All(WordEco)
    else if c == "ALL DEFROST" then All(WordDefrost)
    else if c == "ALL COMFORT" then All(WordComfort)
    else if c == "ALL ON" then All(WordOn)
    else ParseNamed(c)
  }

  // -------------------------------------------------- the HEATER command, exactly

  function HeaterText(name: string, w: Word): string {
    "HEATER " + name + (" " + Spell(w))
  }

  lemma LastLetters(c: string, w: Word)
    requires EndsInWord(c, w)
    ensures |c| >= 3
    ensures c[|c| - 1] == Spell(w)[|Spell(w)| - 1]
    ensures c[|c| - 2] == Spell(w)[|Spell(w)| - 2]
    ensures w == WordDefrost ==> c[|c| - 2] == 'S'
    ensures w == WordComfort ==> c[|c| - 2] == 'R'
  {
    var e := " " + Spell(w);
    assert forall i :: 0 <= i < |e| ==> c[|c| - |e| + i] == e[i];
    assert e[|e| - 1] == Spell(w)[|Spell(w)| - 1];
    assert e[|e| - 2] == Spell(w)[|Spell(w)| - 2];
  }

  /** At most one state word can end a text, so the order of the branches is no matter. */
  lemma SuffixUnique(c: string, v: Word, w: Word)
    requires EndsInWord(c, v) && EndsInWord(c, w)
    ensures v == w
  {
    LastLetters(c, v);
    LastLetters(c, w);
    assert Spell(v)[|Spell(v)| - 1] == Spell(w)[|Spell(w)| - 1];
  }

  lemma ParseOfSuffix(c: string, w: Word)
    requires StartsWith(c, "HEATER ") && EndsInWord(c, w)
    ensures ParseNamed(c) == HeaterCommand(c, w)
  {
    forall v | EndsInWord(c, v) ensures v == w { SuffixUnique(c, v, w); }
  }

  lemma StartsOtherwise(c: string)
    requires c != "" && c[0] == 'H'
    ensures Parse(c) == ParseNamed(c)
  {
    hide ParseNamed;
  }

  lemma StartsWithH(c: string)
    requires StartsWith(c, "HEATER ")
    ensures c != "" && c[0] == 'H'
  {
    assert c[0] == c[..7][0];
  }

  lemma {:induction false} ParsedBySuffix(c: string, w: Word)
    requires StartsWith(c, "HEATER ") && EndsInWord(c, w)
    ensures Parse(c) == HeaterCommand(c, w)
  {
    StartsWithH(c);
    StartsOtherwise(c);
    ParseOfSuffix(c, w);
  }

  /** The texts read as "heater n, word w": the documented form, and "HEATER w" itself,
      which is read as an order to a heater called w. */
  lemma {:induction false} HeaterTextsExactly(c: string, name: string, w: Word)
    ensures Parse(c) == Heater(name, w)
            <==> ValidName(name) && (c == HeaterText(name, w) || (c == "HEATER " + Spell(w) && name == Spell(w)))
  {
    if c == HeaterText(name, w) && ValidName(name) {
      ParseDocumented(name, w);
    } else if c == "HEATER " + Spell(w) && name == Spell(w) {
      ParseNameless(w);
    }
    if Parse(c) == Heater(name, w) {
      HeaterComesFrom(c, name, w);
    }
  }

  lemma SplitDocumented(name: string, w: Word)
    ensures StartsWith(HeaterText(name, w), "HEATER ") && EndsInWord(HeaterText(name, w), w)
    ensures NameBefore(HeaterText(name, w), w) == name
  {
    Sandwich("HEATER ", name, " " + Spell(w));
  }

  lemma {:induction false} ParseDocumented(name: string, w: Word)
    requires ValidName(name)
    ensures Parse(HeaterText(name, w)) == Heater(name, w)
  {
    hide Parse;
    SplitDocumented(name, w);
    ParsedBySuffix(HeaterText(name, w), w);
  }

  lemma Overlapping(p: string, word: string)
    requires |word| < 0x1_0000_0000 - 1
    ensures StartsWith(p + " " + word, p + " ") && EndsWith(p + " " + word, " " + word)
    ensures Between(p + " " + word, |p| + 1, |word| + 1) == word
  {
    var s := p + " " + word;
    assert s[|p| + 1..] == word;
    assert s[|p|..] == " " + word;
    assert s[..|p| + 1] == p + " ";
  }

  lemma SplitNameless(w: Word)
    ensures StartsWith("HEATER " + Spell(w), "HEATER ") && EndsInWord("HEATER " + Spell(w), w)
    ensures NameBefore("HEATER " + Spell(w), w) == Spell(w)
  {
    var p := "HEATER";
    assert p + " " == "HEATER ";
    Overlapping(p, Spell(w));
  }

  lemma {:induction false} ParseNameless(w: Word)
    ensures ValidName(Spell(w)) && Parse("HEATER " + Spell(w)) == Heater(Spell(w), w)
  {
    hide Parse;
    SplitNameless(w);
    ParsedBySuffix("HEATER " + Spell(w), w);
  }

  lemma NotHeater(c: string)
    ensures !ParseQuery(c).Heater?
  {
  }

  lemma HeaterBranch(c: string, name: string, w: Word)
    requires Parse(c) == Heater(name, w)
    ensures StartsWith(c, "HEATER ") && EndsInWord(c, w) && NameBefore(c, w) == name && ValidName(name)
  {
    NotHeater(c);
    hide ParseQuery, StartsWith, EndsInWord, ValidName, NameBefore;
  }

  lemma OnlyTwoForms(c: string, w: Word)
    requires StartsWith(c, "HEATER ") && EndsInWord(c, w)
    ensures c == HeaterText(NameBefore(c, w), w) || (c == "HEATER " + Spell(w) && NameBefore(c, w) == Spell(w))
  {
    var p, e := "HEATER ", " " + Spell(w);
    if |p| + |e| <= |c| {
      SandwichOnly(c, p, e);
    } else {
      SharedBlank(c, p, e);
      assert e[1..] == Spell(w);
      assert c == p + c[|p|..];
    }
  }

  lemma HeaterComesFrom(c: string, name: string, w: Word)
    requires Parse(c) == Heater(name, w)
    ensures ValidName(name)
    ensures c == HeaterText(name, w) || (c == "HEATER " + Spell(w) && name == Spell(w))
  {
    HeaterBranch(c, name, w);
    OnlyTwoForms(c, w);
  }

  /** When prefix and suffix overlap they share exactly the blank. */
  lemma SharedBlank(c: string, p: string, e: string)
    requires StartsWith(c, p) && EndsWith(c, e) && |c| < |p| + |e|
    requires |e| < 0x1_0000_0000 && e != "" && e[0] == ' '
    requires p != "" && forall i :: 0 <= i < |p| - 1 ==> p[i] != ' '
    ensures c[|p|..] == e[1..] == Between(c, |p|, |e|)
  {
    var at := |c| - |e|;
    assert c[at] == c[at..][0] == e[0];
    assert forall i :: 0 <= i < |p| ==> c[i] == c[..|p|][i] == p[i];
    assert at == |p| - 1;
    assert c[|p|..] == c[at..][1..] == e[1..];
  }

  /** The command in any mixture of cases and padding is read as the upper-cased name. */
  lemma {:induction false} HeaterRoundTrip(l: string, text: string, r: string, name: string, w: Word)
    requires AllSpace(l) && AllSpace(r) && ValidName(name)
    requires Upper(text) == HeaterText(Upper(name), w)
    ensures Parse(Normalise(l + text + r)) == Heater(Upper(name), w)
  {
    UpperOfName(name);
    var t := HeaterText(Upper(name), w);
    SplitDocumented(Upper(name), w);
    LastLetters(t, w);
    assert |t| == |text| && t[0] == 'H' && text[0] in "hH";
    assert ToUpper(text[|text| - 1]) == t[|t| - 1];
    TrimPadded(l, text, r);
    ParseDocumented(Upper(name), w);
  }

  // ----------------------------------------------------------- UNLOCK has a token

  lemma NormaliseTrimmed(content: string)
    ensures Trimmed(Normalise(content))
  {
    TrimResult(content);
    UpperTrimmed(Trim(content));
  }

  /** After trimming, an UNLOCK prefix is always followed by a word: tokens[1] exists. */
  lemma UnlockHasPin(c: string)
    requires Trimmed(c) && StartsWith(c, "UNLOCK ")
    ensures |Tokens(c)| >= 2
  {
    var word, rest := "UNLOCK", c[6..];
    assert c[..7] == "UNLOCK ";
    assert c == c[..6] + rest && c[..6] == c[..7][..6] == word;
    assert rest[0] == c[6] == c[..7][6];
    WordThenRest(word, rest);
    assert rest[|rest| - 1] == c[|c| - 1];
    WordFound(rest, |rest| - 1);
  }

  /** So whatever was sent, the second token that parseCommands reads is there. */
  lemma EveryUnlockHasPin(content: string)
    requires StartsWith(Normalise(content), "UNLOCK ")
    ensures |Tokens(Normalise(content))| >= 2
  {
    hide Normalise, Tokens, StartsWith;
    NormaliseTrimmed(content);
    UnlockHasPin(Normalise(content));
  }

  lemma UnlockTokens(pin: string)
    requires pin != "" && NoSpace(pin)
    ensures Tokens("UNLOCK " + pin) == ["UNLOCK", pin]
  {
    var word := "UNLOCK";
    assert "UNLOCK " + pin == word + (" " + pin) by { assert "UNLOCK " == word + " "; }
    WordThenRest(word, " " + pin);
    assert (" " + pin)[1..] == pin;
    SingleToken(pin);
  }

  lemma PastAll(c: string)
    requires |c| >= 2 && c[0] != 'P' && c[0] != 'V' && (c[0] == 'A' ==> c[1] != 'L')
    ensures Parse(c) == ParseNamed(c)
  {
    hide ParseNamed;
  }

  lemma NoPrefix(c: string, p: string)
    requires c != "" && p != "" && c[0] != p[0]
    ensures !StartsWith(c, p)
  {
  }

  lemma PastNamed(c: string)
    requires c != "" && c[0] != 'H' && c[0] != 'G'
    ensures ParseNamed(c) == ParsePhones(c)
  {
    hide ParsePhones, HeaterCommand, EndsInWord, ValidName;
    NoPrefix(c, "HEATER ");
    NoPrefix(c, "GET HEATER ");
  }

  lemma ParseUnlock(c: string)
    requires StartsWith(c, "UNLOCK ")
    ensures Parse(c) == Unlock(if |Tokens(c)| >= 2 then Tokens(c)[1] else "")
  {
    var p := "UNLOCK ";
    assert c[0] == p[0];
    PastAll(c);
    PastNamed(c);
    hide ParseNamed, Parse, Tokens, ParseRest;
  }

  /** A single-word PIN is read as written. */
  lemma UnlockRead(pin: string)
    requires pin != "" && NoSpace(pin)
    ensures Parse("UNLOCK " + pin) == Unlock(pin)
  {
    UnlockTokens(pin);
    StartsWithConcat("UNLOCK ", pin);
    ParseUnlock("UNLOCK " + pin);
  }

  // -------------------------------------------------------------- ADD PHONE, LOCK

  lemma BlankThenWord(w: string, rest: string)
    requires w != "" && NoSpace(w) && rest != "" && IsSpace(rest[0])
    ensures Tokens([' '] + (w + rest)) == [w] + Tokens(rest)
  {
    WordThenRest(w, rest);
    hide WordLength;
    var s := [' '] + (w + rest);
    assert s[1..] == w + rest;
  }

  lemma TwoTokens(b: string, c: string)
    requires b != "" && c != "" && NoSpace(b) && NoSpace(c)
    ensures Tokens([' '] + (b + ([' '] + c))) == [b, c]
  {
    var last := [' '] + c;
    assert last[1..] == c;
    SingleToken(c);
    assert Tokens(last) == [c];
    hide Tokens;
    BlankThenWord(b, last);
  }

  lemma ThreeTokens(a: string, b: string, c: string)
    requires a != "" && b != "" && c != "" && NoSpace(a) && NoSpace(b) && NoSpace(c)
    ensures Tokens(a + [' '] + b + [' '] + c) == [a, b, c]
  {
    hide Tokens;
    var rest := [' '] + (b + ([' '] + c));
    TwoTokens(b, c);
    WordThenRest(a, rest);
    assert a + [' '] + b + [' '] + c == a + rest;
  }

  lemma AddPhoneTokens(no: string)
    requires no != "" && NoSpace(no)
    ensures Tokens("ADD PHONE " + no) == ["ADD", "PHONE", no]
  {
    hide Tokens;
    assert "ADD PHONE " == "ADD" + [' '] + "PHONE" + [' '];
    ThreeTokens("ADD", "PHONE", no);
  }

  lemma {:induction false} ParseAddPhone(c: string)
    requires StartsWith(c, "ADD PHONE ")
    ensures Parse(c) == AddPhone(Tokens(c))
  {
    var p := "ADD PHONE ";
    assert c[0] == p[0] && c[1] == p[1];
    PastAll(c);
    PastNamed(c);
    hide ParseNamed, Parse, Tokens, ParseRest;
    NoPrefix(c, "UNLOCK ");
  }

  /** The phone number of a documented ADD PHONE command is the third token. */
  lemma {:induction false} AddPhoneRead(no: string)
    requires no != "" && NoSpace(no)
    ensures Parse("ADD PHONE " + no) == AddPhone(["ADD", "PHONE", no])
  {
    AddPhoneTokens(no);
    StartsWithConcat("ADD PHONE ", no);
    ParseAddPhone("ADD PHONE " + no);
  }

  lemma ParseLock()
    ensures Parse("LOCK") == Lock
  {
  }

  lemma NoPrefixAt(c: string, p: string, i: nat)
    requires i < |p| && i < |c| && c[i] != p[i]
    ensures !StartsWith(c, p)
  {
    assert |p| <= |c| ==> c[..|p|][i] == c[i];
  }

  lemma PastPhones(c: string)
    requires c != "" && c[0] == 'R' && !StartsWith(c, "REMOVE PHONE ")
    ensures ParsePhones(c) == if c == "REMOVE EMERGENCY PHONE" then RemoveEmergency else ParseRest(c)
  {
    hide ParseRest, Tokens, StartsWith;
    NoPrefix(c, "UNLOCK ");
    NoPrefix(c, "ADD PHONE ");
    NoPrefix(c, "SET EMERGENCY PHONE ");
  }

  lemma ParseRemoval(c: string)
    requires c == "REMOVE EMERGENCY PHONE"
    ensures Parse(c) == RemoveEmergency
  {
    assert c[7] == 'E';
    NoPrefixAt(c, "REMOVE PHONE ", 7);
    hide ParseNamed, ParsePhones, StartsWith;
    PastAll(c);
    PastNamed(c);
    PastPhones(c);
  }

  lemma ParseReboot(c: string)
    requires c == "DEBUG REBOOT"
    ensures Parse(c) == AskSystem(RebootNow)
  {
    hide ParseNamed, ParsePhones, StartsWith, AsksHelp;
    PastAll(c);
    PastNamed(c);
    PastToRest(c);
  }

  lemma PastToRest(c: string)
    requires c == "DEBUG REBOOT"
    ensures ParsePhones(c) == AskSystem(RebootNow)
  {
    hide Tokens, StartsWith;
    NoPrefix(c, "UNLOCK ");
    NoPrefix(c, "ADD PHONE ");
    NoPrefix(c, "REMOVE PHONE ");
    NoPrefix(c, "SET EMERGENCY PHONE ");
    NoPrefix(c, "HELP");
  }

  /** A text in capitals with no blank at its ends is left as it is. */
  lemma NormaliseFixed(c: string)
    requires Trimmed(c) && Upper(c) == c
    ensures Normalise(c) == c
  {
    TrimTrimmed(c);
  }
}
