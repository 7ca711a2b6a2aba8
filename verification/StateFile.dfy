/** What the base station keeps across a restart, the text file it keeps it in, and the
    round trip between the two. */
module StateFile {
  import opened Text
  import opened Order

  datatype HeaterState = Off | Defrost | Eco | Comfort

  /** The part of the memory that saveState writes and loadState reads. */
  datatype Persistent = Persistent(
    default: HeaterState,
    heaters: map<string, HeaterState>,
    whitelist: set<string>,
    emergency: string)

  /** The memory the constructor starts from, before loadState. */
  const FRESH := Persistent(Defrost, map[], {}, "")

  // ------------------------------------------------------------ format checks

  predicate IsDigit(c: char) { '0' <= c <= '9' }

  predicate IsAlnum(c: char) {
    'a' <= c <= 'z' || 'A' <= c <= 'Z' || '0' <= c <= '9'
  }

  /** check_phone_number_format: 10 to 14 digits. */
  predicate ValidPhone(no: string) {
    10 <= |no| <= 14 && forall i :: 0 <= i < |no| ==> IsDigit(no[i])
  }

  /** check_heater_name: one or more ASCII letters and digits. */
  predicate ValidName(name: string) {
    name != "" && forall i :: 0 <= i < |name| ==> IsAlnum(name[i])
  }

  /** A name as the base station stores it. */
  predicate StoredName(name: string) {
    ValidName(name) && Upper(name) == name
  }

  lemma UpperOfName(name: string)
    requires ValidName(name)
    ensures StoredName(Upper(name))
  {
    UpperIdempotent(name);
  }

  /** What every reachable memory satisfies. */
  ghost predicate WellFormed(p: Persistent) {
    && (forall n :: n in p.heaters ==> StoredName(n))
    && (forall w :: w in p.whitelist ==> ValidPhone(w))
    && (p.emergency == "" || ValidPhone(p.emergency))
  }

  /** What a device of that name is told: its own state, else the default. */
  function Lookup(p: Persistent, name: string): HeaterState {
    if name in p.heaters then p.heaters[name] else p.default
  }

  // -------------------------------------------------------------------- saving

  function StateWord(s: HeaterState): string {
    match s
    case Off => "off"
    case Defrost => "defrost"
    case Eco => "eco"
    case Comfort => "comfort"
  }

  function HeaterKey(name: string): string { "heater_" + name + "_state" }

  function HeaterLine(name: string, s: HeaterState): string {
    HeaterKey(name) + "=" + StateWord(s)
  }

  function HeaterLines(names: seq<string>, heaters: map<string, HeaterState>): string
    requires forall n :: n in names ==> n in heaters
  {
    if names == [] then ""
    else HeaterLine(names[0], heaters[names[0]]) + "\n" + HeaterLines(names[1..], heaters)
  }

  function Joined(items: seq<string>): string {
    if items == [] then ""
    else if |items| == 1 then items[0]
    else items[0] + "," + Joined(items[1..])
  }

  function Phones(items: seq<string>, emergency: string): string {
    "whitelist=" + Joined(items) + "\n" + ("emergency_phone=" + emergency + "\n")
  }

  ghost function Render(p: Persistent): string {
    "default_heater_state=" + StateWord(p.default) + "\n"
    + (HeaterLines(Sorted(p.heaters.Keys), p.heaters) + Phones(Sorted(p.whitelist), p.emergency))
  }

  // ------------------------------------------------------------------- loading

  datatype Option<+T> = None | Some(value: T)

  function ParseStateWord(val: string): Option<HeaterState> {
    if val == "off" then Some(Off)
    else if val == "defrost" then Some(Defrost)
    else if val == "eco" then Some(Eco)
    else if val == "comfort" then Some(Comfort)
    else None
  }

  /** The name inside a key that starts with heater_ and ends with _state. The length is
      an unsigned difference and substr clamps it: the key heater_state names STATE. */
  function KeyName(key: string): string
    requires StartsWith(key, "heater_")
  {
    Substr(key, 7, SizeSub(SizeSub(|key|, 7), 6))
  }

  function LoadPhones(whitelist: set<string>, val: string): set<string>
    decreases |val|
  {
    if val == "" then whitelist
    else
      var item := Head(val, ',');
      LoadPhones(if ValidPhone(item) then whitelist + {item} else whitelist, Tail(val, ','))
  }

  function LoadEntry(p: Persistent, key: string, val: string): Persistent {
    if key == "default_heater_state" then
      p.(default := match ParseStateWord(val) case Some(s) => s case None => Defrost)
    else if StartsWith(key, "heater_") && EndsWith(key, "_state") then
      var name := KeyName(key);
      if ValidName(name) && ParseStateWord(val).Some?
      then p.(heaters := p.heaters[Upper(name) := ParseStateWord(val).value])
      else p
    else if key == "whitelist" then
      p.(whitelist := LoadPhones(p.whitelist, val))
    else if key == "emergency_phone" then
      if ValidPhone(val) then p.(emergency := val) else p
    else p
  }

  function LoadLine(p: Persistent, line: string): Persistent {
    var i := IndexOf(line, '=');
    if i == |line| then p else LoadEntry(p, Trim(line[..i]), Trim(line[i + 1..]))
  }

  function LoadText(p: Persistent, text: string): Persistent
    decreases |text|
  {
    if text == "" then p else LoadText(LoadLine(p, Head(text, '\n')), Tail(text, '\n'))
  }

  /** A fresh object after loadState on that file. */
  function Load(text: string): Persistent {
    LoadText(FRESH, text)
  }

  // --------------------------------------- any text loads to a well-formed memory

  lemma {:induction false} LoadPhonesValid(whitelist: set<string>, val: string)
    requires forall w :: w in whitelist ==> ValidPhone(w)
    ensures forall w :: w in LoadPhones(whitelist, val) ==> ValidPhone(w)
    decreases |val|
  {
    if val != "" {
      var item := Head(val, ',');
      LoadPhonesValid(if ValidPhone(item) then whitelist + {item} else whitelist, Tail(val, ','));
    }
  }

  lemma LoadEntryWellFormed(p: Persistent, key: string, val: string)
    requires WellFormed(p)
    ensures WellFormed(LoadEntry(p, key, val))
  {
    LoadPhonesValid(p.whitelist, val);
    if StartsWith(key, "heater_") && ValidName(KeyName(key)) {
      UpperOfName(KeyName(key));
    }
  }

  lemma {:induction false} LoadTextWellFormed(p: Persistent, text: string)
    requires WellFormed(p)
    ensures WellFormed(LoadText(p, text))
    decreases |text|
  {
    if text != "" {
      var line := Head(text, '\n');
      var i := IndexOf(line, '=');
      if i < |line| { LoadEntryWellFormed(p, Trim(line[..i]), Trim(line[i + 1..])); }
      LoadTextWellFormed(LoadLine(p, line), Tail(text, '\n'));
    }
  }

  // ----------------------------------------------------------- the round trip

  /** A text with none of the characters the file format gives a meaning. */
  predicate Plain(s: string) {
    forall i :: 0 <= i < |s| ==> s[i] != '=' && s[i] != '\n' && !IsSpace(s[i])
  }

  lemma LoadPlainLine(p: Persistent, key: string, val: string)
    requires Plain(key) && Plain(val)
    ensures LoadLine(p, key + "=" + val) == LoadEntry(p, key, val)
    ensures Without(key + "=" + val, '\n')
  {
    IndexOfConcat(key, '=', val);
    var line := key + "=" + val;
    assert line[..|key|] == key && line[|key| + 1..] == val;
    TrimTrimmed(key);
    TrimTrimmed(val);
  }

  lemma {:induction false} LoadFirstLine(p: Persistent, key: string, val: string, rest: string)
    requires Plain(key) && Plain(val)
    ensures LoadText(p, key + "=" + val + "\n" + rest) == LoadText(LoadEntry(p, key, val), rest)
  {
    LoadPlainLine(p, key, val);
    GetLine(key + "=" + val, '\n', rest);
  }

  lemma {:induction false} LoadOnlyLine(p: Persistent, key: string, val: string)
    requires Plain(key) && Plain(val)
    ensures LoadText(p, key + "=" + val + "\n") == LoadEntry(p, key, val)
  {
    LoadFirstLine(p, key, val, "");
    assert key + "=" + val + "\n" + "" == key + "=" + val + "\n";
  }

  lemma StateWordPlain(s: HeaterState)
    ensures Plain(StateWord(s)) && ParseStateWord(StateWord(s)) == Some(s)
  {
  }

  lemma PlainConcat(a: string, b: string)
    requires Plain(a) && Plain(b)
    ensures Plain(a + b)
  {
  }

  /** The key printed for a stored name is read back as that name and as nothing else. */
  lemma HeaterKeyRead(name: string)
    requires StoredName(name)
    ensures Plain(HeaterKey(name))
    ensures HeaterKey(name) != "default_heater_state"
    ensures StartsWith(HeaterKey(name), "heater_") && EndsWith(HeaterKey(name), "_state")
    ensures KeyName(HeaterKey(name)) == name
  {
    var key := HeaterKey(name);
    PlainConcat("heater_", name);
    PlainConcat("heater_" + name, "_state");
    StartsWithConcat("heater_", name + "_state");
    assert key == "heater_" + (name + "_state");
    EndsWithConcat("heater_" + name, "_state");
    assert key[7..7 + |name|] == name;
    assert key[0] == 'h';
  }

  /** The keys the heater branch takes, and the names it reads in them: besides the form
      saveState prints there is one more, where the two underscores are the same one. */
  lemma HeaterKeysExactly(key: string, name: string)
    ensures StartsWith(key, "heater_") && EndsWith(key, "_state") && KeyName(key) == name
            <==> key == HeaterKey(name) || (key == "heater_state" && name == "state")
  {
    var form := "heater_" + name + "_state";
    if key == form {
      StartsWithConcat("heater_", name + "_state");
      assert form == "heater_" + (name + "_state");
      EndsWithConcat("heater_" + name, "_state");
      assert key[7..7 + |name|] == name;
    }
    if StartsWith(key, "heater_") && EndsWith(key, "_state") {
      EdgesOfKey(key);
      if |key| >= 13 {
        var n := key[7..|key| - 6];
        assert key == key[..7] + n + key[|key| - 6..];
        assert KeyName(key) == n;
      }
    }
  }

  lemma EdgesOfKey(key: string)
    requires StartsWith(key, "heater_") && EndsWith(key, "_state")
    ensures |key| >= 12
    ensures |key| == 12 ==> key == "heater_state" && KeyName(key) == "state"
  {
    var p, e := "heater_", "_state";
    assert forall i :: 0 <= i < 7 ==> key[i] == p[i];
    assert forall i :: 0 <= i < 6 ==> key[|key| - 6 + i] == e[i];
    assert key[|key| - 6] == '_' && key[6] == '_';
    assert p[0] != '_' && p[1] != '_' && p[2] != '_' && p[3] != '_' && p[4] != '_' && p[5] != '_';
    assert |key| - 6 >= 6;
    if |key| == 12 {
      assert key == key[..7] + key[7..];
      assert key[7..] == "state";
    }
  }

  lemma RegroupLine(line: string, more: string, rest: string)
    ensures (line + "\n" + more) + rest == line + "\n" + (more + rest)
  {
  }

  lemma {:induction false} LoadHeaterLine(p: Persistent, n: string, s: HeaterState, more: string, rest: string)
    requires StoredName(n)
    ensures LoadText(p, (HeaterLine(n, s) + "\n" + more) + rest)
            == LoadText(p.(heaters := p.heaters[n := s]), more + rest)
  {
    RegroupLine(HeaterLine(n, s), more, rest);
    HeaterKeyRead(n);
    StateWordPlain(s);
    LoadFirstLine(p, HeaterKey(n), StateWord(s), more + rest);
  }

  lemma {:induction false} LoadHeaterLines(
      p: Persistent, names: seq<string>, heaters: map<string, HeaterState>, rest: string)
    requires forall n :: n in names ==> n in heaters && StoredName(n)
    ensures LoadText(p, HeaterLines(names, heaters) + rest)
            == LoadText(p.(heaters := Overlay(p.heaters, names, heaters)), rest)
    decreases names
  {
    if names == [] {
      assert HeaterLines(names, heaters) + rest == rest;
    } else {
      var n := names[0];
      LoadHeaterLine(p, n, heaters[n], HeaterLines(names[1..], heaters), rest);
      LoadHeaterLines(p.(heaters := p.heaters[n := heaters[n]]), names[1..], heaters, rest);
    }
  }

  /** base, with the entries of the listed names replaced one after the other. */
  function Overlay(base: map<string, HeaterState>, names: seq<string>, heaters: map<string, HeaterState>)
    : (r: map<string, HeaterState>)
    requires forall n :: n in names ==> n in heaters
    ensures forall n :: n in r <==> n in base || n in names
    ensures forall n :: n in r ==> r[n] == if n in names then heaters[n] else base[n]
    decreases names
  {
    if names == [] then base
    else
      var r := Overlay(base[names[0] := heaters[names[0]]], names[1..], heaters);
      assert forall n :: n in names <==> n == names[0] || n in names[1..];
      r
  }

  lemma PhonePlain(no: string)
    requires ValidPhone(no)
    ensures Plain(no) && Without(no, ',')
  {
  }

  lemma {:induction false} JoinedPlain(items: seq<string>)
    requires forall w :: w in items ==> ValidPhone(w)
    ensures Plain(Joined(items))
  {
    if |items| == 1 {
      PhonePlain(items[0]);
    } else if |items| > 1 {
      PhonePlain(items[0]);
      JoinedPlain(items[1..]);
      PlainConcat(items[0], ",");
      PlainConcat(items[0] + ",", Joined(items[1..]));
    }
  }

  function Elements(items: seq<string>): set<string> {
    set w | w in items
  }

  lemma ElementsTake(items: seq<string>)
    requires items != []
    ensures Elements(items) == {items[0]} + Elements(items[1..])
  {
    assert forall x :: x in items <==> x == items[0] || x in items[1..];
  }

  lemma LoadFirstPhone(whitelist: set<string>, w: string, more: string)
    requires ValidPhone(w)
    ensures LoadPhones(whitelist, w) == whitelist + {w}
    ensures LoadPhones(whitelist, w + "," + more) == LoadPhones(whitelist + {w}, more)
  {
    PhonePlain(w);
    GetLastLine(w, ',');
    GetLine(w, ',', more);
  }

  lemma {:induction false} LoadJoined(whitelist: set<string>, items: seq<string>)
    requires forall w :: w in items ==> ValidPhone(w)
    ensures LoadPhones(whitelist, Joined(items)) == whitelist + Elements(items)
    decreases |items|
  {
    if items != [] {
      var w := items[0];
      ElementsTake(items);
      LoadFirstPhone(whitelist, w, Joined(items[1..]));
      if |items| > 1 {
        LoadJoined(whitelist + {w}, items[1..]);
      }
    }
  }

  lemma {:induction false} LoadWhitelistLine(p: Persistent, items: seq<string>, rest: string)
    requires forall w :: w in items ==> ValidPhone(w)
    ensures LoadText(p, "whitelist=" + Joined(items) + "\n" + rest)
            == LoadText(p.(whitelist := p.whitelist + Elements(items)), rest)
  {
    JoinedPlain(items);
    LoadJoined(p.whitelist, items);
    var key := "whitelist";
    assert key[0] == 'w';
    assert "whitelist=" == key + "=";
    LoadFirstLine(p, key, Joined(items), rest);
  }

  lemma {:induction false} LoadEmergencyLine(p: Persistent, phone: string)
    requires phone == "" || ValidPhone(phone)
    ensures LoadText(p, "emergency_phone=" + phone + "\n")
            == if phone == "" then p else p.(emergency := phone)
  {
    if phone != "" { PhonePlain(phone); }
    var key := "emergency_phone";
    assert key[0] == 'e';
    assert "emergency_phone=" == key + "=";
    LoadOnlyLine(p, key, phone);
  }

  lemma {:induction false} LoadDefaultLine(p: Persistent, s: HeaterState, rest: string)
    ensures LoadText(p, "default_heater_state=" + StateWord(s) + "\n" + rest) == LoadText(p.(default := s), rest)
  {
    StateWordPlain(s);
    var key := "default_heater_state";
    assert "default_heater_state=" == key + "=";
    LoadFirstLine(p, key, StateWord(s), rest);
  }

  lemma {:induction false} LoadPhoneLines(p: Persistent, items: seq<string>, phone: string)
    requires forall w :: w in items ==> ValidPhone(w)
    requires phone == "" || ValidPhone(phone)
    ensures LoadText(p, Phones(items, phone)) == p.(
              whitelist := p.whitelist + Elements(items),
              emergency := if phone == "" then p.emergency else phone)
  {
    LoadWhitelistLine(p, items, "emergency_phone=" + phone + "\n");
    LoadEmergencyLine(p.(whitelist := p.whitelist + Elements(items)), phone);
  }

  /** The memory after the default and heater lines of a saved file. */
  ghost function WithHeaters(p: Persistent): Persistent
    requires WellFormed(p)
  {
    Persistent(p.default, Overlay(map[], Sorted(p.heaters.Keys), p.heaters), {}, "")
  }

  lemma {:induction false} LoadFirstLines(p: Persistent)
    requires WellFormed(p)
    ensures LoadText(FRESH, Render(p)) == LoadText(WithHeaters(p), Phones(Sorted(p.whitelist), p.emergency))
  {
    var names, tail := Sorted(p.heaters.Keys), Phones(Sorted(p.whitelist), p.emergency);
    LoadDefaultLine(FRESH, p.default, HeaterLines(names, p.heaters) + tail);
    LoadHeaterLines(FRESH.(default := p.default), names, p.heaters, tail);
  }

  lemma OverlayAll(heaters: map<string, HeaterState>)
    ensures Overlay(map[], Sorted(heaters.Keys), heaters) == heaters
  {
    var r := Overlay(map[], Sorted(heaters.Keys), heaters);
    assert forall n :: n in r <==> n in heaters;
  }

  lemma ElementsSorted(s: set<string>)
    ensures {} + Elements(Sorted(s)) == s
  {
  }

  lemma LoadLastLines(p: Persistent)
    requires WellFormed(p)
    ensures LoadText(WithHeaters(p), Phones(Sorted(p.whitelist), p.emergency)) == p
  {
    OverlayAll(p.heaters);
    ElementsSorted(p.whitelist);
    LoadPhoneLines(WithHeaters(p), Sorted(p.whitelist), p.emergency);
  }

  /** Restarting on what saveState wrote restores the default, every heater, the
      whitelist and the emergency phone. */
  lemma {:induction false} RoundTrip(p: Persistent)
    requires WellFormed(p)
    ensures Load(Render(p)) == p
  {
    LoadFirstLines(p);
    LoadLastLines(p);
  }

  /** Whatever text the file holds, what is loaded from it is well formed, and one save
      makes the file a fixed point of load and save. */
  lemma {:induction false} LoadIsStable(text: string)
    ensures WellFormed(Load(text))
    ensures Load(Render(Load(text))) == Load(text)
    ensures Render(Load(Render(Load(text)))) == Render(Load(text))
  {
    LoadTextWellFormed(FRESH, text);
    RoundTrip(Load(text));
  }

  /** Two memories are written alike only when they are the same. */
  lemma RenderInjective(p: Persistent, q: Persistent)
    requires WellFormed(p) && WellFormed(q) && Render(p) == Render(q)
    ensures p == q
  {
    RoundTrip(p);
    RoundTrip(q);
  }

  /** The formats, by their characters. */
  lemma FormatsExactly(s: string)
    ensures ValidPhone(s) <==> 10 <= |s| <= 14 && forall c :: c in s ==> c in "0123456789"
    ensures ValidName(s) <==> s != "" && forall c :: c in s ==>
              c in "ABCDEFGHIJKLMNOPQRSTUVWXYZ" || c in "abcdefghijklmnopqrstuvwxyz" || c in "0123456789"
  {
    DigitsExactly();
    LettersExactly();
    if forall c :: c in s ==> c in "0123456789" {
      forall i | 0 <= i < |s| ensures IsDigit(s[i]) { assert s[i] in s; }
    }
    if forall c :: c in s ==>
        c in "ABCDEFGHIJKLMNOPQRSTUVWXYZ" || c in "abcdefghijklmnopqrstuvwxyz" || c in "0123456789" {
      forall i | 0 <= i < |s| ensures IsAlnum(s[i]) { assert s[i] in s; }
    }
  }

  lemma DigitsExactly()
    ensures forall c :: IsDigit(c) <==> c in "0123456789"
  {
    forall c: char | IsDigit(c) ensures c in "0123456789" {
      assert "0123456789"[c as int - '0' as int] == c;
    }
  }

  lemma LettersExactly()
    ensures forall c :: IsAlnum(c) <==>
              c in "ABCDEFGHIJKLMNOPQRSTUVWXYZ" || c in "abcdefghijklmnopqrstuvwxyz" || c in "0123456789"
  {
    DigitsExactly();
    forall c: char | 'A' <= c <= 'Z' ensures c in "ABCDEFGHIJKLMNOPQRSTUVWXYZ" {
      assert "ABCDEFGHIJKLMNOPQRSTUVWXYZ"[c as int - 'A' as int] == c;
    }
    forall c: char | 'a' <= c <= 'z' ensures c in "abcdefghijklmnopqrstuvwxyz" {
      assert "abcdefghijklmnopqrstuvwxyz"[c as int - 'a' as int] == c;
    }
  }

  /** The words of the file, both ways. */
  lemma WordsExactly(s: HeaterState, word: string)
    ensures StateWord(s) == word <==> ParseStateWord(word) == Some(s)
    ensures ParseStateWord(word) == Some(Off) <==> word == "off"
    ensures ParseStateWord(word) == Some(Defrost) <==> word == "defrost"
    ensures ParseStateWord(word) == Some(Eco) <==> word == "eco"
    ensures ParseStateWord(word) == Some(Comfort) <==> word == "comfort"
  {
  }

  // ------------------------------------------------- the lines of a saved file

  /** One line for each of these heaters. */
  function HeaterLineList(names: seq<string>, heaters: map<string, HeaterState>): seq<string>
    requires forall n :: n in names ==> n in heaters
  {
    seq(|names|, i requires 0 <= i < |names| => "heater_" + names[i] + "_state=" + StateWord(heaters[names[i]]))
  }

  lemma OneLine(line: string, rest: string)
    requires Without(line, '\n')
    ensures Lines(line + "\n" + rest) == [line] + Lines(rest)
  {
    GetLine(line, '\n', rest);
  }

  lemma HeaterLineText(n: string, s: HeaterState)
    requires StoredName(n)
    ensures HeaterLine(n, s) == "heater_" + n + "_state=" + StateWord(s)
    ensures Without(HeaterLine(n, s), '\n')
  {
    HeaterKeyRead(n);
    StateWordPlain(s);
    hide StateWord;
    assert "_state=" == "_state" + "=";
  }

  lemma HeaterListHead(names: seq<string>, heaters: map<string, HeaterState>)
    requires forall n :: n in names ==> n in heaters && StoredName(n)
    ensures names == [] ==> HeaterLines(names, heaters) == "" && HeaterLineList(names, heaters) == []
    ensures names != [] ==>
              var line := HeaterLine(names[0], heaters[names[0]]);
              && Without(line, '\n')
              && HeaterLines(names, heaters) == line + "\n" + HeaterLines(names[1..], heaters)
              && HeaterLineList(names, heaters) == [line] + HeaterLineList(names[1..], heaters)
  {
    if names != [] { HeaterLineText(names[0], heaters[names[0]]); }
    hide StateWord, HeaterLine, StoredName;
  }

  lemma {:induction false} LinesOfHeaters(names: seq<string>, heaters: map<string, HeaterState>, rest: string)
    requires forall n :: n in names ==> n in heaters && StoredName(n)
    ensures Lines(HeaterLines(names, heaters) + rest) == HeaterLineList(names, heaters) + Lines(rest)
    decreases names
  {
    hide *;
    HeaterListHead(names, heaters);
    if names == [] {
      assert "" + rest == rest && [] + Lines(rest) == Lines(rest);
    } else {
      var line := HeaterLine(names[0], heaters[names[0]]);
      assert forall n :: n in names[1..] ==> n in names;
      RegroupLine(line, HeaterLines(names[1..], heaters), rest);
      OneLine(line, HeaterLines(names[1..], heaters) + rest);
      LinesOfHeaters(names[1..], heaters, rest);
      Regroup([line], HeaterLineList(names[1..], heaters), Lines(rest));
    }
  }

  lemma TwoLines(a: string, b: string)
    requires Without(a, '\n') && Without(b, '\n')
    ensures Lines(a + "\n" + (b + "\n")) == [a, b]
  {
    OneLine(a, b + "\n");
    OneLine(b, "");
    assert b + "\n" + "" == b + "\n";
    assert Lines("") == [];
    hide Lines;
  }

  lemma EntryLine(start: string, val: string)
    requires Without(start, '\n') && Plain(val)
    ensures Without(start + val, '\n')
  {
  }

  lemma LinesOfPhones(items: seq<string>, emergency: string)
    requires (forall w :: w in items ==> ValidPhone(w)) && (emergency == "" || ValidPhone(emergency))
    ensures Lines(Phones(items, emergency)) == ["whitelist=" + Joined(items), "emergency_phone=" + emergency]
  {
    JoinedPlain(items);
    if emergency != "" { PhonePlain(emergency); }
    hide Joined, ValidPhone, Lines;
    EntryLine("whitelist=", Joined(items));
    EntryLine("emergency_phone=", emergency);
    hide Without, Plain;
    TwoLines("whitelist=" + Joined(items), "emergency_phone=" + emergency);
  }

  /** A saved file, line by line: the default state, one line for each heater in increasing
      order, the phones separated by commas, the emergency phone. */
  lemma {:induction false} FileLinesExactly(p: Persistent)
    requires WellFormed(p)
    ensures Lines(Render(p))
            == ["default_heater_state=" + StateWord(p.default)]
             + HeaterLineList(Sorted(p.heaters.Keys), p.heaters)
             + ["whitelist=" + Joined(Sorted(p.whitelist)), "emergency_phone=" + p.emergency]
  {
    var names, items := Sorted(p.heaters.Keys), Sorted(p.whitelist);
    var tail := Phones(items, p.emergency);
    var line := "default_heater_state=" + StateWord(p.default);
    StateWordPlain(p.default);
    OneLine(line, HeaterLines(names, p.heaters) + tail);
    LinesOfHeaters(names, p.heaters, tail);
    LinesOfPhones(items, p.emergency);
    hide Lines, StateWord, HeaterLines, Phones, Joined;
    Regroup([line], HeaterLineList(names, p.heaters), Lines(tail));
  }

  // ------------------------------------------------- what a heater is loaded as

  function Lines(text: string): seq<string>
    decreases |text|
  {
    if text == "" then [] else [Head(text, '\n')] + Lines(Tail(text, '\n'))
  }

  /** The state a line gives to a heater of that name, if it gives one. */
  function GivenBy(line: string, name: string): Option<HeaterState> {
    var i := IndexOf(line, '=');
    if i == |line| then None
    else
      var key := Trim(line[..i]);
      if key != "default_heater_state" && StartsWith(key, "heater_") && EndsWith(key, "_state")
         && ValidName(KeyName(key)) && Upper(KeyName(key)) == name
      then ParseStateWord(Trim(line[i + 1..]))
      else None
  }

  /** What the last line to give that heater a state gives it. */
  function LastGiven(lines: seq<string>, name: string, before: Option<HeaterState>): Option<HeaterState> {
    if lines == [] then before
    else
      var given := GivenBy(lines[0], name);
      LastGiven(lines[1..], name, if given.Some? then given else before)
  }

  function Entry(p: Persistent, name: string): Option<HeaterState> {
    if name in p.heaters then Some(p.heaters[name]) else None
  }

  lemma LineGives(p: Persistent, line: string, name: string)
    ensures Entry(LoadLine(p, line), name)
            == if GivenBy(line, name).Some? then GivenBy(line, name) else Entry(p, name)
  {
    hide ParseStateWord, ValidName, KeyName, Trim, LoadPhones;
  }

  lemma {:induction false} EntryFrom(p: Persistent, text: string, name: string)
    ensures Entry(LoadText(p, text), name) == LastGiven(Lines(text), name, Entry(p, name))
    decreases |text|
  {
    if text != "" {
      var line := Head(text, '\n');
      LineGives(p, line, name);
      hide LoadLine, GivenBy, Entry;
      EntryFrom(LoadLine(p, line), Tail(text, '\n'), name);
      assert Lines(text)[1..] == Lines(Tail(text, '\n'));
    }
  }

  /** In any file, however malformed, a heater is loaded as the last line that names it and
      has a state word says, and is not loaded when there is no such line. */
  lemma {:induction false} HeaterIsLastLine(text: string, name: string)
    ensures Entry(Load(text), name) == LastGiven(Lines(text), name, None)
  {
    EntryFrom(FRESH, text, name);
  }

  // -------------------------------------------- what the other settings are loaded as

  /** Key and value of a line, trimmed, if it has an equals sign. */
  function KeyValue(line: string): Option<(string, string)> {
    var i := IndexOf(line, '=');
    if i == |line| then None else Some((Trim(line[..i]), Trim(line[i + 1..])))
  }

  predicate HasKey(line: string, key: string) {
    KeyValue(line).Some? && KeyValue(line).value.0 == key
  }

  /** The default state after these lines: the last that gives one, DEFROST when its word is
      none of the four. */
  function DefaultGiven(lines: seq<string>, before: HeaterState): HeaterState {
    if lines == [] then before
    else if HasKey(lines[|lines| - 1], "default_heater_state") then
      match ParseStateWord(KeyValue(lines[|lines| - 1]).value.1)
      case Some(s) => s
      case None => Defrost
    else DefaultGiven(lines[..|lines| - 1], before)
  }

  /** The emergency phone after these lines: the last valid number given. */
  function EmergencyGiven(lines: seq<string>, before: string): string {
    if lines == [] then before
    else if HasKey(lines[|lines| - 1], "emergency_phone") && ValidPhone(KeyValue(lines[|lines| - 1]).value.1)
    then KeyValue(lines[|lines| - 1]).value.1
    else EmergencyGiven(lines[..|lines| - 1], before)
  }

  /** The parts of a text between commas. */
  function Items(val: string): seq<string>
    decreases |val|
  {
    if val == "" then [] else [Head(val, ',')] + Items(Tail(val, ','))
  }

  function ValidOnes(items: seq<string>): set<string> {
    set no | no in items && ValidPhone(no)
  }

  /** The phones after these lines: every valid number of every list. */
  function PhonesGiven(lines: seq<string>, before: set<string>): set<string> {
    if lines == [] then before
    else
      var more := if HasKey(lines[|lines| - 1], "whitelist")
                  then ValidOnes(Items(KeyValue(lines[|lines| - 1]).value.1)) else {};
      PhonesGiven(lines[..|lines| - 1], before) + more
  }

  lemma ValidHead(item: string, rest: seq<string>)
    ensures ValidOnes([item] + rest) == (if ValidPhone(item) then {item} else {}) + ValidOnes(rest)
    ensures ValidOnes([]) == {}
  {
    hide ValidPhone;
    assert forall no :: no in [item] + rest <==> no == item || no in rest;
  }

  lemma {:induction false} LoadPhonesItems(phones: set<string>, val: string)
    ensures LoadPhones(phones, val) == phones + ValidOnes(Items(val))
    decreases |val|
  {
    hide ValidPhone, ValidOnes, Head, Tail;
    ValidHead("", []);
    if val != "" {
      var item, rest := Head(val, ','), Tail(val, ',');
      ValidHead(item, Items(rest));
      LoadPhonesItems(if ValidPhone(item) then phones + {item} else phones, rest);
    }
  }

  lemma LineSets(p: Persistent, line: string)
    ensures LoadLine(p, line).default == DefaultGiven([line], p.default)
    ensures LoadLine(p, line).emergency == EmergencyGiven([line], p.emergency)
    ensures LoadLine(p, line).whitelist == PhonesGiven([line], p.whitelist)
  {
    if HasKey(line, "whitelist") { LoadPhonesItems(p.whitelist, KeyValue(line).value.1); }
    assert [line][..0] == [];
    LineSetsByKey(p, line);
  }

  lemma LineSetsByKey(p: Persistent, line: string)
    ensures HasKey(line, "whitelist") ==>
              LoadLine(p, line) == p.(whitelist := LoadPhones(p.whitelist, KeyValue(line).value.1))
    ensures HasKey(line, "emergency_phone") ==>
              LoadLine(p, line)
              == if ValidPhone(KeyValue(line).value.1) then p.(emergency := KeyValue(line).value.1) else p
    ensures HasKey(line, "default_heater_state") ==>
              LoadLine(p, line)
              == p.(default := match ParseStateWord(KeyValue(line).value.1) case Some(s) => s case None => Defrost)
    ensures !HasKey(line, "whitelist") && !HasKey(line, "emergency_phone") && !HasKey(line, "default_heater_state")
            ==> LoadLine(p, line) == p.(heaters := LoadLine(p, line).heaters)
  {
    hide ParseStateWord, ValidName, KeyName, Trim, LoadPhones, ValidPhone;
    if KeyValue(line).Some? {
      var key := KeyValue(line).value.0;
      if key == "whitelist" { assert key[0] == 'w'; }
      if key == "emergency_phone" { assert key[0] == 'e'; }
      if StartsWith(key, "heater_") { assert key[0] == key[..7][0] == 'h'; }
    }
  }

  lemma {:induction false} GivenConcat(a: seq<string>, b: seq<string>, d: HeaterState, e: string, phones: set<string>)
    ensures DefaultGiven(a + b, d) == DefaultGiven(b, DefaultGiven(a, d))
    ensures EmergencyGiven(a + b, e) == EmergencyGiven(b, EmergencyGiven(a, e))
    ensures PhonesGiven(a + b, phones) == PhonesGiven(b, PhonesGiven(a, phones))
    decreases b
  {
    hide HasKey, KeyValue, ParseStateWord, ValidPhone, Items;
    if b == [] {
      assert a + b == a;
    } else {
      assert (a + b)[..|a + b| - 1] == a + b[..|b| - 1];
      GivenConcat(a, b[..|b| - 1], d, e, phones);
    }
  }

  lemma {:induction false} SettingsFrom(p: Persistent, text: string)
    ensures LoadText(p, text).default == DefaultGiven(Lines(text), p.default)
    ensures LoadText(p, text).emergency == EmergencyGiven(Lines(text), p.emergency)
    ensures LoadText(p, text).whitelist == PhonesGiven(Lines(text), p.whitelist)
    decreases |text|
  {
    if text != "" {
      var line, rest := Head(text, '\n'), Tail(text, '\n');
      LineSets(p, line);
      hide LoadLine, DefaultGiven, EmergencyGiven, PhonesGiven;
      SettingsFrom(LoadLine(p, line), rest);
      GivenConcat([line], Lines(rest), p.default, p.emergency, p.whitelist);
    }
  }

  /** In any file, however malformed: the default state is what the last line for it says,
      DEFROST when that is not a state word or there is no such line; the emergency phone is
      the last valid number given for it; and the phones are all the valid numbers of all the
      lists. */
  lemma {:induction false} SettingsAreLastLines(text: string)
    ensures Load(text).default == DefaultGiven(Lines(text), Defrost)
    ensures Load(text).emergency == EmergencyGiven(Lines(text), "")
    ensures Load(text).whitelist == PhonesGiven(Lines(text), {})
  {
    SettingsFrom(FRESH, text);
  }
}
