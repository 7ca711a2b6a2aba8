/** A save cut short. The state file is truncated and rewritten in place, so a crash can
    leave any first part of its text. What does the next start load? */
module TornSave {
  import opened Text
  import opened Order
  import opened StateFile

  /** The first n characters of a text: none below zero, all past its end. */
  function Upto(s: string, n: int): string {
    if n <= 0 then "" else if n >= |s| then s else s[..n]
  }

  lemma UptoConcat(a: string, b: string, n: int)
    ensures Upto(a + b, n) == Upto(a, n) + Upto(b, n - |a|)
  {
  }

  lemma UptoEnds(s: string, n: int)
    ensures n >= |s| ==> Upto(s, n) == s
    ensures n <= 0 ==> Upto(s, n) == ""
  {
  }

  // ------------------------------------------------------------------- one line

  lemma UptoPlain(s: string, n: int)
    requires Plain(s)
    ensures Plain(Upto(s, n))
  {
  }

  lemma CutKey(p: Persistent, key: string, n: int)
    requires Plain(key)
    ensures LoadText(p, Upto(key, n)) == p
  {
    var text := Upto(key, n);
    UptoPlain(key, n);
    if text != "" {
      GetLastLine(text, '\n');
      assert IndexOf(text, '=') == |text|;
    }
  }

  lemma CutValue(p: Persistent, key: string, val: string, n: int)
    requires Plain(key) && Plain(val)
    ensures LoadText(p, key + "=" + Upto(val, n)) == LoadEntry(p, key, Upto(val, n))
  {
    UptoPlain(val, n);
    LoadPlainLine(p, key, Upto(val, n));
    GetLastLine(key + "=" + Upto(val, n), '\n');
    hide LoadLine, LoadEntry, Upto;
    assert LoadText(LoadLine(p, key + "=" + Upto(val, n)), "") == LoadLine(p, key + "=" + Upto(val, n));
  }

  /** A text that begins with a line, cut after n characters: before the value, nothing is
      loaded of the line; inside it or at its end, what is there of the value; past it, the
      line and what is there of the rest. */
  lemma {:induction false} CutLine(p: Persistent, key: string, val: string, rest: string, n: int)
    requires Plain(key) && Plain(val)
    ensures LoadText(p, Upto(key + "=" + val + "\n" + rest, n))
            == if n <= |key| then p
               else if n <= |key| + 1 + |val| then LoadEntry(p, key, Upto(val, n - |key| - 1))
               else LoadText(LoadEntry(p, key, val), Upto(rest, n - |key| - |val| - 2))
  {
    var all := key + "=" + val + "\n" + rest;
    hide LoadText, LoadEntry;
    if n <= |key| {
      assert Upto(all, n) == Upto(key, n);
      CutKey(p, key, n);
    } else if n <= |key| + 1 + |val| {
      assert Upto(all, n) == key + "=" + Upto(val, n - |key| - 1);
      CutValue(p, key, val, n - |key| - 1);
    } else {
      assert Upto(all, n) == key + "=" + val + "\n" + Upto(rest, n - |key| - |val| - 2);
      LoadFirstLine(p, key, val, Upto(rest, n - |key| - |val| - 2));
    }
  }

  // --------------------------------------------------------- state words, heaters

  lemma CutWord(s: HeaterState, n: int)
    ensures ParseStateWord(Upto(StateWord(s), n)) == if n >= |StateWord(s)| then Some(s) else None
  {
    var w := Upto(StateWord(s), n);
    if n < |StateWord(s)| && |w| == 3 {
      assert w[0] == StateWord(s)[0] && w[1] == StateWord(s)[1];
    }
  }

  /** base, with the heaters whose lines are whole up to the state word. */
  function WholeLines(
      base: map<string, HeaterState>, names: seq<string>, heaters: map<string, HeaterState>, n: int)
    : map<string, HeaterState>
    requires forall x :: x in names ==> x in heaters
    decreases names
  {
    if names == [] || n < |HeaterLine(names[0], heaters[names[0]])| then base
    else WholeLines(base[names[0] := heaters[names[0]]], names[1..], heaters,
                    n - |HeaterLine(names[0], heaters[names[0]])| - 1)
  }

  lemma CutHeaterEntry(p: Persistent, name: string, s: HeaterState, n: int)
    requires StoredName(name)
    ensures LoadEntry(p, HeaterKey(name), Upto(StateWord(s), n))
            == if n >= |StateWord(s)| then p.(heaters := p.heaters[name := s]) else p
  {
    HeaterKeyRead(name);
    CutWord(s, n);
    hide HeaterKey, ParseStateWord, KeyName, StartsWith, EndsWith, Upto, StateWord;
  }

  lemma HeaterLineParts(name: string, s: HeaterState, rest: string)
    requires StoredName(name)
    ensures var key, val := HeaterKey(name), StateWord(s);
            && Plain(key) && Plain(val)
            && HeaterLine(name, s) + "\n" + rest == key + "=" + val + "\n" + rest
            && |HeaterLine(name, s)| == |key| + 1 + |val| && Upto(val, |val|) == val
  {
    HeaterKeyRead(name);
    StateWordPlain(s);
    hide HeaterKey, StateWord;
  }

  lemma {:induction false} CutHeaterLine(p: Persistent, name: string, s: HeaterState, rest: string, n: int)
    requires StoredName(name)
    ensures LoadText(p, Upto(HeaterLine(name, s) + "\n" + rest, n))
            == if n < |HeaterLine(name, s)| then p
               else LoadText(p.(heaters := p.heaters[name := s]), Upto(rest, n - |HeaterLine(name, s)| - 1))
  {
    hide *;
    var key, val := HeaterKey(name), StateWord(s);
    HeaterLineParts(name, s, rest);
    CutLine(p, key, val, rest, n);
    CutHeaterEntry(p, name, s, n - |key| - 1);
    CutHeaterEntry(p, name, s, |val|);
    NoneLeft(p.(heaters := p.heaters[name := s]), rest, n - |HeaterLine(name, s)| - 1);
  }

  lemma {:induction false} CutHeaters(
      p: Persistent, names: seq<string>, heaters: map<string, HeaterState>, rest: string, n: int)
    requires forall x :: x in names ==> x in heaters && StoredName(x)
    ensures LoadText(p, Upto(HeaterLines(names, heaters) + rest, n))
            == LoadText(p.(heaters := WholeLines(p.heaters, names, heaters, n)),
                        Upto(rest, n - |HeaterLines(names, heaters)|))
    decreases names
  {
    hide *;
    HeaterLinesHead(p.heaters, names, heaters, rest, n);
    if names != [] {
      var line := HeaterLine(names[0], heaters[names[0]]);
      assert forall x :: x in names[1..] ==> x in names;
      CutHeaterLine(p, names[0], heaters[names[0]], HeaterLines(names[1..], heaters) + rest, n);
      CutHeaters(p.(heaters := p.heaters[names[0] := heaters[names[0]]]), names[1..], heaters, rest, n - |line| - 1);
      NoneLeft(p, rest, n - |HeaterLines(names, heaters)|);
    }
  }

  lemma HeaterLinesHead(
      base: map<string, HeaterState>, names: seq<string>, heaters: map<string, HeaterState>, rest: string, n: int)
    requires forall x :: x in names ==> x in heaters
    ensures names == [] ==> HeaterLines(names, heaters) + rest == rest && |HeaterLines(names, heaters)| == 0
                            && WholeLines(base, names, heaters, n) == base
    ensures names != [] ==>
              var line, more := HeaterLine(names[0], heaters[names[0]]), HeaterLines(names[1..], heaters);
              && HeaterLines(names, heaters) + rest == line + "\n" + (more + rest)
              && |HeaterLines(names, heaters)| == |line| + 1 + |more|
              && WholeLines(base, names, heaters, n)
                 == if n < |line| then base
                    else WholeLines(base[names[0] := heaters[names[0]]], names[1..], heaters, n - |line| - 1)
  {
    if names != [] {
      RegroupLine(HeaterLine(names[0], heaters[names[0]]), HeaterLines(names[1..], heaters), rest);
    }
  }

  lemma {:induction false} WholeLinesAreThere(
      base: map<string, HeaterState>, names: seq<string>, heaters: map<string, HeaterState>, n: int, x: string)
    requires forall y :: y in names ==> y in heaters
    requires x in WholeLines(base, names, heaters, n)
    ensures var s := WholeLines(base, names, heaters, n)[x];
            (x in base && s == base[x]) || (x in heaters && s == heaters[x])
    decreases names
  {
    hide HeaterLine;
    if names != [] && n >= |HeaterLine(names[0], heaters[names[0]])| {
      WholeLinesAreThere(base[names[0] := heaters[names[0]]], names[1..], heaters,
                         n - |HeaterLine(names[0], heaters[names[0]])| - 1, x);
    }
  }

  lemma NoneLeft(p: Persistent, rest: string, n: int)
    ensures n <= 0 ==> LoadText(p, Upto(rest, n)) == p
  {
  }

  // ----------------------------------------------------------------- phone numbers

  /** The numbers read from a list cut after n characters: those that are whole, and the
      last one cut, if what is there of it has the length of a number. */
  function CutPhones(items: seq<string>, n: int): set<string> {
    if items == [] || n <= 0 then {}
    else if n <= |items[0]| || |items| == 1 then
      if ValidPhone(Upto(items[0], n)) then {Upto(items[0], n)} else {}
    else {items[0]} + CutPhones(items[1..], n - |items[0]| - 1)
  }

  lemma LoadOneItem(phones: set<string>, w: string, n: int)
    requires Without(w, ',')
    ensures LoadPhones(phones, Upto(w, n)) == if ValidPhone(Upto(w, n)) then phones + {Upto(w, n)} else phones
  {
    GetLastLine(Upto(w, n), ',');
  }

  lemma {:induction false} LoadCutPhones(phones: set<string>, items: seq<string>, n: int)
    requires forall w :: w in items ==> ValidPhone(w)
    ensures LoadPhones(phones, Upto(Joined(items), n)) == phones + CutPhones(items, n)
    decreases |items|
  {
    hide LoadPhones, ValidPhone;
    if n <= 0 || items == [] {
      UptoEnds(Joined(items), n);
      NoPhones(phones);
    } else {
      var w, more := items[0], Joined(items[1..]);
      assert w in items;
      PhonePlain(w);
      JoinedCut(items, n);
      hide Upto, Joined;
      if n <= |w| || |items| == 1 {
        LoadOneItem(phones, w, n);
      } else {
        LoadFirstPhone(phones, w, Upto(more, n - |w| - 1));
        LoadCutPhones(phones + {w}, items[1..], n - |w| - 1);
      }
    }
  }

  lemma NoPhones(phones: set<string>)
    ensures LoadPhones(phones, "") == phones
  {
  }

  lemma JoinedCut(items: seq<string>, n: int)
    requires items != [] && n > 0
    ensures Upto(Joined(items), n)
            == if n <= |items[0]| || |items| == 1 then Upto(items[0], n)
               else items[0] + "," + Upto(Joined(items[1..]), n - |items[0]| - 1)
  {
    if |items| > 1 { UptoConcat(items[0] + ",", Joined(items[1..]), n); }
  }

  // ------------------------------------------------------------------- the whole file

  /** What is loaded of a file with these lines, cut after n characters. */
  function SalvagedFrom(
      default: HeaterState, names: seq<string>, heaters: map<string, HeaterState>, phones: seq<string>,
      emergency: string, n: int): Persistent
    requires forall x :: x in names ==> x in heaters
  {
    var h := n - 22 - |StateWord(default)|;           // what is there of the heater lines
    var w := h - |HeaterLines(names, heaters)|;       // of the whitelist line
    var no := Upto(emergency, w - 27 - |Joined(phones)|);
    Persistent(
      if h >= -1 then default else Defrost,
      WholeLines(map[], names, heaters, h),
      CutPhones(phones, w - 10),
      if ValidPhone(no) then no else "")
  }

  ghost function Salvaged(p: Persistent, n: int): Persistent {
    SalvagedFrom(p.default, Sorted(p.heaters.Keys), p.heaters, Sorted(p.whitelist), p.emergency, n)
  }

  predicate DefaultKey(key: string) { key == "default_heater_state" }

  lemma DefaultEntry(p: Persistent, key: string, s: HeaterState, n: int)
    requires DefaultKey(key)
    ensures Plain(key) && |key| == 20
    ensures LoadEntry(p, key, Upto(StateWord(s), n))
            == p.(default := if n >= |StateWord(s)| then s else Defrost)
  {
    CutWord(s, n);
    hide StateWord, Upto, ParseStateWord;
  }

  lemma {:induction false} CutDefault(key: string, s: HeaterState, rest: string, n: int)
    requires DefaultKey(key)
    ensures LoadText(FRESH, Upto(key + "=" + StateWord(s) + "\n" + rest, n))
            == LoadText(Persistent(if n >= 21 + |StateWord(s)| then s else Defrost, map[], {}, ""),
                        Upto(rest, n - 22 - |StateWord(s)|))
  {
    hide *;
    var val := StateWord(s);
    FreshIs();
    DefaultEntry(FRESH, key, s, n - 21);
    DefaultEntry(FRESH, key, s, |val|);
    UptoEnds(val, |val|);
    StateWordPlain(s);
    CutLine(FRESH, key, val, rest, n);
    NoneLeft(Persistent(if n >= 21 + |val| then s else Defrost, map[], {}, ""), rest, n - 22 - |val|);
  }

  lemma FreshIs()
    ensures FRESH == Persistent(Defrost, map[], {}, "")
  {
  }

  predicate WhitelistKey(key: string) { key == "whitelist" }

  predicate EmergencyKey(key: string) { key == "emergency_phone" }

  lemma WhitelistEntry(p: Persistent, key: string, val: string)
    requires WhitelistKey(key)
    ensures Plain(key) && |key| == 9 && LoadEntry(p, key, val) == p.(whitelist := LoadPhones(p.whitelist, val))
  {
    assert key[0] == 'w';
    hide LoadPhones;
  }

  lemma EmergencyEntry(p: Persistent, key: string, val: string)
    requires EmergencyKey(key)
    ensures Plain(key) && |key| == 15
    ensures LoadEntry(p, key, val) == if ValidPhone(val) then p.(emergency := val) else p
  {
    assert key[0] == 'e';
    hide ValidPhone;
  }

  lemma {:induction false} CutWhitelist(p: Persistent, key: string, items: seq<string>, rest: string, n: int)
    requires WhitelistKey(key) && p.whitelist == {}
    requires forall w :: w in items ==> ValidPhone(w)
    ensures LoadText(p, Upto(key + "=" + Joined(items) + "\n" + rest, n))
            == LoadText(p.(whitelist := CutPhones(items, n - 10)), Upto(rest, n - 11 - |Joined(items)|))
  {
    hide *;
    var val := Joined(items);
    WhitelistEntry(p, key, Upto(val, n - 10));
    WhitelistEntry(p, key, val);
    JoinedPlain(items);
    CutLine(p, key, val, rest, n);
    LoadCutPhones({}, items, n - 10);
    UptoEnds(val, n - 10);
    NoPhones({});
    assert {} + CutPhones(items, n - 10) == CutPhones(items, n - 10);
    NoneLeft(p.(whitelist := CutPhones(items, n - 10)), rest, n - 11 - |val|);
  }

  lemma {:induction false} CutEmergency(p: Persistent, key: string, phone: string, n: int)
    requires EmergencyKey(key) && p.emergency == ""
    requires phone == "" || ValidPhone(phone)
    ensures var no := Upto(phone, n - 16);
            LoadText(p, Upto(key + "=" + phone + "\n" + "", n)) == p.(emergency := if ValidPhone(no) then no else "")
  {
    hide *;
    if phone != "" { PhonePlain(phone); } else { NothingPlain(); }
    EmergencyEntry(p, key, Upto(phone, n - 16));
    EmergencyEntry(p, key, phone);
    CutLine(p, key, phone, "", n);
    UptoEnds(phone, n - 16);
    UptoEnds("", n - |key| - |phone| - 2);
    NoneLeft(LoadEntry(p, key, phone), "", 0);
    UptoEnds("", 0);
    NothingPlain();
  }

  lemma NothingPlain()
    ensures Plain("") && !ValidPhone("")
  {
  }

  lemma PhonesText(items: seq<string>, phone: string)
    ensures var w, e := "whitelist", "emergency_phone";
            WhitelistKey(w) && EmergencyKey(e)
            && Phones(items, phone) == w + "=" + Joined(items) + "\n" + (e + "=" + phone + "\n" + "")
  {
    hide Joined;
    var w, e := "whitelist", "emergency_phone";
    assert "whitelist=" == w + "=" && "emergency_phone=" == e + "=";
    assert e + "=" + phone + "\n" + "" == "emergency_phone=" + phone + "\n";
  }

  lemma {:induction false} CutPhoneLines(p: Persistent, phones: seq<string>, phone: string, n: int)
    requires (forall w :: w in phones ==> ValidPhone(w)) && (phone == "" || ValidPhone(phone))
    requires p.whitelist == {} && p.emergency == ""
    ensures var no := Upto(phone, n - 27 - |Joined(phones)|);
            LoadText(p, Upto(Phones(phones, phone), n))
            == p.(whitelist := CutPhones(phones, n - 10), emergency := if ValidPhone(no) then no else "")
  {
    hide *;
    PhonesText(phones, phone);
    var w, e := "whitelist", "emergency_phone";
    CutWhitelist(p, w, phones, e + "=" + phone + "\n" + "", n);
    CutEmergency(p.(whitelist := CutPhones(phones, n - 10)), e, phone, n - 11 - |Joined(phones)|);
  }

  lemma {:induction false} CutFile(
      key: string, default: HeaterState, names: seq<string>, heaters: map<string, HeaterState>, phones: seq<string>,
      emergency: string, n: int)
    requires DefaultKey(key) && forall x :: x in names ==> x in heaters && StoredName(x)
    requires (forall w :: w in phones ==> ValidPhone(w)) && (emergency == "" || ValidPhone(emergency))
    ensures LoadText(FRESH, Upto(key + "=" + StateWord(default) + "\n"
                                 + (HeaterLines(names, heaters) + Phones(phones, emergency)), n))
            == SalvagedFrom(default, names, heaters, phones, emergency, n)
  {
    hide StateWord, HeaterLines, Upto, Joined, CutPhones, WholeLines, ValidPhone, LoadText, Phones;
    hide StoredName, DefaultKey;
    CutDefault(key, default, HeaterLines(names, heaters) + Phones(phones, emergency), n);
    var h := n - 22 - |StateWord(default)|;
    var p1 := Persistent(if h >= -1 then default else Defrost, map[], {}, "");
    CutHeaters(p1, names, heaters, Phones(phones, emergency), h);
    CutPhoneLines(p1.(heaters := WholeLines(map[], names, heaters, h)), phones, emergency,
                  h - |HeaterLines(names, heaters)|);
  }

  lemma RenderText(p: Persistent)
    ensures var key := "default_heater_state";
            DefaultKey(key)
            && Render(p) == key + "=" + StateWord(p.default) + "\n"
                            + (HeaterLines(Sorted(p.heaters.Keys), p.heaters)
                               + Phones(Sorted(p.whitelist), p.emergency))
  {
    hide StateWord, HeaterLines, Phones;
    assert "default_heater_state=" == "default_heater_state" + "=";
  }

  /** A save cut after any number of characters, exactly: the default state, or DEFROST when
      its word is not whole; the heaters whose lines are whole up to the state word; the
      whole numbers of the whitelist and what is there of the next; and what is there of the
      emergency phone. */
  lemma {:induction false} TornExactly(p: Persistent, n: int)
    requires WellFormed(p)
    ensures Load(Upto(Render(p), n)) == Salvaged(p, n)
  {
    hide SalvagedFrom, Upto, Render, StoredName, ValidPhone, LoadText;
    RenderText(p);
    hide HeaterLines, Phones, StateWord, DefaultKey;
    CutFile("default_heater_state", p.default, Sorted(p.heaters.Keys), p.heaters, Sorted(p.whitelist), p.emergency, n);
  }

  // ------------------------------------------------------------- what it can do harm to

  /** w is the beginning of v, long enough for a number. */
  predicate Stump(w: string, v: string) {
    10 <= |w| <= |v| && w == v[..|w|]
  }

  lemma {:induction false} CutPhonesAreStumps(items: seq<string>, n: int, w: string)
    requires (forall x :: x in items ==> ValidPhone(x)) && w in CutPhones(items, n)
    ensures exists v :: v in items && Stump(w, v)
  {
    var v := items[0];
    assert v in items;
    if w == v || w == Upto(v, n) {
      assert Stump(w, v);
    } else {
      CutPhonesAreStumps(items[1..], n - |v| - 1, w);
      var x :| x in items[1..] && Stump(w, x);
      assert x in items;
    }
  }

  /** Whatever the cut, no heater gets a state it was not given, none but DEFROST comes in as
      the default, and every number is the beginning of one that was there. */
  lemma {:induction false} TornIsPartial(p: Persistent, n: int)
    requires WellFormed(p)
    ensures var q := Load(Upto(Render(p), n));
            && q.default in {p.default, Defrost}
            && (forall x :: x in q.heaters ==> x in p.heaters && q.heaters[x] == p.heaters[x])
            && (forall w :: w in q.whitelist ==> exists v :: v in p.whitelist && Stump(w, v))
            && (q.emergency == "" || Stump(q.emergency, p.emergency))
  {
    TornExactly(p, n);
    WellFormedParts(p);
    hide *;
    SalvagedIsPartial(p.default, Sorted(p.heaters.Keys), p.heaters, Sorted(p.whitelist), p.emergency, n);
    SalvagedHere(p, n);
    assert forall v :: v in Sorted(p.whitelist) ==> v in p.whitelist;
  }

  lemma SalvagedHere(p: Persistent, n: int)
    ensures Salvaged(p, n)
            == SalvagedFrom(p.default, Sorted(p.heaters.Keys), p.heaters, Sorted(p.whitelist), p.emergency, n)
  {
  }

  lemma WellFormedParts(p: Persistent)
    requires WellFormed(p)
    ensures forall w :: w in Sorted(p.whitelist) ==> ValidPhone(w)
  {
  }

  lemma {:induction false} SalvagedIsPartial(
      default: HeaterState, names: seq<string>, heaters: map<string, HeaterState>, phones: seq<string>,
      emergency: string, n: int)
    requires (forall x :: x in names ==> x in heaters) && forall w :: w in phones ==> ValidPhone(w)
    ensures var q := SalvagedFrom(default, names, heaters, phones, emergency, n);
            && q.default in {default, Defrost}
            && (forall x :: x in q.heaters ==> x in heaters && q.heaters[x] == heaters[x])
            && (forall w :: w in q.whitelist ==> exists v :: v in phones && Stump(w, v))
            && (q.emergency == "" || Stump(q.emergency, emergency))
  {
    hide WholeLines, CutPhones, HeaterLines, Joined, Upto, ValidPhone, StateWord, Stump;
    var q := SalvagedFrom(default, names, heaters, phones, emergency, n);
    var h := n - 22 - |StateWord(default)|;
    var w := h - |HeaterLines(names, heaters)|;
    forall x | x in q.heaters ensures x in heaters && q.heaters[x] == heaters[x] {
      WholeLinesAreThere(map[], names, heaters, h, x);
    }
    forall no | no in q.whitelist ensures exists v :: v in phones && Stump(no, v) {
      CutPhonesAreStumps(phones, w - 10, no);
    }
    StumpOfPhone(emergency, q.emergency, w - 27 - |Joined(phones)|);
  }

  lemma StumpOfPhone(v: string, w: string, n: int)
    requires w == if ValidPhone(Upto(v, n)) then Upto(v, n) else ""
    ensures w == "" || Stump(w, v)
  {
  }

  /** Where the list has to be cut for j characters of its item i to be the last. */
  function CutInside(items: seq<string>, i: nat, j: nat): nat
    requires i < |items|
  {
    if i == 0 then j else |items[0]| + 1 + CutInside(items[1..], i - 1, j)
  }

  lemma {:induction false} CutInsideLists(items: seq<string>, i: nat, j: nat)
    requires i < |items| && 10 <= j <= |items[i]| && ValidPhone(items[i][..j])
    ensures items[i][..j] in CutPhones(items, CutInside(items, i, j))
  {
    if i == 0 {
      assert Upto(items[0], j) == items[0][..j];
    } else {
      hide ValidPhone, Upto;
      assert items[1..][i - 1] == items[i];
      CutInsideLists(items[1..], i - 1, j);
    }
  }

  /** No cut of the save of this memory lists a number that was not listed, if and only if
      every beginning of ten or more digits of a listed number is listed too; so it is when
      all listed numbers have ten digits. */
  lemma {:induction false} NoStrangerListedExactly(p: Persistent)
    requires WellFormed(p)
    ensures (forall n :: Load(Upto(Render(p), n)).whitelist <= p.whitelist)
            <==> forall v, w :: v in p.whitelist && Stump(w, v) ==> w in p.whitelist
    ensures (forall v :: v in p.whitelist ==> |v| == 10)
            ==> forall n :: Load(Upto(Render(p), n)).whitelist <= p.whitelist
  {
    hide Load, Render, Upto, WellFormed;
    if forall v, w :: v in p.whitelist && Stump(w, v) ==> w in p.whitelist {
      forall n ensures Load(Upto(Render(p), n)).whitelist <= p.whitelist {
        TornIsPartial(p, n);
      }
    } else {
      var v, w :| v in p.whitelist && Stump(w, v) && w !in p.whitelist;
      var n := StumpListed(p, v, w);
    }
    if forall v :: v in p.whitelist ==> |v| == 10 {
      assert forall v, w :: v in p.whitelist && Stump(w, v) ==> w == v;
    }
  }

  lemma CutInFile(
      default: HeaterState, names: seq<string>, heaters: map<string, HeaterState>, phones: seq<string>,
      emergency: string, n: nat)
    requires forall x :: x in names ==> x in heaters
    ensures SalvagedFrom(default, names, heaters, phones, emergency,
                         32 + |StateWord(default)| + |HeaterLines(names, heaters)| + n).whitelist
            == CutPhones(phones, n)
  {
    hide WholeLines, CutPhones, HeaterLines, Joined, Upto, ValidPhone, StateWord;
  }

  lemma {:induction false} StumpInList(phones: seq<string>, v: string, w: string) returns (cut: nat)
    requires v in phones && Stump(w, v) && ValidPhone(v)
    ensures w in CutPhones(phones, cut)
  {
    hide CutPhones, CutInside, Upto;
    var i :| 0 <= i < |phones| && phones[i] == v;
    assert ValidPhone(v[..|w|]);
    CutInsideLists(phones, i, |w|);
    cut := CutInside(phones, i, |w|);
  }

  lemma {:induction false} StumpSalvaged(
      default: HeaterState, names: seq<string>, heaters: map<string, HeaterState>, phones: seq<string>,
      emergency: string, v: string, w: string) returns (n: int)
    requires forall x :: x in names ==> x in heaters
    requires v in phones && Stump(w, v) && ValidPhone(v)
    ensures w in SalvagedFrom(default, names, heaters, phones, emergency, n).whitelist
  {
    hide *;
    var cut := StumpInList(phones, v, w);
    n := 32 + |StateWord(default)| + |HeaterLines(names, heaters)| + cut;
    CutInFile(default, names, heaters, phones, emergency, cut);
  }

  lemma {:induction false} StumpListed(p: Persistent, v: string, w: string) returns (n: int)
    requires WellFormed(p) && v in p.whitelist && Stump(w, v)
    ensures w in Load(Upto(Render(p), n)).whitelist
  {
    WellFormedParts(p);
    hide *;
    var phones := Sorted(p.whitelist);
    assert v in phones && ValidPhone(v);
    n := StumpSalvaged(p.default, Sorted(p.heaters.Keys), p.heaters, phones, p.emergency, v, w);
    TornExactly(p, n);
    SalvagedHere(p, n);
  }

  /** A save of one listed number of eleven digits that is cut after the tenth lists another
      number. */
  lemma {:induction false} StrangerListed(p: Persistent, v: string)
    requires WellFormed(p) && p.whitelist == {v} && |v| == 11
    ensures exists n :: v[..10] in Load(Upto(Render(p), n)).whitelist && v[..10] !in p.whitelist
  {
    hide Load, Render, Upto;
    assert Stump(v[..10], v);
    var n := StumpListed(p, v, v[..10]);
  }
}
