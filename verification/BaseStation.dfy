/** The base station object: its fields, updated in place as the program does, and each
    operation proved against the value machines of Control, Serving and Connections. */
module BaseStations {
  import opened Text
  import opened Order
  import opened StateFile
  import opened SmsGrammar
  import opened Watchdog
  import opened Control
  import opened Wire
  import opened Devices
  import S = Serving
  import C = Connections

  class BaseStation {
    var defaultState: HeaterState
    var heaterStates: map<string, HeaterState>
    var locked: bool
    var whitelist: set<string>
    var emergencyPhone: string
    var commands: seq<Sms>
    var wifiErrors: nat
    var threeGErrors: nat
    var daemonErrors: nat
    var connections: seq<C.Connection>
    var heaterCounters: map<nat, Word64>
    var heaters: map<nat, Device>
    var messageCounter: nat

    // The outside: the state file, and what was sent, replied and closed so far.
    var file: string
    var outbox: seq<Message>
    var replies: seq<(int, seq<byte>)>
    var closed: seq<int>

    ghost function Mem(): Persistent
      reads this
    {
      Persistent(defaultState, heaterStates, whitelist, emergencyPhone)
    }

    ghost function Controls(): Ctl
      reads this
    {
      Ctl(Mem(), locked, file, outbox)
    }

    ghost function Abs(): Base
      reads this
    {
      Base(Controls(), commands, threeGErrors, daemonErrors, wifiErrors)
    }

    ghost function Net(): S.Net
      reads this
    {
      S.Net(Registry(heaterCounters, heaters), replies, outbox, messageCounter)
    }

    // ------------------------------------------------------------ state file

    /** Loads the file when there is one, else writes a first one. */
    constructor (disk: Option<string>, seed: nat)
      requires seed < 0x1_0000_0000
      ensures Abs() == Start(disk)
      ensures Net() == S.Net(Registry(map[], map[]), [], [], seed * 0x1_0000_0000)
      ensures connections == [] && closed == []
    {
      hide Render, LoadText;
      defaultState, heaterStates, whitelist, emergencyPhone := Defrost, map[], {}, "";
      locked, commands := false, [];
      wifiErrors, threeGErrors, daemonErrors := 0, 0, 0;
      connections, heaterCounters, heaters := [], map[], map[];
      messageCounter := seed * 0x1_0000_0000;
      file := match disk case Some(text) => text case None => "";
      outbox, replies, closed := [], [], [];
      new;
      if disk.Some? {
        LoadState(disk.value);
      } else {
        SaveState();
      }
    }

    method SaveState()
      modifies this`file
      ensures Controls() == Save(old(Controls()))
    {
      var lines := HeaterSection();
      var phones := PhoneList();
      file := "default_heater_state=" + StateWord(defaultState) + "\n"
      + (lines + ("whitelist=" + phones + "\n" + ("emergency_phone=" + emergencyPhone + "\n")));
    }

    /** The heater lines, in the order of the map. */
    method HeaterSection() returns (lines: string)
      ensures lines == HeaterLines(Sorted(heaterStates.Keys), heaterStates)
    {
      hide HeaterLine;
      lines := "";
      var todo := heaterStates.Keys;
      while todo != {}
        invariant todo <= heaterStates.Keys
        invariant lines + HeaterLines(Sorted(todo), heaterStates)
                  == HeaterLines(Sorted(heaterStates.Keys), heaterStates)
        decreases |todo|
      {
        HasLeast(todo);
        var name :| name in todo && IsLeast(name, todo);
        LeastLine(lines, todo, name, heaterStates);
        lines := lines + (HeaterLine(name, heaterStates[name]) + "\n");
        todo := todo - {name};
      }
      assert lines + "" == lines;
    }

    /** The whitelist, with a comma after each phone but the last. */
    method PhoneList() returns (phones: string)
      ensures phones == Joined(Sorted(whitelist))
    {
      phones := "";
      var todo := whitelist;
      while todo != {}
        invariant phones + Joined(Sorted(todo)) == Joined(Sorted(whitelist))
        decreases |todo|
      {
        HasLeast(todo);
        var no :| no in todo && IsLeast(no, todo);
        LeastPhone(phones, todo, no);
        todo := todo - {no};
        phones := phones + no;
        if todo != {} {
          phones := phones + ",";
        }
      }
      assert phones + "" == phones;
    }

    /** Reads the file line by line into the memory. */
    method LoadState(text: string)
      modifies this`defaultState, this`heaterStates, this`whitelist, this`emergencyPhone
      ensures Mem() == LoadText(old(Mem()), text)
    {
      hide LoadLine;
      var rest := text;
      while rest != ""
        invariant LoadText(Mem(), rest) == LoadText(old(Mem()), text)
        decreases |rest|
      {
        var line := Head(rest, '\n');
        rest := Tail(rest, '\n');
        LoadOneLine(line);
      }
    }

    /** A line without an equals sign is skipped. */
    method LoadOneLine(line: string)
      modifies this`defaultState, this`heaterStates, this`whitelist, this`emergencyPhone
      ensures Mem() == LoadLine(old(Mem()), line)
    {
      hide LoadEntry, Trim;
      var i := IndexOf(line, '=');
      if i == |line| {
        return;
      }
      LoadKey(Trim(line[..i]), Trim(line[i + 1..]));
    }

    method LoadKey(key: string, val: string)
      modifies this`defaultState, this`heaterStates, this`whitelist, this`emergencyPhone
      ensures Mem() == LoadEntry(old(Mem()), key, val)
    {
      if key == "default_heater_state" {
        var s := ParseStateWord(val);
        defaultState := if s.Some? then s.value else Defrost;
      } else if StartsWith(key, "heater_") && EndsWith(key, "_state") {
        var name := KeyName(key);
        if ValidName(name) {
          name := Upper(name);
          var s := ParseStateWord(val);
          if s.Some? {
            heaterStates := heaterStates[name := s.value];
          }
        }
      } else if key == "whitelist" {
        LoadWhitelist(val);
      } else if key == "emergency_phone" {
        if ValidPhone(val) {
          emergencyPhone := val;
        }
      }
    }

    method LoadWhitelist(val: string)
      modifies this`whitelist
      ensures whitelist == LoadPhones(old(whitelist), val)
    {
      var rest := val;
      while rest != ""
        invariant LoadPhones(whitelist, rest) == LoadPhones(old(whitelist), val)
        decreases |rest|
      {
        var item := Head(rest, ',');
        rest := Tail(rest, ',');
        if ValidPhone(item) {
          whitelist := whitelist + {item};
        }
      }
    }

    // ---------------------------------------------------------- SMS commands

    method HandleSMSCommand(from: string, content: string)
      modifies this`commands
      ensures Abs() == Step(old(Abs()), Arrive((from, content)))
    {
      commands := commands + [(from, content)];
    }

    method SendSMS(to: string, body: Body)
      modifies this`outbox
      ensures outbox == old(outbox) + [Message(to, body)]
    {
      outbox := outbox + [Message(to, body)];
    }

    /** The default and every entry of the map. */
    method SetEveryHeater(s: HeaterState)
      modifies this`defaultState, this`heaterStates
      ensures Mem() == SetAll(old(Mem()), s)
    {
      defaultState := s;
      var todo := heaterStates.Keys;
      while todo != {}
        invariant defaultState == s && todo <= heaterStates.Keys == old(heaterStates.Keys)
        invariant forall n :: n in heaterStates && n !in todo ==> heaterStates[n] == s
        decreases |todo|
      {
        var n :| n in todo;
        heaterStates := heaterStates[n := s];
        todo := todo - {n};
      }
      assert heaterStates == map n | n in old(heaterStates) :: s;
    }

    /** Takes commands until the queue is empty, a sender is dropped or the machine goes
        down. In that case this object is no more: the next one starts on the file. */
    method ParseCommands() returns (rebooted: bool)
      modifies this`defaultState, this`heaterStates, this`locked, this`whitelist, this`emergencyPhone,
               this`commands, this`file, this`outbox
      ensures rebooted == Restarts(old(Abs()), Commands)
      ensures Step(old(Abs()), Commands) == if rebooted then Start(Some(file)) else Abs()
    {
      hide Meaning, Execute, Afresh, Render;
      rebooted := false;
      while commands != []
        invariant Drain(Controls(), commands) == Drain(old(Controls()), old(commands))
        invariant commands[Taken(Controls(), commands)..] == old(commands)[Taken(old(Controls()), old(commands))..]
        invariant GoesDown(Controls(), commands) == GoesDown(old(Controls()), old(commands))
        invariant wifiErrors == old(wifiErrors) && threeGErrors == old(threeGErrors)
        invariant daemonErrors == old(daemonErrors)
        decreases |commands|
      {
        var (from, content) := commands[0];
        ghost var was, queue := Controls(), commands;
        commands := commands[1..];
        if locked && whitelist != {} && from !in whitelist {
          assert !Accepts(was, from);
          return false;
        }
        assert Accepts(was, from);
        rebooted := Dispatch(from, Meaning(content));
        if rebooted {
          assert Handle(was, queue[0]) == Boot(Some(file));
          return;
        }
        assert Controls() == Handle(was, queue[0]);
        assert queue[1..][Taken(Controls(), queue[1..])..] == queue[1 + Taken(Controls(), queue[1..])..];
      }
    }

    method Dispatch(from: string, cmd: Command) returns (rebooted: bool)
      modifies this`defaultState, this`heaterStates, this`locked, this`whitelist, this`emergencyPhone,
               this`file, this`outbox
      ensures rebooted == (cmd == AskSystem(RebootNow))
      ensures Execute(old(Controls()), from, cmd) == if rebooted then Afresh(file) else Controls()
    {
      hide Render, HeaterText, Afresh;
      rebooted := false;
      match cmd
      case Ping => SendSMS(from, Pong);
      case All(w) =>
        SetEveryHeater(StateOf(w));
        SaveState();
        SendSMS(from, Words("ALL " + Spell(w)));
      case Heater(name, w) =>
        heaterStates := heaterStates[name := StateOf(w)];
        SaveState();
        SendSMS(from, Words(HeaterText(name, w)));
      case BadHeaterName => SendSMS(from, NameInvalid);
      case GetDefault => SendSMS(from, Words("DEFAULT: " + Shown(defaultState)));
      case GetHeater(name) =>
        var state := if name in heaterStates then heaterStates[name] else defaultState;
        SendSMS(from, Words("HEATER " + name + " " + Shown(state)));
      case BadGetName => SendSMS(from, NameInvalid);
      case Help => SendSMS(from, HelpText);
      case AskVersion => SendSMS(from, VersionText);
      case AskSystem(q) => rebooted := AnswerQuery(from, q);
      case Invalid => SendSMS(from, InvalidCommand);
      case _ => DispatchPhones(from, cmd);
    }

    /** GET IP and the DEBUG commands. */
    method AnswerQuery(from: string, q: Query) returns (rebooted: bool)
      modifies this`outbox
      ensures rebooted == (q == RebootNow)
      ensures Answer(old(Controls()), from, q) == if rebooted then Afresh(file) else Controls()
    {
      rebooted := false;
      match q
      case FileState =>
        var text := ReadFile();
        SendSMS(from, FileText(text));
      case MemoryState => SendSMS(from, StateText(defaultState, heaterStates));
      case RebootNow => rebooted := true;
      case _ => SendSMS(from, FromSystem(q));
    }

    /** The state file line by line. */
    method ReadFile() returns (text: string)
      ensures text == Dump(file)
    {
      text := "";
      var rest := file;
      while rest != ""
        invariant text + Dump(rest) == Dump(file)
        decreases |rest|
      {
        Regroup(text, Head(rest, '\n') + "\n", Dump(Tail(rest, '\n')));
        text := text + (Head(rest, '\n') + "\n");
        rest := Tail(rest, '\n');
      }
      assert text + "" == text;
    }

    method DispatchPhones(from: string, cmd: Command)
      modifies this`locked, this`whitelist, this`emergencyPhone, this`file, this`outbox
      ensures Controls() == ExecutePhones(old(Controls()), from, cmd)
    {
      hide Render, ValidPhone;
      match cmd
      case Lock =>
        if from in whitelist {
          SendSMS(from, Locked);
          locked := true;
        } else {
          SendSMS(from, CannotLock);
        }
      case Unlock(pin) =>
        if pin == PIN {
          SendSMS(from, Unlocked);
          locked := false;
        } else {
          SendSMS(from, WrongPin);
        }
      case AddPhone(tokens) => AddPhoneNumber(from, tokens);
      case RemovePhone(tokens) => RemovePhoneNumber(from, tokens);
      case SetEmergency(tokens) => SetEmergencyPhone(from, tokens);
      case RemoveEmergency =>
        if emergencyPhone != "" {
          SendSMS(from, EmergencyRemoved);
        }
        emergencyPhone := "";
      case _ =>
    }

    method AddPhoneNumber(from: string, tokens: seq<string>)
      modifies this`whitelist, this`file, this`outbox
      ensures Controls() == ExecutePhones(old(Controls()), from, AddPhone(tokens))
    {
      hide Render, ValidPhone;
      if !locked && |tokens| == 3 {
        if ValidPhone(tokens[2]) {
          whitelist := whitelist + {tokens[2]};
          SendSMS(from, PhoneAdded(tokens[2]));
          SaveState();
        } else {
          SendSMS(from, PhoneInvalid(tokens[2]));
        }
      }
    }

    method RemovePhoneNumber(from: string, tokens: seq<string>)
      modifies this`whitelist, this`file, this`outbox
      ensures Controls() == ExecutePhones(old(Controls()), from, RemovePhone(tokens))
    {
      hide Render, ValidPhone;
      if !locked && |tokens| == 3 {
        whitelist := whitelist - {tokens[2]};
        SendSMS(from, PhoneRemoved(tokens[2]));
        SaveState();
      }
    }

    method SetEmergencyPhone(from: string, tokens: seq<string>)
      modifies this`emergencyPhone, this`file, this`outbox
      ensures Controls() == ExecutePhones(old(Controls()), from, SetEmergency(tokens))
    {
      hide Render, ValidPhone;
      if |tokens| == 4 {
        if ValidPhone(tokens[3]) {
          emergencyPhone := tokens[3];
          SendSMS(from, EmergencySet(tokens[3]));
          SaveState();
        } else {
          SendSMS(from, PhoneInvalid(tokens[3]));
        }
      }
    }

    // -------------------------------------------------------------- watchdogs

    /** One check of the 3G module, when its timer fired. */
    method Check3G(seen: Seen)
      modifies this`defaultState, this`heaterStates, this`threeGErrors, this`outbox
      ensures Abs() == Step(old(Abs()), Input.Check3G(seen))
    {
      match seen
      case Failed =>
        threeGErrors := (threeGErrors + 1) % WORD;
        if threeGErrors == MODULE_3G_ERROR_THRESHOLD {
          SetEveryHeater(Defrost);
        }
      case Neutral =>
      case Recovered =>
        if threeGErrors >= MODULE_3G_ERROR_THRESHOLD {
          SendSMS(emergencyPhone, FallbackOver);
        }
        threeGErrors := 0;
    }

    method CheckSMSDaemon(seen: Seen)
      requires seen != Neutral
      modifies this`defaultState, this`heaterStates, this`daemonErrors, this`outbox
      ensures Abs() == Step(old(Abs()), CheckDaemon(seen))
    {
      if seen == Failed {
        daemonErrors := (daemonErrors + 1) % WORD;
        if daemonErrors == DAEMON_ERROR_THRESHOLD {
          SetEveryHeater(Defrost);
        }
      } else {
        if daemonErrors != 0 && emergencyPhone != "" {
          SendSMS(emergencyPhone, FallbackOver);
        }
        daemonErrors := 0;
      }
    }

    method CheckWifi(seen: Seen)
      modifies this`wifiErrors, this`outbox
      ensures Abs() == Step(old(Abs()), Input.CheckWifi(seen))
    {
      match seen
      case Failed =>
        wifiErrors := (wifiErrors + 1) % WORD;
        if wifiErrors == WIFI_ERROR_THRESHOLD && emergencyPhone != "" {
          SendSMS(emergencyPhone, WifiLost);
        }
      case Neutral =>
      case Recovered =>
        if wifiErrors != 0 && emergencyPhone != "" {
          SendSMS(emergencyPhone, WifiRestored);
        }
        wifiErrors := 0;
    }

    // ------------------------------------------------------------ connections

    method HandleNewDevice(fd: int, now: int)
      modifies this`connections
      ensures connections == C.Step(old(connections), C.Accept(fd), now)
    {
      connections := connections + [C.Connection(fd, now)];
    }

    /** Walks the list, erasing and closing what is stale. */
    method CheckStaleConnections(now: int)
      modifies this`connections, this`closed
      ensures connections == C.Step(old(connections), C.Sweep, now)
      ensures closed == old(closed) + C.Closes(old(connections), C.Sweep, now)
    {
      hide C.Swept, C.SweptAway;
      var i := 0;
      ghost var kept: seq<C.Connection>, rest := [], connections;
      while i < |connections|
        invariant i == |kept| && connections == kept + rest
        invariant kept + C.Swept(rest, now) == C.Swept(old(connections), now)
        invariant closed + C.SweptAway(rest, now) == old(closed) + C.SweptAway(old(connections), now)
        decreases |rest|
      {
        var c := connections[i];
        SweepOne(kept, rest, now, closed);
        DropOne(kept, rest);
        if C.WholeMinutes(now - c.lastSeen) > 10 {
          closed := closed + [c.fd];
          connections := connections[..i] + connections[i + 1..];
        } else {
          i := i + 1;
          kept := kept + [c];
        }
        rest := rest[1..];
      }
      NothingToSweep(now);
    }

    /** The name in a request: upper-cased up to the first 0x00 or 0xFF. */
    method ScanName(data: seq<byte>) returns (name: string)
      requires Terminated(data)
      ensures name == RequestName(data)
    {
      name := "";
      var i := 0;
      while data[i] != 0xFF && data[i] != 0
        invariant 0 <= i <= NameEnd(data) && |name| == i
        invariant forall k :: 0 <= k < i ==> name[k] == ToUpper(data[k] as char)
        decreases |data| - i
      {
        name := name + [ToUpper(data[i] as char)];
        i := i + 1;
      }
      assert name == ScannedName(data);
      if name != "" && !ValidName(name) {
        name := "";
      }
    }

    /** One 64-byte message from connection k. */
    method ParseMessage(k: nat, m: seq<byte>, seen: int, at: int, own: Mac)
      requires k < |connections| && |m| == MESSAGE_SIZE
      requires S.IsRequest(m) ==> Terminated(Payload(m))
      modifies this`connections, this`heaterCounters, this`heaters, this`messageCounter, this`outbox, this`replies
      ensures Net() == S.Serve(old(Net()), Mem(), old(connections)[k].fd, m, at, own)
      ensures connections
              == if S.IsRequest(m) then old(connections)[k := old(connections)[k].(lastSeen := seen)]
                 else old(connections)
    {
      hide RequestName, PackMac, EncodeReply, Rebooted, FromLittleEndian, Terminated;
      if m[0] != 1 {
        return;
      }
      if m[1] == REQ_HEATER_STATE {
        connections := connections[k := connections[k].(lastSeen := seen)];
        var name := ScanName(Payload(m));
        CheckReboot(m);
        heaterCounters := heaterCounters[SenderMac(m) := Counter(m)];
        var state := defaultState;
        if name != "" && name in heaterStates {
          state := heaterStates[name];
        }
        heaters := heaters[SenderMac(m) := Device(name, at, state)];
        SendHeaterState(connections[k].fd, state, own);
      }
    }

    /** The alarm on a counter that jumped since the last message of that device. */
    method CheckReboot(m: seq<byte>)
      requires |m| == MESSAGE_SIZE
      modifies this`outbox
      ensures outbox == if S.Alarming(Registry(heaterCounters, heaters), m)
                        then old(outbox) + [Message(emergencyPhone, DeviceRebooted(SenderMac(m)))] else old(outbox)
    {
      var mac := SenderMac(m);
      if mac in heaterCounters && Rebooted(Counter(m), heaterCounters[mac]) {
        SendSMS(emergencyPhone, DeviceRebooted(mac));
      }
    }

    method SendHeaterState(fd: int, state: HeaterState, own: Mac)
      modifies this`messageCounter, this`replies
      ensures replies == old(replies) + [(fd, EncodeReply(own, old(messageCounter), StateCode(state)))]
      ensures replies[|old(replies)|].1[16]
              == (match state case Off => 0 case Defrost => 1 case Eco => 2 case Comfort => 3)
      ensures messageCounter == (old(messageCounter) + 1) % WORD64
    {
      var data := BuildReply(own, messageCounter, StateCode(state));
      messageCounter := (messageCounter + 1) % WORD64;
      replies := replies + [(fd, data[..])];
    }

    /** Serves the ready connections: takes the descriptors down first, then looks each one
        up again in the list, which shrinks on the way. */
    method HandleConnections(ready: S.Ready, own: Mac)
      requires S.ReadyFor(ready) && C.DistinctFds(connections)
      modifies this`connections, this`heaterCounters, this`heaters, this`messageCounter, this`outbox,
               this`replies, this`closed
      ensures connections == S.AfterAll(old(connections), ready)
      ensures Net() == S.ServeAll(old(Net()), Mem(), old(connections), ready, own)
      ensures closed == old(closed) + S.HungUp(old(connections), ready)
    {
      hide S.ServeOne, S.After, S.Hang, S.ReadyFor, C.DistinctFds, FdsAmong;
      var fds := C.Fds(connections);
      ghost var was := connections;
      var i := 0;
      ghost var done: seq<C.Connection> := [];
      assert was[0..] == was && FdsAmong(done, []) by { NoneYet(); }
      while i < |fds|
        invariant 0 <= i <= |fds| == |was|
        invariant connections == done + was[i..]
        invariant FdsAmong(done, fds[..i])
        invariant done + S.AfterAll(was[i..], ready) == S.AfterAll(was, ready)
        invariant S.ServeAll(Net(), Mem(), was[i..], ready, own) == S.ServeAll(old(Net()), Mem(), was, ready, own)
        invariant closed + S.HungUp(was[i..], ready) == old(closed) + S.HungUp(was, ready)
      {
        assert connections[|done|].fd == fds[i];
        var at := FindConnection(fds[i]);
        SearchedFor(done, was, i, at);
        assert was[i..][1..] == was[i + 1..];
        Replace(done, was[i..], S.After(was[i], ready));
        Regroup(done, S.After(was[i], ready), S.AfterAll(was[i + 1..], ready));
        Regroup(closed, S.Hang(was[i], ready), S.HungUp(was[i + 1..], ready));
        AdvanceFds(done, was, i, ready);
        ServeConnection(at, ready, own);
        done := done + S.After(was[i], ready);
        i := i + 1;
      }
      NothingLeft(was, ready);
    }

    /** What is done to the connection at one position of the list. */
    method ServeConnection(at: nat, ready: S.Ready, own: Mac)
      requires at < |connections| && S.ReadyFor(ready)
      modifies this`connections, this`heaterCounters, this`heaters, this`messageCounter, this`outbox,
               this`replies, this`closed
      ensures connections == old(connections)[..at] + S.After(old(connections)[at], ready) + old(connections)[at + 1..]
      ensures Net() == S.ServeOne(old(Net()), Mem(), old(connections)[at], ready, own)
      ensures closed == old(closed) + S.Hang(old(connections)[at], ready)
    {
      hide S.Serve, S.IsRequest;
      var fd := connections[at].fd;
      if fd in ready {
        match ready[fd]
        case Broken =>
        case EndOfFile(_) =>
          closed := closed + [fd];
          connections := connections[..at] + connections[at + 1..];
        case Message(m, seen, clock) =>
          ParseMessage(at, m, seen, clock, own);
      }
    }

    /** The inner search of handleConnections. */
    method FindConnection(fd: int) returns (at: nat)
      requires exists k :: 0 <= k < |connections| && connections[k].fd == fd
      ensures at < |connections| && connections[at].fd == fd
      ensures forall k :: 0 <= k < at ==> connections[k].fd != fd
    {
      at := 0;
      while connections[at].fd != fd
        invariant at < |connections| && forall k :: 0 <= k < at ==> connections[k].fd != fd
        decreases |connections| - at
      {
        at := at + 1;
      }
    }

    // ------------------------------------------------------------ lost devices

    /** Splits the devices into those kept and those reported. */
    method CheckLostDevices(now: int) returns (lost: map<nat, string>)
      modifies this`heaters, this`outbox
      ensures Registry(heaterCounters, heaters) == Apply(old(Registry(heaterCounters, heaters)), Devices.Sweep(now))
      ensures lost == map m | m in Lost(old(heaters), now) :: old(heaters)[m].name
      ensures outbox == if emergencyPhone != "" && lost != map[]
                        then old(outbox) + [Message(emergencyPhone, DevicesLost(lost))] else old(outbox)
    {
      lost := map[];
      var todo := heaters.Keys;
      while todo != {}
        invariant todo <= old(heaters).Keys && outbox == old(outbox)
        invariant forall m :: m in heaters <==> m in old(heaters) && (m in todo || !IsLost(old(heaters)[m], now))
        invariant forall m :: m in heaters ==> heaters[m] == old(heaters)[m]
        invariant forall m :: m in lost <==> m in old(heaters) && m !in todo && IsLost(old(heaters)[m], now)
        invariant forall m :: m in lost ==> lost[m] == old(heaters)[m].name
        decreases |todo|
      {
        var m :| m in todo;
        if now - heaters[m].at >= DEVICE_LOST_THRESHOLD {
          lost := lost[m := heaters[m].name];
          heaters := heaters - {m};
        }
        todo := todo - {m};
      }
      assert heaters == Kept(old(heaters), now);
      if emergencyPhone != "" && lost != map[] {
        SendSMS(emergencyPhone, DevicesLost(lost));
      }
    }
  }

  ghost predicate FdsAmong(conns: seq<C.Connection>, fds: seq<int>) {
    forall c :: c in conns ==> c.fd in fds
  }

  lemma SearchedFor(done: seq<C.Connection>, was: seq<C.Connection>, i: nat, at: nat)
    requires C.DistinctFds(was) && i < |was| && FdsAmong(done, C.Fds(was)[..i])
    requires at < |done + was[i..]| && (done + was[i..])[at].fd == was[i].fd
    requires forall k :: 0 <= k < at ==> (done + was[i..])[k].fd != was[i].fd
    ensures at == |done|
  {
    var all := done + was[i..];
    assert all[|done|] == was[i];
    assert was[i].fd !in C.Fds(was)[..i];
    assert forall k :: 0 <= k < |done| ==> all[k] in done;
  }

  lemma Replace<T>(done: seq<T>, rest: seq<T>, x: seq<T>)
    requires rest != []
    ensures (done + rest)[|done|] == rest[0]
    ensures (done + rest)[..|done|] + x + (done + rest)[|done| + 1..] == (done + x) + rest[1..]
  {
  }

  lemma NoneYet()
    ensures FdsAmong([], [])
  {
  }

  lemma AdvanceFds(done: seq<C.Connection>, was: seq<C.Connection>, i: nat, ready: S.Ready)
    requires i < |was| && FdsAmong(done, C.Fds(was)[..i])
    ensures FdsAmong(done + S.After(was[i], ready), C.Fds(was)[..i + 1])
  {
    S.AfterOne(was[i], ready);
    hide S.After;
    var fds := C.Fds(was);
    assert fds[..i + 1] == fds[..i] + [was[i].fd];
  }

  lemma SweepOne(kept: seq<C.Connection>, rest: seq<C.Connection>, now: int, closed: seq<int>)
    requires rest != []
    ensures kept + C.Swept(rest, now)
            == kept + (if C.Stale(rest[0], now) then [] else [rest[0]]) + C.Swept(rest[1..], now)
    ensures closed + C.SweptAway(rest, now)
            == closed + (if C.Stale(rest[0], now) then [rest[0].fd] else []) + C.SweptAway(rest[1..], now)
    ensures kept + [] == kept && closed + [] == closed
  {
    hide C.Stale;
    Regroup(kept, if C.Stale(rest[0], now) then [] else [rest[0]], C.Swept(rest[1..], now));
    Regroup(closed, if C.Stale(rest[0], now) then [rest[0].fd] else [], C.SweptAway(rest[1..], now));
  }

  lemma DropOne<T>(kept: seq<T>, rest: seq<T>)
    requires rest != []
    ensures (kept + rest)[|kept|] == rest[0]
    ensures (kept + rest)[..|kept|] + (kept + rest)[|kept| + 1..] == kept + rest[1..]
    ensures kept + rest == kept + [rest[0]] + rest[1..]
  {
  }

  lemma NothingToSweep(now: int)
    ensures C.Swept([], now) == [] && C.SweptAway([], now) == []
  {
  }

  lemma NothingLeft(was: seq<C.Connection>, ready: S.Ready)
    ensures S.AfterAll(was[|was|..], ready) == [] && S.HungUp(was[|was|..], ready) == []
  {
  }

  lemma {:induction false} LeastLine(lines: string, todo: set<string>, name: string, heaters: map<string, HeaterState>)
    requires IsLeast(name, todo) && todo <= heaters.Keys
    ensures lines + HeaterLines(Sorted(todo), heaters)
            == lines + (HeaterLine(name, heaters[name]) + "\n") + HeaterLines(Sorted(todo - {name}), heaters)
  {
    hide HeaterLine;
    SortedTake(todo, name);
    var more := Sorted(todo - {name});
    assert ([name] + more)[1..] == more;
    Regroup(lines, HeaterLine(name, heaters[name]) + "\n", HeaterLines(more, heaters));
  }

  lemma LeastPhone(phones: string, todo: set<string>, no: string)
    requires IsLeast(no, todo)
    ensures phones + Joined(Sorted(todo))
            == phones + no + (if todo == {no} then "" else ",") + Joined(Sorted(todo - {no}))
  {
    SortedTake(todo, no);
    var more := Sorted(todo - {no});
    assert ([no] + more)[1..] == more;
    if more == [] {
      assert todo == {no} by { assert todo - {no} == {}; }
      assert phones + no + "" + "" == phones + no;
    } else {
      assert todo != {no};
      assert Joined(Sorted(todo)) == no + "," + Joined(more);
      Regroup(phones, no + ",", Joined(more));
      Regroup(phones, no, ",");
    }
  }
}
