/** The base station as a value machine: SMS commands, the three watchdogs and restarts
    acting on the settings, the lock, the state file and the command queue. The
    BaseStation class is proved against these functions. */
module Control {
  import opened Text
  import opened StateFile
  import opened SmsGrammar
  import opened Watchdog

  /** An SMS the base station sends. Heater orders are answered in words that are
      themselves commands; the other texts are only named. */
  datatype Body =
    | Words(text: string)
    | Pong | NameInvalid
    | Locked | CannotLock | Unlocked | WrongPin
    | PhoneAdded(no: string) | PhoneInvalid(no: string) | PhoneRemoved(no: string)
    | EmergencySet(no: string) | EmergencyRemoved | HelpText | InvalidCommand
    | VersionText | FileText(text: string) | StateText(default: HeaterState, heaters: map<string, HeaterState>)
    | FromSystem(query: Query)
    | WifiLost | WifiRestored | FallbackOver
    | DeviceRebooted(mac: nat) | DevicesLost(names: map<nat, string>)

  datatype Message = Message(to: string, body: Body)

  /** The memory, the lock, the state file and the SMS sent so far. */
  datatype Ctl = Ctl(mem: Persistent, locked: bool, file: string, outbox: seq<Message>)

  type Sms = (string, string)    // sender, content

  const PIN: string := "1234"

  function Say(c: Ctl, to: string, body: Body): Ctl {
    c.(outbox := c.outbox + [Message(to, body)])
  }

  ghost function Save(c: Ctl): Ctl {
    c.(file := Render(c.mem))
  }

  function SetAll(p: Persistent, s: HeaterState): Persistent {
    p.(default := s, heaters := map n | n in p.heaters :: s)
  }

  function SetOne(p: Persistent, name: string, s: HeaterState): Persistent {
    p.(heaters := p.heaters[name := s])
  }

  // ---------------------------------------------------------------- SMS commands

  /** The sender check at the head of parseCommands. */
  predicate Accepts(c: Ctl, from: string) {
    !(c.locked && c.mem.whitelist != {} && from !in c.mem.whitelist)
  }

  ghost function ExecutePhones(c: Ctl, from: string, cmd: Command): Ctl {
    match cmd
    case Lock =>
      if from in c.mem.whitelist then Say(c, from, Locked).(locked := true) else Say(c, from, CannotLock)
    case Unlock(pin) =>
      if pin == PIN then Say(c, from, Unlocked).(locked := false) else Say(c, from, WrongPin)
    case AddPhone(tokens) =>
      if c.locked || |tokens| != 3 then c
      else if !ValidPhone(tokens[2]) then Say(c, from, PhoneInvalid(tokens[2]))
      else Save(Say(c, from, PhoneAdded(tokens[2])).(mem := c.mem.(whitelist := c.mem.whitelist + {tokens[2]})))
    case RemovePhone(tokens) =>
      if c.locked || |tokens| != 3 then c
      else Save(Say(c, from, PhoneRemoved(tokens[2])).(mem := c.mem.(whitelist := c.mem.whitelist - {tokens[2]})))
    case SetEmergency(tokens) =>
      if |tokens| != 4 then c
      else if !ValidPhone(tokens[3]) then Say(c, from, PhoneInvalid(tokens[3]))
      else Save(Say(c, from, EmergencySet(tokens[3])).(mem := c.mem.(emergency := tokens[3])))
    case RemoveEmergency =>
      (if c.mem.emergency != "" then Say(c, from, EmergencyRemoved) else c)
      .(mem := c.mem.(emergency := ""))
    case _ => c
  }

  /** The lines of a file, each ended by a newline. */
  function Dump(file: string): string
    decreases |file|
  {
    if file == "" then "" else Head(file, '\n') + "\n" + Dump(Tail(file, '\n'))
  }

  /** How replies to queries name a state. */
  function Shown(s: HeaterState): string {
    match s
    case Off => "OFF"
    case Defrost => "DEFROST"
    case Eco => "ECO"
    case Comfort => "COMFORT/ON"
  }

  /** The control state of a process that has just started on this file. */
  function Afresh(file: string): Ctl {
    Ctl(Load(file), false, file, [])
  }

  /** GET IP and the DEBUG commands. What comes from the operating system is only named.
      DEBUG REBOOT takes the machine down; the next process starts on the file. */
  function Answer(c: Ctl, from: string, q: Query): Ctl {
    match q
    case FileState => Say(c, from, FileText(Dump(c.file)))
    case MemoryState => Say(c, from, StateText(c.mem.default, c.mem.heaters))
    case RebootNow => Afresh(c.file)
    case _ => Say(c, from, FromSystem(q))
  }

  ghost function Execute(c: Ctl, from: string, cmd: Command): Ctl {
    match cmd
    case Ping => Say(c, from, Pong)
    case All(w) => Say(Save(c.(mem := SetAll(c.mem, StateOf(w)))), from, Words("ALL " + Spell(w)))
    case Heater(name, w) =>
      Say(Save(c.(mem := SetOne(c.mem, name, StateOf(w)))), from, Words(HeaterText(name, w)))
    case BadHeaterName => Say(c, from, NameInvalid)
    case GetDefault => Say(c, from, Words("DEFAULT: " + Shown(c.mem.default)))
    case GetHeater(name) => Say(c, from, Words("HEATER " + name + " " + Shown(Lookup(c.mem, name))))
    case BadGetName => Say(c, from, NameInvalid)
    case Help => Say(c, from, HelpText)
    case AskVersion => Say(c, from, VersionText)
    case AskSystem(q) => Answer(c, from, q)
    case Invalid => Say(c, from, InvalidCommand)
    case _ => ExecutePhones(c, from, cmd)
  }

  function Meaning(content: string): Command {
    Parse(Normalise(content))
  }

  /** One command taken from the queue: dropped in silence, or executed. */
  ghost function Handle(c: Ctl, sms: Sms): Ctl {
    if Accepts(c, sms.0) then Execute(c, sms.0, Meaning(sms.1)) else c
  }

  predicate AsksReboot(content: string) {
    Meaning(content) == AskSystem(RebootNow)
  }

  /** One call of parseCommands ends with this command: it is dropped, or reboots. */
  predicate EndsCall(c: Ctl, sms: Sms) {
    !Accepts(c, sms.0) || AsksReboot(sms.1)
  }

  /** How many commands one call of parseCommands takes: all, or up to the first one
      dropped or that reboots. */
  ghost function Taken(c: Ctl, q: seq<Sms>): (k: nat)
    ensures k <= |q| && (q != [] ==> k > 0)
    decreases q
  {
    if q == [] then 0
    else if EndsCall(c, q[0]) then 1
    else 1 + Taken(Handle(c, q[0]), q[1..])
  }

  /** The control state after one call of parseCommands. */
  ghost function Drain(c: Ctl, q: seq<Sms>): Ctl
    decreases q
  {
    if q == [] then c
    else if EndsCall(c, q[0]) then Handle(c, q[0])
    else Drain(Handle(c, q[0]), q[1..])
  }

  /** One call of parseCommands ends in a reboot. */
  ghost predicate GoesDown(c: Ctl, q: seq<Sms>)
    decreases q
  {
    q != [] && if EndsCall(c, q[0]) then Accepts(c, q[0].0) else GoesDown(Handle(c, q[0]), q[1..])
  }

  // -------------------------------------------------- watchdogs, restart, inputs

  function SetFallback(c: Ctl): Ctl {
    c.(mem := SetAll(c.mem, Defrost))
  }

  function After3G(c: Ctl, n: nat, s: Seen): Ctl {
    var acts := Acts(n, s, MODULE_3G_ERROR_THRESHOLD, MODULE_3G_ERROR_THRESHOLD);
    if acts == [Alarm] then SetFallback(c)
    else if acts == [Notice] then Say(c, c.mem.emergency, FallbackOver)
    else c
  }

  function AfterDaemon(c: Ctl, n: nat, s: Seen): Ctl {
    var acts := Acts(n, s, DAEMON_ERROR_THRESHOLD, NOTICE_FLOOR);
    if acts == [Alarm] then SetFallback(c)
    else if acts == [Notice] && c.mem.emergency != "" then Say(c, c.mem.emergency, FallbackOver)
    else c
  }

  function AfterWifi(c: Ctl, n: nat, s: Seen): Ctl {
    var acts := Acts(n, s, WIFI_ERROR_THRESHOLD, NOTICE_FLOOR);
    if c.mem.emergency == "" then c
    else if acts == [Alarm] then Say(c, c.mem.emergency, WifiLost)
    else if acts == [Notice] then Say(c, c.mem.emergency, WifiRestored)
    else c
  }

  /** The constructor: loads the file, or writes a first one when there is none. */
  ghost function Boot(file: Option<string>): Ctl {
    match file
    case Some(text) => Afresh(text)
    case None => Save(Ctl(FRESH, false, "", []))
  }

  datatype Base = Base(ctl: Ctl, queue: seq<Sms>, threeG: nat, daemon: nat, wifi: nat)

  datatype Input =
    | Arrive(sms: Sms)
    | Commands
    | Check3G(seen: Seen)
    | CheckDaemon(seen: Seen)
    | CheckWifi(seen: Seen)
    | Restart

  ghost function Start(file: Option<string>): Base {
    Base(Boot(file), [], 0, 0, 0)
  }

  ghost function Step(b: Base, i: Input): Base {
    match i
    case Arrive(sms) => b.(queue := b.queue + [sms])
    case Commands =>
      var d := Drain(b.ctl, b.queue);
      if GoesDown(b.ctl, b.queue) then Base(d, [], 0, 0, 0)
      else b.(ctl := d, queue := b.queue[Taken(b.ctl, b.queue)..])
    case Check3G(s) => b.(ctl := After3G(b.ctl, b.threeG, s), threeG := Count(b.threeG, s))
    case CheckDaemon(s) => b.(ctl := AfterDaemon(b.ctl, b.daemon, s), daemon := Count(b.daemon, s))
    case CheckWifi(s) => b.(ctl := AfterWifi(b.ctl, b.wifi, s), wifi := Count(b.wifi, s))
    case Restart => Start(Some(b.ctl.file))
  }

  /** The process ends here, and another starts on the file. */
  ghost predicate Restarts(b: Base, i: Input) {
    i == Restart || (i == Commands && GoesDown(b.ctl, b.queue))
  }

  ghost function Run(b: Base, inputs: seq<Input>): Base {
    if inputs == [] then b else Step(Run(b, inputs[..|inputs| - 1]), inputs[|inputs| - 1])
  }
}
