# Verified model of the connected heater system

A base station takes orders by SMS and tells any number of ESP8266 heater controllers
which state to be in: off, defrost, eco or comfort. Heaters ask over TCP with 64-byte
messages, about once a minute, and drive two pins of the pilot wire. This project models
both programs and the protocol between them in Dafny and proves what they keep over every
run.

`dafny verify dfyconfig.toml` checks the whole project.

## How it is laid out

| file | content |
|---|---|
| Text.dfy, Order.dfy | trimming, tokens, `getline`, clamping `substr`; the order of `std::map` |
| StateFile.dfy, TornSave.dfy | the state file: printing, loading, their round trip; a save cut short |
| SmsGrammar.dfy, CommandTexts.dfy | which SMS text is which command, in both directions |
| Watchdog.dfy | the WiFi, 3G and daemon failure counters |
| Control.dfy, ControlProperties.dfy | the base station as a value machine, and what holds of every run |
| TextEffects.dfy | what each documented text does, from its words to the settings, the reply and the lines of the file |
| Notices.dfy | the messages and fallbacks of the three watchdogs over a run |
| History.dfy | the changes of a run, what the state file keeps of them, what a restart loses |
| Wire.dfy, Framing.dfy | the messages, and the loops that move them in arbitrary pieces |
| Devices.dfy, Connections.dfy, Serving.dfy | reboot detection and lost devices; the connection list; answering requests |
| BaseStation.dfy | the `BaseStation` object, each method proved against the machines above |
| Firmware.dfy, ErrorLog.dfy, Button.dfy | the heater as a value machine, its error page, its reset button |
| HeaterController.dfy | the heater object and its loop, proved against these |
| Settings.dfy | the settings record, the EEPROM, registration |
| Fleet.dfy, FleetTrace.dfy, FleetAlarms.dfy | one base, many heaters and any other clients: bounded staleness, the same by the events alone, from SMS to pin, the reboot alarm |
| EndToEnd.dfy | one order and one exchange, from the text to the two pins |

Objects of the programs are classes whose methods update fields and arrays in place with
the loops of the source; each method's postcondition equates the new state with a
specification function of the old one. The run-level theorems are about those functions.

Main results: `EndToEnd.OrderReachesPins` (the text of an order, and the pins after it),
`FleetTrace.StalenessByEvents` and `FleetTrace.HeaterFollowsLastOrder` (how old a heater's
state can be, and which SMS it comes from), `FleetAlarms.RebootAlarmExactly`,
`History.RunIsItsHistory`, `LookupIsLastSetting` and `DurableExactly` (what every run and
restart keeps), `StateFile.RoundTrip`, `LoadIsStable` and `FileLinesExactly`,
`TornSave.TornExactly` and `NoStrangerListedExactly`, `ControlProperties.RunGood`,
`LockHeldExactly`, `LockHolds`, `QueueConserved` and `RunsAlternate`,
`Notices.WifiMessages` and `FallbackExactly`, `SmsGrammar.HeaterTextsExactly`,
`CommandTexts.PhoneTextsExactly`, `TextEffects.HeaterOrderTexts` and `LoggedOneExactly`,
`Watchdog.ActsExactly`, `OneEventPerStretch`, `FallbacksAlternate` and `OutageExactly`,
`Firmware.FailSafeAlways`, `Framing.InterleavingIsSequential`,
`Settings.TornWriteRejected`, `RegistrationSurvives` and `Commission`,
`Connections.Conservation` and `IdleBound`.

The numbers, words and pins that the programs and their protocol fix stand in the laws as
such: 0 to 3 for the states on the wire, the pairs of pins, the words of the commands and of
the file, and the thresholds.

## Where the code and its description differ

The model follows the code.

- base_station/README.md says any phone may send `UNLOCK`. The sender check comes first, so
  that only a listed phone can. And the PIN is not the only way: `DEBUG REBOOT` from a
  listed phone ends the lock too, because the next process starts unlocked.
  `ControlProperties.LockedHandle` and `LockHeldExactly` say that these two, from a listed
  phone, are exactly what ends it; `ControlProperties.RebootEndsLock` is the failing case.
- `DEBUG REBOOT` loses the commands queued behind it in the same tick, unlike those that
  come a tick later: `ControlProperties.QueueConserved` and `RebootShowsTicks`.
- `HEATER OFF`, with no name, is an order to a heater called `OFF`, and the file key
  `heater_state` sets a heater called `STATE`: the length computed for `substr` wraps and
  is clamped. `SmsGrammar.HeaterTextsExactly` and `StateFile.HeaterKeysExactly` give the
  exact texts.
- "One alarm per outage" fails once a 32-bit counter has gone round.
  `Watchdog.OneEventPerStretch`, `FallbacksAlternate` and `OutageExactly` say exactly when
  it holds, and `Watchdog.LongOutageIsNotAnnounced` is a failing case.
- The SMS daemon and WiFi checks announce a recovery after any failure, so that one failed
  look at the daemon is followed by "All heaters were set to DEFROST" though no fallback
  happened. `Watchdog.OutageExactly` gives the numbers of failures for which a notice
  follows its alarm; `Watchdog.ShortOutageIsAnnounced` and
  `ControlProperties.NoticeWithoutFallback` are failing cases.
- The fallback to DEFROST, `REMOVE EMERGENCY PHONE` and the lock are not written to the
  state file. `History.DurableExactly` says, for every run, exactly when a restart brings
  back the settings in memory; `History.CommandDurableExactly`, `FallbackDurableExactly`
  and `DaemonFallbackDurableExactly` say it of one step; `History.FallbackIsLost` and
  `RemovalIsLost` are failing cases, and `History.LockIsNotDurable` is about the lock.
- The state file is truncated and rewritten in place. `TornSave.TornExactly` says what a
  save cut after any number of characters is loaded as; a cut inside a phone number can
  list another one, exactly when `TornSave.NoStrangerListedExactly` says, and
  `TornSave.StrangerListed` is a failing case.
- After an error in the middle of a message the base keeps the connection and takes the
  next 64 bytes from where it stopped: `Framing.ReceiveAfterError`.
- The scan for the name in a request runs past the message when the payload holds neither
  0x00 nor 0xFF (`Wire.TerminatedExactly`); `Wire.RunawayScan` is such a message.
- A registration that passes `check_params` can still fail `settings_check` after the
  reboot, exactly when the network name or the base address begins with a NUL
  (`Settings.RegistrationSurvives`).

## Model

| member | source | states |
|---|---|---|
| StateFile.HeaterKeysExactly | base_station/src/base_station.cpp:1641-1643 | the file keys read as heater entries are exactly the printed form and the overlapping key heater_state |
| StateFile.HeaterIsLastLine | base_station/src/base_station.cpp:1611-1692 | in any file a heater is loaded as the last line naming it with a state word says, and is absent when there is none |
| StateFile.LoadTextWellFormed | base_station/src/base_station.cpp:1603-1697 | whatever the text, loaded names are valid and upper case and loaded phones have 10 to 14 digits |
| StateFile.RoundTrip | base_station/src/base_station.cpp:1603-1751 | loading what was saved restores default, heaters, whitelist and emergency phone |
| StateFile.LoadIsStable | base_station/src/base_station.cpp:1603-1751 | for any file text, one load and save reaches a fixed point of both |
| StateFile.RenderInjective | base_station/src/base_station.cpp:1699-1751 | two memories are written alike only when they are the same |
| StateFile.FileLinesExactly | base_station/src/base_station.cpp:1699-1751 | a saved file line by line: the default state, one line for each heater in increasing order, the phones with commas between them, the emergency phone |
| StateFile.SettingsAreLastLines | base_station/src/base_station.cpp:1628-1691 | in any file the default is what the last line for it says, DEFROST when that is no state word; the emergency phone is the last valid one; the phones are all valid numbers of all lists |
| StateFile.FormatsExactly | base_station/src/base_station.cpp:65-100 | a phone number is 10 to 14 digits and a name one or more ASCII letters and digits |
| TornSave.TornExactly | base_station/src/base_station.cpp:1603-1751 | a save cut after any number of characters is loaded as the default state if its word is whole, else DEFROST, the heaters whose lines are whole, the whole phones of the list and what is there of the next if it has the length of one, and the same of the emergency phone |
| TornSave.TornIsPartial | base_station/src/base_station.cpp:1603-1751 | whatever the cut, no heater gets a state it was not given, and every number loaded is the beginning of one that was saved |
| TornSave.NoStrangerListedExactly | base_station/src/base_station.cpp:1667-1746 | no cut lists a number that was not listed exactly when every beginning of ten or more digits of a listed number is listed |
| TornSave.StrangerListed | base_station/src/base_station.cpp:1667-1746 | one listed number of eleven digits, cut after ten, lists another |
| Order.SortedIncreasing | base_station/src/base_station.cpp:1721-1744 | heater lines and phones are written in increasing order of name |
| SmsGrammar.SuffixUnique | base_station/src/base_station.cpp:924-984 | at most one state word ends a text, so the order of the HEATER branches does not matter |
| SmsGrammar.HeaterTextsExactly | base_station/src/base_station.cpp:924-997 | the texts read as an order to heater n are exactly the documented form and the nameless form that names the word itself |
| SmsGrammar.HeaterRoundTrip | base_station/src/base_station.cpp:882-997 | an order in any letter case and padding is read as the upper-cased name and its state word |
| SmsGrammar.EveryUnlockHasPin | base_station/src/base_station.cpp:882-1068 | whatever text was sent, when it normalises to one with the UNLOCK prefix there is a second token to read |
| SmsGrammar.UnlockRead | base_station/src/base_station.cpp:1063-1069 | a one-word PIN is read as written |
| SmsGrammar.AddPhoneRead | base_station/src/base_station.cpp:1076-1082 | the number of a documented ADD PHONE command is the third token |
| CommandTexts.AllTextsExactly | base_station/src/base_station.cpp:890-923 | PING, VERSION and the five ALL commands are read from those texts and from no others |
| CommandTexts.GetTextsExactly | base_station/src/base_station.cpp:998-1055 | the same of GET DEFAULT, GET HEATER with a valid name, and GET IP |
| CommandTexts.PhoneTextsExactly | base_station/src/base_station.cpp:1056-1132 | the same of LOCK, UNLOCK, ADD PHONE, REMOVE PHONE, SET EMERGENCY PHONE and REMOVE EMERGENCY PHONE, read as the words of the text |
| CommandTexts.HelpAndDebugExactly | base_station/src/base_station.cpp:1133-1210 | the same of HELP, which must not come again in the text, and the DEBUG commands |
| CommandTexts.BadHeaterExactly | base_station/src/base_station.cpp:924-997 | a HEATER text is refused exactly when it ends in a state word and the name before it is not valid |
| CommandTexts.RemovePhoneRead | base_station/src/base_station.cpp:1096-1102 | the number of a documented REMOVE PHONE command is the third token |
| CommandTexts.SetEmergencyRead | base_station/src/base_station.cpp:1109-1115 | the number of a documented SET EMERGENCY PHONE command is the fourth |
| TextEffects.NormalisePadded | base_station/src/base_station.cpp:882-888 | blanks around a text and the case of its letters do not matter |
| TextEffects.FirstStart | base_station/src/base_station.cpp:401-426 | with no file the base starts in DEFROST with no heater and no phone, and writes the three lines that say so |
| TextEffects.AllOrder | base_station/src/base_station.cpp:894-923 | after ALL OFF, DEFROST, ECO, COMFORT or ON every name is told off, defrost, eco, comfort or comfort, the reply is the text, and the file begins with that default |
| TextEffects.HeaterOrderTexts | base_station/src/base_station.cpp:924-997 | after HEATER n and such a word the name n is told that state and no other name anything new, the reply is the text, and the file has the line of that heater |
| TextEffects.AddPhoneEffect | base_station/src/base_station.cpp:1076-1095 | ADD PHONE lists a number of 10 to 14 digits and saves, refuses another, and does nothing on a locked base |
| TextEffects.RemovePhoneEffect | base_station/src/base_station.cpp:1096-1108 | REMOVE PHONE takes the number off the list, keeps every other, and saves; on a locked base it does nothing |
| TextEffects.SetEmergencyEffect | base_station/src/base_station.cpp:1109-1126 | SET EMERGENCY PHONE sets and saves a number of 10 to 14 digits and refuses another |
| TextEffects.RemoveEmergencyEffect | base_station/src/base_station.cpp:1127-1132 | REMOVE EMERGENCY PHONE is confirmed only when there was one, and does not write the file |
| TextEffects.LockEffect | base_station/src/base_station.cpp:1056-1062 | LOCK works from a listed phone and from no other |
| TextEffects.UnlockEffect | base_station/src/base_station.cpp:1063-1075 | UNLOCK works with 1234 and with no other PIN |
| TextEffects.WordCountMatters | base_station/src/base_station.cpp:1082-1114 | a phone command with more or fewer words is dropped in silence |
| TextEffects.GetDefaultEffect | base_station/src/base_station.cpp:998-1012 | GET DEFAULT names the default state and changes nothing |
| TextEffects.GetHeaterEffect | base_station/src/base_station.cpp:1013-1039 | GET HEATER names the heater's own state or else the default, and changes nothing |
| TextEffects.AnswersOnly | base_station/src/base_station.cpp:890-1210 | the other queries are answered to the sender and change nothing |
| TextEffects.RebootText | base_station/src/base_station.cpp:1167-1169 | DEBUG REBOOT is the only text that reboots |
| TextEffects.LoggedAllExactly | base_station/src/base_station.cpp:894-923 | a change of all in the history is that of an ALL text with this very word from a phone that is heard, and of no other |
| TextEffects.LoggedOneExactly | base_station/src/base_station.cpp:924-997 | a change of one heater in the history is that of a HEATER text for it with this very word from a phone that is heard, and of no other |
| Watchdog.FiredExactly | base_station/src/base_station.cpp:1270-1300 | threshold events of any sequence of checks, counted per recovery-free stretch, 32-bit wrap included |
| Watchdog.OneEventPerStretch | base_station/src/base_station.cpp:1270-1300 | one event per stretch that reaches the threshold, exactly when no stretch goes a whole word beyond it |
| Watchdog.ActsExactly | base_station/src/base_station.cpp:1270-1540 | the alarms and notices of any sequence of checks and restarts, in order, stretch by stretch, 32-bit wrap included |
| Watchdog.FallbacksAlternate | base_station/src/base_station.cpp:1416-1470 | over any checks and restarts 3G fallbacks and recovery notices strictly alternate, a fallback first, exactly when every stretch that reaches six ends with a recovery before the counter goes round, but for the last to reach it, which may be cut by a restart or go round once |
| Watchdog.RestartSkipsNotice | base_station/src/base_station.cpp:401-475 | two outages with a restart between them: two fallbacks and one notice |
| Watchdog.OutageExactly | base_station/src/base_station.cpp:1270-1540 | one outage is silent or one alarm and one notice, exactly for the numbers of failures named: below 2^32 for the 3G module; none or from the threshold on for the daemon and WiFi, with the exceptions round 2^32 that the counter makes |
| Watchdog.ShortOutageIsAnnounced | base_station/src/base_station.cpp:1522-1539 | one failed look and a recovery give a notice with no alarm before it |
| Watchdog.LongOutageIsNotAnnounced | base_station/src/base_station.cpp:1451-1468 | an outage of 2^32 failed checks ends without its notice |
| ControlProperties.BootGood | base_station/src/base_station.cpp:425-426 | whatever file is found or missing, the constructor establishes the invariant |
| ControlProperties.RunGood | base_station/src/base_station.cpp:858-1217 | over every run, restarts included, settings are well formed and locked implies a whitelist |
| ControlProperties.EveryRunGood | base_station/src/base_station.cpp:401-475 | the same from any state file on |
| ControlProperties.NameStored | base_station/src/base_station.cpp:887-996 | every heater name an order can store is valid and upper case |
| ControlProperties.ActsAreRun | base_station/src/base_station.cpp:1416-1470 | the fallbacks and notices of any run are those of what its 3G checks saw and of its restarts |
| ControlProperties.RunsAlternate | base_station/src/base_station.cpp:1416-1470 | over any run from a start, restarts and reboots by command included, fallbacks and notices alternate exactly under that condition |
| ControlProperties.FallbacksAreFired | base_station/src/base_station.cpp:1416-1434 | the fallbacks among them are the threshold events |
| ControlProperties.OneFallbackPerOutage | base_station/src/base_station.cpp:1416-1434 | over any run, restarts included, one fallback per outage of six failed checks, exactly when the counter does not go round |
| ControlProperties.NoticeWithoutFallback | base_station/src/base_station.cpp:1522-1539 | a failed daemon or WiFi check below the threshold, then a recovery: the emergency phone is told of a recovery and nothing else has changed |
| Notices.WifiMessages | base_station/src/base_station.cpp:1270-1300 | over any run with a fixed emergency phone the WiFi checks send it, in order, the alarms at the fifteenth failure and the notices of recovery, and nothing when there is no phone |
| Notices.DaemonMessages | base_station/src/base_station.cpp:1489-1540 | over any run the daemon checks send the notices of recovery, and nothing when there is no phone |
| Notices.ModemMessages | base_station/src/base_station.cpp:1416-1470 | over any run the 3G checks send the notices of recovery from six failures or more |
| Notices.FallbackExactly | base_station/src/base_station.cpp:1416-1513 | in any run a check puts every heater at DEFROST exactly at the sixth failure in a row of the 3G module or the daemon, and else changes no setting |
| ControlProperties.HeaterOrder | base_station/src/base_station.cpp:924-997 | an accepted order in any case and padding sets that heater to the state of its word and no other, and its reply means the same order |
| ControlProperties.LockedHandle | base_station/src/base_station.cpp:867-1169 | the lock ends exactly with the right PIN or DEBUG REBOOT from a listed phone; unlisted phones change nothing; a reboot leaves what the file says |
| ControlProperties.LockHolds | base_station/src/base_station.cpp:867-1169 | until it ends the whitelist is constant and the outcome is that of the listed phones' commands alone |
| ControlProperties.LockHeldExactly | base_station/src/base_station.cpp:867-1169 | over any commands the base is locked all the way exactly when none is the right PIN or DEBUG REBOOT from a listed phone |
| ControlProperties.RebootEndsLock | base_station/src/base_station.cpp:1167-1169 | DEBUG REBOOT from a listed phone puts a locked base on its file, unlocked, and every phone is heard |
| ControlProperties.DrainGood | base_station/src/base_station.cpp:858-1217 | one tick keeps the invariant |
| ControlProperties.StepGood | base_station/src/base_station.cpp:464-475 | every step keeps the invariant |
| ControlProperties.LockedRun | base_station/src/base_station.cpp:867-1169 | over runs with watchdogs and ticks in between, the lock and whitelist hold and nothing restarts the base, until the right PIN or DEBUG REBOOT arrives from a listed phone |
| ControlProperties.LockProcedure | base_station/README.md:77-80 | a phone that adds itself and locks is listed, shuts unlisted phones out, and can unlock |
| ControlProperties.DrainHandlesPrefix | base_station/src/base_station.cpp:858-1169 | one tick handles a prefix of the queue, command by command, up to a refused sender or a reboot |
| ControlProperties.GoesDownExactly | base_station/src/base_station.cpp:1167-1169 | a tick reboots exactly when the last command it takes is DEBUG REBOOT from a phone that is heard then; what comes of it is a start on the file of that moment |
| ControlProperties.TakenExactly | base_station/src/base_station.cpp:858-880 | a tick goes on while commands are from phones that are heard and are no DEBUG REBOOT, and leaves commands behind only after a refused or a rebooting one |
| ControlProperties.QueueConserved | base_station/src/base_station.cpp:464-1169 | over every run, checks and restarts included, the SMS executed, refused or lost, followed by the queue, are those queued at first and those that arrived, in order and once; only a restart or an executed DEBUG REBOOT loses any |
| ControlProperties.TicksUnobservable | base_station/src/base_station.cpp:494-880 | the state is that of handling one by one the commands not lost, so when none is, how they fell into ticks, and that a refused sender ends a tick early, cannot be told from the outcome |
| ControlProperties.RebootShowsTicks | base_station/src/base_station.cpp:1167-1169 | DEBUG REBOOT and another command: in one tick the other is lost, in two it is handled |
| ControlProperties.QueueDrains | base_station/src/base_station.cpp:858-880 | with no arrivals n commands are gone after at most n ticks |
| History.RunIsItsHistory | base_station/src/base_station.cpp:858-1751 | over every run, memory and file are what replaying its changes, saves and reloads makes of those at the start |
| History.FileIsLastSave | base_station/src/base_station.cpp:1699-1751 | over every run the file loads to the memory as of the last saving command |
| History.LookupIsLastSetting | base_station/src/base_station.cpp:894-997 | after any run the state told for any name is that of the last order or fallback aimed at it or at all heaters, where a restart forgets what was not saved before it |
| History.OnlyTwoSkipFile | base_station/src/base_station.cpp:1127-1132 | in any run the changes not yet saved are fallbacks and removals of the emergency phone |
| History.DurableExactly | base_station/src/base_station.cpp:1127-1513 | over every run, a restart brings back the settings in memory exactly when no unsaved fallback changed anything and no emergency phone was removed since the last save |
| History.BootClean | base_station/src/base_station.cpp:425-426 | after any start the file holds the memory |
| History.CommandDurableExactly | base_station/src/base_station.cpp:1127-1132 | a command leaves memory and file alike exactly unless it is an accepted removal of an emergency phone that there is |
| History.FallbackDurableExactly | base_station/src/base_station.cpp:1416-1470 | a 3G check is undone by a restart exactly when it falls back on settings that are not all DEFROST |
| History.DaemonFallbackDurableExactly | base_station/src/base_station.cpp:1489-1540 | the same of a daemon check |
| History.FallbackIsLost | base_station/src/base_station.cpp:1431-1433 | everything at COMFORT and saved, the sixth failed check, a restart: COMFORT again |
| History.RemovalIsLost | base_station/src/base_station.cpp:1127-1132 | an emergency phone confirmed as removed is back after a restart |
| History.LockIsNotDurable | base_station/src/base_station.cpp:409-426 | a restart brings back the settings of the file and hears every phone |
| History.WhitelistIsDurable | base_station/src/base_station.cpp:1076-1108 | over every run a restart brings back the whitelist as it was |
| History.DumpExactly | base_station/src/base_station.cpp:1141-1148 | the reply to DEBUG FILESTATE is the file, ended by a newline |
| Wire.LittleEndianRoundTrip | base_station/src/base_station.cpp:731-732 | counters are read back from their bytes |
| Wire.MacRoundTrip | base_station/src/base_station.cpp:734-740 | unpacking inverts packing, in 48 bits |
| Wire.MacDistinct | base_station/src/base_station.cpp:820-821 | two addresses never share a registry entry |
| Wire.MacRepack | base_station/src/base_station.cpp:1343-1349 | packing inverts unpacking |
| Wire.TerminatedExactly | base_station/src/base_station.cpp:755-757 | the name scan stops inside the payload exactly when it holds a 0x00 or 0xFF |
| Wire.RunawayScan | base_station/src/base_station.cpp:755-757 | a request whose payload is 48 letters is received and its scan does not stop inside |
| Wire.RequestRoundTrip | heater_firmware/commissioned.cpp:446-452 | the base reads version, type, packed MAC, counter and upper-cased name back from any request |
| Wire.ReplyRoundTrip | heater_firmware/commissioned.cpp:505-533 | any reply of the base is accepted by the heater as the state sent, by its number |
| Wire.RequestLayout | heater_firmware/commissioned.cpp:446-452 | a request byte by byte: version 1, type 1, address, counter with its lowest byte first, name, NUL, 0xFF |
| Wire.ReplyLayout | base_station/src/base_station.cpp:1226-1237 | a reply byte by byte: version 1, type 2, address, counter, then 0 for off, 1 for defrost, 2 for eco, 3 for comfort, and 0xFF |
| Wire.JudgeExactly | heater_firmware/commissioned.cpp:505-550 | what a heater makes of a message, by its bytes |
| Wire.BuildRequest | heater_firmware/commissioned.cpp:446-452 | the record filled with 0xFF and overwritten is the encoded request |
| Wire.BuildReply | base_station/src/base_station.cpp:1226-1237 | the buffer filled with 0xFF and overwritten is the encoded reply |
| Framing.FirmwareSend | heater_firmware/commissioned.cpp:454-470 | for any pattern of partial writes the bytes moved are a prefix of the message, all of it exactly when success is reported |
| Framing.BaseSend | base_station/src/base_station.cpp:1239-1249 | the same for the reply loop |
| Framing.FirmwareReceive | heater_firmware/commissioned.cpp:487-503 | for any pattern of partial reads the buffer holds the first bytes of the stream in order |
| Framing.BaseReceive | base_station/src/base_station.cpp:655-674 | a message is taken exactly when all its bytes can be read; else the connection is kept on an error and closed at end of file |
| Framing.ReceiveAfterError | base_station/src/base_station.cpp:655-674 | after an error k bytes into a message the next message taken is the rest of that one and k bytes of the following one |
| Framing.InterleavedInOrder | base_station/src/base_station.cpp:655-674 | with both ends at work at once, whatever the interleaving, what was read is the beginning of the message in order and once |
| Framing.InterleavingIsSequential | heater_firmware/commissioned.cpp:454-503 | every interleaving ends as its writes before its reads do, so the results of the loops run one after the other are those of any interleaving |
| Framing.CarryRequest | base_station/src/base_station.cpp:655-674 | write loop and read loop together deliver the same 64 bytes in order and once |
| Framing.CarryReply | heater_firmware/commissioned.cpp:487-496 | the same in the reply direction |
| Devices.RebootedExactly | base_station/src/base_station.cpp:780-783 | on any 64-bit counters the test measures circular distance, blind only to exact opposites |
| Devices.AlarmExactly | heater_firmware/commissioned.cpp:295-303 | below 2^32-100 messages per boot the alarm means exactly a changed seed or more than 100 messages missing |
| Devices.RebootedBelow60 | base_station/src/base_station.cpp:782-783 | below 2^60 the alarm is on the true difference |
| Devices.EntryIsLastRequest | base_station/src/base_station.cpp:805-822 | a counter is stored for exactly the devices that asked, that of their last request; what is known of a tracked device is that request |
| Devices.TrackedHaveCounters | base_station/src/base_station.cpp:805-821 | every tracked device has a stored counter |
| Devices.AskedBetweenReports | base_station/src/base_station.cpp:1323-1337 | between two reports of a device there is a request from it |
| Devices.ReportsAreDue | base_station/src/base_station.cpp:1323-1337 | a sweep reports a tracked device exactly when its last request is a day old or more |
| Connections.StaleAtEleven | base_station/src/base_station.cpp:699 | more than ten whole minutes means eleven minutes or more |
| Connections.Conservation | base_station/src/base_station.cpp:481-706 | every descriptor was accepted as often as it was closed and is listed |
| Connections.ListedAreOpen | base_station/src/base_station.cpp:457-489 | the listed descriptors are exactly those accepted and not closed since |
| Connections.AlwaysDistinct | base_station/src/base_station.cpp:481-489 | the listed descriptors are distinct |
| Connections.SeenIsHeard | base_station/src/base_station.cpp:749-751 | over any run a listed connection was last seen at its accept or last request, and nothing else counts |
| Connections.SweepIsDue | base_station/src/base_station.cpp:695-706 | a sweep drops a listed connection exactly when that is eleven minutes ago or more |
| Connections.IdleBound | base_station/src/base_station.cpp:695-706 | with sweeps at most a period apart nothing listed is idle for eleven minutes and a period |
| Serving.RequestServed | base_station/src/base_station.cpp:749-823 | a heater's request is answered with 0, 1, 2 or 3 as its name is to be off, defrost, eco or comfort, and filed under its MAC |
| Serving.NamelessServed | base_station/src/base_station.cpp:807-823 | a request without a valid name is answered with the default state |
| Serving.OnlyRequestsServed | base_station/src/base_station.cpp:741-750 | a message does anything at all exactly when it is of version 1 and type 1 |
| Serving.AfterAllFds | base_station/src/base_station.cpp:648-677 | serving closes the connections that hung up and unlists only those |
| Serving.ServingIsEvents | base_station/src/base_station.cpp:648-677 | serving a list is a run of refresh and hang-up events on it |
| BaseStations.BaseStation.constructor | base_station/src/base_station.cpp:401-455 | starts from the file, or writes a first one |
| BaseStations.BaseStation.SaveState | base_station/src/base_station.cpp:1699-1751 | the file becomes the printed memory |
| BaseStations.BaseStation.HeaterSection | base_station/src/base_station.cpp:1721-1736 | the loop over the map prints the heater lines in sorted order |
| BaseStations.BaseStation.PhoneList | base_station/src/base_station.cpp:1738-1746 | the loop over the set prints the phones in sorted order, with commas between them only |
| BaseStations.BaseStation.LoadState | base_station/src/base_station.cpp:1603-1697 | the memory becomes what the text says on top of it |
| BaseStations.BaseStation.LoadKey | base_station/src/base_station.cpp:1628-1691 | one key and value are taken into the memory as the load function says |
| BaseStations.BaseStation.LoadWhitelist | base_station/src/base_station.cpp:1667-1678 | the well-formed numbers of a comma list are added |
| BaseStations.BaseStation.HandleSMSCommand | base_station/src/base_station.cpp:494-498 | one call is one Arrive step |
| BaseStations.BaseStation.ParseCommands | base_station/src/base_station.cpp:858-1217 | one call is one Commands step: handles commands until the queue is empty, one is refused or the machine reboots, and says which |
| BaseStations.BaseStation.Dispatch | base_station/src/base_station.cpp:890-1216 | one command has the effect of the execution function on settings, lock, file and SMS sent, or reboots |
| BaseStations.BaseStation.AnswerQuery | base_station/src/base_station.cpp:1040-1210 | GET IP and the DEBUG commands are answered and change nothing, but for DEBUG REBOOT |
| BaseStations.BaseStation.ReadFile | base_station/src/base_station.cpp:1141-1148 | the getline loop copies the file, each line ended |
| BaseStations.BaseStation.DispatchPhones | base_station/src/base_station.cpp:1056-1132 | the same for the lock and phone commands |
| BaseStations.BaseStation.AddPhoneNumber | base_station/src/base_station.cpp:1076-1095 | a valid number is added and saved unless the base is locked |
| BaseStations.BaseStation.RemovePhoneNumber | base_station/src/base_station.cpp:1096-1108 | the number is removed and the state saved unless the base is locked |
| BaseStations.BaseStation.SetEmergencyPhone | base_station/src/base_station.cpp:1109-1126 | a valid number becomes the emergency phone and is saved |
| BaseStations.BaseStation.LoadOneLine | base_station/src/base_station.cpp:1612-1627 | one line of the file is taken as the load function says, none without an equals sign |
| BaseStations.BaseStation.SetEveryHeater | base_station/src/base_station.cpp:895-897 | the default and every stored heater get the state |
| BaseStations.BaseStation.Check3G | base_station/src/base_station.cpp:1416-1470 | one call is one step of the 3G watchdog |
| BaseStations.BaseStation.CheckSMSDaemon | base_station/src/base_station.cpp:1489-1540 | one call is one step of the daemon watchdog |
| BaseStations.BaseStation.CheckWifi | base_station/src/base_station.cpp:1270-1303 | one call is one step of the WiFi watchdog |
| BaseStations.BaseStation.HandleNewDevice | base_station/src/base_station.cpp:481-489 | appends the connection |
| BaseStations.BaseStation.CheckStaleConnections | base_station/src/base_station.cpp:695-706 | erases and closes exactly the stale connections, keeping the order |
| BaseStations.BaseStation.ScanName | base_station/src/base_station.cpp:753-768 | the scanned name is the request's name, empty when invalid |
| BaseStations.BaseStation.ParseMessage | base_station/src/base_station.cpp:710-856 | registry, alarm, reply and refresh of one message; anything but a request is ignored |
| BaseStations.BaseStation.CheckReboot | base_station/src/base_station.cpp:780-804 | an alarm is sent exactly when the stored and received counters call for one |
| BaseStations.BaseStation.SendHeaterState | base_station/src/base_station.cpp:1224-1250 | one encoded reply with the next 64-bit counter, and 0, 1, 2 or 3 for the state |
| BaseStations.BaseStation.HandleConnections | base_station/src/base_station.cpp:623-680 | all ready connections are served in list order while the list shrinks |
| BaseStations.BaseStation.ServeConnection | base_station/src/base_station.cpp:652-676 | one connection is served, closed and unlisted, or left |
| BaseStations.BaseStation.FindConnection | base_station/src/base_station.cpp:652-654 | the first listed connection with that descriptor |
| BaseStations.BaseStation.CheckLostDevices | base_station/src/base_station.cpp:1323-1398 | keeps and reports exactly the two parts, and writes to the emergency phone when there is one |
| ErrorLog.LastFive | heater_firmware/commissioned.cpp:193-202 | the error queue holds exactly the last five records in order |
| ErrorLog.PageFits | heater_firmware/commissioned.cpp:204-249 | the error list has at most 341 characters |
| ErrorLog.PageBoundIsTight | heater_firmware/commissioned.cpp:217-247 | five timeouts with ten-digit timestamps reach them |
| ErrorLog.BuildErrorsWebpage | heater_firmware/commissioned.cpp:204-249 | the list is built inside the 512-byte buffer |
| Button.ErasesExactly | heater_firmware/commissioned.cpp:395-420 | a sample erases exactly when its press run, seen through the 32-bit clock, is ten seconds or more |
| Button.ErasesAfterTenSeconds | heater_firmware/uncommissioned.cpp:146-157 | for presses below 2^32 ms that is the true duration, wrap or not |
| Button.FirstEraseIsPrompt | heater_firmware/commissioned.cpp:395-420 | with frequent samples the first erase comes at the first sample ten seconds in, however long the press |
| Firmware.FailSafeAlways | heater_firmware/commissioned.cpp:422-570 | over every run the state is that of the last accepted reply below 15 failed cycles, else DEFROST; pins follow; the LED claims a connection only below 15 |
| Firmware.StepTracks | heater_firmware/commissioned.cpp:557-570 | one loop keeps failure word, state, LED and pins in step with the true failure count |
| Firmware.PinsExactly | heater_firmware/commissioned.cpp:167-191 | off is the positive pin alone, defrost the negative alone, eco both, comfort neither, and no pair goes with another state |
| Firmware.PendingExactly | heater_firmware/commissioned.cpp:134-165 | after any run a request is due exactly when WiFi came up or the timer fired since the last cycle |
| Firmware.LedExactly | heater_firmware/commissioned.cpp:134-145 | after any run the LED shows the last of the network going, coming, a reply obeyed, or the fifteenth failure |
| Firmware.ErrorTexts | heater_firmware/commissioned.cpp:217-239 | what the error page says of each way a cycle can fail |
| HeaterControllers.OutcomeExactly | heater_firmware/commissioned.cpp:422-551 | how a cycle ends by what it met; a reply is obeyed exactly when all went well and its bytes are a version 1 reply with a state from 0 to 3 |
| Firmware.ErrorsAreLastFive | heater_firmware/commissioned.cpp:193-202 | after any run the queue holds the last five of its errors |
| Firmware.FailuresSinceBoot | heater_firmware/commissioned.cpp:437-441 | the failure count shown is that of the run, in 32 bits |
| Firmware.CounterIsSeedAndSent | heater_firmware/commissioned.cpp:295-303 | the message counter is the seed in the upper half and the messages sent below |
| HeaterControllers.HeaterController.ApplyHeaterState | heater_firmware/commissioned.cpp:167-191 | the pins are those of the state: positive alone for off, negative alone for defrost, both for eco, neither for comfort |
| HeaterControllers.HeaterController.constructor | heater_firmware/commissioned.cpp:251-306 | starts in DEFROST, with the pins showing it and the seed in the upper half of the counter |
| HeaterControllers.HeaterController.WifiConnected | heater_firmware/commissioned.cpp:134-139 | one call is one WifiUp step |
| HeaterControllers.HeaterController.WifiDisconnected | heater_firmware/commissioned.cpp:141-145 | one call is one WifiDown step |
| HeaterControllers.HeaterController.RequestTimer | heater_firmware/commissioned.cpp:162-165 | one call is one Timer step |
| HeaterControllers.HeaterController.RecordError | heater_firmware/commissioned.cpp:193-202 | the record is pushed, the oldest dropped when there are five |
| HeaterControllers.HeaterController.CheckButton | heater_firmware/commissioned.cpp:395-420 | one call is one step of the button machine; it erases the settings exactly when that says so |
| HeaterControllers.HeaterController.ApplyFailSafe | heater_firmware/commissioned.cpp:557-570 | one call is the fail-safe |
| HeaterControllers.HeaterController.Connect | heater_firmware/commissioned.cpp:428-434 | connected exactly when one of three attempts is |
| HeaterControllers.HeaterController.ReceiveReply | heater_firmware/commissioned.cpp:472-551 | waiting, reading and judging end in the outcome function's value with its effect |
| HeaterControllers.HeaterController.RequestHeaterState | heater_firmware/commissioned.cpp:422-555 | one request cycle over any connection ends in one of eight outcomes with its effect, and puts that much of the request on the wire |
| HeaterControllers.HeaterController.HandleReply | heater_firmware/commissioned.cpp:505-550 | a whole reply is obeyed or counted as the error it is |
| HeaterControllers.HeaterController.Loop | heater_firmware/commissioned.cpp:390-574 | one pass is a factory reset that erases the settings, or one step of the firmware machine whose request carries the name in the settings |
| Settings.RegistrationSurvives | heater_firmware/settings.cpp:17-125 | a checked registration is found valid after a reboot with its strings; settings_check accepts it exactly when two strings do not begin with a NUL |
| Settings.ParamsExactly | heater_firmware/uncommissioned.cpp:33-53 | which registrations pass, by their bytes; a password may be empty |
| Settings.NameIsKept | heater_firmware/settings.cpp:76-82 | what settings_get_name copies out after a checked registration is the whole name, zero-padded |
| Settings.NameReachesBase | heater_firmware/commissioned.cpp:452 | that field, copied into a request, is read by the base as the name in capitals |
| Settings.TornWriteRejected | heater_firmware/settings.cpp:49-74 | a record whose write stopped early is loaded exactly when no byte is missing |
| Settings.Store.Load | heater_firmware/settings.cpp:17-37 | the record is the EEPROM image when both magic words are there, else zeros |
| Settings.Store.WriteRecord | heater_firmware/settings.cpp:66-73 | after each byte the EEPROM is the torn image of that length |
| Settings.Store.Erase | heater_firmware/settings.cpp:39-47 | erased settings are not valid |
| Settings.Store.Create | heater_firmware/settings.cpp:49-74 | the EEPROM is the erased image with the first bytes of the record over it |
| Settings.Store.Check | heater_firmware/settings.cpp:109-125 | non-empty strings, letters and digits in the name, both magic words |
| Settings.Registration.Register | heater_firmware/uncommissioned.cpp:105-126 | a registration is taken only while none is under way, and joins only when it passes the check |
| Settings.Registration.Await | heater_firmware/uncommissioned.cpp:167-170 | the wait ends at the first look that is connected or ten seconds in, after at most 20 rounds, clock wrap included |
| Settings.Registration.Join | heater_firmware/uncommissioned.cpp:159-174 | settings are created, in full, exactly when the look after the wait is connected |
| Settings.Commission | heater_firmware/heater_firmware.ino:19-20 | register, join, reboot, load, first request: commissioned, accepted by settings_check exactly when two strings do not begin with a NUL, and known to the base by the given name |
| Fleet.BoundedStaleness | heater_firmware/commissioned.cpp:422-570 | over every run of one base, any heaters and any other clients, a heater's state is what the base told its name within its last successful exchange with fewer than 15 failures since, else DEFROST |
| FleetTrace.StalenessByEvents | heater_firmware/commissioned.cpp:422-570 | the same by the events alone: the last successful exchange is an Ask of that heater, the Serve of that connection and the read of its reply, in this order, and the failures are its failed cycles after it |
| Fleet.StepOk | heater_firmware/commissioned.cpp:422-570 | every event keeps what is on each connection, and what each heater obeyed, tied to what the base told |
| Fleet.ServedAnswer | base_station/src/base_station.cpp:749-823 | a waiting heater's request is answered with what the base tells its name at that step |
| Fleet.BaseRuns | base_station/src/base_station.cpp:464-475 | the base of a fleet runs as the base alone on its inputs |
| Fleet.ToldIsLastOrder | base_station/src/base_station.cpp:749-823 | what the base tells a name is the last order or fallback aimed at it or at all by then, where a restart forgets what was not saved |
| FleetTrace.HeaterFollowsLastOrder | base_station/src/base_station.cpp:749-823 | so the state of a heater, by its number and its two pins, is the last such order the base had taken when it served the heater's last successful exchange, or defrost |
| EndToEnd.OrderReachesPins | heater_firmware/commissioned.cpp:167-191 | in any reachable fleet an order text and one exchange leave the heater in the state of the word, by its number and its pins |
| FleetAlarms.StepCounted | heater_firmware/commissioned.cpp:295-303 | every event keeps counters, requests under way and stored counters tied to the boot and message they belong to |
| FleetAlarms.RebootAlarmExactly | base_station/src/base_station.cpp:780-806 | over every run, serving a heater's request sends an alarm exactly when its address was served before and that request was of another boot or more than 100 messages away, or was another client's with a counter more than 100 apart |

## Left out

- Sockets, poll, timers, ioctl, the modem dialogue, the process scan, mDNS, NTP and joining WiFi: each is an arbitrary observation or result given to the methods.
- Threads and mutexes: arrivals and device connections are atomic steps between the steps of the main loop.
- BaseStations.BaseStation.AnswerQuery: the text of VERSION, GET IP, DEBUG WIFI, LOG and UPTIME comes from the build or the operating system and is only named; LOG is one reply here and up to four in the program.
- The message to the emergency phone half a minute after a start, and the removal of old SMS files.
- The wording of notices and of replies other than those to ALL and HEATER: they are named constructors.
- The page POST /unregister of a heater (heater_firmware/commissioned.cpp:373-377): it erases the settings and restarts, as the button does (Settings.Store.Erase). The other pages, LED patterns, log and serial text, version and uptime strings: no state depends on them.
- The reboot of DEBUG REBOOT is taken to succeed, and the next process to find the file that was saved last.
- How SMS files are written: outside the two programs' shared state.
- saveState when the file cannot be opened: taken to succeed.
- The EEPROM's flash sector behind the commit: it is an ordered sequence of byte writes that may stop anywhere.
- The Arduino String class: toCharArray is modelled as copying up to the first NUL and leaving room for one.
- BaseStations.BaseStation.ParseMessage: asks that a request's payload hold a 0x00 or 0xFF, because the source's scan leaves the message otherwise; `Wire.TerminatedExactly` is that condition, every commissioned heater meets it, and `Wire.RunawayScan` is a message that does not.
- BaseStations.BaseStation.ScanName: the same, of the payload it scans.
- BaseStations.BaseStation.ServeConnection: the same, of the message it passes on.
- Settings.Store.Check: asks for a NUL at or after the base address field, because strlen leaves the record otherwise; every created record has one.
- BaseStations.BaseStation.HandleConnections: the same of every message, and it takes the result of reading each ready connection as given; `Framing.BaseReceive` is the reading loop. Replies are recorded whole; `Framing.BaseSend` is the writing loop.
- IP addresses of devices and the addition of list entries by the web page: shown only.
- The registration handler when the base address parameter is missing: it reads a null parameter.
- Random seeds: arbitrary values of their width; the seeds of two boots can be equal.
- The branch for a failed connection calls sprintf without its buffer (heater_firmware/commissioned.cpp:438) and logs an array it never filled. NoConnection is a clean failure here: Firmware.FailSafeAlways and Fleet.BoundedStaleness assume that this call does no harm.
- Settings.Registration.Join: what WiFi reports at the look after the wait is an argument; nothing ties it to the looks before.
