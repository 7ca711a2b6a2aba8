/** The commissioned heater object: the loop with its button, its request cycle over a
    connection that may move bytes in any pieces, and its fail-safe, proved against the
    Firmware and Button machines. */
module HeaterControllers {
  import opened Wire
  import opened ErrorLog
  import opened Firmware
  import opened Framing
  import B = Button
  import Settings

  /** What one request cycle meets: the results of up to three connection attempts, the
      bytes available at each look before the timeout, whether the timeout had passed by the
      last look at the clock, and the time of the cycle. */
  datatype Meeting = Meeting(connects: seq<bool>, available: seq<nat>, late: bool, now: nat)

  predicate Answered(available: seq<nat>) {
    exists i :: 0 <= i < |available| && available[i] >= MESSAGE_SIZE
  }

  /** How the cycle ends, as a function of what it meets and of the two directions of the
      connection. */
  function OutcomeOf(m: Meeting, writes: seq<int>, data: seq<byte>, fetches: seq<int>): Outcome {
    if true !in m.connects then NoConnection
    else if Reach(writes) < MESSAGE_SIZE then WriteFailed
    else ReplyOutcome(m, data, fetches)
  }

  function ReplyOutcome(m: Meeting, data: seq<byte>, fetches: seq<int>): Outcome {
    if !Answered(m.available) || m.late then TimedOut
    else if Min(|data|, Reach(fetches)) < MESSAGE_SIZE then ReadFailed
    else Judged(Judge(data[..MESSAGE_SIZE]))
  }

  /** How a cycle ends, by what it met: the heater obeys a reply exactly when it connected,
      the whole request was written, 64 bytes were seen in time and read, and they are a
      version 1 reply with a state from 0 to 3. */
  lemma OutcomeExactly(m: Meeting, writes: seq<int>, data: seq<byte>, fetches: seq<int>)
    ensures var o := OutcomeOf(m, writes, data, fetches);
            var sent := true in m.connects && Reach(writes) >= 64;
            var inTime := !m.late && exists i :: 0 <= i < |m.available| && m.available[i] >= 64;
            var whole := |data| >= 64 && Reach(fetches) >= 64;
            && (o == NoConnection <==> true !in m.connects)
            && (o == WriteFailed <==> true in m.connects && Reach(writes) < 64)
            && (o == TimedOut <==> sent && !inTime)
            && (o == ReadFailed <==> sent && inTime && !whole)
            && (forall s :: o == Judged(Accepted(s))
                  <==> sent && inTime && whole && data[0] == 1 && data[1] == 2 && data[16] == s && s <= 3)
            && (o == Judged(BadVersion) <==> sent && inTime && whole && data[0] != 1)
            && (o == Judged(BadType) <==> sent && inTime && whole && data[0] == 1 && data[1] != 2)
            && (o == Judged(BadState) <==> sent && inTime && whole && data[0] == 1 && data[1] == 2 && data[16] > 3)
  {
    if |data| >= 64 { JudgeExactly(data[..64]); }
    hide Judge;
  }

  class HeaterController {
    var heaterState: byte
    var failureCount: nat
    var failuresSinceBoot: nat
    var led: Led
    var requestPending: bool
    var msgCounter: nat
    var lastErrors: seq<ErrorRecord>
    var positivePin: bool
    var negativePin: bool
    var buttonPressed: bool
    var buttonStart: nat

    ghost function Abs(): Fw
      reads this
    {
      Fw(heaterState, failureCount, failuresSinceBoot, led, requestPending, msgCounter, lastErrors,
         positivePin, negativePin)
    }

    ghost function ButtonState(): B.State
      reads this
    {
      B.State(buttonPressed, buttonStart)
    }

    /** The pins show the state, and the counters fit their words. */
    ghost predicate Valid()
      reads this
    {
      (positivePin, negativePin) == Pins(heaterState) && heaterState <= 3 && failureCount < Firmware.WORD32
    }

    /** setup_commissioned: DEFROST until the base says otherwise. */
    constructor (seed: nat)
      ensures Valid() && Abs() == Boot(seed) && ButtonState() == B.State(false, 0)
    {
      heaterState := DEFROST;
      failureCount, failuresSinceBoot, led, requestPending := 0, 0, NoWifi, false;
      msgCounter, lastErrors := seed * Firmware.WORD32, [];
      positivePin, negativePin, buttonPressed, buttonStart := true, true, false, 0;
      new;
      ApplyHeaterState();
    }

    method ApplyHeaterState()
      modifies this`positivePin, this`negativePin
      ensures (positivePin, negativePin) == Pins(heaterState)
      ensures heaterState <= 3 ==> Drives(positivePin, negativePin, heaterState)
    {
      if heaterState == 1 {
        positivePin, negativePin := false, true;
      } else if heaterState == 2 {
        positivePin, negativePin := true, true;
      } else if heaterState == 3 {
        positivePin, negativePin := false, false;
      } else {
        positivePin, negativePin := true, false;
      }
    }

    method WifiConnected()
      modifies this`requestPending, this`led
      ensures Abs() == Step(old(Abs()), WifiUp)
    {
      requestPending := true;
      led := NoBase;
    }

    method WifiDisconnected()
      modifies this`led
      ensures Abs() == Step(old(Abs()), WifiDown)
    {
      led := NoWifi;
    }

    method RequestTimer()
      modifies this`requestPending
      ensures Abs() == Step(old(Abs()), Timer)
    {
      requestPending := true;
    }

    method RecordError(code: ErrorCode, now: nat)
      modifies this`lastErrors
      ensures lastErrors == Pushed(old(lastErrors), ErrorRecord(code, now))
    {
      if |lastErrors| == MAX_ERROR_RECORDED {
        lastErrors := lastErrors[1..];
      }
      lastErrors := lastErrors + [ErrorRecord(code, now)];
    }

    /** What every failing branch does. */
    method CountFailure(code: ErrorCode, now: nat)
      modifies this`failureCount, this`failuresSinceBoot, this`lastErrors
      ensures failureCount == (old(failureCount) + 1) % Firmware.WORD32
      ensures failuresSinceBoot == (old(failuresSinceBoot) + 1) % Firmware.WORD32
      ensures lastErrors == Pushed(old(lastErrors), ErrorRecord(code, now))
    {
      failureCount := (failureCount + 1) % Firmware.WORD32;
      failuresSinceBoot := (failuresSinceBoot + 1) % Firmware.WORD32;
      RecordError(code, now);
    }

    /** One request cycle over a fresh connection. */
    method RequestHeaterState(m: Meeting, up: Link, down: Link, mac: Mac, field: seq<byte>)
      returns (ghost outcome: Outcome)
      requires Valid() && |m.connects| == 3 && |field| == 32 && up != down && up.data == []
      modifies this`heaterState, this`failureCount, this`failuresSinceBoot, this`led, this`requestPending,
               this`msgCounter, this`lastErrors, this`positivePin, this`negativePin, up, down
      ensures Valid()
      ensures outcome == OutcomeOf(m, old(up.plan), old(down.data), old(down.plan))
      ensures Abs() == Conclude(Begin(old(Abs()), outcome), outcome, m.now)
      ensures up.data == if outcome.NoConnection? then []
                         else EncodeRequest(mac, old(msgCounter), field)[..Min(MESSAGE_SIZE, Reach(old(up.plan)))]
    {
      hide EncodeRequest, Pins, Judge;
      requestPending := false;
      var connected := Connect(m.connects);
      if !connected {
        CountFailure(CannotConnect, m.now);
        return NoConnection;
      }
      var msg := BuildRequest(mac, msgCounter, field);
      msgCounter := (msgCounter + 1) % WORD64;
      var sent := FirmwareSend(up, msg);
      if !sent {
        CountFailure(WriteFailure, m.now);
        return WriteFailed;
      }
      outcome := ReceiveReply(m, down);
    }

    /** Up to three attempts. */
    method Connect(connects: seq<bool>) returns (connected: bool)
      requires |connects| == 3
      ensures connected == (true in connects)
    {
      var attempts := 3;
      connected := false;
      while !connected && attempts > 0
        invariant 0 <= attempts <= 3
        invariant connected <==> true in connects[..3 - attempts]
      {
        connected := connects[3 - attempts];
        assert connects[..4 - attempts] == connects[..3 - attempts] + [connected];
        attempts := attempts - 1;
      }
      if !connected {
        assert connects[..3] == connects;
      }
    }

    /** The second half of the cycle: wait, read, obey. */
    method ReceiveReply(m: Meeting, down: Link) returns (ghost outcome: Outcome)
      requires Valid()
      modifies this`heaterState, this`failureCount, this`failuresSinceBoot, this`led, this`lastErrors,
               this`positivePin, this`negativePin, down
      ensures Valid()
      ensures outcome == ReplyOutcome(m, old(down.data), old(down.plan))
      ensures Abs() == Conclude(old(Abs()), outcome, m.now)
    {
      var there := Await(m.available);
      if !there || m.late {
        CountFailure(ReplyTimeout, m.now);
        return TimedOut;
      }
      var reply := new byte[MESSAGE_SIZE];
      var bytesRead := FirmwareReceive(down, reply);
      if bytesRead < MESSAGE_SIZE {
        CountFailure(ReadFailure, m.now);
        return ReadFailed;
      }
      assert reply[..] == reply[..MESSAGE_SIZE];
      HandleReply(reply[..], m.now);
      outcome := Judged(Judge(reply[..]));
    }

    /** The wait for a whole reply. */
    method Await(available: seq<nat>) returns (there: bool)
      ensures there == Answered(available)
    {
      var i := 0;
      while i < |available|
        invariant 0 <= i <= |available| && forall k :: 0 <= k < i ==> available[k] < MESSAGE_SIZE
      {
        if available[i] >= MESSAGE_SIZE {
          return true;
        }
        i := i + 1;
      }
      there := false;
    }

    /** A whole reply: checked field by field, and obeyed when all is well. */
    method HandleReply(reply: seq<byte>, now: nat)
      requires Valid() && |reply| == MESSAGE_SIZE
      modifies this`heaterState, this`failureCount, this`failuresSinceBoot, this`led, this`lastErrors,
               this`positivePin, this`negativePin
      ensures Valid()
      ensures Abs() == Conclude(old(Abs()), Judged(Judge(reply)), now)
    {
      if reply[0] != 1 {
        CountFailure(ProtocolNotSupported, now);
      } else if reply[1] == REQ_HEATER_STATE {
        CountFailure(InvalidType, now);
      } else if reply[1] != HEATER_STATE_REPLY {
        CountFailure(InvalidType, now);
      } else {
        var newState := reply[16];
        assert newState == Payload(reply)[0];
        if newState <= 3 {
          led := ConnectedToBase;
          failureCount := 0;
          if heaterState != newState {
            heaterState := newState;
            ApplyHeaterState();
          }
        } else {
          CountFailure(InvalidState, now);
        }
      }
    }

    /** The button at the head of the loop: ten seconds erase the settings, and the heater
        restarts. */
    method CheckButton(x: B.Sample, settings: Settings.Store) returns (reset: bool)
      requires settings.Valid()
      modifies this`buttonPressed, this`buttonStart, settings.eeprom, settings.record
      ensures ButtonState() == B.Next(old(ButtonState()), x)
      ensures reset == B.Erases(old(ButtonState()), x)
      ensures reset ==> settings.eeprom[..] == Fill(0xFF, Settings.EEPROM_LEN)
                        && !Settings.IsValid(settings.eeprom[..Settings.RECORD_LEN])
      ensures !reset ==> settings.eeprom[..] == old(settings.eeprom[..])
                         && settings.record[..] == old(settings.record[..])
    {
      hide Settings.IsValid;
      reset := false;
      if x.pressed {
        if !buttonPressed {
          buttonPressed := true;
          buttonStart := B.Millis(x.t);
        } else if B.Sub32(B.Millis(x.t), buttonStart) >= B.BUTTON_PRESS_TIMEOUT {
          reset := true;
          settings.Erase();
        }
      } else {
        buttonPressed := false;
      }
    }

    /** The name field as a request carries it. */
    method NameForRequest(settings: Settings.Store) returns (field: seq<byte>)
      requires settings.Valid()
      ensures field == Settings.NameCopied(settings.record[..])
    {
      hide Settings.NameCopied;
      var buf := new byte[32];
      settings.GetName(buf, 0);
      field := buf[..];
    }

    /** The end of every loop. */
    method ApplyFailSafe()
      requires Valid()
      modifies this`heaterState, this`led, this`positivePin, this`negativePin
      ensures Valid() && Abs() == FailSafe(old(Abs()))
    {
      if failureCount == REQUEST_STATE_FAILURE_THRESHOLD {
        heaterState := DEFROST;
        ApplyHeaterState();
        led := NoBase;
      }
    }

    /** One pass of the loop: the factory reset, or a request under the name in the settings
        and the fail-safe. */
    method Loop(x: B.Sample, wifi: bool, m: Meeting, up: Link, down: Link, mac: Mac, settings: Settings.Store)
      returns (reset: bool)
      requires Valid() && |m.connects| == 3 && up != down && up.data == [] && settings.Valid()
      modifies this, up, down, settings.eeprom, settings.record
      ensures Valid()
      ensures reset == B.Erases(old(ButtonState()), x) && ButtonState() == B.Next(old(ButtonState()), x)
      ensures reset ==> Abs() == old(Abs()) && settings.eeprom[..] == Fill(0xFF, Settings.EEPROM_LEN)
                        && !Settings.IsValid(settings.eeprom[..Settings.RECORD_LEN])
      ensures !reset ==> settings.eeprom[..] == old(settings.eeprom[..])
      ensures !reset ==> Abs() == Step(old(Abs()),
                if wifi && old(requestPending)
                then Cycle(OutcomeOf(m, old(up.plan), old(down.data), old(down.plan)), m.now) else Idle)
      ensures !reset && wifi && old(requestPending) && true in m.connects ==>
                up.data == EncodeRequest(mac, old(msgCounter), Settings.NameCopied(old(settings.record[..])))
                           [..Min(MESSAGE_SIZE, Reach(old(up.plan)))]
    {
      hide Settings.NameCopied, Settings.IsValid, EncodeRequest, Reach, Conclude, Begin, FailSafe, B.Next;
      hide B.Erases, Pins, Fill, Judge;
      reset := CheckButton(x, settings);
      if reset {
        return;
      }
      if wifi && requestPending {
        var field := NameForRequest(settings);
        ghost var _ := RequestHeaterState(m, up, down, mac, field);
      }
      ApplyFailSafe();
    }
  }
}
