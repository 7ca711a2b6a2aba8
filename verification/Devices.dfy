/** What the base station remembers of the heaters that ask it: the reboot check on their
    counters, and the search for those that stopped asking. */
module Devices {
  import opened StateFile
  import opened Wire

  // ------------------------------------------------------ reboot detection

  const HALF64: int := 0x8000_0000_0000_0000

  /** A uint64_t handed over as a long long. */
  function Signed64(v: nat): int
    requires v < WORD64
  {
    if v < HALF64 then v else v - WORD64
  }

  /** uint64_t subtraction. */
  function Sub64(a: nat, b: nat): (r: nat)
    requires a < WORD64 && b < WORD64
    ensures r < WORD64
  {
    (a - b) % WORD64
  }

  /** llabs, whose negation wraps on the smallest value. */
  function Llabs(x: int): int
    requires -HALF64 <= x && x < HALF64
  {
    if x < 0 then Signed64((-x) % WORD64) else x
  }

  /** The test of parseMessage against the stored counter. */
  predicate Rebooted(received: nat, stored: nat)
    requires received < WORD64 && stored < WORD64
  {
    Llabs(Signed64(Sub64(received, stored))) > 100
  }

  /** The counter of a heater: a 28-bit seed in the upper half, then one per message. */
  function HeaterCounter(seed: nat, sent: nat): nat {
    seed * 0x1_0000_0000 + sent
  }

  /** On any two 64-bit counters the test measures the distance around the circle, with
      one blind spot: exactly opposite counters. */
  lemma RebootedExactly(received: nat, stored: nat)
    requires received < WORD64 && stored < WORD64
    ensures Rebooted(received, stored)
            <==> Sub64(received, stored) > 100 && Sub64(stored, received) > 100
                 && Sub64(received, stored) != HALF64
  {
    assert Sub64(received, stored) == if received >= stored then received - stored else received - stored + WORD64;
    assert Sub64(stored, received) == if stored >= received then stored - received else stored - received + WORD64;
  }

  /** Below 2^60 the test is on the true difference. */
  lemma RebootedBelow60(received: nat, stored: nat)
    requires received < 0x1000_0000_0000_0000 && stored < 0x1000_0000_0000_0000
    ensures Rebooted(received, stored) <==> received - stored > 100 || stored - received > 100
  {
    RebootedExactly(received, stored);
  }

  lemma CountersApart(seed1: nat, sent1: nat, seed2: nat, sent2: nat)
    requires seed1 < seed2
    requires sent1 < 0x1_0000_0000 - 100
    ensures HeaterCounter(seed2, sent2) - HeaterCounter(seed1, sent1) > 100
  {
    assert (seed2 - seed1) * 0x1_0000_0000 >= 0x1_0000_0000;
  }

  /** Between two messages of heaters that sent fewer than 2^32 - 100 since boot, the alarm
      is raised exactly when the seed changed or more than 100 messages went missing. */
  lemma AlarmExactly(seed1: nat, sent1: nat, seed2: nat, sent2: nat)
    requires seed1 < 0x1000_0000 && seed2 < 0x1000_0000
    requires sent1 < 0x1_0000_0000 - 100 && sent2 < 0x1_0000_0000 - 100
    ensures HeaterCounter(seed1, sent1) < 0x1000_0000_0000_0000
    ensures HeaterCounter(seed2, sent2) < 0x1000_0000_0000_0000
    ensures Rebooted(HeaterCounter(seed2, sent2), HeaterCounter(seed1, sent1))
            <==> seed1 != seed2 || sent2 - sent1 > 100 || sent1 - sent2 > 100
  {
    assert seed1 * 0x1_0000_0000 <= 0x0FFF_FFFF * 0x1_0000_0000;
    assert seed2 * 0x1_0000_0000 <= 0x0FFF_FFFF * 0x1_0000_0000;
    RebootedBelow60(HeaterCounter(seed2, sent2), HeaterCounter(seed1, sent1));
    if seed1 < seed2 {
      CountersApart(seed1, sent1, seed2, sent2);
    } else if seed2 < seed1 {
      CountersApart(seed2, sent2, seed1, sent1);
    }
  }

  // -------------------------------------------------------------- the registry

  /** The last request of a device: its name, when it came, the state it was told. */
  datatype Device = Device(name: string, at: int, state: HeaterState)

  /** Keyed by packed MAC address. */
  datatype Registry = Registry(counters: map<nat, Word64>, devices: map<nat, Device>)

  const DEVICE_LOST_THRESHOLD: int := 86400    // seconds

  datatype Event =
    | Request(mac: nat, counter: Word64, device: Device)
    | Sweep(now: int)

  predicate IsLost(d: Device, now: int) {
    now - d.at >= DEVICE_LOST_THRESHOLD
  }

  /** The devices a sweep reports. */
  function Lost(devices: map<nat, Device>, now: int): map<nat, Device> {
    map m | m in devices && IsLost(devices[m], now) :: devices[m]
  }

  function Kept(devices: map<nat, Device>, now: int): map<nat, Device> {
    map m | m in devices && !IsLost(devices[m], now) :: devices[m]
  }

  function Apply(r: Registry, e: Event): Registry {
    match e
    case Request(mac, counter, d) => Registry(r.counters[mac := counter], r.devices[mac := d])
    case Sweep(now) => r.(devices := Kept(r.devices, now))
  }

  function Run(r: Registry, events: seq<Event>): Registry {
    if events == [] then r else Apply(Run(r, events[..|events| - 1]), events[|events| - 1])
  }

  /** Event i is a sweep that reports this device. */
  predicate Reports(r: Registry, events: seq<Event>, i: nat, mac: nat)
    requires i < |events|
  {
    events[i].Sweep? && mac in Lost(Run(r, events[..i]).devices, events[i].now)
  }

  predicate Asks(e: Event, mac: nat) {
    e.Request? && e.mac == mac
  }

  lemma {:induction false} TrackedHaveCounters(r: Registry, events: seq<Event>)
    requires r.devices.Keys <= r.counters.Keys
    ensures Run(r, events).devices.Keys <= Run(r, events).counters.Keys
  {
    if events != [] {
      TrackedHaveCounters(r, events[..|events| - 1]);
    }
  }

  lemma {:induction false} ForgottenUntilAsked(r: Registry, events: seq<Event>, from: nat, to: nat, mac: nat)
    requires from <= to <= |events|
    requires mac !in Run(r, events[..from]).devices
    requires forall k :: from <= k < to ==> !Asks(events[k], mac)
    ensures mac !in Run(r, events[..to]).devices
  {
    if from < to {
      ForgottenUntilAsked(r, events, from, to - 1, mac);
      assert events[..to][..to - 1] == events[..to - 1];
      assert !Asks(events[to - 1], mac);
    }
  }

  /** Between two reports of a device there is a request from it. */
  lemma AskedBetweenReports(r: Registry, events: seq<Event>, i: nat, j: nat, mac: nat)
    requires i < j < |events|
    requires Reports(r, events, i, mac) && Reports(r, events, j, mac)
    ensures exists k :: i < k < j && Asks(events[k], mac)
  {
    assert events[..i + 1][..i] == events[..i];
    assert mac !in Run(r, events[..i + 1]).devices;
    if forall k :: i < k < j ==> !Asks(events[k], mac) {
      ForgottenUntilAsked(r, events, i + 1, j, mac);
    }
  }

  /** The last request of the device among the events, if there is one. */
  function LastRequest(events: seq<Event>, mac: nat): (r: Option<Event>)
    ensures r.Some? ==> Asks(r.value, mac)
  {
    if events == [] then None
    else
      var e := events[|events| - 1];
      if Asks(e, mac) then Some(e) else LastRequest(events[..|events| - 1], mac)
  }

  /** Over any run from a start of the base: a counter is stored for exactly the devices that
      asked, that of their last request; and what is known of a tracked device is that
      request. */
  lemma {:induction false} EntryIsLastRequest(events: seq<Event>, mac: nat)
    ensures var r, last := Run(Registry(map[], map[]), events), LastRequest(events, mac);
            && (mac in r.counters <==> last.Some?)
            && (mac in r.counters ==> r.counters[mac] == last.value.counter)
            && (mac in r.devices ==> last.Some? && r.devices[mac] == last.value.device)
  {
    if events != [] {
      EntryIsLastRequest(events[..|events| - 1], mac);
    }
  }

  /** A report is never early: when a sweep names a device, its last request is a day old
      or more; and every device still kept asked less than a day before. */
  lemma ReportsAreDue(events: seq<Event>, i: nat, mac: nat)
    requires i < |events| && events[i].Sweep?
    requires mac in Run(Registry(map[], map[]), events[..i]).devices
    ensures LastRequest(events[..i], mac).Some?
    ensures Reports(Registry(map[], map[]), events, i, mac)
            <==> events[i].now - LastRequest(events[..i], mac).value.device.at >= 86400
  {
    EntryIsLastRequest(events[..i], mac);
  }
}
