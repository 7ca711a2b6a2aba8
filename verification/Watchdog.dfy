/** The failure counters of the base station: WiFi, 3G module, SMS daemon. Each counts
    failures in a 32-bit word, acts when the count equals its threshold, and goes back to
    zero on recovery. */
module Watchdog {
  import opened Text

  /** What happens to a counter. Neutral: a check that is neither a failure nor a recovery
      (the interface cannot be asked; the modem is there but not registered). Restarted: no
      check, the program came up anew. */
  datatype Look = Failed | Neutral | Recovered | Restarted

  /** What one check sees. */
  type Seen = l: Look | l != Restarted witness Failed

  /** What a check makes a watchdog do. */
  datatype Act = Alarm | Notice

  const WORD: nat := 0x1_0000_0000
  const WIFI_ERROR_THRESHOLD: nat := 15
  const MODULE_3G_ERROR_THRESHOLD: nat := 6
  const DAEMON_ERROR_THRESHOLD: nat := 6

  /** From how many failures on the WiFi and daemon checks announce a recovery; the 3G check
      does from its threshold on. */
  const NOTICE_FLOOR: nat := 1

  /** The counter after a check: unsigned int, so it wraps. */
  function Count(n: nat, s: Look): nat {
    match s
    case Failed => (n + 1) % WORD
    case Neutral => n
    case Recovered => 0
    case Restarted => 0
  }

  /** The check finds the counter equal to the threshold after counting a failure. */
  predicate Fires(n: nat, s: Look, threshold: nat) {
    s == Failed && Count(n, s) == threshold
  }

  /** How often the threshold is met over a sequence of checks. */
  function Fired(n: nat, seen: seq<Look>, threshold: nat): nat
    decreases seen
  {
    if seen == [] then 0
    else (if Fires(n, seen[0], threshold) then 1 else 0) + Fired(Count(n, seen[0]), seen[1..], threshold)
  }

  function CountAll(n: nat, seen: seq<Look>): nat
    decreases seen
  {
    if seen == [] then n else CountAll(Count(n, seen[0]), seen[1..])
  }

  lemma {:induction false} OneMoreCheck(n: nat, seen: seq<Look>, s: Look, threshold: nat)
    ensures CountAll(n, seen + [s]) == Count(CountAll(n, seen), s)
    ensures Fired(n, seen + [s], threshold)
            == Fired(n, seen, threshold) + if Fires(CountAll(n, seen), s, threshold) then 1 else 0
    decreases seen
  {
    var all := seen + [s];
    if seen == [] {
      assert all[1..] == [];
    } else {
      assert all[0] == seen[0] && all[1..] == seen[1..] + [s];
      OneMoreCheck(Count(n, seen[0]), seen[1..], s, threshold);
    }
  }

  /** A maximal stretch without recovery or restart: how many failures it counts, and
      whether a recovery ended it. */
  datatype Stretch = Stretch(failures: nat, recovered: bool)

  /** The stretches of a sequence, when f failures of the first one are already behind. */
  function Stretches(seen: seq<Look>, f: nat): seq<Stretch> {
    if seen == [] then [Stretch(f, false)]
    else match seen[0]
      case Failed => Stretches(seen[1..], f + 1)
      case Neutral => Stretches(seen[1..], f)
      case Recovered => [Stretch(f, true)] + Stretches(seen[1..], 0)
      case Restarted => [Stretch(f, false)] + Stretches(seen[1..], 0)
  }

  /** How often a stretch of f failures meets the threshold: once, and once more each time
      the 32-bit counter has gone round. */
  function Meets(f: nat, threshold: nat): nat {
    if f < threshold then 0 else 1 + (f - threshold) / WORD
  }

  function SumMeets(stretches: seq<Stretch>, threshold: nat): nat {
    if stretches == [] then 0 else Meets(stretches[0].failures, threshold) + SumMeets(stretches[1..], threshold)
  }

  function HowMany(stretches: seq<Stretch>, threshold: nat): nat {
    if stretches == [] then 0
    else (if stretches[0].failures >= threshold then 1 else 0) + HowMany(stretches[1..], threshold)
  }

  lemma MeetsNext(f: nat, threshold: nat)
    requires 0 < threshold < WORD
    ensures Meets(f + 1, threshold) == Meets(f, threshold) + (if (f + 1) % WORD == threshold then 1 else 0)
  {
    if f + 1 >= threshold {
      var d := f + 1 - threshold;
      assert d == d / WORD * WORD + d % WORD;
      assert ((f + 1) % WORD == threshold) == (d % WORD == 0) by {
        assert f + 1 == d / WORD * WORD + (d % WORD + threshold);
      }
      if d > 0 {
        assert d - 1 == d / WORD * WORD + (d % WORD - 1);
      }
    }
  }

  lemma {:induction false} FiredFrom(seen: seq<Look>, f: nat, threshold: nat)
    requires 0 < threshold < WORD
    ensures Meets(f, threshold) + Fired(f % WORD, seen, threshold) == SumMeets(Stretches(seen, f), threshold)
  {
    if seen == [] {
      assert SumMeets([Stretch(f, false)], threshold) == Meets(f, threshold) + SumMeets([], threshold);
    } else {
      match seen[0]
      case Failed =>
        MeetsNext(f, threshold);
        CountFails(f);
        FiredFrom(seen[1..], f + 1, threshold);
      case Neutral =>
        FiredFrom(seen[1..], f, threshold);
      case _ =>
        FiredFrom(seen[1..], 0, threshold);
        var more := Stretches(seen[1..], 0);
        assert Stretches(seen, f)[1..] == more;
    }
  }

  lemma CountFails(f: nat)
    ensures Count(f % WORD, Failed) == (f + 1) % WORD
  {
  }

  /** The threshold events of any sequence of checks, counter wrap included. */
  lemma FiredExactly(seen: seq<Look>, threshold: nat)
    requires 0 < threshold < WORD
    ensures Fired(0, seen, threshold) == SumMeets(Stretches(seen, 0), threshold)
  {
    FiredFrom(seen, 0, threshold);
  }

  predicate NoWrap(stretches: seq<Stretch>, threshold: nat) {
    forall i :: 0 <= i < |stretches| ==> stretches[i].failures < threshold + WORD
  }

  lemma {:induction false} SumIsHowMany(stretches: seq<Stretch>, threshold: nat)
    requires 0 < threshold < WORD
    ensures SumMeets(stretches, threshold) >= HowMany(stretches, threshold)
    ensures SumMeets(stretches, threshold) == HowMany(stretches, threshold) <==> NoWrap(stretches, threshold)
  {
    if stretches != [] {
      SumIsHowMany(stretches[1..], threshold);
      var f := stretches[0].failures;
      assert NoWrap(stretches, threshold) <==> f < threshold + WORD && NoWrap(stretches[1..], threshold) by {
        assert forall i :: 0 < i < |stretches| ==> stretches[i] == stretches[1..][i - 1];
      }
      if f >= threshold {
        var d := f - threshold;
        assert d == d / WORD * WORD + d % WORD;
        assert d / WORD >= 1 <==> d >= WORD;
      }
    }
  }

  /** The events are the stretches that reach the threshold, one each, exactly when no
      stretch takes the counter round to the threshold a second time. */
  lemma OneEventPerStretch(seen: seq<Look>, threshold: nat)
    requires 0 < threshold < WORD
    ensures Fired(0, seen, threshold) == HowMany(Stretches(seen, 0), threshold)
            <==> NoWrap(Stretches(seen, 0), threshold)
  {
    FiredExactly(seen, threshold);
    SumIsHowMany(Stretches(seen, 0), threshold);
  }

  // ------------------------------------------------------- alarms and notices

  /** What one check does: the alarm when the count meets the threshold (for the 3G module
      and the daemon the fallback, for WiFi a message), the notice on a recovery that finds
      the count at the floor or above. A restart is silent. */
  function Acts(n: nat, s: Look, threshold: nat, floor: nat): seq<Act> {
    if Fires(n, s, threshold) then [Alarm]
    else if s == Recovered && n >= floor then [Notice]
    else []
  }

  function RunActs(n: nat, seen: seq<Look>, threshold: nat, floor: nat): seq<Act>
    decreases seen
  {
    if seen == [] then []
    else Acts(n, seen[0], threshold, floor) + RunActs(Count(n, seen[0]), seen[1..], threshold, floor)
  }

  lemma {:induction false} OneMoreAct(n: nat, seen: seq<Look>, s: Look, threshold: nat, floor: nat)
    ensures RunActs(n, seen + [s], threshold, floor)
            == RunActs(n, seen, threshold, floor) + Acts(CountAll(n, seen), s, threshold, floor)
    decreases seen
  {
    hide Acts, Count;
    var all := seen + [s];
    if seen == [] {
      assert all[1..] == [];
    } else {
      assert all[0] == seen[0] && all[1..] == seen[1..] + [s];
      OneMoreAct(Count(n, seen[0]), seen[1..], s, threshold, floor);
    }
  }

  function Alarms(k: nat): seq<Act> {
    seq(k, i => Alarm)
  }

  /** What the recovery that ends a stretch of f failures says. */
  function NoticeAfter(f: nat, floor: nat): seq<Act> {
    if f % WORD >= floor then [Notice] else []
  }

  function EndOf(s: Stretch, floor: nat): seq<Act> {
    if s.recovered then NoticeAfter(s.failures, floor) else []
  }

  /** Stretch by stretch: its alarms, then the notice of the recovery that ends it. */
  function ActsOf(stretches: seq<Stretch>, threshold: nat, floor: nat): seq<Act> {
    if stretches == [] then []
    else Alarms(Meets(stretches[0].failures, threshold)) + EndOf(stretches[0], floor)
         + ActsOf(stretches[1..], threshold, floor)
  }

  lemma AlarmsAdd(a: nat, b: nat, after: seq<Act>)
    ensures Alarms(a) + (Alarms(b) + after) == Alarms(a + b) + after
  {
  }

  lemma FailActs(f: nat, threshold: nat, floor: nat)
    requires 0 < threshold < WORD
    ensures Meets(f, threshold) <= Meets(f + 1, threshold)
    ensures Acts(f % WORD, Failed, threshold, floor) == Alarms(Meets(f + 1, threshold) - Meets(f, threshold))
  {
    MeetsNext(f, threshold);
    CountFails(f);
  }

  lemma QuietActs(n: nat, threshold: nat, floor: nat, rest: seq<Act>)
    requires n < WORD
    ensures Acts(n, Neutral, threshold, floor) + rest == rest
    ensures Acts(n, Recovered, threshold, floor) == NoticeAfter(n, floor)
    ensures Acts(n, Restarted, threshold, floor) == []
    ensures Alarms(0) + rest == rest
  {
  }

  lemma EndsStretch(seen: seq<Look>, f: nat, threshold: nat, floor: nat)
    requires seen != [] && (seen[0] == Recovered || seen[0] == Restarted)
    ensures ActsOf(Stretches(seen, f), threshold, floor)
            == Alarms(Meets(f, threshold))
            + (Acts(f % WORD, seen[0], threshold, floor) + ActsOf(Stretches(seen[1..], 0), threshold, floor))
  {
    hide Alarms, Meets;
    var s, more := Stretch(f, seen[0] == Recovered), Stretches(seen[1..], 0);
    assert ([s] + more)[1..] == more;
    assert Acts(f % WORD, seen[0], threshold, floor) == EndOf(s, floor);
    hide ActsOf, Stretches, Acts, EndOf;
    Regroup(Alarms(Meets(f, threshold)), EndOf(s, floor), ActsOf(more, threshold, floor));
  }

  lemma {:induction false} ActsFrom(seen: seq<Look>, f: nat, threshold: nat, floor: nat)
    requires 0 < threshold < WORD
    ensures Alarms(Meets(f, threshold)) + RunActs(f % WORD, seen, threshold, floor)
            == ActsOf(Stretches(seen, f), threshold, floor)
  {
    hide Acts, Alarms, NoticeAfter, Meets;
    if seen == [] {
      assert ActsOf([Stretch(f, false)], threshold, floor) == Alarms(Meets(f, threshold)) + [] + [];
    } else {
      var rest := RunActs(Count(f % WORD, seen[0]), seen[1..], threshold, floor);
      match seen[0]
      case Failed =>
        FailActs(f, threshold, floor);
        CountFails(f);
        ActsFrom(seen[1..], f + 1, threshold, floor);
        AlarmsAdd(Meets(f, threshold), Meets(f + 1, threshold) - Meets(f, threshold), rest);
      case Neutral =>
        QuietActs(f % WORD, threshold, floor, rest);
        ActsFrom(seen[1..], f, threshold, floor);
      case _ =>
        ActsFrom(seen[1..], 0, threshold, floor);
        NothingMet(threshold);
        QuietActs(0, threshold, floor, rest);
        EndsStretch(seen, f, threshold, floor);
    }
  }

  lemma NothingMet(threshold: nat)
    requires threshold > 0
    ensures Meets(0, threshold) == 0
  {
  }

  /** Alarms and notices of any sequence of checks and restarts, in order, counter wrap
      included. */
  lemma ActsExactly(seen: seq<Look>, threshold: nat, floor: nat)
    requires 0 < threshold < WORD
    ensures RunActs(0, seen, threshold, floor) == ActsOf(Stretches(seen, 0), threshold, floor)
  {
    ActsFrom(seen, 0, threshold, floor);
    NothingMet(threshold);
    QuietActs(0, threshold, floor, RunActs(0, seen, threshold, floor));
  }

  /** Alarm, Notice, Alarm, ... beginning with a notice when one is owed. */
  predicate Alternate(acts: seq<Act>, owed: bool) {
    acts == [] || ((acts[0] == if owed then Notice else Alarm) && Alternate(acts[1..], !owed))
  }

  /** Silent, or one alarm and its notice. */
  predicate Balanced(s: Stretch, threshold: nat) {
    s.failures < threshold || (s.recovered && s.failures < WORD)
  }

  /** A stretch that reaches the threshold ends with a recovery before the counter goes
      round; or, failing that, it is the last to reach the threshold, and does so once. */
  predicate Announced(stretches: seq<Stretch>, threshold: nat) {
    stretches == []
    || (Balanced(stretches[0], threshold) && Announced(stretches[1..], threshold))
    || (stretches[0].failures < WORD + threshold
        && forall i :: 0 < i < |stretches| ==> stretches[i].failures < threshold)
  }

  lemma Short(s: Stretch, threshold: nat, more: seq<Act>)
    requires 0 < threshold < WORD
    ensures s.failures < threshold ==>
              Alarms(Meets(s.failures, threshold)) == [] && EndOf(s, threshold) == [] && [] + more == more
    ensures s.failures >= threshold ==>
              Alarms(Meets(s.failures, threshold)) != [] && Alarms(Meets(s.failures, threshold))[0] == Alarm
  {
  }

  lemma {:induction false} QuietWhenShort(stretches: seq<Stretch>, threshold: nat)
    requires 0 < threshold < WORD
    ensures (forall i :: 0 <= i < |stretches| ==> stretches[i].failures < threshold)
            <==> ActsOf(stretches, threshold, threshold) == []
    ensures ActsOf(stretches, threshold, threshold) != [] ==> ActsOf(stretches, threshold, threshold)[0] == Alarm
  {
    hide Alarms, Meets, EndOf;
    if stretches != [] {
      var rest := stretches[1..];
      Short(stretches[0], threshold, ActsOf(rest, threshold, threshold));
      assert forall i :: 0 < i < |stretches| ==> stretches[i] == rest[i - 1];
      QuietWhenShort(rest, threshold);
    }
  }

  lemma OneStretch(s: Stretch, threshold: nat, more: seq<Act>)
    requires 0 < threshold < WORD
    ensures var acts := Alarms(Meets(s.failures, threshold)) + EndOf(s, threshold) + more;
            if Balanced(s, threshold) then Alternate(acts, false) == Alternate(more, false)
            else if s.failures < WORD + threshold then Alternate(acts, false) == Alternate(more, true)
            else !Alternate(acts, false)
  {
    var f := s.failures;
    var acts := Alarms(Meets(f, threshold)) + EndOf(s, threshold) + more;
    if f < threshold {
      assert acts == more;
    } else if Balanced(s, threshold) {
      assert Meets(f, threshold) == 1;
      assert acts[1..] == [Notice] + more && acts[1..][1..] == more;
    } else if f < WORD + threshold {
      assert Meets(f, threshold) == 1;
      if f >= WORD { assert f % WORD == f - WORD; }
      assert acts[1..] == more;
    } else {
      assert Meets(f, threshold) >= 2;
      assert acts[0] == Alarm && acts[1] == Alarm && acts[1..][0] == Alarm;
    }
  }

  lemma {:induction false} AlternateFrom(stretches: seq<Stretch>, threshold: nat)
    requires 0 < threshold < WORD
    ensures Alternate(ActsOf(stretches, threshold, threshold), false) <==> Announced(stretches, threshold)
  {
    if stretches != [] {
      var rest := stretches[1..];
      assert forall i :: 0 < i < |stretches| ==> stretches[i] == rest[i - 1];
      ShortIsAnnounced(rest, threshold);
      QuietWhenShort(rest, threshold);
      AlternateFrom(rest, threshold);
      OneStretch(stretches[0], threshold, ActsOf(rest, threshold, threshold));
      hide Alarms, Meets, EndOf, Balanced;
    }
  }

  lemma {:induction false} ShortIsAnnounced(stretches: seq<Stretch>, threshold: nat)
    ensures (forall i :: 0 <= i < |stretches| ==> stretches[i].failures < threshold) ==> Announced(stretches, threshold)
  {
    if stretches != [] {
      assert forall i :: 0 < i < |stretches| ==> stretches[i] == stretches[1..][i - 1];
      ShortIsAnnounced(stretches[1..], threshold);
    }
  }

  /** Where the floor is the threshold, as for the 3G module, alarms and notices strictly
      alternate, an alarm first, exactly when every stretch that reaches the threshold ends
      with a recovery before the counter goes round, but for the last one to reach it, which
      may be cut by a restart or go round once. */
  lemma FallbacksAlternate(seen: seq<Look>, threshold: nat)
    requires 0 < threshold < WORD
    ensures Alternate(RunActs(0, seen, threshold, threshold), false) <==> Announced(Stretches(seen, 0), threshold)
  {
    ActsExactly(seen, threshold, threshold);
    AlternateFrom(Stretches(seen, 0), threshold);
  }

  function Failures(seen: seq<Look>): nat {
    if seen == [] then 0 else (if seen[0] == Failed then 1 else 0) + Failures(seen[1..])
  }

  /** Checks of one outage: no recovery and no restart among them. */
  predicate OneOutage(seen: seq<Look>) {
    Recovered !in seen && Restarted !in seen
  }

  lemma {:induction false} StretchesOfOutage(seen: seq<Look>, end: Look, rest: seq<Look>, f: nat)
    requires OneOutage(seen) && (end == Recovered || end == Restarted)
    ensures Stretches(seen + [end] + rest, f)
            == [Stretch(f + Failures(seen), end == Recovered)] + Stretches(rest, 0)
  {
    var all := seen + [end] + rest;
    if seen == [] {
      assert all[1..] == rest;
    } else {
      assert all[0] == seen[0] && all[1..] == seen[1..] + [end] + rest && seen[0] in seen;
      StretchesOfOutage(seen[1..], end, rest, if seen[0] == Failed then f + 1 else f);
    }
  }

  lemma OutageActs(seen: seq<Look>, threshold: nat, floor: nat)
    requires OneOutage(seen) && 0 < threshold < WORD
    ensures RunActs(0, seen + [Recovered], threshold, floor)
            == Alarms(Meets(Failures(seen), threshold)) + NoticeAfter(Failures(seen), floor)
  {
    ActsExactly(seen + [Recovered], threshold, floor);
    assert seen + [Recovered] + [] == seen + [Recovered];
    StretchesOfOutage(seen, Recovered, [], 0);
    var s, last := Stretch(Failures(seen), true), Stretch(0, false);
    assert ([s] + [last])[1..] == [last] && [last][1..] == [];
    assert ActsOf([last], threshold, floor) == [];
  }

  /** One outage, from recovery to recovery, is silent or one alarm followed by one notice
      exactly for these numbers of failed checks. For the 3G module, where the floor is the
      threshold, they are those below 2^32. For the daemon and WiFi, where the floor is 1,
      a shorter outage than the threshold is not among them, unless it has no failure. */
  lemma OutageExactly(seen: seq<Look>, threshold: nat, floor: nat)
    requires OneOutage(seen) && 0 < floor <= threshold < WORD
    ensures var acts, f := RunActs(0, seen + [Recovered], threshold, floor), Failures(seen);
            (acts == [] || acts == [Alarm, Notice])
            <==> f < floor || threshold <= f < WORD || WORD + floor <= f < WORD + threshold
  {
    OutageActs(seen, threshold, floor);
    var f := Failures(seen);
    var m := Meets(f, threshold);
    var acts := RunActs(0, seen + [Recovered], threshold, floor);
    assert f >= WORD ==> m >= 1;
    if f < WORD {
      assert m == if f < threshold then 0 else 1;
      assert f % WORD == f;
    } else if f < WORD + threshold {
      assert m == 1 && f % WORD == f - WORD && acts[0] == Alarm;
      assert |acts| == if f - WORD >= floor then 2 else 1;
    } else {
      assert m >= 2 && acts[1] == Alarm;
    }
  }

  /** One failed look at the daemon or at WiFi, and a recovery is announced that no fallback
      or alarm came before. */
  lemma ShortOutageIsAnnounced(threshold: nat)
    requires 1 < threshold < WORD
    ensures RunActs(0, [Failed, Recovered], threshold, 1) == [Notice]
  {
    assert [Failed, Recovered] == [Failed] + [Recovered] && [Failed][1..] == [];
    OutageActs([Failed], threshold, 1);
    assert Failures([Failed]) == 1;
  }

  lemma {:induction false} FailuresOf(k: nat)
    ensures Failures(seq(k, i => Failed)) == k
  {
    if k > 0 {
      FailuresOf(k - 1);
      assert seq(k, i => Failed)[1..] == seq(k - 1, i => Failed);
    }
  }

  /** An outage of exactly 2^32 failed checks of the 3G module ends without the notice. */
  lemma LongOutageIsNotAnnounced()
    ensures RunActs(0, seq(0x1_0000_0000, i => Failed) + [Recovered], 6, 6)
            == [Alarm]
  {
    var seen := seq(WORD, i => Failed);
    FailuresOf(WORD);
    OutageActs(seen, MODULE_3G_ERROR_THRESHOLD, MODULE_3G_ERROR_THRESHOLD);
    assert Meets(WORD, MODULE_3G_ERROR_THRESHOLD) == 1;
  }

  /** Two outages of the same length that reach the threshold, with a restart between them:
      two fallbacks, and one notice only. */
  lemma RestartSkipsNotice(k: nat, threshold: nat)
    requires 0 < threshold <= k < WORD
    ensures var outage := seq(k, i => Failed);
            RunActs(0, outage + [Restarted] + (outage + [Recovered]), threshold, threshold) == [Alarm, Alarm, Notice]
  {
    var outage := seq(k, i => Failed);
    FailuresOf(k);
    StretchesOfOutage(outage, Restarted, outage + [Recovered], 0);
    assert outage + [Recovered] + [] == outage + [Recovered];
    StretchesOfOutage(outage, Recovered, [], 0);
    ActsExactly(outage + [Restarted] + (outage + [Recovered]), threshold, threshold);
    var a, b, c := Stretch(k, false), Stretch(k, true), Stretch(0, false);
    var rest := [b] + [c];
    assert ([a] + rest)[1..] == rest && rest[1..] == [c] && [c][1..] == [];
    assert Meets(k, threshold) == 1;
    assert ActsOf([c], threshold, threshold) == [];
    assert ActsOf(rest, threshold, threshold) == [Alarm, Notice];
  }
}
