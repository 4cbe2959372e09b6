/** The alert manager (notify.go, charge.go): one shared state per device, three kinds of evaluation. */
module Alerts {
  import opened Wrappers
  import opened Calendar
  import Latch
  import Charging

  /** devState. The battery and charge evaluations share one per device; the offline latch has its own. */
  datatype DevState = DevState(
    alerting: bool, lastNotified: Time,
    lastMV: int, lastMVAt: Time, charging: bool, chargedSent: bool)

  const FRESH := DevState(false, 0, 0, 0, false, false)

  function LatchPart(d: DevState): Latch.LatchState { Latch.LatchState(d.alerting, d.lastNotified) }

  function ChargePart(d: DevState): Charging.ChargeState {
    Charging.ChargeState(d.lastMV, d.lastMVAt, d.charging, d.chargedSent)
  }

  function WithLatch(d: DevState, s: Latch.LatchState): DevState {
    d.(alerting := s.alerting, lastNotified := s.lastNotified)
  }

  function WithCharge(d: DevState, s: Charging.ChargeState): DevState {
    d.(lastMV := s.lastMV, lastMVAt := s.lastMVAt, charging := s.charging, chargedSent := s.chargedSent)
  }

  datatype Settings = Settings(lowPct: int, clearPct: int, renotify: Time)

  /** The settings in force: a live value of zero keeps the one the manager was built with. */
  function InForce(built: Settings, live: Option<Settings>): (r: Settings)
    ensures live.None? ==> r == built
    ensures live.Some? && live.value.lowPct != 0 && live.value.clearPct != 0 && live.value.renotify != 0 ==>
              r == live.value
    ensures live.Some? ==> r.lowPct == built.lowPct || (r.lowPct == live.value.lowPct && r.lowPct != 0)
    ensures live == Some(Settings(0, 0, 0)) ==> r == built
  {
    match live
    case None => built
    case Some(got) =>
      Settings(if got.lowPct == 0 then built.lowPct else got.lowPct,
               if got.clearPct == 0 then built.clearPct else got.clearPct,
               if got.renotify == 0 then built.renotify else got.renotify)
  }

  type States = map<string, DevState>

  function Lookup(m: States, device: string): DevState { if device in m then m[device] else FRESH }

  // ---- The three evaluations, as latch and charge steps

  predicate ValidPct(pct: int) { 0 <= pct <= 100 }

  function BatterySample(pct: int, cfg: Settings, now: Time): Latch.Sample {
    Latch.Sample(if pct <= cfg.lowPct then Latch.Bad else if pct >= cfg.clearPct then Latch.Good else Latch.Neither,
                 now, cfg.renotify)
  }

  function StaleSample(stale: bool, cfg: Settings, now: Time): Latch.Sample {
    Latch.Sample(if stale then Latch.Bad else Latch.Good, now, cfg.renotify)
  }

  /** A latch sample for one device: the new states and what the latch did. */
  function LatchUpdate(m: States, device: string, x: Latch.Sample): (States, Latch.Outcome) {
    var d := Lookup(m, device);
    (m[device := WithLatch(d, Latch.Step(LatchPart(d), x))], Latch.OutcomeOf(LatchPart(d), x))
  }

  function ChargeUpdate(m: States, device: string, x: Charging.Reading): (States, bool) {
    var d := Lookup(m, device);
    (m[device := WithCharge(d, Charging.Step(ChargePart(d), x))], Charging.Fires(ChargePart(d), x))
  }

  class Manager {
    const built: Settings
    var live: Option<Settings>
    var state: States
    var stale: States

    constructor (built: Settings)
      ensures this.built == built && live == None && state == map[] && stale == map[]
    {
      this.built := built;
      live, state, stale := None, map[], map[];
    }

    /** Called on every telemetry report; returns whether a low-battery alert went out. */
    method EvaluateBattery(device: string, pct: int, now: Time) returns (fire: bool)
      modifies this`state
      ensures !ValidPct(pct) ==> !fire && state == old(state)
      ensures ValidPct(pct) ==>
                var (m, o) := LatchUpdate(old(state), device, BatterySample(pct, InForce(built, live), now));
                state == m && (fire <==> o.Alert?)
    {
      fire := false;
      if pct < 0 || pct > 100 {
        return;
      }
      if device !in state {
        state := state[device := FRESH];
      }
      var st := state[device];
      var cfg := InForce(built, live);
      if pct <= cfg.lowPct {
        if !st.alerting || now - st.lastNotified >= cfg.renotify {
          fire := true;
          st := st.(alerting := true);
          st := st.(lastNotified := now);
        }
      } else if pct >= cfg.clearPct {
        st := st.(alerting := false);
      }
      state := state[device := st];
      assert state == old(state)[device := st];
    }

    /** Called on every check of a reported device; says whether it went offline or came back. */
    method EvaluateStale(device: string, isStale: bool, now: Time) returns (ev: Latch.Outcome)
      modifies this`stale
      ensures (stale, ev) == LatchUpdate(old(stale), device, StaleSample(isStale, InForce(built, live), now))
    {
      if device !in stale {
        stale := stale[device := FRESH];
      }
      var st := stale[device];
      var cfg := InForce(built, live);
      ev := Latch.Quiet;
      if isStale && (!st.alerting || now - st.lastNotified >= cfg.renotify) {
        ev := Latch.Alert;
        st := st.(alerting := true);
        st := st.(lastNotified := now);
      } else if !isStale && st.alerting {
        ev := Latch.Clear;
        st := st.(alerting := false);
      }
      stale := stale[device := st];
      assert stale == old(stale)[device := st];
    }

    /** Called on every telemetry report; returns whether the "unplug it" message went out. */
    method EvaluateCharging(device: string, mv: int, now: Time) returns (fire: bool)
      modifies this`state
      ensures mv <= 0 ==> !fire && state == old(state)
      ensures mv > 0 ==> (state, fire) == ChargeUpdate(old(state), device, Charging.Reading(mv, now))
    {
      fire := false;
      if mv <= 0 {
        return;
      }
      if device !in state {
        state := state[device := FRESH];
      }
      var st := state[device];
      var prev, prevAt := st.lastMV, st.lastMVAt;
      st := st.(lastMV := mv, lastMVAt := now);
      if prev == 0 || now - prevAt > Charging.MAX_GAP {
        st := st.(charging := false, chargedSent := false);
        state := state[device := st];
        assert state == old(state)[device := st];
        return;
      }
      var delta := mv - prev;
      if delta >= Charging.RISE_MV {
        if !st.charging {
          st := st.(chargedSent := false);
        }
        st := st.(charging := true);
      } else if delta <= -Charging.UNPLUG_MV {
        st := st.(charging := false, chargedSent := false);
      }
      fire := st.charging && !st.chargedSent && mv >= Charging.DONE_MV;
      if fire {
        st := st.(chargedSent := true);
      }
      state := state[device := st];
      assert state == old(state)[device := st];
    }
  }

  // ---- Any mix of battery and charge evaluations, over any devices

  datatype Op =
    | Battery(device: string, pct: int, cfg: Settings, at: Time)
    | Charge(device: string, mv: int, at: Time)

  function Apply(m: States, op: Op): (States, bool) {
    match op
    case Battery(d, pct, cfg, at) =>
      if !ValidPct(pct) then (m, false)
      else var (m', o) := LatchUpdate(m, d, BatterySample(pct, cfg, at)); (m', o.Alert?)
    case Charge(d, mv, at) =>
      if mv <= 0 then (m, false) else ChargeUpdate(m, d, Charging.Reading(mv, at))
  }

  function AfterAll(ops: seq<Op>): States {
    if ops == [] then map[] else Apply(AfterAll(ops[..|ops| - 1]), ops[|ops| - 1]).0
  }

  /** The valid battery samples of one device, everything else left out. */
  function BatteryHistory(ops: seq<Op>, device: string): seq<Latch.Sample> {
    if ops == [] then []
    else
      var rest := BatteryHistory(ops[..|ops| - 1], device);
      match ops[|ops| - 1]
      case Battery(d, pct, cfg, at) =>
        if d == device && ValidPct(pct) then rest + [BatterySample(pct, cfg, at)] else rest
      case Charge(_, _, _) => rest
  }

  /** The valid voltage readings of one device, everything else left out. */
  function ChargeHistory(ops: seq<Op>, device: string): (h: seq<Charging.Reading>)
    ensures Charging.AllValid(h)
  {
    if ops == [] then []
    else
      var rest := ChargeHistory(ops[..|ops| - 1], device);
      match ops[|ops| - 1]
      case Battery(_, _, _, _) => rest
      case Charge(d, mv, at) => if d == device && mv > 0 then rest + [Charging.Reading(mv, at)] else rest
  }

  lemma LatchAppend(h: seq<Latch.Sample>, x: Latch.Sample)
    ensures Latch.After(h + [x]) == Latch.Step(Latch.After(h), x)
    ensures Latch.OutcomeAt(h + [x], |h|) == Latch.OutcomeOf(Latch.After(h), x)
  {
    assert (h + [x])[..|h|] == h;
  }

  lemma ChargeAppend(h: seq<Charging.Reading>, x: Charging.Reading)
    ensures Charging.After(h + [x]) == Charging.Step(Charging.After(h), x)
    ensures Charging.FiresAt(h + [x], |h|) == Charging.Fires(Charging.After(h), x)
  {
    assert (h + [x])[..|h|] == h;
  }

  /** A device's shared state is these two histories side by side. */
  ghost predicate SideBySide(m: States, device: string, battery: seq<Latch.Sample>, charge: seq<Charging.Reading>) {
    LatchPart(Lookup(m, device)) == Latch.After(battery) && ChargePart(Lookup(m, device)) == Charging.After(charge)
  }

  lemma BatteryOpIsLocal(m: States, device: string, battery: seq<Latch.Sample>, charge: seq<Charging.Reading>, op: Op)
    requires op.Battery? && SideBySide(m, device, battery, charge)
    ensures SideBySide(Apply(m, op).0, device,
              battery + if op.device == device && ValidPct(op.pct) then [BatterySample(op.pct, op.cfg, op.at)] else [],
              charge)
  {
    assert battery + [] == battery;
    LatchAppend(battery, BatterySample(op.pct, op.cfg, op.at));
    hide Latch.After, Charging.After, Latch.Step, Latch.OutcomeOf, Latch.OutcomeAt, BatterySample;
  }

  lemma ChargeOpIsLocal(m: States, device: string, battery: seq<Latch.Sample>, charge: seq<Charging.Reading>, op: Op)
    requires op.Charge? && SideBySide(m, device, battery, charge)
    ensures SideBySide(Apply(m, op).0, device, battery,
              charge + if op.device == device && op.mv > 0 then [Charging.Reading(op.mv, op.at)] else [])
  {
    assert charge + [] == charge;
    ChargeAppend(charge, Charging.Reading(op.mv, op.at));
    hide Latch.After, Charging.After, Charging.Step, Charging.Fires, Charging.FiresAt;
  }

  /** Interleaved in any way over any devices, the two evaluations never disturb each other. */
  lemma {:induction false} NoInterference(ops: seq<Op>, device: string)
    ensures SideBySide(AfterAll(ops), device, BatteryHistory(ops, device), ChargeHistory(ops, device))
  {
    if ops == [] {
      hide BatterySample;
    } else {
      var init, op := ops[..|ops| - 1], ops[|ops| - 1];
      NoInterference(init, device);
      var battery, charge := BatteryHistory(init, device), ChargeHistory(init, device);
      assert battery + [] == battery && charge + [] == charge;
      hide SideBySide, Apply, BatterySample;
      if op.Battery? {
        BatteryOpIsLocal(AfterAll(init), device, battery, charge, op);
      } else {
        ChargeOpIsLocal(AfterAll(init), device, battery, charge, op);
      }
    }
  }

  /** In any interleaving a battery evaluation alerts exactly when it would have alone, by the history rule. */
  lemma BatteryAlertIsHistory(ops: seq<Op>, device: string, pct: int, cfg: Settings, at: Time)
    requires ValidPct(pct)
    ensures var h := BatteryHistory(ops, device) + [BatterySample(pct, cfg, at)];
            var i := |h| - 1;
            Apply(AfterAll(ops), Battery(device, pct, cfg, at)).1 <==>
              pct <= cfg.lowPct && forall j :: Latch.Live(h, i, j) ==> at - h[j].at >= cfg.renotify
  {
    var h, x := BatteryHistory(ops, device), BatterySample(pct, cfg, at);
    NoInterference(ops, device);
    LatchAppend(h, x);
    Latch.AlertIsHistory(h + [x], |h|);
    hide Latch.After, Latch.OutcomeOf, Latch.OutcomeAt, Latch.Live, AfterAll, BatteryHistory, ChargeHistory;
  }

  /**
   * In any interleaving a charge evaluation sends its message exactly when it would have alone, by the history rule.
   */
  lemma ChargeMessageIsHistory(ops: seq<Op>, device: string, mv: int, at: Time)
    requires mv > 0
    ensures var h := ChargeHistory(ops, device) + [Charging.Reading(mv, at)];
            var i := |h| - 1;
            Apply(AfterAll(ops), Charge(device, mv, at)).1 <==>
              mv >= Charging.DONE_MV && Charging.SeenRising(h, i) && !Charging.ToldBefore(h, i)
  {
    var h, x := ChargeHistory(ops, device), Charging.Reading(mv, at);
    NoInterference(ops, device);
    ChargeAppend(h, x);
    Charging.MessageIsHistory(h + [x], |h|);
    hide Charging.After, Charging.Fires, Charging.FiresAt, Charging.SeenRising, Charging.ToldBefore;
    hide AfterAll, BatteryHistory, ChargeHistory;
  }

  /** In every reachable state a device that was told it is charged is still counted as charging. */
  lemma ToldImpliesCharging(ops: seq<Op>, device: string)
    ensures var d := Lookup(AfterAll(ops), device); d.chargedSent ==> d.charging
  {
    var h := ChargeHistory(ops, device);
    NoInterference(ops, device);
    if h != [] {
      Charging.StateIsHistory(h, |h| - 1);
      assert h[..|h|] == h;
    }
  }

  // ---- The battery rule, said of the readings

  /** Evaluation i of the run sent a low-battery alert about the device. */
  ghost predicate AlertsAt(ops: seq<Op>, device: string, i: nat)
    requires i < |ops|
  {
    ops[i].Battery? && ops[i].device == device && Apply(AfterAll(ops[..i]), ops[i]).1
  }

  /** Evaluation k read the device's battery as charged again: above the low mark and at or above the clear mark. */
  predicate Recharged(ops: seq<Op>, device: string, k: nat)
    requires k < |ops|
  {
    && ops[k].Battery? && ops[k].device == device && 0 <= ops[k].pct <= 100
    && ops[k].pct > ops[k].cfg.lowPct && ops[k].pct >= ops[k].cfg.clearPct
  }

  /** Of the first i evaluations, j sent the device's last alert. */
  ghost predicate LastAlert(ops: seq<Op>, device: string, i: nat, j: int)
    requires i <= |ops|
  {
    0 <= j < i && AlertsAt(ops, device, j) && forall k :: j < k < i ==> !AlertsAt(ops, device, k)
  }

  /** Between j and i the device's battery was read as charged again. */
  ghost predicate RechargedSince(ops: seq<Op>, device: string, i: nat, j: int)
    requires i <= |ops|
  {
    exists k :: 0 <= k && j < k < i && Recharged(ops, device, k)
  }

  /** What one evaluation makes of the device's latch. */
  lemma LatchStep(ops: seq<Op>, device: string, i: nat)
    requires i < |ops|
    ensures var d, d' := Lookup(AfterAll(ops[..i]), device), Lookup(AfterAll(ops[..i + 1]), device);
            var op := ops[i];
            && (AlertsAt(ops, device, i) <==>
                  && op.Battery? && op.device == device && 0 <= op.pct <= 100 && op.pct <= op.cfg.lowPct
                  && (!d.alerting || op.at - d.lastNotified >= op.cfg.renotify))
            && (d'.alerting <==> AlertsAt(ops, device, i) || (d.alerting && !Recharged(ops, device, i)))
            && d'.lastNotified == if AlertsAt(ops, device, i) then op.at else d.lastNotified
  {
    assert ops[..i + 1][..i] == ops[..i];
    OneOp(AfterAll(ops[..i]), device, ops[i]);
    hide AfterAll, LatchUpdate, ChargeUpdate;
  }

  lemma OneOp(m: States, device: string, op: Op)
    ensures var d, d' := Lookup(m, device), Lookup(Apply(m, op).0, device);
            var ours := op.Battery? && op.device == device && 0 <= op.pct <= 100;
            var low := ours && op.pct <= op.cfg.lowPct && (!d.alerting || op.at - d.lastNotified >= op.cfg.renotify);
            && (op.Battery? && op.device == device && Apply(m, op).1 <==> low)
            && (d'.alerting <==>
                  low || (d.alerting && !(ours && op.pct > op.cfg.lowPct && op.pct >= op.cfg.clearPct)))
            && d'.lastNotified == if low then op.at else d.lastNotified
  {
    hide Charging.Step, Charging.Fires;
  }

  /** The latch is set exactly while the last alert stands unrecovered, and remembers when that alert was sent. */
  lemma {:induction false} LatchIsReadings(ops: seq<Op>, device: string, i: nat)
    requires i <= |ops|
    ensures var d := Lookup(AfterAll(ops[..i]), device);
            && (d.alerting <==>
                  exists j :: LastAlert(ops, device, i, j) && !RechargedSince(ops, device, i, j))
            && (forall j :: LastAlert(ops, device, i, j) ==> d.lastNotified == ops[j].at)
  {
    if i == 0 {
      assert ops[..0] == [];
    } else {
      LatchIsReadings(ops, device, i - 1);
      LatchStep(ops, device, i - 1);
      LastAlertStep(ops, device, i - 1, i);
      hide AfterAll, AlertsAt, Recharged, LastAlert, RechargedSince;
    }
  }

  lemma LastAlertStep(ops: seq<Op>, device: string, n: nat, i: nat)
    requires n < |ops| && i == n + 1
    ensures forall j :: LastAlert(ops, device, i, j) <==>
                          if AlertsAt(ops, device, n) then j == n else LastAlert(ops, device, n, j)
    ensures !RechargedSince(ops, device, i, n)
    ensures forall j :: LastAlert(ops, device, n, j) ==>
              (RechargedSince(ops, device, i, j) <==> RechargedSince(ops, device, n, j) || Recharged(ops, device, n))
    ensures (exists j :: LastAlert(ops, device, i, j) && !RechargedSince(ops, device, i, j)) <==>
              || AlertsAt(ops, device, n)
              || ((exists j :: LastAlert(ops, device, n, j) && !RechargedSince(ops, device, n, j))
                  && !Recharged(ops, device, n))
  {
    hide AlertsAt, Recharged;
    if AlertsAt(ops, device, n) {
      assert LastAlert(ops, device, i, n) && !RechargedSince(ops, device, i, n);
    } else {
      forall j | LastAlert(ops, device, n, j)
        ensures RechargedSince(ops, device, i, j) <==> RechargedSince(ops, device, n, j) || Recharged(ops, device, n)
      {
      }
      if j :| LastAlert(ops, device, n, j) && !RechargedSince(ops, device, n, j) {
        assert LastAlert(ops, device, i, j);
      }
    }
  }

  /**
   * The rule: a valid reading alerts exactly if it is at or below the low mark and, since the device's last alert if
   * there was one, either its battery was read as charged again or the renotify interval has passed.
   */
  lemma BatteryRule(ops: seq<Op>, device: string, i: nat)
    requires i < |ops| && ops[i].Battery? && ops[i].device == device && 0 <= ops[i].pct <= 100
    ensures AlertsAt(ops, device, i) <==>
              && ops[i].pct <= ops[i].cfg.lowPct
              && forall j :: LastAlert(ops, device, i, j) ==>
                   RechargedSince(ops, device, i, j) || ops[i].at - ops[j].at >= ops[i].cfg.renotify
  {
    LatchIsReadings(ops, device, i);
    LatchStep(ops, device, i);
    hide AfterAll, AlertsAt, RechargedSince, Recharged;
    assert forall j, j' :: LastAlert(ops, device, i, j) && LastAlert(ops, device, i, j') ==> j == j';
  }

  lemma {:induction false} LastAlertExists(ops: seq<Op>, device: string, i: nat, n: nat) returns (j: nat)
    requires i < n <= |ops| && AlertsAt(ops, device, i)
    ensures i <= j && LastAlert(ops, device, n, j)
    decreases n
  {
    hide AlertsAt;
    if AlertsAt(ops, device, n - 1) {
      j := n - 1;
    } else {
      j := LastAlertExists(ops, device, i, n - 1);
    }
  }

  /**
   * With a clock that does not run back, between two alerts closer than the renotify interval the battery was
   * charged.
   */
  lemma AlertsNeedACharge(ops: seq<Op>, device: string, i: nat, n: nat)
    requires i < n < |ops| && AlertsAt(ops, device, i) && AlertsAt(ops, device, n)
    requires forall j, k :: 0 <= j <= k < |ops| ==> ops[j].at <= ops[k].at
    requires ops[n].at - ops[i].at < ops[n].cfg.renotify
    ensures RechargedSince(ops, device, n, i)
  {
    var j := LastAlertExists(ops, device, i, n);
    BatteryRule(ops, device, n);
    assert ops[i].at <= ops[j].at;
    hide AfterAll, Recharged;
    assert RechargedSince(ops, device, n, j);
    var k :| 0 <= k && j < k < n && Recharged(ops, device, k);
  }

  /** How many low-battery alerts a run sent for one device. */
  function BatteryAlerts(ops: seq<Op>, device: string): nat {
    if ops == [] then 0
    else
      var init, op := ops[..|ops| - 1], ops[|ops| - 1];
      BatteryAlerts(init, device) + if op.Battery? && op.device == device && Apply(AfterAll(init), op).1 then 1 else 0
  }

  /** They are the alerts of the device's own battery history. */
  lemma {:induction false} BatteryAlertsAreCounted(ops: seq<Op>, device: string)
    ensures BatteryAlerts(ops, device) == Latch.Count(BatteryHistory(ops, device), Latch.Alert)
  {
    if ops != [] {
      var init, op := ops[..|ops| - 1], ops[|ops| - 1];
      BatteryAlertsAreCounted(init, device);
      NoInterference(init, device);
      hide Latch.After, Latch.OutcomeOf, Latch.OutcomeAt, Charging.After, AfterAll, ChargeHistory;
      match op {
        case Battery(d, pct, cfg, at) =>
          var h, x := BatteryHistory(init, device), BatterySample(pct, cfg, at);
          LatchAppend(h, x);
          assert (h + [x])[..|h|] == h;
          Latch.CountUnfold(h + [x]);
        case Charge(_, _, _) =>
      }
    }
  }

  /**
   * With fixed settings and a clock that does not run back: one alert, one more per recovery, one more per renotify
   * interval.
   */
  lemma BatteryAlertsAreBounded(ops: seq<Op>, device: string, renotify: Time)
    requires renotify > 0 && Latch.Steady(BatteryHistory(ops, device), renotify) && BatteryHistory(ops, device) != []
    ensures var h := BatteryHistory(ops, device);
            BatteryAlerts(ops, device) <= 1 + Latch.Count(h, Latch.Clear) + (h[|h| - 1].at - h[0].at) / renotify
  {
    BatteryAlertsAreCounted(ops, device);
    Latch.AlertsAreBounded(BatteryHistory(ops, device), renotify);
  }

  // ---- The offline latch over whole runs of the checker

  datatype StaleCheck = StaleCheck(device: string, isStale: bool, cfg: Settings, at: Time)

  function AfterChecks(checks: seq<StaleCheck>): States {
    if checks == [] then map[]
    else
      var c := checks[|checks| - 1];
      LatchUpdate(AfterChecks(checks[..|checks| - 1]), c.device, StaleSample(c.isStale, c.cfg, c.at)).0
  }

  function StaleHistory(checks: seq<StaleCheck>, device: string): seq<Latch.Sample> {
    if checks == [] then []
    else
      var rest, c := StaleHistory(checks[..|checks| - 1], device), checks[|checks| - 1];
      if c.device == device then rest + [StaleSample(c.isStale, c.cfg, c.at)] else rest
  }

  lemma {:induction false} StaleLatchIsHistory(checks: seq<StaleCheck>, device: string)
    ensures LatchPart(Lookup(AfterChecks(checks), device)) == Latch.After(StaleHistory(checks, device))
  {
    if checks != [] {
      var init, c := checks[..|checks| - 1], checks[|checks| - 1];
      StaleLatchIsHistory(init, device);
      LatchAppend(StaleHistory(init, device), StaleSample(c.isStale, c.cfg, c.at));
      hide Latch.After, Latch.Step, Latch.OutcomeOf, Latch.OutcomeAt;
    }
  }

  /**
   * One message per transition: offline exactly on a stale check with no offline message since the last good one,
   * or the last such message long enough ago; recovered exactly on a good check while one stands.
   */
  lemma StaleEventIsHistory(checks: seq<StaleCheck>, device: string, isStale: bool, cfg: Settings, at: Time)
    ensures var h := StaleHistory(checks, device) + [StaleSample(isStale, cfg, at)];
            var i := |h| - 1;
            var ev := LatchUpdate(AfterChecks(checks), device, StaleSample(isStale, cfg, at)).1;
            && (ev.Alert? <==> isStale && forall j :: Latch.Live(h, i, j) ==> at - h[j].at >= cfg.renotify)
            && (ev.Clear? <==> !isStale && exists j :: Latch.Live(h, i, j))
  {
    var h, x := StaleHistory(checks, device), StaleSample(isStale, cfg, at);
    StaleLatchIsHistory(checks, device);
    LatchAppend(h, x);
    Latch.AlertIsHistory(h + [x], |h|);
    Latch.ClearIsHistory(h + [x], |h|);
    hide Latch.After, Latch.OutcomeOf, Latch.OutcomeAt, Latch.Live, AfterChecks, StaleHistory;
  }

  /** What the i-th check of a run announced. */
  function EventAt(checks: seq<StaleCheck>, i: nat): Latch.Outcome
    requires i < |checks|
  {
    var c := checks[i];
    LatchUpdate(AfterChecks(checks[..i]), c.device, StaleSample(c.isStale, c.cfg, c.at)).1
  }

  /** How many messages of one kind a run of checks sent about one device. */
  function StaleEvents(checks: seq<StaleCheck>, device: string, o: Latch.Outcome): nat {
    if checks == [] then 0
    else
      var n := |checks| - 1;
      StaleEvents(checks[..n], device, o) + if checks[n].device == device && EventAt(checks, n) == o then 1 else 0
  }

  /** They are those of the device's own history of checks. */
  lemma {:induction false} StaleEventsAreCounted(checks: seq<StaleCheck>, device: string, o: Latch.Outcome)
    ensures StaleEvents(checks, device, o) == Latch.Count(StaleHistory(checks, device), o)
  {
    if checks != [] {
      var n := |checks| - 1;
      var c := checks[n];
      StaleEventsAreCounted(checks[..n], device, o);
      LastEvent(checks);
      CountAppend(StaleHistory(checks[..n], device), StaleSample(c.isStale, c.cfg, c.at), o);
      hide Latch.After, Latch.OutcomeOf, Latch.Count, EventAt, StaleSample;
    }
  }

  lemma LastEvent(checks: seq<StaleCheck>)
    requires checks != []
    ensures var n := |checks| - 1;
            var c := checks[n];
            EventAt(checks, n)
            == Latch.OutcomeOf(Latch.After(StaleHistory(checks[..n], c.device)), StaleSample(c.isStale, c.cfg, c.at))
  {
    StaleLatchIsHistory(checks[..|checks| - 1], checks[|checks| - 1].device);
    hide Latch.After, Latch.OutcomeOf, AfterChecks, StaleHistory, StaleSample;
  }

  lemma CountAppend(h: seq<Latch.Sample>, x: Latch.Sample, o: Latch.Outcome)
    ensures Latch.Count(h + [x], o) == Latch.Count(h, o) + if Latch.OutcomeOf(Latch.After(h), x) == o then 1 else 0
  {
    LatchAppend(h, x);
    assert (h + [x])[..|h|] == h;
    Latch.CountUnfold(h + [x]);
    hide Latch.After, Latch.OutcomeOf, Latch.OutcomeAt, Latch.Count;
  }

  /** Offline messages about a device: one, one more per recovery, one more per renotify interval gone by. */
  lemma OfflineMessagesAreBounded(checks: seq<StaleCheck>, device: string, renotify: Time)
    requires renotify > 0 && Latch.Steady(StaleHistory(checks, device), renotify) && StaleHistory(checks, device) != []
    ensures var h := StaleHistory(checks, device);
            StaleEvents(checks, device, Latch.Alert)
            <= 1 + StaleEvents(checks, device, Latch.Clear) + (h[|h| - 1].at - h[0].at) / renotify
  {
    StaleEventsAreCounted(checks, device, Latch.Alert);
    StaleEventsAreCounted(checks, device, Latch.Clear);
    Latch.AlertsAreBounded(StaleHistory(checks, device), renotify);
  }

  /** The device's latch after the first n checks. */
  function OfflineAfter(checks: seq<StaleCheck>, n: nat, device: string): bool
    requires n <= |checks|
  {
    Lookup(AfterChecks(checks[..n]), device).alerting
  }

  lemma OneCheck(checks: seq<StaleCheck>, n: nat, device: string)
    requires n < |checks|
    ensures checks[n].device != device || EventAt(checks, n).Quiet? ==>
              (OfflineAfter(checks, n + 1, device) <==> OfflineAfter(checks, n, device))
    ensures checks[n].device == device && EventAt(checks, n).Clear? ==>
              OfflineAfter(checks, n, device) && !OfflineAfter(checks, n + 1, device)
  {
    assert checks[..n + 1][..n] == checks[..n];
  }

  /** A latch found set that was clear before was set by an offline message in between. */
  lemma {:induction false} SetByOffline(checks: seq<StaleCheck>, device: string, m: nat, n: nat)
    requires m <= n <= |checks| && !OfflineAfter(checks, m, device) && OfflineAfter(checks, n, device)
    ensures exists j :: m <= j < n && checks[j].device == device && EventAt(checks, j).Alert?
    decreases n
  {
    hide AfterChecks, EventAt, OfflineAfter;
    OneCheck(checks, n - 1, device);
    if OfflineAfter(checks, n - 1, device) {
      SetByOffline(checks, device, m, n - 1);
    }
  }

  /** In any run of checks over any devices, between two recoveries of a device there is an offline message about it. */
  lemma RecoveriesAlternate(checks: seq<StaleCheck>, device: string, i: nat, k: nat)
    requires i < k < |checks| && checks[i].device == checks[k].device == device
    requires EventAt(checks, i).Clear? && EventAt(checks, k).Clear?
    ensures exists j :: i < j < k && checks[j].device == device && EventAt(checks, j).Alert?
  {
    OneCheck(checks, i, device);
    OneCheck(checks, k, device);
    SetByOffline(checks, device, i + 1, k);
    hide AfterChecks, EventAt, OfflineAfter;
  }
}
