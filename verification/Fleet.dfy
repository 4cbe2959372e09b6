/**
 * Who is offline: the in-memory telemetry (telemetry.go), the stale threshold (status.go) and the checker
 * (notifications.go).
 */
module Fleet {
  import opened Bytes
  import opened Wrappers
  import opened Calendar
  import opened Wake
  import WakePlan
  import Alerts
  import Latch

  // ---- The in-memory half of the telemetry store

  /** The parts of a report the broker acts on. */
  datatype Report = Report(batteryMV: int, batteryPct: int, rendered: bool)

  const NO_REPORT := Report(0, 0, false)

  datatype DeviceState = DeviceState(
    last: Report, lastSeen: Time, lastRendered: Option<Time>, roomStatus: string,
    expectedWake: uint32, reported: bool)

  const UNSEEN := DeviceState(NO_REPORT, 0, None, "", 0, false)

  type Devices = map<string, DeviceState>

  function Lookup(m: Devices, device: string): DeviceState { if device in m then m[device] else UNSEEN }

  /** A report replaces everything but the room status, the expected wake and, unless it rendered, the last render. */
  function Reported(s: DeviceState, r: Report, now: Time): DeviceState {
    s.(last := r, lastSeen := now, lastRendered := if r.rendered then Some(now) else s.lastRendered, reported := true)
  }

  function Expecting(s: DeviceState, seconds: uint32): DeviceState { s.(expectedWake := seconds) }

  datatype Snapshot = Snapshot(report: Report, lastSeen: Time, lastRendered: Option<Time>, expectedWake: uint32)

  function SnapshotOf(m: Devices, device: string): Option<Snapshot> {
    if device !in m || !m[device].reported then None
    else Some(Snapshot(m[device].last, m[device].lastSeen, m[device].lastRendered, m[device].expectedWake))
  }

  datatype Call =
    | Reports(device: string, report: Report, at: Time)
    | Status(device: string, status: string)
    | Expects(device: string, seconds: uint32)

  /** What each call makes of the store. */
  function Called(m: Devices, c: Call): Devices {
    match c
    case Reports(d, r, at) => m[d := Reported(Lookup(m, d), r, at)]
    case Status(d, status) => m[d := Lookup(m, d).(roomStatus := status)]
    case Expects(d, seconds) => if seconds == 0 then m else m[d := Expecting(Lookup(m, d), seconds)]
  }

  class TelemetryStore {
    var m: Devices

    constructor ()
      ensures m == map[]
    {
      m := map[];
    }

    method Ingest(device: string, r: Report, now: Time)
      modifies this
      ensures m == Called(old(m), Reports(device, r, now))
    {
      if device !in m {
        m := m[device := UNSEEN];
      }
      var st := m[device];
      var lastRendered := st.lastRendered;
      if r.rendered {
        lastRendered := Some(now);
      }
      m := m[device := DeviceState(r, now, lastRendered, st.roomStatus, st.expectedWake, true)];
      assert m == old(m)[device := m[device]];
    }

    method SetRoomStatus(device: string, status: string)
      modifies this
      ensures m == Called(old(m), Status(device, status))
    {
      if device !in m {
        m := m[device := UNSEEN];
      }
      m := m[device := m[device].(roomStatus := status)];
      assert m == old(m)[device := m[device]];
    }

    method SetExpectedWake(device: string, seconds: uint32)
      modifies this
      ensures m == Called(old(m), Expects(device, seconds))
    {
      if seconds == 0 {
        return;
      }
      if device !in m {
        m := m[device := UNSEEN];
      }
      m := m[device := m[device].(expectedWake := seconds)];
      assert m == old(m)[device := m[device]];
    }
  }

  // ---- What the store knows, over any calls

  function Knows(cs: seq<Call>): Devices {
    if cs == [] then map[] else Called(Knows(cs[..|cs| - 1]), cs[|cs| - 1])
  }

  /** Of the calls about a device, i is the last that tells one thing about it. */
  ghost predicate LastTold(cs: seq<Call>, device: string, tells: Call -> bool, i: int) {
    0 <= i < |cs| && cs[i].device == device && tells(cs[i])
    && forall k :: i < k < |cs| ==> !(cs[k].device == device && tells(cs[k]))
  }

  ghost predicate NeverTold(cs: seq<Call>, device: string, tells: Call -> bool) {
    forall k :: 0 <= k < |cs| ==> !(cs[k].device == device && tells(cs[k]))
  }

  predicate IsReport(c: Call) { c.Reports? }

  predicate IsRender(c: Call) { c.Reports? && c.report.rendered }

  predicate IsStatus(c: Call) { c.Status? }

  predicate IsExpected(c: Call) { c.Expects? && c.seconds > 0 }

  /** The store has the last report and when it came, and knows whether there ever was one. */
  lemma {:induction false} ReportIsHistory(cs: seq<Call>, device: string)
    ensures var s := Lookup(Knows(cs), device);
            && (s.reported <==> !NeverTold(cs, device, IsReport))
            && (forall i :: LastTold(cs, device, IsReport, i) ==> s.last == cs[i].report && s.lastSeen == cs[i].at)
  {
    if cs != [] {
      hide LastTold, NeverTold;
      ReportIsHistory(cs[..|cs| - 1], device);
      KnowsOneMore(cs, device);
      ToldOneMore(cs, device, IsReport);
      hide Knows, Lookup, Called;
    }
  }

  /** It has when the device last said that it rendered, whatever it reported since. */
  lemma {:induction false} RenderIsHistory(cs: seq<Call>, device: string)
    ensures var s := Lookup(Knows(cs), device);
            && (forall i :: LastTold(cs, device, IsRender, i) ==> s.lastRendered == Some(cs[i].at))
            && (NeverTold(cs, device, IsRender) ==> s.lastRendered == None)
  {
    if cs != [] {
      hide LastTold, NeverTold;
      RenderIsHistory(cs[..|cs| - 1], device);
      KnowsOneMore(cs, device);
      ToldOneMore(cs, device, IsRender);
      hide Knows, Lookup, Called;
    }
  }

  /** It has the last room status set, however many reports came since. */
  lemma {:induction false} StatusIsHistory(cs: seq<Call>, device: string)
    ensures var s := Lookup(Knows(cs), device);
            && (forall i :: LastTold(cs, device, IsStatus, i) ==> s.roomStatus == cs[i].status)
            && (NeverTold(cs, device, IsStatus) ==> s.roomStatus == "")
  {
    if cs != [] {
      StatusIsHistory(cs[..|cs| - 1], device);
      hide LastTold, NeverTold, Knows, Lookup;
      StatusStep(cs, device);
    }
  }

  lemma StatusStep(cs: seq<Call>, device: string)
    requires cs != []
    ensures var n := |cs| - 1;
            var s, s' := Lookup(Knows(cs[..n]), device), Lookup(Knows(cs), device);
            var told := cs[n].device == device && cs[n].Status?;
            && s'.roomStatus == (if told then cs[n].status else s.roomStatus)
            && (NeverTold(cs, device, IsStatus) <==> !told && NeverTold(cs[..n], device, IsStatus))
            && (forall i :: LastTold(cs, device, IsStatus, i) <==>
                              if told then i == n else LastTold(cs[..n], device, IsStatus, i))
  {
    hide LastTold, NeverTold;
    KnowsOneMore(cs, device);
    ToldOneMore(cs, device, IsStatus);
    hide Knows, Lookup, Called;
  }

  /** And the last sleep announced that was not 0. */
  lemma {:induction false} ExpectedIsHistory(cs: seq<Call>, device: string)
    ensures var s := Lookup(Knows(cs), device);
            && (forall i :: LastTold(cs, device, IsExpected, i) ==> s.expectedWake == cs[i].seconds)
            && (NeverTold(cs, device, IsExpected) ==> s.expectedWake == 0)
  {
    if cs != [] {
      hide LastTold, NeverTold;
      ExpectedIsHistory(cs[..|cs| - 1], device);
      KnowsOneMore(cs, device);
      ToldOneMore(cs, device, IsExpected);
      hide Knows, Lookup, Called;
    }
  }

  lemma KnowsOneMore(cs: seq<Call>, device: string)
    requires cs != []
    ensures var n := |cs| - 1;
            var s, s' := Lookup(Knows(cs[..n]), device), Lookup(Knows(cs), device);
            if cs[n].device != device then s' == s
            else match cs[n]
              case Reports(_, r, at) => s' == Reported(s, r, at)
              case Status(_, status) => s' == s.(roomStatus := status)
              case Expects(_, seconds) => s' == if seconds == 0 then s else Expecting(s, seconds)
  {
  }

  lemma ToldOneMore(cs: seq<Call>, device: string, tells: Call -> bool)
    requires cs != []
    ensures var n := |cs| - 1;
            var told := cs[n].device == device && tells(cs[n]);
            && (NeverTold(cs, device, tells) <==> !told && NeverTold(cs[..n], device, tells))
            && (forall i :: LastTold(cs, device, tells, i) <==>
                              if told then i == n else LastTold(cs[..n], device, tells, i))
  {
    var n := |cs| - 1;
    assert forall k :: 0 <= k < n ==> cs[..n][k] == cs[k];
    if cs[n].device == device && tells(cs[n]) {
      assert LastTold(cs, device, tells, n);
    } else if NeverTold(cs[..n], device, tells) {
      forall k | 0 <= k < |cs| ensures !(cs[k].device == device && tells(cs[k])) {
        if k < n {
          assert cs[..n][k] == cs[k];
        }
      }
    }
  }

  // ---- Staleness

  function StaleThreshold(staleAfter: Time, snap: Snapshot): Time {
    if snap.expectedWake > 0 then 2 * snap.expectedWake * SECOND else staleAfter
  }

  predicate IsStale(staleAfter: Time, snap: Snapshot, now: Time) {
    now - snap.lastSeen > StaleThreshold(staleAfter, snap)
  }

  /** checkStale over the first rooms of the list: the offline latches and one outcome per reported room. */
  function Sweep(
    stale: Alerts.States, m: Devices, rooms: seq<string>, cfg: Alerts.Settings, staleAfter: Time, now: Time)
    : (Alerts.States, seq<(string, Latch.Outcome)>)
  {
    if rooms == [] then (stale, [])
    else
      var (before, outcomes) := Sweep(stale, m, rooms[..|rooms| - 1], cfg, staleAfter, now);
      var device := rooms[|rooms| - 1];
      match SnapshotOf(m, device)
      case None => (before, outcomes)
      case Some(snap) =>
        var sample := Alerts.StaleSample(IsStale(staleAfter, snap, now), cfg, now);
        var (next, o) := Alerts.LatchUpdate(before, device, sample);
        (next, outcomes + [(device, o)])
  }

  method CheckStale(rooms: seq<string>, tlm: TelemetryStore, alerts: Alerts.Manager, staleAfter: Time, now: Time)
    returns (outcomes: seq<(string, Latch.Outcome)>)
    modifies alerts`stale
    ensures (alerts.stale, outcomes)
         == Sweep(old(alerts.stale), tlm.m, rooms, Alerts.InForce(alerts.built, alerts.live), staleAfter, now)
  {
    outcomes := [];
    assert rooms[..0] == [];
    for i := 0 to |rooms|
      invariant alerts.live == old(alerts.live)
      invariant (alerts.stale, outcomes)
         == Sweep(old(alerts.stale), tlm.m, rooms[..i], Alerts.InForce(alerts.built, alerts.live), staleAfter, now)
    {
      assert rooms[..i + 1][..i] == rooms[..i];
      var snap := SnapshotOf(tlm.m, rooms[i]);
      if snap.Some? {
        var o := alerts.EvaluateStale(rooms[i], IsStale(staleAfter, snap.value, now), now);
        outcomes := outcomes + [(rooms[i], o)];
      }
    }
    assert rooms[..|rooms|] == rooms;
  }

  /** The rooms that have reported, in the order of the list. */
  function ReportedRooms(m: Devices, rooms: seq<string>): seq<string> {
    if rooms == [] then []
    else if SnapshotOf(m, rooms[0]).Some? then [rooms[0]] + ReportedRooms(m, rooms[1..])
    else ReportedRooms(m, rooms[1..])
  }

  lemma {:induction false} ReportedAppend(m: Devices, rooms: seq<string>, device: string)
    ensures ReportedRooms(m, rooms + [device])
         == ReportedRooms(m, rooms) + if SnapshotOf(m, device).Some? then [device] else []
  {
    if rooms == [] {
      assert [device][1..] == [];
    } else {
      assert (rooms + [device])[1..] == rooms[1..] + [device];
      ReportedAppend(m, rooms[1..], device);
    }
  }

  /** One outcome for each of them, in that order. */
  lemma {:induction false} SweepInOrder(
    stale: Alerts.States, m: Devices, rooms: seq<string>, cfg: Alerts.Settings, staleAfter: Time, now: Time)
    ensures var outcomes, reported := Sweep(stale, m, rooms, cfg, staleAfter, now).1, ReportedRooms(m, rooms);
            |outcomes| == |reported| && forall k :: 0 <= k < |outcomes| ==> outcomes[k].0 == reported[k]
  {
    if rooms != [] {
      var init, device := rooms[..|rooms| - 1], rooms[|rooms| - 1];
      SweepInOrder(stale, m, init, cfg, staleAfter, now);
      ReportedAppend(m, init, device);
      assert init + [device] == rooms;
      hide SnapshotOf, ReportedRooms;
    }
  }

  /** The check of one device, against its own threshold and its own latch. */
  function Checked(
    stale: Alerts.States, snap: Snapshot, device: string, cfg: Alerts.Settings, staleAfter: Time, now: Time)
    : (Alerts.States, Latch.Outcome)
  {
    Alerts.LatchUpdate(stale, device, Alerts.StaleSample(IsStale(staleAfter, snap, now), cfg, now))
  }

  /** With every room listed once, each reported one is checked once and alone: no other room affects what it gets. */
  lemma {:induction false} SweepIsExact(
    stale: Alerts.States, m: Devices, rooms: seq<string>, cfg: Alerts.Settings, staleAfter: Time, now: Time,
    device: string, o: Latch.Outcome)
    requires forall i, j :: 0 <= i < j < |rooms| ==> rooms[i] != rooms[j]
    ensures var (after, outcomes) := Sweep(stale, m, rooms, cfg, staleAfter, now);
            var snap := SnapshotOf(m, device);
            var checked := device in rooms && snap.Some?;
            && ((device, o) in outcomes <==>
                  checked && o == Checked(stale, snap.value, device, cfg, staleAfter, now).1)
            && Alerts.Lookup(after, device)
               == if checked then Alerts.Lookup(Checked(stale, snap.value, device, cfg, staleAfter, now).0, device)
                  else Alerts.Lookup(stale, device)
  {
    if rooms != [] {
      var init, last := rooms[..|rooms| - 1], rooms[|rooms| - 1];
      assert init + [last] == rooms;
      SweepIsExact(stale, m, init, cfg, staleAfter, now, device, o);
      hide SnapshotOf, Latch.Step, Latch.OutcomeOf;
    }
  }

  /** A room the sweep calls offline was reported and past its own threshold at that moment. */
  lemma {:induction false} OfflineMeansStale(
    stale: Alerts.States, m: Devices, rooms: seq<string>, cfg: Alerts.Settings, staleAfter: Time, now: Time,
    device: string)
    ensures (device, Latch.Alert) in Sweep(stale, m, rooms, cfg, staleAfter, now).1 ==>
              SnapshotOf(m, device).Some? && IsStale(staleAfter, SnapshotOf(m, device).value, now)
  {
    if rooms != [] {
      OfflineMeansStale(stale, m, rooms[..|rooms| - 1], cfg, staleAfter, now, device);
    }
  }

  // ---- Runs of the whole fleet

  datatype Event =
    | Fetch(device: string, nextWake: uint32, at: Time)   // a display fetch; the broker notes the clamped sleep
    | Post(device: string, report: Report, sleep: nat, at: Time)
        // a report, and the seconds the device then really sleeps, which it does not tell
    | Check(at: Time)                                     // a tick of the stale checker

  function Handle(m: Devices, e: Event): Devices {
    match e
    case Fetch(d, nextWake, at) => m[d := Expecting(Lookup(m, d), ClampWakeSeconds(nextWake))]
    case Post(d, r, _, at) => m[d := Reported(Lookup(m, d), r, at)]
    case Check(_) => m
  }

  /** A run starts from whatever the store was warm-started with. */
  function After(m0: Devices, h: seq<Event>): Devices {
    if h == [] then m0 else Handle(After(m0, h[..|h| - 1]), h[|h| - 1])
  }

  /** What a restarted broker knows of a device that reported before: its last report, and no expected wake. */
  function WarmStarted(r: Report, lastSeen: Time, lastRendered: Option<Time>): DeviceState {
    DeviceState(r, lastSeen, lastRendered, "", 0, true)
  }

  /** A device as it really is: its name, the sleep it was in when the run began, and how late it may be. */
  datatype Sleeper = Sleeper(device: string, sleep0: nat, allowance: nat)

  /** The sleep the device really took after its last report. */
  function SleepAtReport(h: seq<Event>, x: Sleeper): nat {
    if h == [] then x.sleep0
    else if h[|h| - 1].Post? && h[|h| - 1].device == x.device then h[|h| - 1].sleep
    else SleepAtReport(h[..|h| - 1], x)
  }

  /** The device is not overdue: it last reported no longer ago than the sleep it took then, plus the allowance. */
  ghost predicate NotOverdue(m0: Devices, h: seq<Event>, x: Sleeper, at: Time) {
    var s := Lookup(After(m0, h), x.device);
    s.reported ==> at - s.lastSeen <= (SleepAtReport(h, x) + x.allowance) * SECOND
  }

  /** The device keeps its schedule: whenever it reports or is checked it is not overdue. */
  ghost predicate OnSchedule(m0: Devices, h: seq<Event>, x: Sleeper) {
    h == [] || (
      var init, e := h[..|h| - 1], h[|h| - 1];
      && OnSchedule(m0, init, x)
      && ((e.Post? && e.device == x.device) || e.Check? ==> NotOverdue(m0, init, x, e.at)))
  }

  function ThresholdOf(staleAfter: Time, s: DeviceState): Time {
    StaleThreshold(staleAfter, Snapshot(s.last, s.lastSeen, s.lastRendered, s.expectedWake))
  }

  /** The broker's threshold covers the sleep the device is really in, and its allowance. */
  ghost predicate IsCovered(m0: Devices, h: seq<Event>, x: Sleeper, staleAfter: Time) {
    var s := Lookup(After(m0, h), x.device);
    s.reported ==> (SleepAtReport(h, x) + x.allowance) * SECOND <= ThresholdOf(staleAfter, s)
  }

  /**
   * What event e must do: a fetch announces at least half of the sleep the device is in and its allowance; after a
   * report the device's sleep and allowance fit in twice the sleep last announced, or in the fallback.
   */
  ghost predicate Agrees(m0: Devices, h: seq<Event>, x: Sleeper, staleAfter: Time, e: Event) {
    var s := Lookup(After(m0, h), x.device);
    match e
    case Fetch(d, nextWake, _) =>
      d == x.device && s.reported ==> SleepAtReport(h, x) + x.allowance <= 2 * ClampWakeSeconds(nextWake)
    case Post(d, _, sleep, _) =>
      d == x.device ==> (sleep + x.allowance) * SECOND <= ThresholdOf(staleAfter, s)
    case Check(_) => true
  }

  ghost predicate AllAgree(m0: Devices, h: seq<Event>, x: Sleeper, staleAfter: Time) {
    h == [] || (
      var init := h[..|h| - 1];
      AllAgree(m0, init, x, staleAfter) && Agrees(m0, init, x, staleAfter, h[|h| - 1]))
  }

  /** One event at a time: each fetch and each report of the device alone decides whether it is covered from then on. */
  lemma CoverIsExact(m0: Devices, h: seq<Event>, x: Sleeper, staleAfter: Time)
    requires h != []
    ensures var init, e := h[..|h| - 1], h[|h| - 1];
            IsCovered(m0, h, x, staleAfter) <==>
              if !e.Check? && e.device == x.device then Agrees(m0, init, x, staleAfter, e)
              else IsCovered(m0, init, x, staleAfter)
  {
  }

  /** So along every run in which they all agree, the threshold covers the sleep the device is really in. */
  lemma {:induction false} ThresholdCoversSleep(m0: Devices, h: seq<Event>, x: Sleeper, staleAfter: Time)
    requires AllAgree(m0, h, x, staleAfter) && IsCovered(m0, [], x, staleAfter)
    ensures IsCovered(m0, h, x, staleAfter)
  {
    if h != [] {
      ThresholdCoversSleep(m0, h[..|h| - 1], x, staleAfter);
      CoverIsExact(m0, h, x, staleAfter);
    }
    hide IsCovered, Agrees;
  }

  /** Then the checker never announces the device offline while it keeps its schedule, whatever its latch remembers. */
  lemma OnScheduleIsNeverOffline(
    m0: Devices, h: seq<Event>, x: Sleeper,
    staleAfter: Time, stale: Alerts.States, rooms: seq<string>, cfg: Alerts.Settings)
    requires h != [] && h[|h| - 1].Check? && OnSchedule(m0, h, x)
    requires AllAgree(m0, h, x, staleAfter) && IsCovered(m0, [], x, staleAfter)
    ensures (x.device, Latch.Alert) !in Sweep(stale, After(m0, h), rooms, cfg, staleAfter, h[|h| - 1].at).1
  {
    ThresholdCoversSleep(m0, h[..|h| - 1], x, staleAfter);
    OfflineMeansStale(stale, After(m0, h), rooms, cfg, staleAfter, h[|h| - 1].at, x.device);
    hide Sweep;
  }

  /** And no less will do: after any run some check finds a device offline that is not overdue, unless it is covered. */
  lemma AnnouncedIsExact(m0: Devices, h: seq<Event>, x: Sleeper, staleAfter: Time, cfg: Alerts.Settings)
    ensures NoFalseAlarm(m0, h, x, staleAfter, cfg) <==> IsCovered(m0, h, x, staleAfter)
  {
    var m := After(m0, h);
    var s := Lookup(m, x.device);
    var due := s.lastSeen + (SleepAtReport(h, x) + x.allowance) * SECOND;
    if s.reported {
      assert NotOverdue(m0, h, x, due);
      forall at { SweepOne(m, x.device, cfg, staleAfter, at); }
      assert NoFalseAlarm(m0, h, x, staleAfter, cfg) ==> !Announces(m, x.device, cfg, staleAfter, due);
    } else {
      forall at { OfflineMeansStale(map[], m, [x.device], cfg, staleAfter, at, x.device); }
    }
    hide After, SleepAtReport, Sweep;
  }

  ghost predicate Announces(m: Devices, device: string, cfg: Alerts.Settings, staleAfter: Time, at: Time) {
    (device, Latch.Alert) in Sweep(map[], m, [device], cfg, staleAfter, at).1
  }

  ghost predicate NoFalseAlarm(m0: Devices, h: seq<Event>, x: Sleeper, staleAfter: Time, cfg: Alerts.Settings) {
    forall at :: NotOverdue(m0, h, x, at) ==> !Announces(After(m0, h), x.device, cfg, staleAfter, at)
  }

  /** The sweep over one reported room, with no latch set. */
  lemma SweepOne(m: Devices, device: string, cfg: Alerts.Settings, staleAfter: Time, now: Time)
    requires SnapshotOf(m, device).Some?
    ensures Announces(m, device, cfg, staleAfter, now) <==> IsStale(staleAfter, SnapshotOf(m, device).value, now)
  {
    var rooms := [device];
    assert rooms[..|rooms| - 1] == [] && rooms[|rooms| - 1] == device;
    var sample := Alerts.StaleSample(IsStale(staleAfter, SnapshotOf(m, device).value, now), cfg, now);
    var outcome := Alerts.LatchUpdate(map[], device, sample).1;
    assert Sweep(map[], m, rooms, cfg, staleAfter, now).1 == [] + [(device, outcome)];
  }

  // ---- What the broker announces against what the device does

  /**
   * The sleep a device takes on a header it received is covered by what the broker notes exactly if its allowance fits
   * the noted sleep, or, where the header says nothing, its old sleep and allowance fit two minutes.
   */
  lemma ObeyedSleepIsCovered(
    c: WakePlan.WakeConfig, room: WakePlan.Room, cur: Option<Calendar.Event>, next: Option<Calendar.Event>, now: Time,
    previous: uint32, allowance: nat)
    ensures var header := WakePlan.NextWakeDuration(c, room, cur, next, now);
            FirmwareSleep(header, previous) + allowance <= 2 * ClampWakeSeconds(header) <==>
              if WakePlan.SaysNothing(c, room, cur, next, now)
              then ClampWake(previous) + allowance <= 2 * MIN_WAKE_SECONDS
              else allowance <= ClampWakeSeconds(header)
  {
    WakePlan.ZeroHeaderIsExact(c, room, cur, next, now);
    ClampsAgree(WakePlan.NextWakeDuration(c, room, cur, next, now));
    hide WakePlan.NextWakeDuration, WakePlan.SaysNothing;
  }

  /** A run begun on any store has no false alarm before it disagrees exactly if the device starts covered. */
  ghost predicate NoFalseAlarms(m0: Devices, x: Sleeper, staleAfter: Time, cfg: Alerts.Settings) {
    forall h :: OnSchedule(m0, h, x) && AllAgree(m0, h, x, staleAfter) ==> NoFalseAlarm(m0, h, x, staleAfter, cfg)
  }

  /**
   * A store begun empty raises no false alarm in any run in which all agree; one warm-started with a report of the
   * device, exactly if the sleep it is in and its allowance fit the configured fallback.
   */
  lemma StartIsExact(
    m0: Devices, x: Sleeper, r: Report, lastSeen: Time, lastRendered: Option<Time>, staleAfter: Time,
    cfg: Alerts.Settings)
    ensures NoFalseAlarms(map[], x, staleAfter, cfg)
    ensures NoFalseAlarms(m0[x.device := WarmStarted(r, lastSeen, lastRendered)], x, staleAfter, cfg) <==>
              (x.sleep0 + x.allowance) * SECOND <= staleAfter
  {
    var m1 := m0[x.device := WarmStarted(r, lastSeen, lastRendered)];
    assert IsCovered(m1, [], x, staleAfter) <==> (x.sleep0 + x.allowance) * SECOND <= staleAfter;
    assert IsCovered(map[], [], x, staleAfter);
    StartDecides(m1, x, staleAfter, cfg);
    StartDecides(map[], x, staleAfter, cfg);
    hide NoFalseAlarms, IsCovered;
  }

  lemma StartDecides(m0: Devices, x: Sleeper, staleAfter: Time, cfg: Alerts.Settings)
    ensures NoFalseAlarms(m0, x, staleAfter, cfg) <==> IsCovered(m0, [], x, staleAfter)
  {
    assert OnSchedule(m0, [], x) && AllAgree(m0, [], x, staleAfter);
    AnnouncedIsExact(m0, [], x, staleAfter, cfg);
    hide OnSchedule, AllAgree, NoFalseAlarm, IsCovered;
    if IsCovered(m0, [], x, staleAfter) {
      forall h | OnSchedule(m0, h, x) && AllAgree(m0, h, x, staleAfter)
        ensures NoFalseAlarm(m0, h, x, staleAfter, cfg)
      {
        ThresholdCoversSleep(m0, h, x, staleAfter);
        AnnouncedIsExact(m0, h, x, staleAfter, cfg);
      }
    }
  }

  // ---- Neither condition can be dropped

  lemma AfterAppend(m0: Devices, h: seq<Event>, e: Event, x: Sleeper)
    ensures After(m0, h + [e]) == Handle(After(m0, h), e)
    ensures SleepAtReport(h + [e], x) == if e.Post? && e.device == x.device then e.sleep else SleepAtReport(h, x)
    ensures OnSchedule(m0, h + [e], x) <==>
              && OnSchedule(m0, h, x)
              && ((e.Post? && e.device == x.device) || e.Check? ==> NotOverdue(m0, h, x, e.at))
  {
    assert (h + [e])[..|h|] == h;
  }

  /** A device is told e seconds, reports, and at its next fetch is told e2. */
  function CutShort(device: string, r: Report, e: nat, e2: nat): seq<Event>
    requires e <= MAX_WAKE_SECONDS && e2 <= MAX_WAKE_SECONDS
  {
    [] + [Fetch(device, e, 0)] + [Post(device, r, e, 0)] + [Fetch(device, e2, e * SECOND)]
  }

  /**
   * For every pair of sleeps and every allowance: that device keeps its schedule, and a check that comes before it is
   * overdue announces it offline exactly if the second sleep is less than half the first plus the allowance.
   */
  lemma HalvingIsNeeded(
    device: string, r: Report, e: nat, e2: nat, allowance: nat, cfg: Alerts.Settings, staleAfter: Time)
    requires MIN_WAKE_SECONDS <= e <= MAX_WAKE_SECONDS && MIN_WAKE_SECONDS <= e2 <= MAX_WAKE_SECONDS
    ensures var h, x := CutShort(device, r, e, e2), Sleeper(device, 0, allowance);
            var due := (e + allowance) * SECOND;
            && OnSchedule(map[], h, x) && NotOverdue(map[], h, x, due)
            && (Announces(After(map[], h), device, cfg, staleAfter, due) <==> e + allowance > 2 * e2)
  {
    var x := Sleeper(device, 0, allowance);
    var h1 := [] + [Fetch(device, e, 0)];
    var h2 := h1 + [Post(device, r, e, 0)];
    AfterAppend(map[], [], Fetch(device, e, 0), x);
    AfterAppend(map[], h1, Post(device, r, e, 0), x);
    AfterAppend(map[], h2, Fetch(device, e2, e * SECOND), x);
    hide After, SleepAtReport, Announces;
    SweepOne(After(map[], h2 + [Fetch(device, e2, e * SECOND)]), device, cfg, staleAfter, (e + allowance) * SECOND);
  }

  /** A device is sent a header of 0, reports, and repeats the sleep it remembers. */
  function ToldNothing(device: string, r: Report, previous: uint32): seq<Event> {
    [] + [Fetch(device, 0, 0)] + [Post(device, r, FirmwareSleep(0, previous), 0)]
  }

  /** It keeps its schedule too, and is announced offline exactly if that sleep and its allowance exceed two minutes. */
  lemma SilenceIsAnnounced(
    device: string, r: Report, previous: uint32, allowance: nat, cfg: Alerts.Settings, staleAfter: Time)
    ensures var h, x := ToldNothing(device, r, previous), Sleeper(device, 0, allowance);
            var due := (ClampWake(previous) + allowance) * SECOND;
            && OnSchedule(map[], h, x) && NotOverdue(map[], h, x, due)
            && (Announces(After(map[], h), device, cfg, staleAfter, due) <==>
                  ClampWake(previous) + allowance > 2 * MIN_WAKE_SECONDS)
  {
    var x := Sleeper(device, 0, allowance);
    var h1 := [] + [Fetch(device, 0, 0)];
    var post := Post(device, r, FirmwareSleep(0, previous), 0);
    AfterAppend(map[], [], Fetch(device, 0, 0), x);
    AfterAppend(map[], h1, post, x);
    hide After, SleepAtReport, Announces;
    SweepOne(After(map[], h1 + [post]), device, cfg, staleAfter, (ClampWake(previous) + allowance) * SECOND);
  }
}
