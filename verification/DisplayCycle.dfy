/** The programs at both ends of a display fetch, proved to take exactly the steps of the protocol. */
module DisplayCycle {
  import opened Bytes
  import opened Wrappers
  import opened Calendar
  import opened Wake
  import opened ETags
  import opened Mdpf
  import WakePlan
  import SmartRuns
  import Poller
  import Cache
  import Fleet
  import Alerts
  import opened Coherence

  /** The wake settings and the room of one device, and the time of a request. */
  datatype Request = Request(
    device: string, cfg: WakePlan.WakeConfig, room: WakePlan.Room, now: Time,
    refreshHour: Option<int>, hour: int, day: string)

  /** The sleep the broker sends: nothing is known of the calendar while there is no frame. */
  function NextWakeFor(e: Cache.Entry, r: Request): uint32 {
    if e.etag == "" then WakePlan.NextWakeDuration(r.cfg, r.room, None, None, r.now)
    else WakePlan.NextWakeDuration(r.cfg, r.room, e.cur, e.next, r.now)
  }

  /** The broker expects the clamped sleep of a device it had a frame for. */
  function NotedWake(m: Fleet.Devices, e: Cache.Entry, r: Request): Fleet.Devices {
    if e.etag == "" then m
    else m[r.device := Fleet.Expecting(Fleet.Lookup(m, r.device), ClampWakeSeconds(NextWakeFor(e, r)))]
  }

  /** For a device with a frame that is what a fetch does to the telemetry the offline checks run over. */
  lemma NotedIsFetch(m: Fleet.Devices, e: Cache.Entry, r: Request)
    requires e.etag != ""
    ensures NotedWake(m, e, r) == Fleet.Handle(m, Fleet.Fetch(r.device, NextWakeFor(e, r), r.now))
  {
    hide NextWakeFor;
  }

  /**
   * Polled at p and fetched at now: the header of a smart room is that of the snapshot of the schedule at p, so what
   * is proved of wakes on such snapshots holds of the device; any other room's comes from the clock alone.
   */
  lemma ServedFromSnapshot(
    m: Cache.Entries, group: seq<Poller.Room>, schedule: seq<Calendar.Event>, p: Time, crc: Crc,
    compose: string -> Poller.Image, display: Poller.Room, r: Request, ifNoneMatch: string, force: bool,
    previous: uint32)
    requires display in group && r.device == display.deviceId
    ensures var f := Poller.Polled(crc, Current(schedule, p), Next(schedule, p), compose);
            var e := Cache.Lookup(Poller.Refreshed(m, group, name => Poller.EntryUnder(f, name)), r.device);
            var resp := HandleDisplay(e, ifNoneMatch, force, NextWakeFor(e, r));
            && !resp.NoFrame?
            && (WakePlan.IsSmart(r.cfg, r.room) ==>
                  && resp.nextWake == WakePlan.SnapshotHeader(r.cfg, schedule, p, r.now)
                  && r.now + FirmwareSleep(resp.nextWake, previous) * SECOND
                     == SmartRuns.NextWake(r.cfg, schedule, p, r.now, previous))
            && (!WakePlan.IsSmart(r.cfg, r.room) ==> resp.nextWake == WakePlan.FlatWakeSeconds(r.cfg, r.room, r.now))
  {
    var f := Poller.Polled(crc, Current(schedule, p), Next(schedule, p), compose);
    Poller.RefreshedKnowsSchedule(m, group, f, display);
    WakePlan.ModeDecides(r.cfg, r.room, f.cur, f.next, r.now);
    hide Poller.Refreshed, Current, Next, FirmwareSleep;
    hide WakePlan.SmartWakeSeconds, WakePlan.FlatWakeSeconds, WakePlan.NextWakeDuration;
  }

  /** A device without a frame is told what an empty day would tell it, whatever is on. */
  lemma NoFrameMeansNothingScheduled(e: Cache.Entry, r: Request, ifNoneMatch: string, force: bool)
    requires e.etag == ""
    ensures var resp := HandleDisplay(e, ifNoneMatch, force, NextWakeFor(e, r));
            && resp.NoFrame?
            && (WakePlan.IsSmart(r.cfg, r.room) ==> resp.nextWake == WakePlan.FreshHeader(r.cfg, [], r.now))
            && (!WakePlan.IsSmart(r.cfg, r.room) ==> resp.nextWake == WakePlan.FlatWakeSeconds(r.cfg, r.room, r.now))
  {
    WakePlan.ModeDecides(r.cfg, r.room, None, None, r.now);
    hide WakePlan.SmartWakeSeconds, WakePlan.FlatWakeSeconds, WakePlan.NextWakeDuration;
  }

  /** A 304, a 503 or a cut body leaves nothing to show; only the sleep depends on it. */
  lemma RespondCases(d: Device, resp: Response, net: Net, base: uint32, hw: Hardware)
    ensures var sleep := Suggested(HeaderValue(resp.nextWake), base);
            Respond(d, resp, net, base, hw)
            == if resp.Same? then (d, NotModified, sleep)
               else if resp.NoFrame? then (d, NoPayload, 60)
               else if net.BodyCut? then (d, NetError, sleep)
               else Receive(d, resp, base, hw)
  {
  }

  class Broker {
    const store: Cache.Store
    const tlm: Fleet.TelemetryStore
    const alerts: Alerts.Manager

    constructor (store: Cache.Store, tlm: Fleet.TelemetryStore, alerts: Alerts.Manager)
      ensures this.store == store && this.tlm == tlm && this.alerts == alerts
    {
      this.store, this.tlm, this.alerts := store, tlm, alerts;
    }

    /** handlers.go: the hot path, from the cache lookup to the response. */
    method ServeDisplay(r: Request, ifNoneMatch: string) returns (resp: Response)
      modifies store, tlm
      ensures var e := Cache.Lookup(old(store.m), r.device);
              var (entries, force) := CheckForce(old(store.m), r.device, r.refreshHour, r.hour, r.day);
              && store.m == entries
              && resp == HandleDisplay(e, ifNoneMatch, force, NextWakeFor(e, r))
              && tlm.m == NotedWake(old(tlm.m), e, r)
    {
      hide WakePlan.NextWakeDuration;
      var entry, ok := store.Get(r.device);
      if !ok || entry.etag == "" {
        return NoFrame(WakePlan.NextWakeDuration(r.cfg, r.room, None, None, r.now));
      }
      var nextWake := WakePlan.NextWakeDuration(r.cfg, r.room, entry.cur, entry.next, r.now);
      tlm.SetExpectedWake(r.device, ClampWakeSeconds(nextWake));
      var forceRefresh := false;
      if r.refreshHour.Some? {
        forceRefresh := store.ShouldForceFullRefresh(r.device, r.hour, r.day, r.refreshHour.value);
      }
      if !forceRefresh && ifNoneMatch != "" && ifNoneMatch == entry.etag {
        return Same(entry.etag, nextWake);
      }
      return Full(entry.etag, nextWake, entry.payload);
    }

    /** handlers.go: a telemetry report goes to the store, the battery latch and the charge tracker. */
    method ServeTelemetry(device: string, rep: Fleet.Report, now: Time) returns (low: bool, charged: bool)
      modifies tlm, alerts`state
      ensures tlm.m == old(tlm.m)[device := Fleet.Reported(Fleet.Lookup(old(tlm.m), device), rep, now)]
      ensures var cfg := Alerts.InForce(alerts.built, alerts.live);
              var (m1, b1) := Alerts.Apply(old(alerts.state), Alerts.Battery(device, rep.batteryPct, cfg, now));
              var (m2, b2) := Alerts.Apply(m1, Alerts.Charge(device, rep.batteryMV, now));
              alerts.state == m2 && low == b1 && charged == b2
    {
      hide Alerts.LatchUpdate, Alerts.ChargeUpdate;
      tlm.Ingest(device, rep, now);
      low := alerts.EvaluateBattery(device, rep.batteryPct, now);
      charged := alerts.EvaluateCharging(device, rep.batteryMV, now);
    }
  }

  class Unit {
    var rtc: Rtc
    var panel: seq<byte>

    /** app_main.cpp: one wake, from power-on to deep sleep. */
    method AppMain(reason: Reason, net: Net, hw: Hardware, broker: Broker, r: Request)
      returns (outcome: Outcome, nextWake: uint32)
      modifies this, broker.store, broker.tlm
      ensures var s := System(r.device, old(broker.store.m), None, Device(old(rtc), old(panel)));
              var suggestion := NextWakeFor(Cache.Lookup(old(broker.store.m), r.device), r);
              (System(r.device, broker.store.m, None, Device(rtc, panel)), outcome, nextWake)
              == Awake(s, WakeUp(reason, net, hw, r.refreshHour, r.hour, r.day, suggestion))
      ensures broker.tlm.m
           == if net.Up? || net.BodyCut? || net.ResponseLost?
              then NotedWake(old(broker.tlm.m), Cache.Lookup(old(broker.store.m), r.device), r)
              else old(broker.tlm.m)
    {
      hide NextWakeFor, ClampWake, Respond, IfNoneMatch, CheckForce, HandleDisplay, NotedWake;
      if reason.ColdBoot? {
        rtc := LOST;
      }
      if rtc.magic != RTC_MAGIC {
        rtc := LOST;
        rtc := rtc.(magic := RTC_MAGIC);
      }
      nextWake := ClampWake(rtc.nextWakeS);
      outcome := Offline;
      if net.NoWifi? {
        nextWake := ClampWake(DEFAULT_WAKE_SECONDS * if rtc.netFailures > 4 then 4 else 1);
      } else if net.NoTime? {
      } else if net.NoRequest? {
        outcome := NetError;
      } else if net.Rejected? {
        outcome := Unauthorized;
      } else if net.ResponseLost? {
        var _ := broker.ServeDisplay(r, IfNoneMatch(reason, rtc));
        outcome := NetError;
      } else {
        outcome, nextWake := FetchDisplay(reason, net, hw, broker, r, nextWake);
      }
      rtc := rtc.(nextWakeS := nextWake);
    }

    /** The request, and the switch on its status. */
    method FetchDisplay(reason: Reason, net: Net, hw: Hardware, broker: Broker, r: Request, base: uint32)
      returns (outcome: Outcome, nextWake: uint32)
      modifies this, broker.store, broker.tlm
      ensures var e := Cache.Lookup(old(broker.store.m), r.device);
              var (entries, force) := CheckForce(old(broker.store.m), r.device, r.refreshHour, r.hour, r.day);
              var resp := HandleDisplay(e, IfNoneMatch(reason, old(rtc)), force, NextWakeFor(e, r));
              && broker.store.m == entries && broker.tlm.m == NotedWake(old(broker.tlm.m), e, r)
              && (Device(rtc, panel), outcome, nextWake) == Respond(old(Device(rtc, panel)), resp, net, base, hw)
    {
      hide NextWakeFor, ClampWake, HeaderValue, ETag, CheckForce, HandleDisplay, Receive, Respond, NotedWake;
      ghost var d := Device(rtc, panel);
      var inm := if reason.Touch? then 0 else if rtc.shownValid then rtc.shownCrc else 0;
      var resp := broker.ServeDisplay(r, if inm != 0 then ETag(inm) else "");
      RespondCases(d, resp, net, base, hw);
      nextWake := base;
      if HeaderValue(resp.nextWake) != 0 {
        nextWake := ClampWake(HeaderValue(resp.nextWake));
      }
      match resp {
        case Same(_, _) =>
          outcome := NotModified;
        case NoFrame(_) =>
          outcome := NoPayload;
          nextWake := 60;
        case Full(_, _, bytes) =>
          if net.BodyCut? {
            outcome := NetError;
          } else {
            outcome, nextWake := Render(resp.etag, resp.nextWake, bytes, hw, nextWake, base);
          }
      }
    }

    /** The body of a 200 response: check it, decode it, show it, and remember its hash only if it is on the panel. */
    method Render(
      ghost etag: string, ghost header: uint32, bytes: seq<byte>, hw: Hardware, suggested: uint32, ghost base: uint32)
      returns (outcome: Outcome, nextWake: uint32)
      requires suggested == Suggested(HeaderValue(header), base)
      modifies this
      ensures (Device(rtc, panel), outcome, nextWake)
           == Receive(old(Device(rtc, panel)), Full(etag, header, bytes), base, hw)
    {
      hide ShowFrame, ClampWake, HeaderValue;
      nextWake := suggested;
      var buf := new byte[|bytes|](i requires 0 <= i < |bytes| => bytes[i]);
      assert buf[..] == bytes;
      var f := ExtractBody(buf);
      hide FetchBody;
      match f {
        case BadPayload(embedded) =>
          outcome := Outcome.BadPayload;
          if embedded != 0 {
            nextWake := ClampWake(embedded);
          }
        case LengthWraps(h) =>
          outcome := Overrun;
          if h.nextWakeS != 0 {
            nextWake := ClampWake(h.nextWakeS);
          }
        case Accepted(h, body) =>
          if h.nextWakeS != 0 {
            nextWake := ClampWake(h.nextWakeS);
          }
          var fb := Show(E1002, body, h);
          if fb.Some? && hw.Shows? {
            panel := fb.value;
            rtc := rtc.(shownCrc := h.crc);
            rtc := rtc.(shownValid := true);
            outcome := Rendered;
          } else {
            if fb.Some? && hw.Stalls? {
              panel := hw.left;
            }
            outcome := RenderFailed;
          }
      }
    }
  }
}
