/**
 * The conditional-GET protocol that keeps the panel in step with the broker's cache: polls, display fetches
 * (handlers.go), and the device's wake cycle (app_main.cpp, app_state.hpp), for one device among many.
 */
module Coherence {
  import opened Bytes
  import opened Wrappers
  import opened Wake
  import opened ETags
  import opened Mdpf
  import Cache
  import Calendar

  /** CRC-32 of a framebuffer; only its being a function matters here. */
  type Crc = seq<byte> -> uint32

  // ---- The device's memory (app_state.hpp)

  const RTC_MAGIC: uint32 := 0x4D44_5031

  datatype Rtc = Rtc(magic: uint32, shownCrc: uint32, shownValid: bool, nextWakeS: uint32, netFailures: nat)

  /** What a power cycle leaves. */
  const LOST := Rtc(0, 0, false, 0, 0)

  /** rtc_state_ensure_init. */
  function EnsureInit(r: Rtc): Rtc { if r.magic != RTC_MAGIC then LOST.(magic := RTC_MAGIC) else r }

  // ---- The broker's side of a fetch (handlers.go)

  datatype Response =
    | NoFrame(nextWake: uint32)
    | Same(etag: string, nextWake: uint32)
    | Full(etag: string, nextWake: uint32, bytes: seq<byte>)

  /** handleDisplay, once the device is authenticated; "" stands for an absent If-None-Match. */
  function HandleDisplay(e: Cache.Entry, ifNoneMatch: string, force: bool, nextWake: uint32): Response {
    if e.etag == "" then NoFrame(nextWake)
    else if !force && ifNoneMatch != "" && ifNoneMatch == e.etag then Same(e.etag, nextWake)
    else Full(e.etag, nextWake, e.payload)
  }

  /** The forced-refresh check runs only for a device that has a frame, and only when an hour is configured. */
  function CheckForce(m: Cache.Entries, device: string, forcedHour: Option<int>, hour: int, day: string)
    : (Cache.Entries, bool)
  {
    if Cache.Lookup(m, device).etag == "" || forcedHour.None? then (m, false)
    else Cache.ForceCheck(m, device, hour, day, forcedHour.value)
  }

  // ---- The device's side (app_main.cpp)

  datatype Reason = Timer | Touch | ColdBoot

  /**
   * How far a wake gets: no Wi-Fi, no clock, a request that never arrives, one that is rejected, one that is served
   * but whose response is lost, headers but not the body, or everything.
   */
  datatype Net = NoWifi | NoTime | NoRequest | Rejected | ResponseLost | BodyCut | Up

  /** The panel hardware: it shows the frame, refuses it untouched, or stalls in the refresh leaving anything at all. */
  datatype Hardware = Shows | Refuses | Stalls(left: seq<byte>)

  datatype Outcome =
    | Offline | NetError | Unauthorized | NoPayload | BadPayload | Overrun | NotModified | RenderFailed | Rendered

  function IfNoneMatch(reason: Reason, r: Rtc): string {
    var inm := if reason.Touch? then 0 else if r.shownValid then r.shownCrc else 0;
    if inm != 0 then ETag(inm) else ""
  }

  /** next_wake after a suggestion: 0 leaves the sleep already chosen. */
  function Suggested(suggestion: uint32, base: uint32): uint32 {
    if suggestion != 0 then ClampWake(suggestion) else base
  }

  /** The wake a payload header names goes before the response header's. */
  function Wakes(embedded: uint32, header: uint32): uint32 { if embedded != 0 then embedded else HeaderValue(header) }

  datatype Device = Device(rtc: Rtc, panel: seq<byte>)

  /** What is done with a 200 response once it is parsed. */
  function Accept(d: Device, f: Fetched, nextWake: uint32, base: uint32, hw: Hardware): (Device, Outcome, uint32) {
    match f
    case BadPayload(embedded) => (d, Outcome.BadPayload, Suggested(Wakes(embedded, nextWake), base))
    case LengthWraps(h) => (d, Overrun, Suggested(Wakes(h.nextWakeS, nextWake), base))
    case Accepted(h, body) =>
      var sleep := Suggested(Wakes(h.nextWakeS, nextWake), base);
      match ShowFrame(E1002, body, h)
      case None => (d, RenderFailed, sleep)
      case Some(fb) =>
        match hw
        case Shows => (Device(d.rtc.(shownCrc := h.crc, shownValid := true), fb), Rendered, sleep)
        case Refuses => (d, RenderFailed, sleep)
        case Stalls(left) => (d.(panel := left), RenderFailed, sleep)
  }

  /** The status switch on a complete response. */
  function Receive(d: Device, resp: Response, base: uint32, hw: Hardware): (Device, Outcome, uint32) {
    match resp
    case NoFrame(_) => (d, NoPayload, 60)
    case Same(_, nextWake) => (d, NotModified, Suggested(HeaderValue(nextWake), base))
    case Full(_, nextWake, bytes) => Accept(d, FetchBody(bytes), nextWake, base, hw)
  }

  /** A body cut short is a network error; a 304 or 503 has no body to cut. */
  function Respond(d: Device, resp: Response, net: Net, base: uint32, hw: Hardware): (Device, Outcome, uint32) {
    if net.BodyCut? && resp.Full? then (d, NetError, Suggested(HeaderValue(resp.nextWake), base))
    else Receive(d, resp, base, hw)
  }

  // ---- The whole system

  /** frame is the last frame the poller put in this device's cache entry since the broker started. */
  datatype System = System(device: string, entries: Cache.Entries, frame: Option<seq<byte>>, dev: Device)

  datatype Event =
    | PollOk(frame: seq<byte>, cur: Option<Calendar.Event>, next: Option<Calendar.Event>)
    | PollFail
    | Restart                                    // of the broker, which comes back with an empty cache
    | OtherDevice(op: Cache.Op, forcedHour: int)
    | WakeUp(reason: Reason, net: Net, hw: Hardware, refreshHour: Option<int>, hour: int, day: string, nextWake: uint32)

  /** The poller caches frames of the panel's size; other devices' operations are on other entries. */
  predicate Possible(s: System, e: Event) {
    match e
    case PollOk(frame, _, _) => |frame| == E1002.RawLen()
    case OtherDevice(op, _) => op.device != s.device
    case _ => true
  }

  /** What the poller stores for a frame: payload without a wake of its own, marked as a full refresh. */
  function EntryFor(crc: Crc, frame: seq<byte>): Cache.Entry {
    Cache.EMPTY.(payload := Wire(frame, E1002.width, E1002.height, 0, true, crc(frame)), etag := ETag(crc(frame)))
  }

  /** The same with the events it found, for the broker to compute later sleeps from. */
  function PolledEntry(
    crc: Crc, frame: seq<byte>, cur: Option<Calendar.Event>, next: Option<Calendar.Event>): Cache.Entry
  {
    EntryFor(crc, frame).(cur := cur, next := next)
  }

  /** The device as its memory check leaves it at the start of a wake. */
  function Woken(s: System, e: Event): Device
    requires e.WakeUp?
  {
    s.dev.(rtc := EnsureInit(if e.reason.ColdBoot? then LOST else s.dev.rtc))
  }

  /** The repaint check of the request, with the mark it leaves in the cache. */
  function Checked(s: System, e: Event): (Cache.Entries, bool)
    requires e.WakeUp?
  {
    CheckForce(s.entries, s.device, e.refreshHour, e.hour, e.day)
  }

  /** A wake whose request is answered. */
  function Connected(s: System, e: Event): (System, Outcome, uint32)
    requires e.WakeUp?
  {
    var d := Woken(s, e);
    var base := ClampWake(d.rtc.nextWakeS);
    var (entries, force) := Checked(s, e);
    var resp := HandleDisplay(Cache.Lookup(s.entries, s.device), IfNoneMatch(e.reason, d.rtc), force, e.nextWake);
    var (d', outcome, sleep) := Respond(d, resp, e.net, base, e.hw);
    (Asleep(s.(entries := entries), d', sleep), outcome, sleep)
  }

  /** One wake: the new system, how the wake ended and how long the device then sleeps. */
  function Awake(s: System, e: Event): (System, Outcome, uint32)
    requires e.WakeUp?
  {
    var d := Woken(s, e);
    var base := ClampWake(d.rtc.nextWakeS);
    match e.net
    case NoWifi =>
      var sleep := ClampWake(DEFAULT_WAKE_SECONDS * if d.rtc.netFailures > 4 then 4 else 1);
      (Asleep(s, d, sleep), Offline, sleep)
    case NoTime => (Asleep(s, d, base), Offline, base)
    case NoRequest => (Asleep(s, d, base), NetError, base)
    case Rejected => (Asleep(s, d, base), Unauthorized, base)
    case ResponseLost => (Asleep(s.(entries := Checked(s, e).0), d, base), NetError, base)
    case _ => Connected(s, e)
  }

  /** Before deep sleep the device remembers the sleep it takes. */
  function Asleep(s: System, d: Device, sleep: uint32): System {
    s.(dev := d.(rtc := d.rtc.(nextWakeS := sleep)))
  }

  function Step(crc: Crc, s: System, e: Event): System {
    match e
    case PollOk(frame, cur, next) =>
      s.(entries := s.entries[s.device := PolledEntry(crc, frame, cur, next)], frame := Some(frame))
    case PollFail => s.(entries := Cache.WithError(s.entries, s.device))
    case Restart => s.(entries := map[], frame := None)
    case OtherDevice(op, forcedHour) => s.(entries := Cache.Apply(s.entries, op, forcedHour).0)
    case WakeUp(_, _, _, _, _, _, _) => Awake(s, e).0
  }

  // ---- Invariants

  /** Whatever is served is exactly what the last poll rendered. */
  ghost predicate CacheInv(crc: Crc, s: System) {
    var e := Cache.Lookup(s.entries, s.device);
    e.etag != "" ==>
      s.frame.Some? && |s.frame.value| == E1002.RawLen()
      && e.payload == EntryFor(crc, s.frame.value).payload && e.etag == EntryFor(crc, s.frame.value).etag
  }

  /** What the device believes it shows has the hash of what it shows. */
  ghost predicate Coherent(crc: Crc, s: System) {
    s.dev.rtc.magic == RTC_MAGIC && s.dev.rtc.shownValid ==> s.dev.rtc.shownCrc == crc(s.dev.panel)
  }

  ghost predicate Inv(crc: Crc, s: System) { CacheInv(crc, s) && Coherent(crc, s) }

  /** The device can always parse, slice and decode what the poller cached, and learns its hash. */
  lemma CachedFrameIsShown(crc: Crc, frame: seq<byte>)
    requires |frame| == E1002.RawLen()
    ensures var f := FetchBody(EntryFor(crc, frame).payload);
            f.Accepted? && f.header.crc == crc(frame) && f.header.nextWakeS == 0
            && ShowFrame(E1002, f.body, f.header) == Some(frame)
  {
    hide Wire, FetchBody, ShowFrame, BodyOf;
    AreaBound(E1002.width, E1002.height);
    FetchesWhatWasSent(frame, E1002.width, E1002.height, 0, true, crc(frame));
    ShowsWhatWasSent(E1002, frame, 0, true, crc(frame));
  }

  lemma ForceKeepsFrames(m: Cache.Entries, device: string, forcedHour: Option<int>, hour: int, day: string)
    ensures var e, e' := Cache.Lookup(m, device), Cache.Lookup(CheckForce(m, device, forcedHour, hour, day).0, device);
            e'.payload == e.payload && e'.etag == e.etag
  {
  }

  lemma OthersKeepEntry(m: Cache.Entries, device: string, op: Cache.Op, forcedHour: int)
    requires op.device != device
    ensures Cache.Lookup(Cache.Apply(m, op, forcedHour).0, device) == Cache.Lookup(m, device)
  {
  }

  lemma StepKeepsCacheInv(crc: Crc, s: System, e: Event)
    requires CacheInv(crc, s) && Possible(s, e)
    ensures CacheInv(crc, Step(crc, s, e))
  {
    hide EntryFor, ETag, Receive, HandleDisplay, CheckForce, Cache.Apply;
    match e
    case OtherDevice(op, forcedHour) => OthersKeepEntry(s.entries, s.device, op, forcedHour);
    case WakeUp(_, _, _, refreshHour, hour, day, _) => ForceKeepsFrames(s.entries, s.device, refreshHour, hour, day);
    case _ =>
  }

  /** The device believes it shows a frame with this hash; a hash of 0 is never sent. */
  predicate Remembers(r: Rtc, sum: uint32) { r.shownValid && r.shownCrc != 0 && r.shownCrc == sum }

  /** Sending the remembered hash matches exactly when there is one to send and it is the cached one. */
  lemma MatchIsHashMatch(reason: Reason, r: Rtc, sum: uint32)
    ensures IfNoneMatch(reason, r) != "" && IfNoneMatch(reason, r) == ETag(sum) <==>
              !reason.Touch? && Remembers(r, sum)
  {
    ETagsCompareCrcs(r.shownCrc, sum);
    hide ETag;
  }

  /** The device and the end of a wake that receives a full frame: the hardware alone decides. */
  function Drawn(d: Device, frame: seq<byte>, sum: uint32, hw: Hardware): (Device, Outcome) {
    match hw
    case Shows => (Device(d.rtc.(shownCrc := sum, shownValid := true), frame), Rendered)
    case Refuses => (d, RenderFailed)
    case Stalls(left) => (d.(panel := left), RenderFailed)
  }

  lemma ShownFrameIsAccepted(
    d: Device, h: Header, body: seq<byte>, fb: seq<byte>, nextWake: uint32, base: uint32, hw: Hardware)
    requires ShowFrame(E1002, body, h) == Some(fb) && h.nextWakeS == 0
    ensures var (d', outcome) := Drawn(d, fb, h.crc, hw);
            Accept(d, Accepted(h, body), nextWake, base, hw) == (d', outcome, Suggested(HeaderValue(nextWake), base))
  {
    hide ShowFrame, HeaderValue, Suggested;
  }

  /** A full response with a cached frame is drawn. */
  lemma FullResponseIsSound(
    crc: Crc, frame: seq<byte>, d: Device, etag: string, nextWake: uint32, base: uint32, hw: Hardware)
    requires |frame| == E1002.RawLen()
    ensures var (d', outcome) := Drawn(d, frame, crc(frame), hw);
            Receive(d, Full(etag, nextWake, EntryFor(crc, frame).payload), base, hw)
            == (d', outcome, Suggested(HeaderValue(nextWake), base))
  {
    CachedFrameIsShown(crc, frame);
    var f := FetchBody(EntryFor(crc, frame).payload);
    hide EntryFor, FetchBody, ShowFrame, Accept;
    ShownFrameIsAccepted(d, f.header, f.body, frame, nextWake, base, hw);
  }

  /** What a complete response does to a device, given a cache that serves the frame it claims to. */
  lemma ReceiveIsSound(
    crc: Crc, entry: Cache.Entry, frame: seq<byte>, d: Device, reason: Reason, force: bool,
    nextWake: uint32, base: uint32, hw: Hardware)
    requires |frame| == E1002.RawLen()
    requires entry.payload == EntryFor(crc, frame).payload && entry.etag == EntryFor(crc, frame).etag
    ensures var resp := HandleDisplay(entry, IfNoneMatch(reason, d.rtc), force, nextWake);
            var (d', outcome) := Drawn(d, frame, crc(frame), hw);
            var sleep := Suggested(HeaderValue(nextWake), base);
            && resp.nextWake == nextWake
            && (resp.Same? || resp.Full?)
            && (resp.Same? <==> !force && !reason.Touch? && Remembers(d.rtc, crc(frame)))
            && Receive(d, resp, base, hw) == if resp.Same? then (d, NotModified, sleep) else (d', outcome, sleep)
  {
    MatchIsHashMatch(reason, d.rtc, crc(frame));
    FullResponseIsSound(crc, frame, d, entry.etag, nextWake, base, hw);
    assert entry.etag == ETag(crc(frame)) && entry.etag != "";
    var resp := HandleDisplay(entry, IfNoneMatch(reason, d.rtc), force, nextWake);
    assert !resp.Same? ==> resp == Full(entry.etag, nextWake, EntryFor(crc, frame).payload);
    assert Receive(d, Same(entry.etag, nextWake), base, hw) == (d, NotModified, Suggested(HeaderValue(nextWake), base));
    hide EntryFor, ETag, IfNoneMatch, Receive, Suggested, HeaderValue, Drawn, Remembers;
  }

  // ---- How a wake ends, told before it begins

  /** The whole frame reaches the device: there is one, and it is wanted, forced, or not the remembered one. */
  ghost predicate SendsFull(crc: Crc, s: System, e: Event)
    requires e.WakeUp?
  {
    && e.net.Up? && Cache.Lookup(s.entries, s.device).etag != "" && s.frame.Some?
    && (Checked(s, e).1 || e.reason.Touch? || !Remembers(Woken(s, e).rtc, crc(s.frame.value)))
  }

  /** The device is told its frame is the cached one. */
  ghost predicate SendsSame(crc: Crc, s: System, e: Event)
    requires e.WakeUp?
  {
    && (e.net.Up? || e.net.BodyCut?) && Cache.Lookup(s.entries, s.device).etag != "" && s.frame.Some?
    && !Checked(s, e).1 && !e.reason.Touch? && Remembers(Woken(s, e).rtc, crc(s.frame.value))
  }

  /** Equal but for the sleep remembered. */
  predicate SameMemory(a: Rtc, b: Rtc) { a.(nextWakeS := 0) == b.(nextWakeS := 0) }

  /** The device a wake leaves, but for the sleep it remembers. */
  ghost function LeftBy(crc: Crc, s: System, e: Event): Device
    requires e.WakeUp?
  {
    if SendsFull(crc, s, e) then Drawn(Woken(s, e), s.frame.value, crc(s.frame.value), e.hw).0 else Woken(s, e)
  }

  /** What a wake that reached the broker has to do with what was cached and remembered before it. */
  ghost predicate EndsAsSent(crc: Crc, s: System, e: Event, s': System, outcome: Outcome)
    requires e.WakeUp?
  {
    && (outcome.Rendered? <==> SendsFull(crc, s, e) && e.hw.Shows?)
    && (outcome.RenderFailed? <==> SendsFull(crc, s, e) && !e.hw.Shows?)
    && (outcome.NotModified? <==> SendsSame(crc, s, e))
    && !outcome.Overrun? && !outcome.BadPayload?
    && s'.device == s.device && s'.frame == s.frame
    && s'.dev.panel == LeftBy(crc, s, e).panel && SameMemory(s'.dev.rtc, LeftBy(crc, s, e).rtc)
  }

  lemma ConnectedWithoutFrame(crc: Crc, s: System, e: Event)
    requires e.WakeUp? && (e.net.Up? || e.net.BodyCut?) && Cache.Lookup(s.entries, s.device).etag == ""
    ensures var (s', outcome, _) := Connected(s, e); EndsAsSent(crc, s, e, s', outcome)
  {
    NoFrameEnds(Woken(s, e), e.nextWake, ClampWake(Woken(s, e).rtc.nextWakeS), e.hw);
    hide Receive, Woken, Checked, ClampWake, IfNoneMatch, Remembers;
  }

  lemma ConnectedWithFrame(crc: Crc, s: System, e: Event)
    requires CacheInv(crc, s) && e.WakeUp? && (e.net.Up? || e.net.BodyCut?)
    ensures var (s', outcome, _) := Connected(s, e);
            Cache.Lookup(s.entries, s.device).etag != "" ==> EndsAsSent(crc, s, e, s', outcome)
  {
    hide EntryFor, Receive, HandleDisplay, Woken, Checked, ClampWake, IfNoneMatch, Suggested, HeaderValue, Remembers;
    var d, entry, base := Woken(s, e), Cache.Lookup(s.entries, s.device), ClampWake(Woken(s, e).rtc.nextWakeS);
    if entry.etag == "" {
      return;
    }
    ReceiveIsSound(crc, entry, s.frame.value, d, e.reason, Checked(s, e).1, e.nextWake, base, e.hw);
    var resp := HandleDisplay(entry, IfNoneMatch(e.reason, d.rtc), Checked(s, e).1, e.nextWake);
    var (d', outcome, sleep) := Respond(d, resp, e.net, base, e.hw);
    RespondUnfold(d, resp, e.net, base, e.hw);
    assert Connected(s, e) == (Asleep(s.(entries := Checked(s, e).0), d', sleep), outcome, sleep);
    hide Connected, Respond, CacheInv;
  }

  lemma RespondUnfold(d: Device, resp: Response, net: Net, base: uint32, hw: Hardware)
    ensures Respond(d, resp, net, base, hw)
         == if net.BodyCut? && resp.Full? then (d, NetError, Suggested(HeaderValue(resp.nextWake), base))
            else Receive(d, resp, base, hw)
  {
  }

  lemma ConnectedIsExact(crc: Crc, s: System, e: Event)
    requires CacheInv(crc, s) && e.WakeUp? && (e.net.Up? || e.net.BodyCut?)
    ensures var (s', outcome, _) := Connected(s, e); EndsAsSent(crc, s, e, s', outcome)
  {
    if Cache.Lookup(s.entries, s.device).etag == "" {
      ConnectedWithoutFrame(crc, s, e);
    } else {
      ConnectedWithFrame(crc, s, e);
    }
    hide *;
  }

  /** An unanswered wake only decides how long to sleep; at most the broker has noted the request. */
  lemma UnansweredWake(s: System, e: Event)
    requires e.WakeUp?
    ensures var (s', outcome, _) := Awake(s, e);
            if e.net.Up? || e.net.BodyCut? then Awake(s, e) == Connected(s, e)
            else
              && s'.dev.panel == s.dev.panel && SameMemory(s'.dev.rtc, Woken(s, e).rtc)
              && s'.device == s.device && s'.frame == s.frame
              && s'.entries == (if e.net.ResponseLost? then Checked(s, e).0 else s.entries)
              && (outcome.Offline? || outcome.NetError? || outcome.Unauthorized?)
  {
    hide Connected, ClampWake, Checked;
  }

  /** How any wake ends, what it leaves on the panel and what it remembers, all told from the state before it. */
  lemma OutcomeIsExact(crc: Crc, s: System, e: Event)
    requires CacheInv(crc, s) && e.WakeUp?
    ensures var (s', outcome, _) := Awake(s, e);
            && (outcome.Rendered? <==> SendsFull(crc, s, e) && e.hw.Shows?)
            && (outcome.RenderFailed? <==> SendsFull(crc, s, e) && !e.hw.Shows?)
            && (outcome.NotModified? <==> SendsSame(crc, s, e))
            && !outcome.Overrun? && !outcome.BadPayload?
            && s'.device == s.device && s'.frame == s.frame
            && s'.dev.panel == LeftBy(crc, s, e).panel && SameMemory(s'.dev.rtc, LeftBy(crc, s, e).rtc)
  {
    UnansweredWake(s, e);
    if e.net.Up? || e.net.BodyCut? {
      ConnectedIsExact(crc, s, e);
    } else {
      assert Woken(s, e).panel == s.dev.panel;
    }
    hide Awake, Connected, CacheInv, Woken, Checked, Remembers, EntryFor;
  }

  /** Checking the memory at boot forgets, but never invents, what is shown. */
  lemma WokenIsCoherent(crc: Crc, s: System, e: Event)
    requires e.WakeUp?
    ensures var d := Woken(s, e);
            && d.panel == s.dev.panel && d.rtc.magic == RTC_MAGIC
            && (Coherent(crc, s) && d.rtc.shownValid ==> d.rtc.shownCrc == crc(d.panel))
  {
  }

  /** A refresh that times out over a frame the device remembers: the one way to lose track of the panel. */
  ghost predicate Risks(crc: Crc, s: System, e: Event) {
    e.WakeUp? && e.hw.Stalls? && SendsFull(crc, s, e) && Woken(s, e).rtc.shownValid
  }

  /** A wake from an invariant state: how it ends and what it leaves. */
  lemma WakeIsSound(crc: Crc, s: System, e: Event)
    requires Inv(crc, s) && e.WakeUp?
    ensures var (s', outcome, _) := Awake(s, e);
            && (outcome.Rendered? ==> s.frame.Some? && s'.dev.panel == s.frame.value)
            && (outcome.NotModified? ==>
                  s.frame.Some? && s'.dev.panel == s.dev.panel && crc(s'.dev.panel) == crc(s.frame.value))
            && !outcome.Overrun? && !outcome.BadPayload?
            && (!Risks(crc, s, e) ==> Coherent(crc, s'))
  {
    OutcomeIsExact(crc, s, e);
    WokenIsCoherent(crc, s, e);
    hide Awake, CacheInv, Woken, Checked;
  }

  lemma StepKeepsInv(crc: Crc, s: System, e: Event)
    requires Inv(crc, s) && Possible(s, e) && !Risks(crc, s, e)
    ensures Inv(crc, Step(crc, s, e))
  {
    StepKeepsCacheInv(crc, s, e);
    if e.WakeUp? {
      WakeIsSound(crc, s, e);
    }
    hide Awake, CacheInv, EntryFor, Risks;
  }

  // ---- Runs

  /** A broker with an empty cache and a device fresh out of a power cycle, whatever its panel still shows. */
  function Fresh(device: string, panel: seq<byte>): System { System(device, map[], None, Device(LOST, panel)) }

  ghost function After(crc: Crc, s: System, es: seq<Event>): System {
    if es == [] then s else Step(crc, After(crc, s, es[..|es| - 1]), es[|es| - 1])
  }

  /** Every event is possible where it happens, and no refresh times out over a frame the device remembers. */
  ghost predicate IsSmoothRun(crc: Crc, s: System, es: seq<Event>) {
    es == [] || (
      var init, e := es[..|es| - 1], es[|es| - 1];
      IsSmoothRun(crc, s, init) && Possible(After(crc, s, init), e) && !Risks(crc, After(crc, s, init), e))
  }

  lemma {:induction false} RunsKeepInv(crc: Crc, s: System, es: seq<Event>)
    requires Inv(crc, s) && IsSmoothRun(crc, s, es)
    ensures Inv(crc, After(crc, s, es))
    decreases |es|
  {
    hide Inv, Step, Risks, Possible;
    if es != [] {
      var init := es[..|es| - 1];
      RunsKeepInv(crc, s, init);
      StepKeepsInv(crc, After(crc, s, init), es[|es| - 1]);
    }
  }

  /**
   * In every run of polls, failed polls, wakes of any kind and other devices' traffic, the device knows what it
   * shows.
   */
  lemma DeviceKnowsItsPanel(crc: Crc, device: string, panel: seq<byte>, es: seq<Event>)
    requires IsSmoothRun(crc, Fresh(device, panel), es)
    ensures var rtc := After(crc, Fresh(device, panel), es).dev.rtc;
            rtc.magic == RTC_MAGIC && rtc.shownValid ==>
              rtc.shownCrc == crc(After(crc, Fresh(device, panel), es).dev.panel)
  {
    RunsKeepInv(crc, Fresh(device, panel), es);
  }

  /** After any wake that rendered or was told nothing changed, the panel shows the frame cached at that fetch. */
  lemma PanelShowsCachedFrame(crc: Crc, device: string, panel: seq<byte>, es: seq<Event>, e: Event)
    requires IsSmoothRun(crc, Fresh(device, panel), es) && e.WakeUp?
    ensures var s := After(crc, Fresh(device, panel), es);
            var (s', outcome, _) := Awake(s, e);
            outcome.Rendered? || outcome.NotModified? ==>
              && s.frame.Some? && crc(s'.dev.panel) == crc(s.frame.value)
              && (outcome.Rendered? || NoCollision(crc, s.dev.panel, s.frame.value) ==> s'.dev.panel == s.frame.value)
  {
    RunsKeepInv(crc, Fresh(device, panel), es);
    WakeIsSound(crc, After(crc, Fresh(device, panel), es), e);
    hide After, Awake, Inv;
  }

  predicate NoCollision(crc: Crc, a: seq<byte>, b: seq<byte>) { crc(a) == crc(b) ==> a == b }

  /** Every sleep of every wake is between a minute and six hours. */
  lemma EverySleepIsBounded(s: System, e: Event)
    requires e.WakeUp?
    ensures MIN_WAKE_SECONDS <= Awake(s, e).2 <= MAX_WAKE_SECONDS
  {
    hide FetchBody, ShowFrame, HandleDisplay, CheckForce, ClampWake;
  }

  /** The remembered sleep kept within bounds, or ten minutes if there is none to remember. */
  ghost predicate IsRemembered(s: System, e: Event, sleep: uint32) {
    var lost := (e.WakeUp? && e.reason.ColdBoot?) || s.dev.rtc.magic != RTC_MAGIC || s.dev.rtc.nextWakeS == 0;
    if lost then sleep == 600
    else if s.dev.rtc.nextWakeS < 60 then sleep == 60
    else if s.dev.rtc.nextWakeS > 21600 then sleep == 21600
    else sleep == s.dev.rtc.nextWakeS
  }

  /**
   * A wake without Wi-Fi sleeps ten minutes, or forty after more than four failures in a row; one that gets no answer
   * repeats its last sleep; one that finds no frame sleeps a minute.
   */
  lemma UnansweredSleepIsExact(s: System, e: Event)
    requires e.WakeUp?
    ensures var (s', outcome, sleep) := Awake(s, e);
            && s'.dev.rtc.nextWakeS == sleep
            && (e.net.NoWifi? ==> sleep == if Woken(s, e).rtc.netFailures > 4 then 2400 else 600)
            && (e.net.NoTime? || e.net.NoRequest? || e.net.Rejected? || e.net.ResponseLost? ==>
                  IsRemembered(s, e, sleep))
            && (outcome.NoPayload? ==> sleep == 60)
  {
    hide CheckForce, FetchBody, ShowFrame, HandleDisplay;
  }

  predicate Answered(o: Outcome) { o.Rendered? || o.NotModified? || o.RenderFailed? }

  lemma NoFrameEnds(d: Device, nextWake: uint32, base: uint32, hw: Hardware)
    ensures Receive(d, NoFrame(nextWake), base, hw).1.NoPayload?
  {
  }

  lemma ConnectedSleepsAsTold(crc: Crc, s: System, e: Event)
    requires CacheInv(crc, s) && e.WakeUp?
    ensures Answered(Connected(s, e).1) ==>
              Connected(s, e).2 == Suggested(HeaderValue(e.nextWake), ClampWake(Woken(s, e).rtc.nextWakeS))
  {
    var d, entry, base := Woken(s, e), Cache.Lookup(s.entries, s.device), ClampWake(Woken(s, e).rtc.nextWakeS);
    NoFrameEnds(d, e.nextWake, base, e.hw);
    if entry.etag != "" {
      ReceiveIsSound(crc, entry, s.frame.value, d, e.reason, Checked(s, e).1, e.nextWake, base, e.hw);
    }
    hide EntryFor, Receive, HandleDisplay, Checked, Woken, ClampWake, HeaderValue, IfNoneMatch, Suggested;
    hide Drawn, Remembers;
  }

  /** A device that was answered sleeps as the response header told it: the cached payload names no wake of its own. */
  lemma AnsweredWakeSleepsAsTold(crc: Crc, s: System, e: Event)
    requires CacheInv(crc, s) && e.WakeUp?
    ensures Answered(Awake(s, e).1) ==> Awake(s, e).2 == FirmwareSleep(e.nextWake, Woken(s, e).rtc.nextWakeS)
  {
    UnansweredWake(s, e);
    hide Awake, Connected, CacheInv, Woken, ClampWake, HeaderValue;
    ConnectedSleepsAsTold(crc, s, e);
  }
}
