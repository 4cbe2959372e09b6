/** The two wake strategies (config.go), what one sleep guarantees, and when the header says nothing at all. */
module WakePlan {
  import opened Bytes
  import opened Wrappers
  import opened Calendar
  import opened Wake

  // ---- Configuration

  /** The fleet's wake settings; time zones enter only through the two calendar functions. */
  datatype WakeConfig = WakeConfig(
    mode: string,
    businessSeconds: uint32,
    offHoursSeconds: uint32,
    isBusinessHours: Time -> bool,
    businessStartAfter: Time -> Time)

  datatype Room = Room(wakeMode: Option<string>, flatIntervalSeconds: Option<uint32>)

  function WakeModeFor(c: WakeConfig, room: Room): string {
    if room.wakeMode.Some? && room.wakeMode.value != "" then room.wakeMode.value
    else if c.mode != "" then c.mode
    else "flat"
  }

  // ---- The two strategies

  /** uint32(d.Seconds()): whole seconds, low 32 bits. */
  function WholeSeconds(d: Time): uint32
    requires d >= 0
  {
    d / SECOND % TWO_TO_32
  }

  function FlatInterval(c: WakeConfig, room: Room, now: Time): uint32 {
    if room.flatIntervalSeconds.Some? && room.flatIntervalSeconds.value > 0 then room.flatIntervalSeconds.value
    else if c.isBusinessHours(now) then c.businessSeconds
    else c.offHoursSeconds
  }

  function FlatWakeSeconds(c: WakeConfig, room: Room, now: Time): uint32 {
    SecondsUntilNextBoundary(now, FlatInterval(c, room, now))
  }

  function SecondsUntilBusinessHoursStart(c: WakeConfig, now: Time): uint32 {
    var d := c.businessStartAfter(now) - now;
    if d < 0 then 0 else WholeSeconds(d)
  }

  function SmartWakeSeconds(c: WakeConfig, cur: Option<Event>, next: Option<Event>, now: Time): uint32 {
    var business := c.isBusinessHours(now);
    match NextTransitionAt(cur, next, now)
    case None =>
      if business then SecondsUntilNextBoundary(now, c.businessSeconds)
      else SecondsUntilBusinessHoursStart(c, now)
    case Some(at) =>
      var dur := if at - now < 0 then 0 else at - now;
      if business && WholeSeconds(dur) > c.businessSeconds then c.businessSeconds
      else WholeSeconds(dur)
  }

  function NextWakeDuration(c: WakeConfig, room: Room, cur: Option<Event>, next: Option<Event>, now: Time): uint32 {
    if WakeModeFor(c, room) == "smart" then SmartWakeSeconds(c, cur, next, now) else FlatWakeSeconds(c, room, now)
  }

  /** The header a smart room gets at now from the snapshot the poller took at p. */
  function SnapshotHeader(c: WakeConfig, events: seq<Event>, p: Time, now: Time): uint32 {
    SmartWakeSeconds(c, Current(events, p), Next(events, p), now)
  }

  /** The header when that snapshot is fresh. */
  function FreshHeader(c: WakeConfig, events: seq<Event>, now: Time): uint32 { SnapshotHeader(c, events, now, now) }

  // ---- Which strategy and which interval

  /** The room says smart, or says nothing and the fleet does. */
  predicate IsSmart(c: WakeConfig, room: Room) {
    room.wakeMode == Some("smart") || ((room.wakeMode == None || room.wakeMode == Some("")) && c.mode == "smart")
  }

  /** A smart room's wake comes from the snapshot, any other's from the clock alone. */
  lemma ModeDecides(c: WakeConfig, room: Room, cur: Option<Event>, next: Option<Event>, now: Time)
    ensures IsSmart(c, room) ==> NextWakeDuration(c, room, cur, next, now) == SmartWakeSeconds(c, cur, next, now)
    ensures !IsSmart(c, room) ==> NextWakeDuration(c, room, cur, next, now) == FlatWakeSeconds(c, room, now)
  {
    hide SmartWakeSeconds, FlatWakeSeconds;
  }

  /** The room's own positive interval; otherwise the fleet's, by whether the offices are open. */
  predicate IsInForce(c: WakeConfig, room: Room, now: Time, interval: uint32) {
    var own := room.flatIntervalSeconds.Some? && room.flatIntervalSeconds.value > 0;
    && (own ==> interval == room.flatIntervalSeconds.value)
    && (!own && c.isBusinessHours(now) ==> interval == c.businessSeconds)
    && (!own && !c.isBusinessHours(now) ==> interval == c.offHoursSeconds)
  }

  /** A flat room is sent to the next boundary of the grid of the interval in force. */
  lemma FlatWakeIsExact(
    c: WakeConfig, room: Room, cur: Option<Event>, next: Option<Event>, now: Time, interval: uint32)
    requires !IsSmart(c, room) && IsInForce(c, room, now, interval)
    requires Unix(now) >= GRID_OFFSET_SECONDS && interval <= TWO_TO_32 - MIN_WAKE_SECONDS
    ensures var header := NextWakeDuration(c, room, cur, next, now);
            if interval == 0 then header == 0 else IsNextBoundary(Unix(now), interval, Unix(now) + header)
  {
    ModeDecides(c, room, cur, next, now);
    if interval > 0 {
      NextBoundary(now, interval);
    }
    hide NextWakeDuration, IsNextBoundary, Unix;
  }

  // ---- One smart sleep

  /** A sleep towards a transition at least a second away ends by it, or after the minimum sleep. */
  lemma SleepEndsBy(c: WakeConfig, cur: Option<Event>, next: Option<Event>, now: Time, previous: uint32)
    requires c.businessSeconds >= 1
    requires var at := NextTransitionAt(cur, next, now); at.Some? && at.value >= now + SECOND
    ensures var at := NextTransitionAt(cur, next, now).value;
            var sleep := FirmwareSleep(SmartWakeSeconds(c, cur, next, now), previous);
            sleep == MIN_WAKE_SECONDS || now + sleep * SECOND <= at
  {
    hide NextTransitionAt;
    var dur := NextTransitionAt(cur, next, now).value - now;
    assert dur / SECOND * SECOND <= dur;
    if dur / SECOND >= TWO_TO_32 {
      assert dur >= TWO_TO_32 * SECOND;
    } else {
      assert WholeSeconds(dur) == dur / SECOND;
    }
  }

  /** Fresh snapshots announce nothing nearer than that. */
  lemma SleepEndsByTransition(c: WakeConfig, events: seq<Event>, now: Time, previous: uint32)
    requires c.businessSeconds >= 1 && TransitionAfter(events, now).Some?
    ensures var at := TransitionAfter(events, now).value;
            var sleep := FirmwareSleep(FreshHeader(c, events, now), previous);
            sleep == MIN_WAKE_SECONDS || now + sleep * SECOND <= at
  {
    TransitionIsAhead(events, now);
    TransitionUnfold(events, now);
    SleepEndsBy(c, Current(events, now), Next(events, now), now, previous);
  }

  lemma TransitionUnfold(events: seq<Event>, now: Time)
    ensures TransitionAfter(events, now) == NextTransitionAt(Current(events, now), Next(events, now), now)
  {
  }

  /** Until it wakes again a device is wrong about the room for at most a minute. */
  lemma SleepIsNeverLongStale(c: WakeConfig, events: seq<Event>, now: Time, previous: uint32, t: Time)
    requires Sorted(events) && c.businessSeconds >= 1
    requires now <= t && StatusAt(events, t) != StatusAt(events, now)
    ensures now + FirmwareSleep(FreshHeader(c, events, now), previous) * SECOND - t <= MINUTE
  {
    hide StatusAt, TransitionAfter, FreshHeader;
    if TransitionAfter(events, now).None? || t < TransitionAfter(events, now).value - TRANSITION_BUFFER {
      StatusHolds(events, now, t);
    } else {
      SleepEndsByTransition(c, events, now, previous);
    }
  }

  /** Sleeping s seconds ends by the transition and, in business hours, within the check-in interval. */
  ghost predicate EndsInTime(c: WakeConfig, now: Time, at: Time, s: int) {
    now + s * SECOND <= at && (c.isBusinessHours(now) ==> s <= c.businessSeconds)
  }

  /** With a transition ahead the header is the longest whole number of seconds that ends in time. */
  lemma HeaderIsLongestInTime(c: WakeConfig, events: seq<Event>, now: Time)
    requires var at := TransitionAfter(events, now); at.Some? && at.value - now < TWO_TO_32 * SECOND
    ensures var at := TransitionAfter(events, now).value;
            var header := FreshHeader(c, events, now);
            EndsInTime(c, now, at, header) && forall s :: EndsInTime(c, now, at, s) ==> s <= header
  {
    TransitionIsAhead(events, now);
    TransitionUnfold(events, now);
    hide TransitionAfter, NextTransitionAt, Current, Next;
    var at := TransitionAfter(events, now).value;
    assert WholeSeconds(at - now) == (at - now) / SECOND;
    forall s | EndsInTime(c, now, at, s) ensures s <= (at - now) / SECOND {
    }
  }

  /**
   * With nothing scheduled: the next check-in of the grid in business hours, else the last second by the next
   * opening.
   */
  lemma HeaderWithoutTransition(c: WakeConfig, events: seq<Event>, now: Time)
    requires TransitionAfter(events, now).None?
    requires Unix(now) >= GRID_OFFSET_SECONDS && 0 < c.businessSeconds <= TWO_TO_32 - MIN_WAKE_SECONDS
    requires now < c.businessStartAfter(now) < now + TWO_TO_32 * SECOND
    ensures var header := FreshHeader(c, events, now);
            if c.isBusinessHours(now) then IsNextBoundary(Unix(now), c.businessSeconds, Unix(now) + header)
            else now + header * SECOND <= c.businessStartAfter(now) < now + (header + 1) * SECOND
  {
    TransitionUnfold(events, now);
    NextBoundary(now, c.businessSeconds);
    var left := c.businessStartAfter(now) - now;
    assert WholeSeconds(left) == left / SECOND;
    hide TransitionAfter, NextTransitionAt, Current, Next, IsNextBoundary, SecondsUntilNextBoundary, Unix, WholeSeconds;
  }

  // ---- Headers of 0, which the firmware takes for no header at all

  /** Less than a whole second, or a whole number of 136-year turns of the 32-bit count. */
  predicate RoundsToZero(d: Time) { d < SECOND || d / SECOND % TWO_TO_32 == 0 }

  predicate SmartSaysNothing(c: WakeConfig, cur: Option<Event>, next: Option<Event>, now: Time) {
    match NextTransitionAt(cur, next, now)
    case Some(at) => (c.isBusinessHours(now) && c.businessSeconds == 0) || RoundsToZero(at - now)
    case None => NothingAheadSaysNothing(c, now)
  }

  /** With no transition to wait for: a degenerate grid, or an opening less than a second away. */
  predicate NothingAheadSaysNothing(c: WakeConfig, now: Time) {
    if c.isBusinessHours(now) then GridSaysNothing(Unix(now), c.businessSeconds)
    else RoundsToZero(c.businessStartAfter(now) - now)
  }

  /** Read off the configuration, the snapshot and the clock: nothing but these makes a header of 0. */
  predicate SaysNothing(c: WakeConfig, room: Room, cur: Option<Event>, next: Option<Event>, now: Time) {
    if WakeModeFor(c, room) == "smart" then SmartSaysNothing(c, cur, next, now)
    else GridSaysNothing(Unix(now), FlatInterval(c, room, now))
  }

  lemma SmartZeroIsExact(c: WakeConfig, cur: Option<Event>, next: Option<Event>, now: Time)
    ensures SmartWakeSeconds(c, cur, next, now) == 0 <==> SmartSaysNothing(c, cur, next, now)
  {
    GridZeroIsExact(now, c.businessSeconds);
    hide NextTransitionAt, SecondsUntilNextBoundary, GridSaysNothing, Unix;
  }

  /** In either mode, for every configuration, snapshot and clock. */
  lemma ZeroHeaderIsExact(c: WakeConfig, room: Room, cur: Option<Event>, next: Option<Event>, now: Time)
    ensures NextWakeDuration(c, room, cur, next, now) == 0 <==> SaysNothing(c, room, cur, next, now)
  {
    SmartZeroIsExact(c, cur, next, now);
    GridZeroIsExact(now, FlatInterval(c, room, now));
    hide SmartWakeSeconds, SmartSaysNothing, SecondsUntilNextBoundary, GridSaysNothing, FlatInterval;
  }

  /**
   * The broker expects another sleep than the device takes exactly then, unless the last sleep was a minute or less.
   */
  lemma DisagreementIsExact(
    c: WakeConfig, room: Room, cur: Option<Event>, next: Option<Event>, now: Time, previous: uint32)
    ensures var header := NextWakeDuration(c, room, cur, next, now);
            FirmwareSleep(header, previous) != ClampWakeSeconds(header) <==>
              SaysNothing(c, room, cur, next, now) && !(1 <= previous <= MIN_WAKE_SECONDS)
  {
    ZeroHeaderIsExact(c, room, cur, next, now);
    ClampsAgree(NextWakeDuration(c, room, cur, next, now));
    hide NextWakeDuration, SaysNothing;
  }

  /**
   * A fresh snapshot's header is always obeyed when it has a transition ahead; without one, unless the opening is
   * near.
   */
  lemma FreshHeaderIsObeyed(c: WakeConfig, events: seq<Event>, now: Time)
    requires c.businessSeconds >= 1
    ensures var header := FreshHeader(c, events, now);
            (forall previous: uint32 :: FirmwareSleep(header, previous) == ClampWakeSeconds(header)) <==>
              match TransitionAfter(events, now)
              case Some(at) => (at - now) / SECOND % TWO_TO_32 != 0
              case None => !NothingAheadSaysNothing(c, now)
  {
    var header := FreshHeader(c, events, now);
    TransitionIsAhead(events, now);
    TransitionUnfold(events, now);
    SmartZeroIsExact(c, Current(events, now), Next(events, now), now);
    ClampsAgree(header);
    hide SmartWakeSeconds, NothingAheadSaysNothing, TransitionAfter, NextTransitionAt, Current, Next;
    assert FirmwareSleep(0, MAX_WAKE_SECONDS) != ClampWakeSeconds(0);
  }

  /**
   * A snapshot left over from a meeting that has ended: the device repeats its last sleep, the broker expects a
   * minute.
   */
  lemma StaleSnapshotIsIgnored(c: WakeConfig, cur: Event, next: Option<Event>, now: Time, previous: uint32)
    requires cur.end + TRANSITION_BUFFER <= now
    ensures var header := SmartWakeSeconds(c, Some(cur), next, now);
            && header == 0 && ClampWakeSeconds(header) == MIN_WAKE_SECONDS
            && FirmwareSleep(header, previous) == ClampWake(previous)
            && (previous > MIN_WAKE_SECONDS ==> FirmwareSleep(header, previous) > ClampWakeSeconds(header))
  {
  }

  /** Even a fresh look at an empty day says nothing in the last second before opening. */
  lemma OpeningIsIgnored(c: WakeConfig, now: Time)
    requires !c.isBusinessHours(now) && now < c.businessStartAfter(now) < now + SECOND
    ensures var header := FreshHeader(c, [], now);
            && header == 0 && ClampWakeSeconds(header) == MIN_WAKE_SECONDS
            && FirmwareSleep(header, MAX_WAKE_SECONDS) == MAX_WAKE_SECONDS
  {
  }
}
