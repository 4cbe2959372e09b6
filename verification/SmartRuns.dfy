/** Whole runs of a device on the smart strategy: how long its panel can be wrong, and what old snapshots do to that. */
module SmartRuns {
  import opened Bytes
  import opened Wrappers
  import opened Calendar
  import opened Wake
  import opened WakePlan

  // ---- One sleep on a snapshot of any age

  /** When the device next wakes, having woken at now with a snapshot taken at p. */
  function NextWake(c: WakeConfig, events: seq<Event>, p: Time, now: Time, previous: uint32): Time {
    now + FirmwareSleep(SnapshotHeader(c, events, p, now), previous) * SECOND
  }

  /** The panel, drawn from the snapshot, is wrong for at most the last minute of the sleep. */
  ghost predicate OnTime(c: WakeConfig, events: seq<Event>, p: Time, now: Time, previous: uint32) {
    var wake := NextWake(c, events, p, now, previous);
    forall t :: now <= t < wake && StatusAt(events, t) != StatusAt(events, p) ==> wake - t <= MINUTE
  }

  /** The change the snapshot foresees is still ahead. */
  predicate StillTrue(events: seq<Event>, p: Time, now: Time) {
    p == now || var h := Horizon(events, p); h.Some? ==> now < h.value
  }

  /** Until the foreseen change, an old snapshot announces the same transition, at least 30 s away. */
  lemma TransitionStillAhead(events: seq<Event>, p: Time, now: Time)
    requires p <= now && Horizon(events, p).Some? && now < Horizon(events, p).value
    ensures var at := NextTransitionAt(Current(events, p), Next(events, p), now);
            && at.Some? && at.value >= now + TRANSITION_BUFFER
            && at.value - TRANSITION_BUFFER <= Horizon(events, p).value
  {
  }

  /** While what the snapshot says is still true the sleep is on time, however old the snapshot. */
  lemma StillTrueIsOnTime(c: WakeConfig, events: seq<Event>, p: Time, now: Time, previous: uint32)
    requires Sorted(events) && c.businessSeconds >= 1 && p <= now && StillTrue(events, p, now)
    ensures OnTime(c, events, p, now, previous)
  {
    var wake := NextWake(c, events, p, now, previous);
    forall t | now <= t < wake && StatusAt(events, t) != StatusAt(events, p) ensures wake - t <= MINUTE {
      if p == now {
        SleepIsNeverLongStale(c, events, now, previous, t);
      } else {
        StaleMinute(c, events, p, now, previous, t);
      }
    }
  }

  lemma StaleMinute(c: WakeConfig, events: seq<Event>, p: Time, now: Time, previous: uint32, t: Time)
    requires Sorted(events) && c.businessSeconds >= 1
    requires p <= now <= t && (Horizon(events, p).Some? ==> now < Horizon(events, p).value)
    requires StatusAt(events, t) != StatusAt(events, p)
    ensures NextWake(c, events, p, now, previous) - t <= MINUTE
  {
    if Horizon(events, p).None? || t < Horizon(events, p).value {
      StatusHoldsToHorizon(events, p, t);
    } else {
      TransitionStillAhead(events, p, now);
      SleepEndsBy(c, Current(events, p), Next(events, p), now, previous);
      hide StatusAt, Horizon, NextTransitionAt, FirmwareSleep, SmartWakeSeconds;
    }
  }

  /**
   * A panel already wrong when it wakes was overtaken by what the snapshot foresaw, at most ten and a half minutes
   * ahead.
   */
  lemma OvertakenTransition(events: seq<Event>, p: Time, now: Time)
    requires Sorted(events) && p <= now && StatusAt(events, now) != StatusAt(events, p)
    ensures var at := NextTransitionAt(Current(events, p), Next(events, p), now);
            at.Some? && at.value <= now + STARTING_SOON_WINDOW + TRANSITION_BUFFER
  {
    if Horizon(events, p).None? || now < Horizon(events, p).value {
      StatusHoldsToHorizon(events, p, now);
    }
  }

  /**
   * A transition past leaves it to the sleep remembered; one ahead must be a minute away, or check-ins every minute.
   */
  predicate SleepsAMinute(c: WakeConfig, at: Time, now: Time, previous: uint32) {
    if at < now + SECOND then 1 <= previous <= MIN_WAKE_SECONDS
    else at < now + MINUTE + SECOND || (c.isBusinessHours(now) && c.businessSeconds <= MIN_WAKE_SECONDS)
  }

  /**
   * A panel already wrong when it wakes is put right within a minute exactly if the old transition makes for such a
   * sleep.
   */
  lemma OvertakenIsExact(c: WakeConfig, events: seq<Event>, p: Time, now: Time, previous: uint32)
    requires Sorted(events) && c.businessSeconds >= 1 && p <= now && StatusAt(events, now) != StatusAt(events, p)
    ensures var at := NextTransitionAt(Current(events, p), Next(events, p), now);
            at.Some? && (OnTime(c, events, p, now, previous) <==> SleepsAMinute(c, at.value, now, previous))
  {
    OvertakenTransition(events, p, now);
    var wake := NextWake(c, events, p, now, previous);
    assert OnTime(c, events, p, now, previous) <==> wake - now <= MINUTE;
    OvertakenSleep(c, Current(events, p), Next(events, p), now, previous);
    hide NextTransitionAt, StatusAt, Current, Next, FirmwareSleep, SmartWakeSeconds, OnTime;
  }

  lemma OvertakenSleep(c: WakeConfig, cur: Option<Event>, next: Option<Event>, now: Time, previous: uint32)
    requires c.businessSeconds >= 1
    requires var at := NextTransitionAt(cur, next, now);
             at.Some? && at.value <= now + STARTING_SOON_WINDOW + TRANSITION_BUFFER
    ensures var at := NextTransitionAt(cur, next, now).value;
            FirmwareSleep(SmartWakeSeconds(c, cur, next, now), previous) <= MIN_WAKE_SECONDS <==>
              SleepsAMinute(c, at, now, previous)
  {
    hide NextTransitionAt;
    var at := NextTransitionAt(cur, next, now).value;
    if at >= now {
      assert WholeSeconds(at - now) == (at - now) / SECOND;
    }
  }

  /** A status come round to what the panel says: the old transition is past, or its buffer at most away. */
  lemma ComeRoundTransition(events: seq<Event>, p: Time, now: Time)
    requires Sorted(events) && p <= now && !StillTrue(events, p, now)
    requires StatusAt(events, now) == StatusAt(events, p)
    ensures var at := NextTransitionAt(Current(events, p), Next(events, p), now);
            at.Some? && at.value <= now + TRANSITION_BUFFER
  {
    if Current(events, p).None? && now < Next(events, p).value.start {
      SearchFindsTrueStatus(events, now);
      assert StartsSoon(Next(events, p).value, now);
    }
  }

  /** The status comes round at every change before the last minute of the remembered sleep. */
  ghost predicate ComesRound(events: seq<Event>, p: Time, now: Time, previous: uint32) {
    forall x :: now < x < now + ClampWake(previous) * SECOND - MINUTE && IsChange(events, x) ==>
                  StatusAt(events, x) == StatusAt(events, p)
  }

  /**
   * A panel that is right again when it wakes, though the foreseen change has passed, stays right exactly if the old
   * transition makes for a minute's sleep, or every change the remembered sleep runs over comes round.
   */
  lemma ComeRoundIsExact(c: WakeConfig, events: seq<Event>, p: Time, now: Time, previous: uint32)
    requires Sorted(events) && c.businessSeconds >= 1 && p <= now && !StillTrue(events, p, now)
    requires StatusAt(events, now) == StatusAt(events, p)
    ensures var at := NextTransitionAt(Current(events, p), Next(events, p), now);
            && at.Some?
            && (OnTime(c, events, p, now, previous) <==>
                  SleepsAMinute(c, at.value, now, previous) || ComesRound(events, p, now, previous))
  {
    ComeRoundTransition(events, p, now);
    OvertakenSleep(c, Current(events, p), Next(events, p), now, previous);
    var at := NextTransitionAt(Current(events, p), Next(events, p), now).value;
    var wake := NextWake(c, events, p, now, previous);
    if !SleepsAMinute(c, at, now, previous) {
      RepeatsLastSleep(c, Current(events, p), Next(events, p), now, previous);
      hide NextTransitionAt, StatusAt, Current, Next, FirmwareSleep, SmartWakeSeconds, IsChange, StillTrue;
      if ComesRound(events, p, now, previous) {
        forall t | now <= t < wake && StatusAt(events, t) != StatusAt(events, p) ensures wake - t <= MINUTE {
          if wake - t > MINUTE {
            HoldsThroughout(events, now, t, StatusAt(events, p));
          }
        }
      }
    }
    hide NextTransitionAt, StatusAt, Current, Next, FirmwareSleep, SmartWakeSeconds, IsChange, StillTrue;
  }

  lemma RepeatsLastSleep(c: WakeConfig, cur: Option<Event>, next: Option<Event>, now: Time, previous: uint32)
    requires var at := NextTransitionAt(cur, next, now); at.Some? && at.value < now + SECOND
    ensures FirmwareSleep(SmartWakeSeconds(c, cur, next, now), previous) == ClampWake(previous)
  {
    hide NextTransitionAt;
  }

  /** What decides, before the device goes to sleep, whether its panel can be wrong for more than the last minute. */
  ghost predicate WillBeOnTime(c: WakeConfig, events: seq<Event>, p: Time, now: Time, previous: uint32) {
    var at := NextTransitionAt(Current(events, p), Next(events, p), now);
    || StillTrue(events, p, now)
    || (at.Some? && SleepsAMinute(c, at.value, now, previous))
    || (StatusAt(events, now) == StatusAt(events, p) && ComesRound(events, p, now, previous))
  }

  /**
   * For every schedule, every snapshot and every later wake: the panel is on time exactly if the foreseen change is
   * still ahead, or the old transition makes for a minute's sleep, or the status comes round now and throughout.
   */
  lemma SnapshotIsExact(c: WakeConfig, events: seq<Event>, p: Time, now: Time, previous: uint32)
    requires Sorted(events) && c.businessSeconds >= 1 && p <= now
    ensures OnTime(c, events, p, now, previous) <==> WillBeOnTime(c, events, p, now, previous)
  {
    if StillTrue(events, p, now) {
      StillTrueIsOnTime(c, events, p, now, previous);
    } else if StatusAt(events, now) == StatusAt(events, p) {
      ComeRoundIsExact(c, events, p, now, previous);
    } else {
      OvertakenIsExact(c, events, p, now, previous);
    }
    hide OnTime, StillTrue, SleepsAMinute, ComesRound, StatusAt, NextTransitionAt, Current, Next;
  }

  /**
   * The wake planned for a meeting's start, served from a snapshot two minutes old: the panel keeps announcing the
   * meeting instead of showing it, for as long as the device slept before.
   */
  lemma StartIsMissed(c: WakeConfig, e: Event, previous: uint32)
    requires e.start < e.end && c.businessSeconds >= 1 && previous > MIN_WAKE_SECONDS
    ensures var now := e.start + TRANSITION_BUFFER;
            var p := now - 2 * MINUTE;
            && TransitionAfter([e], p) == Some(now)
            && StatusAt([e], p) == StartingSoon
            && NextWake(c, [e], p, now, previous) == now + ClampWake(previous) * SECOND
            && !OnTime(c, [e], p, now, previous)
  {
    var now := e.start + TRANSITION_BUFFER;
    var p := now - 2 * MINUTE;
    OnlyEvent(e, p);
    OnlyEvent(e, now);
    OvertakenIsExact(c, [e], p, now, previous);
    hide OnTime, FirmwareSleep, Current, Next;
  }

  /**
   * The wake planned for a meeting's end, with another starting at once, served from a snapshot of the first: the
   * panel says the room is taken, rightly, but goes on saying so for the whole last sleep, past the second one's end.
   */
  lemma EndIsMissed(c: WakeConfig, a: Event, b: Event, p: Time, previous: uint32)
    requires a.start < a.end == b.start && b.start + TRANSITION_BUFFER < b.end && c.businessSeconds >= 1
    requires a.start <= p && a.end - BACK_TO_BACK_WINDOW <= p < a.end
    requires a.end + TRANSITION_BUFFER + ClampWake(previous) * SECOND > b.end + MINUTE
    ensures var now := a.end + TRANSITION_BUFFER;
            && TransitionAfter([a, b], p) == Some(now)
            && StatusAt([a, b], p) == InMeeting && StatusAt([a, b], now) == InMeeting
            && SnapshotHeader(c, [a, b], p, now) == 0 && !OnTime(c, [a, b], p, now, previous)
  {
    var now := a.end + TRANSITION_BUFFER;
    TwoEvents(a, b, p);
    TwoEvents(a, b, now);
    TwoEvents(a, b, b.end);
    assert StatusAt([a, b], b.end) == Available;
    RepeatsLastSleep(c, Some(a), Some(b), now, previous);
    hide FirmwareSleep, Current, Next;
  }

  lemma TwoEvents(a: Event, b: Event, t: Time)
    ensures Current([a, b], t) == if Covers(a, t) then Some(a) else if Covers(b, t) then Some(b) else None
    ensures Next([a, b], t) == if a.start >= t then Some(a) else if b.start >= t then Some(b) else None
  {
    assert [a, b][1..] == [b] && [b][1..] == [];
  }

  lemma OnlyEvent(e: Event, t: Time)
    ensures Current([e], t) == (if Covers(e, t) then Some(e) else None)
    ensures Next([e], t) == if e.start >= t then Some(e) else None
  {
  }

  // ---- Whole runs

  /** A wake: when it was, by button or timer, when the snapshot it was served was taken, and the sleep it took. */
  datatype WakePoint = WakePoint(at: Time, touched: bool, polled: Time, sleep: uint32)

  /** What the device remembered when it woke for the k-th time. */
  function Remembered(previous: uint32, ws: seq<WakePoint>, k: nat): uint32
    requires k < |ws|
  {
    if k == 0 then previous else ws[k - 1].sleep
  }

  /** The k-th wake got its sleep from the snapshot it was served and what the device remembered. */
  ghost predicate SleepsAsTold(c: WakeConfig, events: seq<Event>, previous: uint32, ws: seq<WakePoint>, k: nat)
    requires k < |ws|
  {
    && ws[k].polled <= ws[k].at
    && ws[k].sleep == FirmwareSleep(SnapshotHeader(c, events, ws[k].polled, ws[k].at), Remembered(previous, ws, k))
  }

  /** When the timer of the k-th sleep runs out. */
  function Due(ws: seq<WakePoint>, k: nat): Time
    requires k < |ws|
  {
    ws[k].at + ws[k].sleep * SECOND
  }

  /** The next wake is when the timer runs out, or sooner when a button is pressed. */
  ghost predicate WakesInTime(ws: seq<WakePoint>, k: nat)
    requires k < |ws| - 1
  {
    if ws[k + 1].touched then ws[k].at < ws[k + 1].at <= Due(ws, k) else ws[k + 1].at == Due(ws, k)
  }

  /** ws is a run of a device that remembered `previous` at its first wake. */
  ghost predicate IsSmartRun(c: WakeConfig, events: seq<Event>, previous: uint32, ws: seq<WakePoint>) {
    && (forall k :: 0 <= k < |ws| ==> SleepsAsTold(c, events, previous, ws, k))
    && (forall k :: 0 <= k < |ws| - 1 ==> WakesInTime(ws, k))
  }

  /** Every wake comes within six hours of the one before, and a timer wake no less than a minute after it. */
  lemma WakesAreSpaced(c: WakeConfig, events: seq<Event>, previous: uint32, ws: seq<WakePoint>, k: nat)
    requires IsSmartRun(c, events, previous, ws) && k < |ws| - 1
    ensures ws[k + 1].at - ws[k].at <= MAX_WAKE_SECONDS * SECOND
    ensures ws[k].at + (if ws[k + 1].touched then 1 else MINUTE) <= ws[k + 1].at
  {
    assert SleepsAsTold(c, events, previous, ws, k) && WakesInTime(ws, k);
    hide SnapshotHeader, FirmwareSleep;
  }

  function TimerWakes(ws: seq<WakePoint>, n: nat): nat
    requires n < |ws|
  {
    if n == 0 then 0 else TimerWakes(ws, n - 1) + if ws[n].touched then 0 else 1
  }

  /** Over any run the timer wakes the device no more than once for every minute gone by. */
  lemma {:induction false} TimerWakesAreRare(
    c: WakeConfig, events: seq<Event>, previous: uint32, ws: seq<WakePoint>, n: nat)
    requires IsSmartRun(c, events, previous, ws) && n < |ws|
    ensures TimerWakes(ws, n) * MINUTE <= ws[n].at - ws[0].at
  {
    if n > 0 {
      TimerWakesAreRare(c, events, previous, ws, n - 1);
      WakesAreSpaced(c, events, previous, ws, n - 1);
      hide IsSmartRun;
    }
  }

  /**
   * In every run the panel, drawn from the snapshot served at its last wake, is out of date for at most the last
   * minute before the next wake if that wake was on time by the condition above; and where the timer woke the
   * device next, only then.
   */
  lemma StalenessIsBounded(c: WakeConfig, events: seq<Event>, previous: uint32, ws: seq<WakePoint>, k: nat)
    requires Sorted(events) && c.businessSeconds >= 1 && IsSmartRun(c, events, previous, ws) && k < |ws| - 1
    ensures WillBeOnTime(c, events, ws[k].polled, ws[k].at, Remembered(previous, ws, k)) ==>
              IsRightUntilNext(events, ws, k)
    ensures !ws[k + 1].touched && IsRightUntilNext(events, ws, k) ==>
              WillBeOnTime(c, events, ws[k].polled, ws[k].at, Remembered(previous, ws, k))
  {
    assert SleepsAsTold(c, events, previous, ws, k) && WakesInTime(ws, k);
    SnapshotIsExact(c, events, ws[k].polled, ws[k].at, Remembered(previous, ws, k));
    hide StatusAt, SnapshotHeader, FirmwareSleep, WillBeOnTime;
    assert NextWake(c, events, ws[k].polled, ws[k].at, Remembered(previous, ws, k)) == Due(ws, k);
  }

  /** What wake k drew is out of date for at most the last minute before wake k + 1. */
  ghost predicate IsRightUntilNext(events: seq<Event>, ws: seq<WakePoint>, k: nat)
    requires k < |ws| - 1
  {
    forall t :: ws[k].at <= t < ws[k + 1].at && StatusAt(events, t) != StatusAt(events, ws[k].polled) ==>
                  ws[k + 1].at - t <= MINUTE
  }

  /** With fresh snapshots, or whenever the foreseen change is still ahead, no run is ever out of date for longer. */
  lemma FreshRunsAreOnTime(c: WakeConfig, events: seq<Event>, previous: uint32, ws: seq<WakePoint>)
    requires Sorted(events) && c.businessSeconds >= 1 && IsSmartRun(c, events, previous, ws)
    requires forall k :: 0 <= k < |ws| ==> StillTrue(events, ws[k].polled, ws[k].at)
    ensures forall k :: 0 <= k < |ws| - 1 ==> IsRightUntilNext(events, ws, k)
  {
    forall k | 0 <= k < |ws| - 1 ensures IsRightUntilNext(events, ws, k) {
      StalenessIsBounded(c, events, previous, ws, k);
    }
  }
}
