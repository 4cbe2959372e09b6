/** Whole runs of a device on the flat strategy: it stays on the clock grid (config.go). */
module FlatRuns {
  import opened Bytes
  import opened Calendar
  import opened Wake
  import opened WakePlan

  // ---- Whole flat runs

  /** How long after each wake the device fetches, and how long after each fetch it falls asleep. */
  datatype Delays = Delays(beforeFetch: nat -> nat, afterFetch: nat -> nat)

  /** The k-th fetch of a device that first wakes at `first`. */
  function FetchAt(c: WakeConfig, room: Room, d: Delays, first: Time, k: nat): Time
    decreases k, 1
  {
    WakeAt(c, room, d, first, k) + d.beforeFetch(k)
  }

  /** The k-th wake: sleep is counted from the moment the device falls asleep, on whatever it is told at that fetch. */
  function WakeAt(c: WakeConfig, room: Room, d: Delays, first: Time, k: nat): Time
    decreases k, 0
  {
    if k == 0 then first
    else
      var fetch := FetchAt(c, room, d, first, k - 1);
      fetch + d.afterFetch(k - 1) + FirmwareSleep(FlatWakeSeconds(c, room, fetch), 0) * SECOND
  }

  /** Between 61 s and 21541 s the grid distance is a sleep both clamps leave alone. */
  predicate Workable(interval: uint32) { 61 <= interval <= 21541 }

  /** Every interval the room may be given. */
  predicate IsWorkable(c: WakeConfig, room: Room) {
    if room.flatIntervalSeconds.Some? && room.flatIntervalSeconds.value > 0 then
      Workable(room.flatIntervalSeconds.value)
    else
      Workable(c.businessSeconds) && Workable(c.offHoursSeconds)
  }

  lemma FlatSleepIsExact(now: Time, interval: uint32, previous: uint32)
    requires Unix(now) >= GRID_OFFSET_SECONDS && Workable(interval)
    ensures var s := SecondsUntilNextBoundary(now, interval);
            MIN_WAKE_SECONDS <= s <= MAX_WAKE_SECONDS && FirmwareSleep(s, previous) == s == ClampWakeSeconds(s)
  {
    NextBoundary(now, interval);
  }

  lemma {:induction false} TimeMovesOn(c: WakeConfig, room: Room, d: Delays, first: Time, k: nat)
    requires Unix(first) >= GRID_OFFSET_SECONDS
    ensures Unix(WakeAt(c, room, d, first, k)) >= GRID_OFFSET_SECONDS
    ensures Unix(FetchAt(c, room, d, first, k)) >= GRID_OFFSET_SECONDS
  {
    hide FlatWakeSeconds;
    if k > 0 {
      TimeMovesOn(c, room, d, first, k - 1);
    }
  }

  /**
   * No drift: however long each cycle takes, and whenever business hours begin or end, every wake after the first is
   * but for its own cycle's delay the next boundary of the grid in force at its fetch.
   */
  lemma FlatWakesStayOnGrid(c: WakeConfig, room: Room, d: Delays, first: Time, k: nat)
    requires Unix(first) >= GRID_OFFSET_SECONDS && IsWorkable(c, room)
    ensures var fetch := FetchAt(c, room, d, first, k);
            var wake := WakeAt(c, room, d, first, k + 1) - d.afterFetch(k);
            var interval := FlatInterval(c, room, fetch);
            && IsInForce(c, room, fetch, interval)
            && interval > 0 && IsNextBoundary(Unix(fetch), interval, Unix(wake))
            && OnGrid(Unix(wake), interval) && Unix(wake) >= Unix(fetch) + MIN_WAKE_SECONDS
  {
    TimeMovesOn(c, room, d, first, k);
    var fetch := FetchAt(c, room, d, first, k);
    var interval := FlatInterval(c, room, fetch);
    FlatSleepIsExact(fetch, interval, 0);
    NextBoundary(fetch, interval);
    WakeUnfold(c, room, d, first, k);
    var s := FlatWakeSeconds(c, room, fetch);
    assert s == SecondsUntilNextBoundary(fetch, interval);
    hide *;
    WholeSecondsLater(fetch, s);
    NextBoundaryFacts(Unix(fetch), interval, Unix(fetch) + s);
  }

  /**
   * Within a stretch on one interval the wakes, less their own delays, are whole intervals apart: nothing
   * accumulates.
   */
  lemma WakesAreIntervalsApart(c: WakeConfig, room: Room, d: Delays, first: Time, j: nat, k: nat)
    requires Unix(first) >= GRID_OFFSET_SECONDS && IsWorkable(c, room)
    ensures var interval := FlatInterval(c, room, FetchAt(c, room, d, first, j));
            && interval > 0
            && (interval == FlatInterval(c, room, FetchAt(c, room, d, first, k)) ==>
                  (Unix(WakeAt(c, room, d, first, j + 1) - d.afterFetch(j))
                   - Unix(WakeAt(c, room, d, first, k + 1) - d.afterFetch(k))) % interval == 0)
  {
    FlatWakesStayOnGrid(c, room, d, first, j);
    FlatWakesStayOnGrid(c, room, d, first, k);
    var interval := FlatInterval(c, room, FetchAt(c, room, d, first, j));
    if interval == FlatInterval(c, room, FetchAt(c, room, d, first, k)) {
      var a := Unix(WakeAt(c, room, d, first, j + 1) - d.afterFetch(j)) - GRID_OFFSET_SECONDS;
      var b := Unix(WakeAt(c, room, d, first, k + 1) - d.afterFetch(k)) - GRID_OFFSET_SECONDS;
      assert a % interval == 0 && b % interval == 0;
      hide *;
      DifferenceOfMultiples(a, b, interval);
    }
  }

  lemma DifferenceOfMultiples(a: int, b: int, n: int)
    requires n > 0 && a % n == 0 && b % n == 0
    ensures (a - b) % n == 0
  {
    assert a == n * (a / n) && b == n * (b / n);
    assert a - b == n * (a / n - b / n);
    MultipleOf(a / n - b / n, n);
  }

  lemma WakeUnfold(c: WakeConfig, room: Room, d: Delays, first: Time, k: nat)
    ensures var fetch := FetchAt(c, room, d, first, k);
            WakeAt(c, room, d, first, k + 1)
            == fetch + d.afterFetch(k) + FirmwareSleep(FlatWakeSeconds(c, room, fetch), 0) * SECOND
  {
  }

  lemma WholeSecondsLater(t: Time, s: int)
    ensures Unix(t + s * SECOND) == Unix(t) + s
  {
  }

  lemma NextBoundaryFacts(u: int, interval: int, r: int)
    requires interval > 60 && IsNextBoundary(u, interval, r)
    ensures OnGrid(r, interval) && r >= u + MIN_WAKE_SECONDS
  {
  }
}
