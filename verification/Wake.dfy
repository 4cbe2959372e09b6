/** How long a display sleeps: the broker's wake scheduler (config.go) and the firmware's clamp (app_main.cpp). */
module Wake {
  import opened Bytes
  import opened Calendar

  const TWO_TO_32: int := 0x1_0000_0000
  const GRID_OFFSET_SECONDS: int := 300
  const MIN_WAKE_SECONDS: uint32 := 60
  const MAX_WAKE_SECONDS: uint32 := 21600
  const DEFAULT_WAKE_SECONDS: uint32 := 600

  // ---- The two clamps

  function ClampWakeSeconds(s: uint32): uint32 {
    if s < MIN_WAKE_SECONDS then MIN_WAKE_SECONDS
    else if s > MAX_WAKE_SECONDS then MAX_WAKE_SECONDS
    else s
  }

  /** clamp_wake: as the broker's, but 0 means nothing was ever said. */
  function ClampWake(s: uint32): (r: uint32)
    ensures MIN_WAKE_SECONDS <= r <= MAX_WAKE_SECONDS
  {
    if s == 0 then DEFAULT_WAKE_SECONDS
    else if s < MIN_WAKE_SECONDS then MIN_WAKE_SECONDS
    else if s > MAX_WAKE_SECONDS then MAX_WAKE_SECONDS
    else s
  }

  /** X-Next-Wake goes through a 32-bit signed atol, which saturates. */
  function HeaderValue(s: uint32): uint32 { if s > 0x7FFF_FFFF then 0x7FFF_FFFF else s }

  /** The sleep the device takes: a 0 header leaves its previous interval in force. */
  function FirmwareSleep(header: uint32, previous: uint32): (r: uint32)
    ensures MIN_WAKE_SECONDS <= r <= MAX_WAKE_SECONDS
  {
    if HeaderValue(header) != 0 then ClampWake(HeaderValue(header)) else ClampWake(previous)
  }

  /** The broker's idea of the sleep is the device's own for every header but 0. */
  lemma ClampsAgree(s: uint32)
    ensures ClampWakeSeconds(s) == ClampWake(s) <==> s != 0
    ensures s != 0 ==> forall previous: uint32 :: FirmwareSleep(s, previous) == ClampWakeSeconds(s)
  {
  }

  // ---- The clock grid

  /** Go's integer division, which truncates toward zero. */
  function TruncatedQuotient(a: int, b: int): int
    requires b > 0
  {
    if a >= 0 then a / b else -(-a / b)
  }

  /** time.Time.Unix: whole seconds, rounded down. */
  function Unix(t: Time): int { t / SECOND }

  function SecondsUntilNextBoundary(now: Time, interval: uint32): uint32 {
    if interval == 0 then 0
    else
      var epoch := Unix(now) - GRID_OFFSET_SECONDS;
      var next := (TruncatedQuotient(epoch, interval) + 1) * interval;
      var d := next + GRID_OFFSET_SECONDS - Unix(now);
      (if d < MIN_WAKE_SECONDS && interval > MIN_WAKE_SECONDS then d + interval else d) % TWO_TO_32
  }

  predicate OnGrid(second: int, interval: int)
    requires interval > 0
  {
    (second - GRID_OFFSET_SECONDS) % interval == 0
  }

  /** The earliest second a wake may fall on: a full minute away where the grid allows it. */
  function Earliest(u: int, interval: int): int {
    if interval > MIN_WAKE_SECONDS then u + MIN_WAKE_SECONDS else u + 1
  }

  /** r is the first grid second at or after the earliest allowed one. */
  ghost predicate IsNextBoundary(u: int, interval: int, r: int)
    requires interval > 0
  {
    && OnGrid(r, interval) && r >= Earliest(u, interval)
    && forall g :: OnGrid(g, interval) && g >= Earliest(u, interval) ==> r <= g
  }

  /** Seconds to the first grid second strictly after u. */
  function ToGrid(u: int, interval: int): (d: int)
    requires interval > 0
    ensures 1 <= d <= interval
  {
    interval - (u - GRID_OFFSET_SECONDS) % interval
  }

  /** The true distance: skip one grid step when the first is under a minute away and the grid is coarser than that. */
  function TrueDistance(u: int, interval: int): int
    requires interval > 0
  {
    var d := ToGrid(u, interval);
    if d < MIN_WAKE_SECONDS && interval > MIN_WAKE_SECONDS then d + interval else d
  }

  lemma MultiplesAreApart(a: int, b: int, n: int)
    requires n > 0 && a % n == 0 && b % n == 0 && a < b
    ensures a + n <= b
  {
    var p, q := a / n, b / n;
    assert a == n * p && b == n * q;
    assert b - a == n * (q - p);
    Scaled(n, q - p);
  }

  lemma StepOnGrid(a: int, n: int)
    requires n > 0
    ensures (a + n - a % n) % n == 0 && (a + 2 * n - a % n) % n == 0
  {
    var q := a / n;
    assert a - a % n == n * q;
    assert n * q + n == n * (q + 1) && n * q + 2 * n == n * (q + 2);
    MultipleOf(q + 1, n);
    MultipleOf(q + 2, n);
  }

  lemma Scaled(n: int, k: int)
    requires n > 0
    ensures k >= 1 ==> n * k >= n
    ensures k == 0 ==> n * k == 0
    ensures k == -1 ==> n * k == -n
    ensures k <= -2 ==> n * k <= -2 * n
  {
  }

  lemma MultipleOf(q: int, n: int)
    requires n > 0
    ensures (n * q) % n == 0
  {
    var r, k := (n * q) % n, (n * q) / n;
    assert n * q == n * k + r;
    assert n * (q - k) == r;
    Scaled(n, q - k);
  }

  /** The true distance leads to the next boundary. */
  lemma TrueDistanceIsLeast(u: int, interval: int)
    requires interval > 0
    ensures IsNextBoundary(u, interval, u + TrueDistance(u, interval))
  {
    var a := u - GRID_OFFSET_SECONDS;
    var d := ToGrid(u, interval);
    StepOnGrid(a, interval);
    assert OnGrid(u + d, interval) && OnGrid(u + d + interval, interval);
    var r := u + TrueDistance(u, interval);
    forall g | OnGrid(g, interval) && g >= Earliest(u, interval) ensures r <= g {
      if g < r {
        if g < u + d {
          MultiplesAreApart(g - GRID_OFFSET_SECONDS, u + d - GRID_OFFSET_SECONDS, interval);
        } else if g > u + d {
          MultiplesAreApart(u + d - GRID_OFFSET_SECONDS, g - GRID_OFFSET_SECONDS, interval);
        }
      }
    }
  }

  /** There is only one next boundary, and it is that one. */
  lemma NextBoundaryIsUnique(u: int, interval: int, d: int)
    requires interval > 0
    ensures IsNextBoundary(u, interval, u + d) <==> d == TrueDistance(u, interval)
  {
    TrueDistanceIsLeast(u, interval);
    hide OnGrid, TrueDistance, Earliest;
  }

  /** What the code's quotient makes of the distance: one step too far before the grid's origin. */
  lemma QuotientDistance(u: int, interval: int)
    requires interval > 0
    ensures var epoch := u - GRID_OFFSET_SECONDS;
            (TruncatedQuotient(epoch, interval) + 1) * interval - epoch
            == if epoch >= 0 || epoch % interval == 0 then ToGrid(u, interval) else ToGrid(u, interval) + interval
  {
    var e := u - GRID_OFFSET_SECONDS;
    var q := e / interval;
    assert e == interval * q + e % interval;
    if e >= 0 {
      assert (q + 1) * interval == interval * q + interval;
    } else {
      var p := -e / interval;
      assert -e == interval * p + (-e) % interval;
      NegatedDivision(e, interval);
      assert (-p + 1) * interval == -(interval * p) + interval;
    }
  }

  lemma NegatedDivision(e: int, n: int)
    requires n > 0
    ensures (-e) % n == if e % n == 0 then 0 else n - e % n
  {
    var q, r := e / n, e % n;
    var p, s := (-e) / n, (-e) % n;
    assert e == n * q + r && -e == n * p + s;
    assert n * (q + p) == -(r + s);
    Scaled(n, q + p);
  }

  /** The value returned, in terms of the distance to the grid. */
  lemma SecondsInTermsOfGrid(now: Time, interval: uint32)
    requires interval > 0
    ensures var u, i := Unix(now), interval as int;
            SecondsUntilNextBoundary(now, interval)
            == (if u >= GRID_OFFSET_SECONDS || OnGrid(u, i) then TrueDistance(u, i) else ToGrid(u, i) + i) % TWO_TO_32
  {
    hide TruncatedQuotient, Unix;
    QuotientDistance(Unix(now), interval);
  }

  /**
   * Exactly when the scheduler hits the next boundary: always from 1970-01-01 00:05 on, unless adding a
   * second grid step overflows 32 bits; before that instant, only where the step it adds by mistake is wanted.
   */
  lemma BoundaryIsExact(now: Time, interval: uint32)
    requires interval > 0
    ensures var u, i := Unix(now), interval as int;
            var skips := i > MIN_WAKE_SECONDS && ToGrid(u, i) < MIN_WAKE_SECONDS;
            IsNextBoundary(u, i, u + SecondsUntilNextBoundary(now, interval)) <==>
              if u >= GRID_OFFSET_SECONDS || OnGrid(u, i) then !skips || ToGrid(u, i) + i < TWO_TO_32
              else skips && ToGrid(u, i) + i < TWO_TO_32
  {
    var u, i := Unix(now), interval as int;
    SecondsInTermsOfGrid(now, interval);
    NextBoundaryIsUnique(u, i, SecondsUntilNextBoundary(now, interval));
    Wraps(TrueDistance(u, i));
    Wraps(ToGrid(u, i) + i);
    hide SecondsUntilNextBoundary, ToGrid, IsNextBoundary, OnGrid, Unix;
  }

  /** At the epoch, a quarter-hour grid: the boundary at 00:05 is missed for the one at 00:20. */
  lemma BoundaryMissedBeforeOrigin()
    ensures SecondsUntilNextBoundary(0, 900) == 1200
    ensures IsNextBoundary(0, 900, 300) && !IsNextBoundary(0, 900, 1200)
  {
    SecondsInTermsOfGrid(0, 900);
    TrueDistanceIsLeast(0, 900);
  }

  /**
   * Ten seconds before a boundary of the longest interval, the second step overflows: nine seconds instead of 136
   * years.
   */
  lemma BoundaryMissedByOverflow()
    ensures var u := TWO_TO_32 - 1 + GRID_OFFSET_SECONDS - 10;
            SecondsUntilNextBoundary(u * SECOND, TWO_TO_32 - 1) == 9 && !IsNextBoundary(u, TWO_TO_32 - 1, u + 9)
  {
    var u := TWO_TO_32 - 1 + GRID_OFFSET_SECONDS - 10;
    assert Unix(u * SECOND) == u;
    assert ToGrid(u, TWO_TO_32 - 1) == 10;
    SecondsInTermsOfGrid(u * SECOND, TWO_TO_32 - 1);
  }

  /** The grid arithmetic comes out as 0: no interval, or a needless or wanted second step that lands on 2^32. */
  predicate GridSaysNothing(u: int, interval: uint32) {
    interval == 0 || (
      && ToGrid(u, interval) + interval == TWO_TO_32
      && (u >= GRID_OFFSET_SECONDS || OnGrid(u, interval) ==>
            interval > MIN_WAKE_SECONDS && ToGrid(u, interval) < MIN_WAKE_SECONDS))
  }

  lemma GridZeroIsExact(now: Time, interval: uint32)
    ensures SecondsUntilNextBoundary(now, interval) == 0 <==> GridSaysNothing(Unix(now), interval)
  {
    if interval > 0 {
      var u := Unix(now);
      SecondsInTermsOfGrid(now, interval);
      Wraps(TrueDistance(u, interval));
      Wraps(ToGrid(u, interval) + interval);
      hide SecondsUntilNextBoundary, ToGrid, OnGrid, Unix;
    }
  }

  lemma Wraps(x: int)
    requires 0 <= x < 2 * TWO_TO_32
    ensures x % TWO_TO_32 == if x < TWO_TO_32 then x else x - TWO_TO_32
  {
  }

  /** The promise as documented, for any clock a deployed device can have. */
  lemma NextBoundary(now: Time, interval: uint32)
    requires Unix(now) >= GRID_OFFSET_SECONDS && 0 < interval <= TWO_TO_32 - MIN_WAKE_SECONDS
    ensures IsNextBoundary(Unix(now), interval, Unix(now) + SecondsUntilNextBoundary(now, interval))
    ensures SecondsUntilNextBoundary(now, interval) == TrueDistance(Unix(now), interval)
  {
    BoundaryIsExact(now, interval);
    NextBoundaryIsUnique(Unix(now), interval, SecondsUntilNextBoundary(now, interval));
    hide SecondsUntilNextBoundary, IsNextBoundary, OnGrid, Unix;
  }

  /** Asking later never yields an earlier wake. */
  lemma BoundaryIsMonotone(now: Time, later: Time, interval: uint32)
    requires Unix(now) >= GRID_OFFSET_SECONDS && 0 < interval <= TWO_TO_32 - MIN_WAKE_SECONDS && now <= later
    ensures Unix(now) + SecondsUntilNextBoundary(now, interval)
         <= Unix(later) + SecondsUntilNextBoundary(later, interval)
  {
    NextBoundary(now, interval);
    NextBoundary(later, interval);
  }
}
