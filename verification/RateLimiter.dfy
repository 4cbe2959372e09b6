/** The fixed-window rate limiter of the password-reset form (forgot_password.go). */
module RateLimiter {
  import opened Calendar

  datatype Window = Window(count: nat, reset: Time)

  type Counts = map<string, Window>

  /** The window a call at `now` falls in, before it is counted. */
  function WindowFor(m: Counts, key: string, window: Time, now: Time): Window {
    if key !in m || now > m[key].reset then Window(0, now + window) else m[key]
  }

  /** One call: the new counts and whether it was allowed. */
  function Count(m: Counts, key: string, limit: int, window: Time, now: Time): (Counts, bool) {
    var w := WindowFor(m, key, window, now);
    (m[key := w.(count := w.count + 1)], w.count + 1 <= limit)
  }

  class Limiter {
    var counts: Counts

    constructor ()
      ensures counts == map[]
    {
      counts := map[];
    }

    /** A blocked call is counted too. */
    method Allow(key: string, limit: int, window: Time, now: Time) returns (ok: bool)
      modifies this
      ensures (counts, ok) == Count(old(counts), key, limit, window, now)
    {
      if key !in counts || now > counts[key].reset {
        counts := counts[key := Window(0, now + window)];
      }
      var w := counts[key];
      counts := counts[key := w.(count := w.count + 1)];
      assert counts == old(counts)[key := counts[key]];
      return w.count + 1 <= limit;
    }
  }

  // ---- Runs: calls for any keys, one limit and window

  datatype Call = Call(key: string, at: Time)

  function After(h: seq<Call>, limit: int, window: Time): Counts {
    if h == [] then map[]
    else Count(After(h[..|h| - 1], limit, window), h[|h| - 1].key, limit, window, h[|h| - 1].at).0
  }

  function AllowedAt(h: seq<Call>, limit: int, window: Time, i: nat): bool
    requires i < |h|
  {
    Count(After(h[..i], limit, window), h[i].key, limit, window, h[i].at).1
  }

  /** How many of the key's calls at or after `from` were allowed. */
  function AllowedSince(h: seq<Call>, limit: int, window: Time, key: string, from: Time): nat {
    if h == [] then 0
    else
      var n := |h| - 1;
      AllowedSince(h[..n], limit, window, key, from)
      + if h[n].key == key && h[n].at >= from && AllowedAt(h, limit, window, n) then 1 else 0
  }

  /** How many of the key's calls between `from` and `to`, both included, were allowed. */
  function AllowedBetween(h: seq<Call>, limit: int, window: Time, key: string, from: Time, to: Time): nat {
    if h == [] then 0
    else
      var n := |h| - 1;
      AllowedBetween(h[..n], limit, window, key, from, to)
      + if h[n].key == key && from <= h[n].at <= to && AllowedAt(h, limit, window, n) then 1 else 0
  }

  ghost predicate Ordered(h: seq<Call>) {
    forall i, j :: 0 <= i <= j < |h| ==> h[i].at <= h[j].at
  }

  /** The most a span of one window length may let through. */
  function SpanLimit(limit: int): nat { if limit <= 0 then 0 else 2 * limit - 1 }

  /** What is known of one key after a run: its current window, opened by an allowed call, and the one before. */
  ghost predicate KeyInv(h: seq<Call>, limit: int, window: Time, key: string) {
    var m := After(h, limit, window);
    if key !in m then forall a :: AllowedSince(h, limit, window, key, a) == 0
    else
      var start, n := m[key].reset - window, m[key].count;
      && (forall a :: a > m[key].reset ==> AllowedSince(h, limit, window, key, a) == 0)
      && n >= 1 && (h != [] ==> start <= h[|h| - 1].at)
      && AllowedSince(h, limit, window, key, start) == (if limit <= 0 then 0 else if n <= limit then n else limit)
      && (forall a :: a > start ==> limit > 0 ==>
            AllowedSince(h, limit, window, key, a) + 1 <= AllowedSince(h, limit, window, key, start))
      && (forall a :: a >= start - window ==>
            AllowedSince(h, limit, window, key, a)
            <= (if limit <= 0 then 0 else limit - 1) + AllowedSince(h, limit, window, key, start))
  }

  lemma AfterUnfold(h: seq<Call>, limit: int, window: Time)
    requires h != []
    ensures var n := |h| - 1; var (m, ok) := Count(After(h[..n], limit, window), h[n].key, limit, window, h[n].at);
            After(h, limit, window) == m && AllowedAt(h, limit, window, n) == ok
    ensures var n := |h| - 1;
            forall key, a :: AllowedSince(h, limit, window, key, a)
              == AllowedSince(h[..n], limit, window, key, a)
                 + if h[n].key == key && h[n].at >= a && AllowedAt(h, limit, window, n) then 1 else 0
  {
  }

  /** Nothing happened at or after an instant later than the last call. */
  lemma {:induction false} NoneInFuture(h: seq<Call>, limit: int, window: Time, key: string, a: Time)
    requires Ordered(h) && (h != [] ==> a > h[|h| - 1].at)
    ensures AllowedSince(h, limit, window, key, a) == 0
  {
    if h != [] {
      var init := h[..|h| - 1];
      assert forall i :: 0 <= i < |init| ==> init[i] == h[i];
      NoneInFuture(init, limit, window, key, a);
    }
  }

  lemma {:induction false} KeyInvHolds(h: seq<Call>, limit: int, window: Time, key: string)
    requires Ordered(h) && window >= 0
    ensures KeyInv(h, limit, window, key)
    decreases |h|
  {
    hide *;
    if h == [] {
      KeyInvOfNothing(limit, window, key);
    } else {
      var n := |h| - 1;
      var init, c := h[..n], h[n];
      OrderedPrefix(h, n);
      KeyInvHolds(init, limit, window, key);
      OneMoreCall(h, limit, window, key);
      if c.key != key {
        OtherKeysDoNotMatter(init, h, limit, window, key);
      } else {
        var m := After(init, limit, window);
        if key in m && c.at <= m[key].reset {
          StaysInWindow(init, h, limit, window, key, c);
        } else {
          OpensWindow(init, h, limit, window, key, c);
        }
      }
    }
  }

  lemma KeyInvOfNothing(limit: int, window: Time, key: string)
    ensures KeyInv([], limit, window, key)
  {
  }

  lemma OrderedPrefix(h: seq<Call>, n: nat)
    requires Ordered(h) && n < |h|
    ensures Ordered(h[..n])
    ensures h[..n] != [] ==> h[..n][n - 1].at <= h[n].at
  {
    assert forall i :: 0 <= i < n ==> h[..n][i] == h[i];
  }

  /** The last call either belongs to another key, or appends to this one's history. */
  lemma OneMoreCall(h: seq<Call>, limit: int, window: Time, key: string)
    requires Ordered(h) && h != []
    ensures var n := |h| - 1;
            h[n].key == key ==> Appended(h[..n], h, limit, window, key, h[n])
    ensures var n := |h| - 1;
            h[n].key != key ==> NotOurs(h[..n], h, limit, window, key)
    ensures |h| == 1 ==> After(h[..0], limit, window) == map[]
  {
    var n := |h| - 1;
    AfterUnfold(h, limit, window);
    OrderedPrefix(h, n);
    forall a | a > h[n].at ensures AllowedSince(h[..n], limit, window, key, a) == 0 {
      NoneInFuture(h[..n], limit, window, key, a);
    }
    hide AllowedSince, AllowedAt, Ordered;
  }

  /** A call of another key leaves this key's window and counts alone. */
  ghost predicate NotOurs(init: seq<Call>, h: seq<Call>, limit: int, window: Time, key: string) {
    && h != [] && (init != [] ==> init[|init| - 1].at <= h[|h| - 1].at)
    && (init == [] ==> After(init, limit, window) == map[])
    && (key in After(h, limit, window) <==> key in After(init, limit, window))
    && (key in After(h, limit, window) ==> After(h, limit, window)[key] == After(init, limit, window)[key])
    && forall a :: AllowedSince(h, limit, window, key, a) == AllowedSince(init, limit, window, key, a)
  }

  lemma OtherKeysDoNotMatter(init: seq<Call>, h: seq<Call>, limit: int, window: Time, key: string)
    requires KeyInv(init, limit, window, key) && NotOurs(init, h, limit, window, key)
    ensures KeyInv(h, limit, window, key)
  {
    hide After, AllowedSince;
  }

  /** What appending an own call does to the counts. */
  ghost predicate Appended(init: seq<Call>, h: seq<Call>, limit: int, window: Time, key: string, c: Call) {
    && h != [] && h[|h| - 1] == c && c.key == key
    && (init != [] ==> init[|init| - 1].at <= c.at) && (init == [] ==> After(init, limit, window) == map[])
    && var (m, ok) := Count(After(init, limit, window), key, limit, window, c.at);
       && After(h, limit, window) == m
       && (forall a :: AllowedSince(h, limit, window, key, a)
            == AllowedSince(init, limit, window, key, a) + if c.at >= a && ok then 1 else 0)
       && (forall a :: a > c.at ==> AllowedSince(init, limit, window, key, a) == 0)
  }

  lemma StaysInWindow(init: seq<Call>, h: seq<Call>, limit: int, window: Time, key: string, c: Call)
    requires KeyInv(init, limit, window, key) && Appended(init, h, limit, window, key, c) && window >= 0
    requires var m := After(init, limit, window); key in m && c.at <= m[key].reset
    ensures KeyInv(h, limit, window, key)
  {
    hide After, AllowedSince;
    var m := After(init, limit, window);
    var start := m[key].reset - window;
    assert start <= c.at;
  }

  lemma OpensWindow(init: seq<Call>, h: seq<Call>, limit: int, window: Time, key: string, c: Call)
    requires KeyInv(init, limit, window, key) && Appended(init, h, limit, window, key, c) && window >= 0
    requires var m := After(init, limit, window); key !in m || c.at > m[key].reset
    ensures KeyInv(h, limit, window, key)
  {
    hide After, AllowedSince;
  }

  /** Since any instant less than one window before the end of a run, at most 2 * limit - 1 calls were allowed. */
  lemma RecentIsBounded(h: seq<Call>, limit: int, window: Time, key: string, a: Time)
    requires Ordered(h) && window >= 0 && h != [] && h[|h| - 1].at <= a + window
    ensures AllowedSince(h, limit, window, key, a) <= SpanLimit(limit)
  {
    KeyInvHolds(h, limit, window, key);
    hide After, AllowedSince;
  }

  lemma {:induction false} BetweenIsSince(h: seq<Call>, limit: int, window: Time, key: string, from: Time, to: Time)
    requires forall i :: 0 <= i < |h| ==> h[i].at <= to
    ensures AllowedBetween(h, limit, window, key, from, to) == AllowedSince(h, limit, window, key, from)
  {
    if h != [] {
      BetweenIsSince(h[..|h| - 1], limit, window, key, from, to);
    }
  }

  /**
   * In every run, whatever other keys do, no span of one window length lets a key through more than 2 * limit - 1
   * times.
   */
  lemma {:induction false} SpanIsBounded(h: seq<Call>, limit: int, window: Time, key: string, from: Time)
    requires Ordered(h) && window >= 0
    ensures AllowedBetween(h, limit, window, key, from, from + window) <= SpanLimit(limit)
  {
    if h != [] {
      var n := |h| - 1;
      if h[n].at <= from + window {
        BetweenIsSince(h, limit, window, key, from, from + window);
        RecentIsBounded(h, limit, window, key, from);
      } else {
        assert forall i :: 0 <= i < n ==> h[..n][i] == h[i];
        SpanIsBounded(h[..n], limit, window, key, from);
      }
    }
  }

  /** No fixed window admits more than the limit. */
  lemma WindowIsBounded(h: seq<Call>, limit: int, window: Time, key: string)
    requires Ordered(h) && window >= 0 && limit >= 0
    ensures var m := After(h, limit, window);
            key in m ==> AllowedSince(h, limit, window, key, m[key].reset - window) <= limit
  {
    KeyInvHolds(h, limit, window, key);
    hide After, AllowedSince;
  }

  // ---- The span bound is reached

  /** n calls of one key at one instant. */
  function Burst(key: string, n: nat, at: Time): seq<Call> { seq(n, _ => Call(key, at)) }

  /** One more call of a known key, from the counts and totals before it. */
  lemma OneMore(h: seq<Call>, limit: int, window: Time, key: string, at: Time, from: Time, to: Time)
    ensures var w := WindowFor(After(h, limit, window), key, window, at);
            var g := h + [Call(key, at)];
            && After(g, limit, window) == After(h, limit, window)[key := w.(count := w.count + 1)]
            && AllowedBetween(g, limit, window, key, from, to)
               == AllowedBetween(h, limit, window, key, from, to)
                   + if from <= at <= to && w.count + 1 <= limit then 1 else 0
  {
    assert (h + [Call(key, at)])[..|h|] == h;
  }

  /** A burst within the window and the limit is allowed whole. */
  lemma {:induction false} BurstFits(
    h: seq<Call>, n: nat, limit: int, window: Time, key: string, at: Time, from: Time, to: Time)
    requires var m := After(h, limit, window); key in m && at <= m[key].reset && m[key].count + n <= limit
    requires from <= at <= to
    ensures var m, g := After(h, limit, window), h + Burst(key, n, at);
            && key in After(g, limit, window)
            && After(g, limit, window)[key] == Window(m[key].count + n, m[key].reset)
            && AllowedBetween(g, limit, window, key, from, to) == AllowedBetween(h, limit, window, key, from, to) + n
    decreases n
  {
    hide After, AllowedBetween;
    if n == 0 {
      assert h + Burst(key, 0, at) == h;
    } else {
      BurstFits(h, n - 1, limit, window, key, at, from, to);
      OneMore(h + Burst(key, n - 1, at), limit, window, key, at, from, to);
      assert h + Burst(key, n, at) == h + Burst(key, n - 1, at) + [Call(key, at)];
    }
  }

  /** One call, and the rest of the limit at the very end of its window. */
  function FirstWindow(key: string, limit: nat, window: Time): seq<Call>
    requires limit >= 1
  {
    [] + [Call(key, 0)] + Burst(key, limit - 1, window)
  }

  /** Then a full limit right after that window. */
  function WorstRun(key: string, limit: nat, window: Time): seq<Call>
    requires limit >= 1
  {
    FirstWindow(key, limit, window) + [Call(key, window + 1)] + Burst(key, limit - 1, window + 1)
  }

  lemma WorstRunIsOrdered(key: string, limit: nat, window: Time)
    requires limit >= 1 && window >= 1
    ensures Ordered(WorstRun(key, limit, window))
  {
    var h := WorstRun(key, limit, window);
    assert forall i :: 0 <= i < |h| ==> h[i].at == if i == 0 then 0 else if i < limit then window else window + 1;
  }

  lemma FirstWindowCounts(key: string, limit: nat, window: Time)
    requires limit >= 1 && window >= 1
    ensures var h := FirstWindow(key, limit, window);
            && key in After(h, limit, window) && After(h, limit, window)[key] == Window(limit, window)
            && AllowedBetween(h, limit, window, key, 1, 1 + window) == limit - 1
  {
    assert After([], limit, window) == map[] && AllowedBetween([], limit, window, key, 1, 1 + window) == 0;
    hide After, AllowedBetween, Burst;
    OneMore([], limit, window, key, 0, 1, 1 + window);
    BurstFits([] + [Call(key, 0)], limit - 1, limit, window, key, window, 1, 1 + window);
  }

  /** In a run with a nondecreasing clock the bound on a span is attained, for every limit and window. */
  lemma SpanBoundIsTight(key: string, limit: nat, window: Time)
    requires limit >= 1 && window >= 1
    ensures Ordered(WorstRun(key, limit, window))
    ensures AllowedBetween(WorstRun(key, limit, window), limit, window, key, 1, 1 + window) == SpanLimit(limit)
  {
    WorstRunIsOrdered(key, limit, window);
    FirstWindowCounts(key, limit, window);
    hide After, AllowedBetween, Burst, FirstWindow, Ordered;
    var h := FirstWindow(key, limit, window);
    OneMore(h, limit, window, key, window + 1, 1, 1 + window);
    BurstFits(h + [Call(key, window + 1)], limit - 1, limit, window, key, window + 1, 1, 1 + window);
  }
}
