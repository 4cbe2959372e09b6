/**
 * The latch behind the low-battery and the offline alerts (notify.go): alert on the way down, repeat only after
 * the renotify interval, re-arm on recovery. Stated over histories: every sample a device ever produced.
 */
module Latch {
  import opened Calendar

  datatype Signal = Bad | Good | Neither

  datatype Outcome = Quiet | Alert | Clear

  datatype LatchState = LatchState(alerting: bool, lastNotified: Time)

  /** One evaluation: what was seen, when, and the renotify interval in force. */
  datatype Sample = Sample(sig: Signal, at: Time, renotify: Time)

  const START := LatchState(false, 0)

  function OutcomeOf(s: LatchState, x: Sample): Outcome {
    if x.sig.Bad? && (!s.alerting || x.at - s.lastNotified >= x.renotify) then Alert
    else if x.sig.Good? && s.alerting then Clear
    else Quiet
  }

  function Step(s: LatchState, x: Sample): LatchState {
    match OutcomeOf(s, x)
    case Alert => LatchState(true, x.at)
    case Clear => s.(alerting := false)
    case Quiet => s
  }

  /** The state after a whole history. */
  function After(h: seq<Sample>): LatchState {
    if h == [] then START else Step(After(h[..|h| - 1]), h[|h| - 1])
  }

  /** What the i-th evaluation of the history did. */
  function OutcomeAt(h: seq<Sample>, i: nat): Outcome
    requires i < |h|
  {
    OutcomeOf(After(h[..i]), h[i])
  }

  // ---- What the state means

  /** j is the last alert before i, and nothing recovered in between. */
  ghost predicate Live(h: seq<Sample>, i: nat, j: int)
    requires i <= |h|
  {
    && 0 <= j < i && OutcomeAt(h, j).Alert?
    && forall k :: j < k < i ==> !OutcomeAt(h, k).Alert? && !h[k].sig.Good?
  }

  lemma AfterOneMore(h: seq<Sample>, i: nat)
    requires i < |h|
    ensures After(h[..i + 1]) == Step(After(h[..i]), h[i])
  {
    assert h[..i + 1][..i] == h[..i];
  }

  /** The latch is set exactly when an alert is live, and then remembers when that alert was. */
  lemma {:induction false} StateIsHistory(h: seq<Sample>, i: nat)
    requires i <= |h|
    ensures After(h[..i]).alerting <==> exists j :: Live(h, i, j)
    ensures forall j :: Live(h, i, j) ==> After(h[..i]).lastNotified == h[j].at
  {
    if i == 0 {
      assert h[..0] == [];
    } else {
      StateIsHistory(h, i - 1);
      AfterOneMore(h, i - 1);
      hide After;
      StepIsHistory(h, i - 1, i);
    }
  }

  lemma StepIsHistory(h: seq<Sample>, i: nat, n: nat)
    requires i < |h| && n == i + 1
    requires After(h[..i]).alerting <==> exists j :: Live(h, i, j)
    requires forall j :: Live(h, i, j) ==> After(h[..i]).lastNotified == h[j].at
    ensures Step(After(h[..i]), h[i]).alerting <==> exists j :: Live(h, n, j)
    ensures forall j :: Live(h, n, j) ==> Step(After(h[..i]), h[i]).lastNotified == h[j].at
  {
    hide After;
    if OutcomeAt(h, i).Alert? {
      assert Live(h, n, i);
    } else {
      forall j ensures Live(h, n, j) <==> Live(h, i, j) && !h[i].sig.Good? {
      }
      if After(h[..i]).alerting && !h[i].sig.Good? {
        var j :| Live(h, i, j);
        assert Live(h, n, j);
      }
    }
  }

  /** An alert fires exactly on a bad sample with no alert since the last recovery, or the last one long enough ago. */
  lemma AlertIsHistory(h: seq<Sample>, i: nat)
    requires i < |h|
    ensures OutcomeAt(h, i).Alert? <==>
            h[i].sig.Bad? && forall j :: Live(h, i, j) ==> h[i].at - h[j].at >= h[i].renotify
  {
    StateIsHistory(h, i);
    hide After;
    if After(h[..i]).alerting {
      var j :| Live(h, i, j);
    }
  }

  /** A recovery is announced exactly on a good sample while an alert is live. */
  lemma ClearIsHistory(h: seq<Sample>, i: nat)
    requires i < |h|
    ensures OutcomeAt(h, i).Clear? <==> h[i].sig.Good? && exists j :: Live(h, i, j)
  {
    StateIsHistory(h, i);
    hide After;
  }

  /** Between two announced recoveries there is always an alert. */
  lemma ClearsAlternate(h: seq<Sample>, i: nat, k: nat)
    requires i < k < |h| && OutcomeAt(h, i).Clear? && OutcomeAt(h, k).Clear?
    ensures exists j :: i < j < k && OutcomeAt(h, j).Alert?
  {
    ClearIsHistory(h, i);
    ClearIsHistory(h, k);
    hide After, OutcomeOf;
    var j :| Live(h, k, j);
    assert j > i;
  }

  // ---- How many alerts a run can produce

  function Count(h: seq<Sample>, o: Outcome): nat {
    if h == [] then 0
    else Count(h[..|h| - 1], o) + if OutcomeAt(h, |h| - 1) == o then 1 else 0
  }

  ghost predicate Steady(h: seq<Sample>, renotify: Time) {
    && (forall i :: 0 <= i < |h| ==> h[i].renotify == renotify)
    && (forall i, j :: 0 <= i <= j < |h| ==> h[i].at <= h[j].at)
  }

  /** Alerts that were repeats: neither the first nor the first after a recovery. */
  function Repeats(h: seq<Sample>): int {
    Count(h, Alert) - Count(h, Clear) - if After(h).alerting then 1 else 0
  }

  lemma {:induction false} RepeatsTakeTime(h: seq<Sample>, renotify: Time)
    requires Steady(h, renotify) && renotify > 0
    ensures Repeats(h) >= 0
    ensures Count(h, Alert) == 0 ==> Repeats(h) == 0 && !After(h).alerting
    ensures Count(h, Alert) > 0 ==>
              && h != [] && h[0].at <= After(h).lastNotified <= h[|h| - 1].at
              && Repeats(h) * renotify <= After(h).lastNotified - h[0].at
    decreases |h|
  {
    if h != [] {
      var n := |h| - 1;
      var init, x := h[..n], h[n];
      assert forall i :: 0 <= i < n ==> init[i] == h[i];
      RepeatsTakeTime(init, renotify);
      var s := After(init);
      assert OutcomeAt(h, n) == OutcomeOf(s, x) && After(h) == Step(s, x);
      CountUnfold(h);
      hide After, Count;
      if OutcomeOf(s, x).Alert? && s.alerting {
        assert (Repeats(init) + 1) * renotify == Repeats(init) * renotify + renotify;
      }
    }
  }

  lemma CountUnfold(h: seq<Sample>)
    requires h != []
    ensures var n := |h| - 1;
            forall o :: Count(h, o) == Count(h[..n], o) + if OutcomeAt(h, n) == o then 1 else 0
  {
  }

  /** Alerts are at most one, plus one per recovery, plus one per renotify interval elapsed. */
  lemma AlertsAreBounded(h: seq<Sample>, renotify: Time)
    requires Steady(h, renotify) && renotify > 0 && h != []
    ensures Count(h, Alert) <= 1 + Count(h, Clear) + (h[|h| - 1].at - h[0].at) / renotify
  {
    RepeatsTakeTime(h, renotify);
    hide After, Count;
    assert h[0].at <= h[|h| - 1].at;
    QuotientBound(Repeats(h), renotify, h[|h| - 1].at - h[0].at);
  }

  lemma QuotientBound(k: int, d: int, n: int)
    requires d > 0 && n >= 0
    ensures k * d <= n ==> k <= n / d
    ensures 0 <= n / d
  {
    var q := n / d;
    assert n == d * q + n % d;
    if k >= q + 1 {
      assert k * d >= (q + 1) * d == d * q + d;
    }
  }
}
