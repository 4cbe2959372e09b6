/** Charge tracking (charge.go): one "unplug it" message per charge, from voltage readings alone. */
module Charging {
  import opened Calendar

  const RISE_MV: int := 15
  const UNPLUG_MV: int := 40
  const DONE_PCT: int := 94
  const DONE_MV: int := 3300 + DONE_PCT * (4150 - 3300) / 100
  const MAX_GAP: Time := 45 * MINUTE

  datatype Reading = Reading(mv: int, at: Time)

  datatype ChargeState = ChargeState(lastMV: int, lastMVAt: Time, charging: bool, chargedSent: bool)

  const START := ChargeState(0, 0, false, false)

  /** Charging and sent, as the switch on the voltage change leaves them. */
  function Trend(s: ChargeState, mv: int): ChargeState {
    var delta := mv - s.lastMV;
    if delta >= RISE_MV then s.(charging := true, chargedSent := s.charging && s.chargedSent)
    else if delta <= -UNPLUG_MV then s.(charging := false, chargedSent := false)
    else s
  }

  predicate Starts(s: ChargeState, x: Reading) { s.lastMV == 0 || x.at - s.lastMVAt > MAX_GAP }

  predicate Fires(s: ChargeState, x: Reading) {
    x.mv > 0 && !Starts(s, x)
    && var t := Trend(s, x.mv); t.charging && !t.chargedSent && x.mv >= DONE_MV
  }

  function Step(s: ChargeState, x: Reading): ChargeState {
    if x.mv <= 0 then s
    else if Starts(s, x) then ChargeState(x.mv, x.at, false, false)
    else
      var t := Trend(s, x.mv);
      ChargeState(x.mv, x.at, t.charging, t.chargedSent || Fires(s, x))
  }

  function After(h: seq<Reading>): ChargeState {
    if h == [] then START else Step(After(h[..|h| - 1]), h[|h| - 1])
  }

  function FiresAt(h: seq<Reading>, i: nat): bool
    requires i < |h|
  {
    Fires(After(h[..i]), h[i])
  }

  // ---- What the state means, on the readings that count

  ghost predicate AllValid(h: seq<Reading>) {
    forall i :: 0 <= i < |h| ==> h[i].mv > 0
  }

  predicate Silence(h: seq<Reading>, k: nat)
    requires 0 < k < |h|
  {
    h[k].at - h[k - 1].at > MAX_GAP
  }

  /** The charge, if there was one, is over: an unplug drop, a long silence, or the very first reading. */
  predicate Reset(h: seq<Reading>, k: nat)
    requires k < |h|
  {
    k == 0 || Silence(h, k) || h[k].mv - h[k - 1].mv <= -UNPLUG_MV
  }

  predicate Rise(h: seq<Reading>, k: nat)
    requires k < |h|
  {
    k > 0 && !Silence(h, k) && h[k].mv - h[k - 1].mv >= RISE_MV
  }

  /** Nothing ended the charge after reading k, up to and including reading i. */
  ghost predicate Unbroken(h: seq<Reading>, k: nat, i: nat)
    requires i < |h|
  {
    forall r :: k < r <= i ==> !Reset(h, r)
  }

  ghost predicate SeenRising(h: seq<Reading>, i: nat)
    requires i < |h|
  {
    exists k :: 0 <= k <= i && Rise(h, k) && Unbroken(h, k, i)
  }

  ghost predicate AlreadyTold(h: seq<Reading>, i: nat)
    requires i < |h|
  {
    exists j :: 0 <= j <= i && FiresAt(h, j) && Unbroken(h, j, i)
  }

  lemma AfterOneMore(h: seq<Reading>, i: nat)
    requires i < |h|
    ensures After(h[..i + 1]) == Step(After(h[..i]), h[i])
  {
    assert h[..i + 1][..i] == h[..i];
  }

  /** One more reading keeps, makes or breaks a rise. */
  lemma RisingStep(h: seq<Reading>, i: nat)
    requires 0 < i < |h|
    ensures SeenRising(h, i) <==> Rise(h, i) || (SeenRising(h, i - 1) && !Reset(h, i))
  {
    if Rise(h, i) {
      assert Unbroken(h, i, i);
    }
    if SeenRising(h, i - 1) && !Reset(h, i) {
      var k :| 0 <= k <= i - 1 && Rise(h, k) && Unbroken(h, k, i - 1);
      assert Unbroken(h, k, i);
    }
    if SeenRising(h, i) && !Rise(h, i) {
      var k :| 0 <= k <= i && Rise(h, k) && Unbroken(h, k, i);
      assert Unbroken(h, k, i - 1);
    }
  }

  lemma ToldStep(h: seq<Reading>, i: nat)
    requires 0 < i < |h|
    ensures AlreadyTold(h, i) <==> FiresAt(h, i) || (AlreadyTold(h, i - 1) && !Reset(h, i))
  {
    hide FiresAt;
    if FiresAt(h, i) {
      assert Unbroken(h, i, i);
    }
    if AlreadyTold(h, i - 1) && !Reset(h, i) {
      var k :| 0 <= k <= i - 1 && FiresAt(h, k) && Unbroken(h, k, i - 1);
      assert Unbroken(h, k, i);
    }
    if AlreadyTold(h, i) && !FiresAt(h, i) {
      var k :| 0 <= k <= i && FiresAt(h, k) && Unbroken(h, k, i);
      assert Unbroken(h, k, i - 1);
    }
  }

  /** charging means a rise since the last reset; chargedSent means a message since then; told implies rising. */
  lemma {:induction false} StateIsHistory(h: seq<Reading>, i: nat)
    requires AllValid(h) && i < |h|
    ensures var s := After(h[..i + 1]);
            && s.lastMV == h[i].mv && s.lastMVAt == h[i].at
            && (s.charging <==> SeenRising(h, i))
            && (s.chargedSent <==> AlreadyTold(h, i))
            && (s.chargedSent ==> s.charging)
  {
    AfterOneMore(h, i);
    if i == 0 {
      assert h[..0] == [];
      assert !FiresAt(h, 0);
    } else {
      StateIsHistory(h, i - 1);
      hide After, SeenRising, AlreadyTold;
      RisingStep(h, i);
      ToldStep(h, i);
    }
  }

  /** A message before reading i for the charge still running at i. */
  ghost predicate ToldBefore(h: seq<Reading>, i: nat)
    requires i < |h|
  {
    exists j :: 0 <= j < i && FiresAt(h, j) && Unbroken(h, j, i)
  }

  lemma ToldBeforeStep(h: seq<Reading>, i: nat)
    requires 0 < i < |h|
    ensures ToldBefore(h, i) <==> AlreadyTold(h, i - 1) && !Reset(h, i)
  {
    hide FiresAt, Reset;
    if AlreadyTold(h, i - 1) && !Reset(h, i) {
      var j :| 0 <= j <= i - 1 && FiresAt(h, j) && Unbroken(h, j, i - 1);
      assert Unbroken(h, j, i);
    }
    if ToldBefore(h, i) {
      var j :| 0 <= j < i && FiresAt(h, j) && Unbroken(h, j, i);
      assert Unbroken(h, j, i - 1);
    }
  }

  /** A message goes out exactly when the charge is full, was seen rising, and has not been announced since it began. */
  lemma MessageIsHistory(h: seq<Reading>, i: nat)
    requires AllValid(h) && i < |h|
    ensures FiresAt(h, i) <==> h[i].mv >= DONE_MV && SeenRising(h, i) && !ToldBefore(h, i)
  {
    if i == 0 {
      assert h[..0] == [];
    } else {
      StateIsHistory(h, i - 1);
      RisingStep(h, i);
      ToldBeforeStep(h, i);
      hide After, SeenRising, AlreadyTold, ToldBefore;
    }
  }

  /** Reading k ended a charge: a drop of 40 mV or more, or over 45 minutes of silence. */
  predicate Broken(h: seq<Reading>, k: nat)
    requires 0 < k < |h|
  {
    Silence(h, k) || h[k].mv - h[k - 1].mv <= -UNPLUG_MV
  }

  /** Between two messages the charge was broken, and the battery was then seen rising again. */
  lemma OneMessagePerCharge(h: seq<Reading>, i: nat, j: nat)
    requires AllValid(h) && i < j < |h| && FiresAt(h, i) && FiresAt(h, j)
    ensures exists r, k :: i < r < k <= j && Broken(h, r) && Rise(h, k)
  {
    hide After;
    MessageIsHistory(h, j);
    assert !Unbroken(h, i, j) by {
      assert !ToldBefore(h, j);
    }
    var r :| i < r <= j && Reset(h, r);
    assert Broken(h, r);
    var k :| 0 <= k <= j && Rise(h, k) && Unbroken(h, k, j);
    assert k > r;
  }

  // ---- In the source's numbers

  predicate RoseAt(h: seq<Reading>, k: nat)
    requires k < |h|
  {
    k > 0 && h[k].at - h[k - 1].at <= 45 * MINUTE && h[k].mv - h[k - 1].mv >= 15
  }

  predicate FellAt(h: seq<Reading>, k: nat)
    requires k < |h|
  {
    k > 0 && (h[k].at - h[k - 1].at > 45 * MINUTE || h[k].mv - h[k - 1].mv <= -40)
  }

  /** In numbers: full is 4099 mV, a charge rises by 15 mV, and a drop of 40 mV or 45 minutes of silence ends it. */
  lemma MessageInNumbers(h: seq<Reading>, i: nat)
    requires AllValid(h) && i < |h| && FiresAt(h, i)
    ensures h[i].mv >= 4099
    ensures exists k :: 0 <= k <= i && RoseAt(h, k) && forall r :: k < r <= i ==> !FellAt(h, r)
  {
    MessageIsHistory(h, i);
    hide After, FiresAt;
    var k :| 0 <= k <= i && Rise(h, k) && Unbroken(h, k, i);
    assert RoseAt(h, k);
    forall r | k < r <= i ensures !FellAt(h, r) {
      assert !Reset(h, r);
    }
  }

  /** And every such reading sends one, unless one was sent since the last such end: none is missed. */
  lemma FullIsAnnounced(h: seq<Reading>, i: nat, k: nat)
    requires AllValid(h) && k <= i < |h| && h[i].mv >= 4099 && RoseAt(h, k)
    requires forall r :: k < r <= i ==> !FellAt(h, r)
    ensures exists j :: 0 <= j <= i && FiresAt(h, j) && forall r :: j < r <= i ==> !FellAt(h, r)
  {
    assert Rise(h, k);
    forall r | k < r <= i ensures !Reset(h, r) {
      assert !FellAt(h, r);
    }
    assert Unbroken(h, k, i) && SeenRising(h, i);
    MessageIsHistory(h, i);
    hide After, FiresAt;
    if !FiresAt(h, i) {
      var j :| 0 <= j < i && FiresAt(h, j) && Unbroken(h, j, i);
      forall r | j < r <= i ensures !FellAt(h, r) {
        assert !Reset(h, r);
      }
    }
  }
}
