/**
 * What the panel shows and what the device believes it shows, when a refresh may time out with the new frame
 * already sent (epd_spectra6.cpp): exactly when the two still agree, for one wake and over whole runs.
 */
module PanelHistory {
  import opened Bytes
  import opened Wrappers
  import opened Mdpf
  import opened Coherence
  import opened ETags
  import Cache

  // ---- One wake

  function With(e: Event, hw: Hardware): Event
    requires e.WakeUp?
  {
    e.(hw := hw)
  }

  /** Whatever a time-out might leave on the panel, the device would not be wrong about it. */
  ghost predicate SafeFromStalls(crc: Crc, s: System, e: Event)
    requires e.WakeUp?
  {
    forall left: seq<byte> :: Coherent(crc, Awake(s, With(e, Stalls(left))).0)
  }

  /**
   * A wake is safe exactly when it sends no whole frame or finds nothing remembered: the panel itself plays no part.
   */
  lemma StallIsExact(crc: Crc, s: System, e: Event, a: seq<byte>, b: seq<byte>)
    requires Inv(crc, s) && e.WakeUp? && crc(a) != crc(b)
    ensures SafeFromStalls(crc, s, e) <==> !SendsFull(crc, s, e) || !Woken(s, e).rtc.shownValid
  {
    forall left: seq<byte>
      ensures Coherent(crc, Awake(s, With(e, Stalls(left))).0) <==>
                !SendsFull(crc, s, e) || !Woken(s, e).rtc.shownValid || Woken(s, e).rtc.shownCrc == crc(left)
    {
      StallLeaves(crc, s, e, left);
    }
    hide Coherent, Awake, SendsFull, Woken, Inv, With;
    assert Coherent(crc, Awake(s, With(e, Stalls(a))).0) <==>
        !SendsFull(crc, s, e) || !Woken(s, e).rtc.shownValid || Woken(s, e).rtc.shownCrc == crc(a);
    assert Coherent(crc, Awake(s, With(e, Stalls(b))).0) <==>
        !SendsFull(crc, s, e) || !Woken(s, e).rtc.shownValid || Woken(s, e).rtc.shownCrc == crc(b);
  }

  lemma StallLeaves(crc: Crc, s: System, e: Event, left: seq<byte>)
    requires Inv(crc, s) && e.WakeUp?
    ensures Coherent(crc, Awake(s, With(e, Stalls(left))).0) <==>
              !SendsFull(crc, s, e) || !Woken(s, e).rtc.shownValid || Woken(s, e).rtc.shownCrc == crc(left)
  {
    var e' := With(e, Stalls(left));
    OutcomeIsExact(crc, s, e');
    WokenIsCoherent(crc, s, e');
    assert Woken(s, e') == Woken(s, e) && (SendsFull(crc, s, e') <==> SendsFull(crc, s, e));
    hide Awake, CacheInv, Woken, SendsFull, SendsSame;
  }

  // ---- Whole runs, time-outs included

  /** Any events of a broker with an empty cache and a device fresh from a power cycle. */
  datatype Run = Run(crc: Crc, device: string, panel: seq<byte>, es: seq<Event>)

  function Start(r: Run): System { Fresh(r.device, r.panel) }

  /** Polls give frames of the panel's size and other traffic is other devices'. */
  ghost predicate IsFreshRun(r: Run) { forall e <- r.es :: Possible(Start(r), e) }

  /** The system after the first n events. */
  ghost function At(r: Run, n: nat): System
    requires n <= |r.es|
  {
    After(r.crc, Start(r), r.es[..n])
  }

  /** Event i puts the cached frame on the panel. */
  ghost predicate Renders(r: Run, i: nat)
    requires i < |r.es|
  {
    r.es[i].WakeUp? && r.es[i].hw.Shows? && SendsFull(r.crc, At(r, i), r.es[i])
  }

  /** Event i times out in the refresh and leaves on the panel what it leaves. */
  ghost predicate TimesOut(r: Run, i: nat)
    requires i < |r.es|
  {
    r.es[i].WakeUp? && r.es[i].hw.Stalls? && SendsFull(r.crc, At(r, i), r.es[i])
  }

  predicate Boots(r: Run, i: nat)
    requires i < |r.es|
  {
    r.es[i].WakeUp? && r.es[i].reason.ColdBoot?
  }

  /** The frame cached when event i happens. */
  ghost function FrameAt(r: Run, i: nat): seq<byte>
    requires i < |r.es|
  {
    if At(r, i).frame.Some? then At(r, i).frame.value else []
  }

  /** Of the first n events, j is the last to render, with no cold boot since. */
  ghost predicate Remembered(r: Run, n: nat, j: int)
    requires n <= |r.es|
  {
    0 <= j < n && Renders(r, j) && forall k :: j < k < n ==> !Renders(r, k) && !Boots(r, k)
  }

  /** Of the first n events, m is the last to time out, and nothing was rendered after it. */
  ghost predicate LeftBehind(r: Run, n: nat, m: int)
    requires n <= |r.es|
  {
    0 <= m < n && TimesOut(r, m) && forall k :: m < k < n ==> !Renders(r, k) && !TimesOut(r, k)
  }

  ghost predicate Believes(s: System) { s.dev.rtc.magic == RTC_MAGIC && s.dev.rtc.shownValid }

  /** What one event does to the panel and to what is believed of it. */
  lemma StepDraws(crc: Crc, s: System, e: Event)
    requires CacheInv(crc, s)
    ensures var s' := Step(crc, s, e);
            var sends := e.WakeUp? && SendsFull(crc, s, e);
            if sends && e.hw.Shows? then
              Believes(s') && s'.dev.rtc.shownCrc == crc(s.frame.value) && s'.dev.panel == s.frame.value
            else
              && (Believes(s') <==> Believes(s) && !(e.WakeUp? && e.reason.ColdBoot?))
              && (Believes(s') ==> s'.dev.rtc.shownCrc == s.dev.rtc.shownCrc)
              && s'.dev.panel == if sends && e.hw.Stalls? then e.hw.left else s.dev.panel
  {
    if e.WakeUp? {
      OutcomeIsExact(crc, s, e);
      WokenBelieves(s, e);
      hide Awake, CacheInv, SendsFull, SendsSame, Woken;
    } else {
      hide Awake, CacheInv, SendsFull;
    }
  }

  lemma WokenBelieves(s: System, e: Event)
    requires e.WakeUp?
    ensures var d := Woken(s, e);
            && d.panel == s.dev.panel && d.rtc.magic == RTC_MAGIC
            && (d.rtc.shownValid <==> Believes(s) && !e.reason.ColdBoot?)
            && (d.rtc.shownValid ==> d.rtc.shownCrc == s.dev.rtc.shownCrc)
  {
  }

  /** In every run the cache serves what it claims to. */
  lemma {:induction false} CacheInvHolds(r: Run, n: nat)
    requires IsFreshRun(r) && n <= |r.es|
    ensures CacheInv(r.crc, At(r, n)) && At(r, n).device == r.device
  {
    if n == 0 {
      assert r.es[..0] == [];
    } else {
      var i := n - 1;
      CacheInvHolds(r, i);
      AtOneMore(r, i);
      hide At, CacheInv, Step;
      StepKeepsBoth(r.crc, At(r, i), r.es[i], Start(r));
    }
  }

  /** Whether an event is possible depends on the device's name alone. */
  lemma StepKeepsBoth(crc: Crc, s: System, e: Event, start: System)
    requires CacheInv(crc, s) && Possible(start, e) && s.device == start.device
    ensures CacheInv(crc, Step(crc, s, e)) && Step(crc, s, e).device == s.device
  {
    StepKeepsCacheInv(crc, s, e);
    if e.WakeUp? {
      OutcomeIsExact(crc, s, e);
    }
    hide CacheInv, Awake;
  }

  lemma AtOneMore(r: Run, i: nat)
    requires i < |r.es|
    ensures At(r, i + 1) == Step(r.crc, At(r, i), r.es[i])
  {
    assert r.es[..i + 1][..i] == r.es[..i];
  }

  /** What the device believes is exactly the last frame rendered since the last cold boot. */
  lemma {:induction false} MemoryIsHistory(r: Run, n: nat)
    requires IsFreshRun(r) && n <= |r.es|
    ensures Believes(At(r, n)) <==> exists j :: Remembered(r, n, j)
    ensures forall j :: Remembered(r, n, j) ==> At(r, n).dev.rtc.shownCrc == r.crc(FrameAt(r, j))
  {
    if n == 0 {
      assert r.es[..0] == [];
    } else {
      var i := n - 1;
      MemoryIsHistory(r, i);
      CacheInvHolds(r, i);
      StepDraws(r.crc, At(r, i), r.es[i]);
      AtOneMore(r, i);
      hide At, Step, SendsFull, CacheInv, Believes;
      MemoryStep(r, i, n);
    }
  }

  lemma MemoryStep(r: Run, i: nat, n: nat)
    requires i < |r.es| && n == i + 1
    ensures Renders(r, i) ==> forall j :: Remembered(r, n, j) <==> j == i
    ensures !Renders(r, i) ==> forall j :: Remembered(r, n, j) <==> Remembered(r, i, j) && !Boots(r, i)
    ensures !Renders(r, i) ==>
              ((exists j :: Remembered(r, n, j)) <==> (exists j :: Remembered(r, i, j)) && !Boots(r, i))
    ensures Renders(r, i) ==> Remembered(r, n, i)
  {
    hide Renders, Boots;
    if !Renders(r, i) {
      if j :| Remembered(r, i, j) && !Boots(r, i) {
        assert Remembered(r, n, j);
      }
    }
  }

  /** While a frame is remembered the panel shows it, or what the last time-out since then left. */
  lemma {:induction false} PanelIsHistory(r: Run, n: nat, j: nat)
    requires IsFreshRun(r) && n <= |r.es|
    ensures Remembered(r, n, j) ==>
              forall m :: LeftBehind(r, n, m) && m > j ==> At(r, n).dev.panel == r.es[m].hw.left
    ensures Remembered(r, n, j) && (forall m :: m > j ==> !LeftBehind(r, n, m)) ==>
              At(r, n).dev.panel == FrameAt(r, j)
    decreases n
  {
    hide At, Renders, TimesOut, Boots, IsFreshRun;
    if !Remembered(r, n, j) {
      return;
    }
    var i := n - 1;
    PanelOneMore(r, i);
    if j < i {
      assert Remembered(r, i, j);
      PanelIsHistory(r, i, j);
      LeftBehindStep(r, i, n);
      assert TimesOut(r, i) ==> LeftBehind(r, n, i);
    }
  }

  lemma PanelOneMore(r: Run, i: nat)
    requires IsFreshRun(r) && i < |r.es|
    ensures At(r, i + 1).dev.panel
         == if Renders(r, i) then FrameAt(r, i)
            else if TimesOut(r, i) then r.es[i].hw.left
            else At(r, i).dev.panel
    ensures !(Renders(r, i) && TimesOut(r, i))
  {
    CacheInvHolds(r, i);
    StepDraws(r.crc, At(r, i), r.es[i]);
    AtOneMore(r, i);
    hide At, Step, SendsFull, CacheInv, Believes, IsFreshRun;
  }

  lemma LeftBehindStep(r: Run, i: nat, n: nat)
    requires i < |r.es| && n == i + 1 && !(Renders(r, i) && TimesOut(r, i))
    ensures TimesOut(r, i) ==> forall m :: LeftBehind(r, n, m) <==> m == i
    ensures !TimesOut(r, i) && !Renders(r, i) ==> forall m :: LeftBehind(r, n, m) <==> LeftBehind(r, i, m)
  {
    hide Renders, TimesOut;
  }

  /** Whatever the last time-out since the last render left on the panel has the hash of what was rendered. */
  ghost predicate NothingWrongLeft(r: Run, n: nat)
    requires n <= |r.es|
  {
    forall j, m :: Remembered(r, n, j) && LeftBehind(r, n, m) && m > j ==>
                     r.crc(r.es[m].hw.left) == r.crc(FrameAt(r, j))
  }

  /**
   * In every run, time-outs included, the device is right about its panel exactly if it remembers nothing since its
   * last cold boot, or nothing has timed out since it last rendered, or what the last time-out left on the panel
   * has the hash of the frame it last rendered.
   */
  lemma CoherenceIsHistory(r: Run, n: nat)
    requires IsFreshRun(r) && n <= |r.es|
    ensures Coherent(r.crc, At(r, n)) <==> NothingWrongLeft(r, n)
  {
    MemoryIsHistory(r, n);
    if Believes(At(r, n)) {
      var j :| Remembered(r, n, j);
      PanelIsHistory(r, n, j);
      assert forall j' :: Remembered(r, n, j') ==> j' == j;
    }
    hide At, Renders, TimesOut, Boots, LeftBehind, Remembered;
  }

  /** Whatever the device believed, a rendered wake makes it right again. */
  lemma RenderRestoresCoherence(crc: Crc, s: System, e: Event)
    requires CacheInv(crc, s) && e.WakeUp?
    ensures Awake(s, e).1.Rendered? ==>
              Coherent(crc, Awake(s, e).0) && s.frame.Some? && Awake(s, e).0.dev.panel == s.frame.value
  {
    OutcomeIsExact(crc, s, e);
    hide Awake, CacheInv, Woken;
  }

  /** So being told that nothing changed is right, up to a collision of hashes, under exactly that condition. */
  lemma NotModifiedIsRight(r: Run, n: nat, e: Event)
    requires IsFreshRun(r) && n <= |r.es|
    ensures var s := At(r, n);
            e.WakeUp? && Awake(s, e).1.NotModified? ==>
              && s.frame.Some?
              && (r.crc(Awake(s, e).0.dev.panel) == r.crc(s.frame.value) <==> NothingWrongLeft(r, n))
  {
    var s := At(r, n);
    if !e.WakeUp? {
      return;
    }
    CacheInvHolds(r, n);
    CoherenceIsHistory(r, n);
    OutcomeIsExact(r.crc, s, e);
    WokenBelieves(s, e);
    hide At, Awake, CacheInv, Woken, NothingWrongLeft, IsFreshRun, Checked;
  }

  // ---- A run that goes wrong

  function Poll(frame: seq<byte>): Event { PollOk(frame, None, None) }

  /** A wake with nothing in its way and no repaint hour set. */
  function PlainWake(reason: Reason, hw: Hardware): Event { WakeUp(reason, Up, hw, None, 0, "", 0) }

  /**
   * Such a wake of a device with a frame cached: told nothing changed if it remembers that frame, drawing it if not.
   */
  lemma PlainWakeEnds(crc: Crc, s: System, reason: Reason, hw: Hardware)
    requires CacheInv(crc, s) && Cache.Lookup(s.entries, s.device).etag != ""
    requires s.dev.rtc.magic == RTC_MAGIC && !reason.ColdBoot?
    ensures var (s', outcome, _) := Awake(s, PlainWake(reason, hw));
            var full := reason.Touch? || !Remembers(s.dev.rtc, crc(s.frame.value));
            var d := if full then Drawn(s.dev, s.frame.value, crc(s.frame.value), hw).0 else s.dev;
            && s'.device == s.device && (outcome.NotModified? <==> !full)
            && s'.dev.panel == d.panel && SameMemory(s'.dev.rtc, d.rtc)
  {
    var e := PlainWake(reason, hw);
    OutcomeIsExact(crc, s, e);
    assert Woken(s, e) == s.dev && !Checked(s, e).1;
    hide Awake, EntryFor, Remembers, Woken, Checked;
  }

  lemma PollServes(crc: Crc, s: System, frame: seq<byte>)
    requires |frame| == E1002.RawLen()
    ensures var s' := Step(crc, s, Poll(frame));
            && CacheInv(crc, s') && Cache.Lookup(s'.entries, s'.device).etag != "" && s'.frame == Some(frame)
            && s'.dev == s.dev && s'.device == s.device
  {
    hide Wire, ETag;
  }

  /**
   * Frame a is shown, the refresh to b times out after b is on the panel, the schedule goes back to a, and the next
   * wake is told nothing changed while the panel shows b.
   */
  lemma StallBreaksCoherence(crc: Crc, s: System, a: seq<byte>, b: seq<byte>)
    requires s.dev.rtc.magic == RTC_MAGIC
    requires |a| == |b| == E1002.RawLen() && crc(a) != crc(b) && crc(a) != 0
    ensures var s1 := Awake(Step(crc, s, Poll(a)), PlainWake(Touch, Shows)).0;
            var s2 := Awake(Step(crc, s1, Poll(b)), PlainWake(Timer, Stalls(b))).0;
            var (s3, outcome, _) := Awake(Step(crc, s2, Poll(a)), PlainWake(Timer, Shows));
            outcome.NotModified? && s3.dev.panel == b && s3.frame == Some(a)
  {
    hide Step, Awake, CacheInv, Poll;
    var p1 := Step(crc, s, Poll(a));
    PollServes(crc, s, a);
    PlainWakeEnds(crc, p1, Touch, Shows);
    var s1 := Awake(p1, PlainWake(Touch, Shows)).0;
    var p2 := Step(crc, s1, Poll(b));
    PollServes(crc, s1, b);
    PlainWakeEnds(crc, p2, Timer, Stalls(b));
    var s2 := Awake(p2, PlainWake(Timer, Stalls(b))).0;
    var p3 := Step(crc, s2, Poll(a));
    PollServes(crc, s2, a);
    PlainWakeEnds(crc, p3, Timer, Shows);
    OutcomeIsExact(crc, p3, PlainWake(Timer, Shows));
  }
}
