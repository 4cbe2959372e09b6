/**
 * The daily repaint against ghosting (cache.go, handlers.go): when it is drawn, when it is spent and when it is due
 * again.
 */
module RepaintHistory {
  import opened Wrappers
  import opened Wake
  import opened Mdpf
  import opened Coherence
  import Cache

  /** The broker handles the request of this wake, whatever becomes of the response. */
  predicate Served(e: Event) { e.WakeUp? && (e.net.Up? || e.net.BodyCut? || e.net.ResponseLost?) }

  // ---- One wake

  lemma ConnectedEntries(s: System, e: Event)
    requires e.WakeUp?
    ensures Connected(s, e).0.entries == Checked(s, e).0
  {
    hide Woken, Checked, Respond, HandleDisplay, ClampWake;
  }

  /** The repaint check, made again of the same hour: a request that was served has spent it. */
  lemma CheckedTwice(s: System, e: Event, later: Event, t: System)
    requires e.WakeUp? && Checked(s, e).1 && t.device == s.device
    requires later.WakeUp? && later.day == e.day && later.hour == e.hour && later.refreshHour == e.refreshHour
    ensures t.entries == Checked(s, e).0 ==> !Checked(t, later).1
    ensures t.entries == s.entries ==> Checked(t, later).1
  {
  }

  /**
   * A due repaint is drawn exactly if everything gets through and the hardware shows it, but it is spent as soon as
   * the request is served: right after this wake it is still due exactly if its request was not.
   */
  lemma RepaintIsExact(crc: Crc, s: System, e: Event, later: Event)
    requires CacheInv(crc, s) && e.WakeUp? && later.WakeUp?
    ensures Checked(s, e).1 ==> (Awake(s, e).1.Rendered? <==> e.net.Up? && e.hw.Shows?)
    ensures Checked(s, e).1 && SameHour(later, e) ==> (Checked(Awake(s, e).0, later).1 <==> !Served(e))
  {
    OutcomeIsExact(crc, s, e);
    UnansweredWake(s, e);
    ConnectedEntries(s, e);
    if Checked(s, e).1 {
      DueHasFrame(s, e);
      if SameHour(later, e) {
        CheckedTwice(s, e, later, Awake(s, e).0);
      }
    }
    hide Awake, Connected, Checked, CheckForce, Woken, Remembers, EntryFor;
  }

  /**
   * A repaint is due exactly in the hour configured, if one is, for a device with a frame not yet repainted that day.
   */
  lemma DueIsExact(s: System, e: Event)
    requires e.WakeUp?
    ensures var entry := Cache.Lookup(s.entries, s.device);
            && (Checked(s, e).1 <==> e.refreshHour == Some(e.hour) && entry.etag != "" && entry.lastForcedDay != e.day)
            && (!Checked(s, e).1 ==> Checked(s, e).0 == s.entries)
  {
  }

  lemma DueHasFrame(s: System, e: Event)
    requires e.WakeUp? && Checked(s, e).1
    ensures Cache.Lookup(s.entries, s.device).etag != ""
  {
  }

  // ---- Whole runs

  /** A wake in the configured hour of the day that `later` falls in. */
  predicate SameHour(e: Event, later: Event)
    requires e.WakeUp? && later.WakeUp?
  {
    e.day == later.day && e.hour == later.hour && e.refreshHour == later.refreshHour
  }

  /** The hour is the repaint hour. */
  predicate InRepaintHour(later: Event) { later.WakeUp? && later.refreshHour == Some(later.hour) && later.day != "" }

  /** A served request spends the repaint; a restart takes the frame itself away. */
  predicate Ends(e: Event) { e.Restart? || Served(e) }

  /** What one event makes of a repaint due in that hour. */
  lemma StepAndDue(crc: Crc, s: System, e: Event, later: Event)
    requires InRepaintHour(later) && Possible(s, e) && (e.WakeUp? ==> SameHour(e, later))
    ensures Checked(Step(crc, s, e), later).1 <==> e.PollOk? || (Checked(s, later).1 && !Ends(e))
  {
    match e
    case WakeUp(_, _, _, _, _, _, _) => WakeAndDue(s, e, later);
    case OtherDevice(op, forcedHour) => OthersKeepEntry(s.entries, s.device, op, forcedHour);
    case PollOk(_, _, _) => hide Wire;
    case _ =>
    hide Awake, Cache.Apply, ETags.ETag;
  }

  lemma WakeAndDue(s: System, e: Event, later: Event)
    requires InRepaintHour(later) && e.WakeUp? && SameHour(e, later)
    ensures Checked(Awake(s, e).0, later).1 <==> Checked(s, later).1 && !Served(e)
  {
    UnansweredWake(s, e);
    ConnectedEntries(s, e);
    ConnectedKeepsDevice(s, e);
    CheckSpends(s, e);
    hide Awake, Connected, CheckForce, Woken;
  }

  lemma ConnectedKeepsDevice(s: System, e: Event)
    requires e.WakeUp?
    ensures Connected(s, e).0.device == s.device
  {
    hide Woken, Checked, Respond, HandleDisplay, ClampWake;
  }

  /** The check leaves nothing due. */
  lemma CheckSpends(s: System, e: Event)
    requires e.WakeUp?
    ensures !CheckForce(Checked(s, e).0, s.device, e.refreshHour, e.hour, e.day).1
  {
  }

  /** Event j polled the frame, or the run began with the repaint due; since then no request was served. */
  ghost predicate DueSince(s: System, es: seq<Event>, later: Event, n: nat, j: int)
    requires n <= |es| && later.WakeUp?
  {
    && -1 <= j < n && (if j == -1 then Checked(s, later).1 else es[j].PollOk?)
    && forall k :: j < k < n ==> !Ends(es[k])
  }

  /** All in the repaint hour: a run whose wakes fall in the hour of `later`. */
  ghost predicate IsHourRun(crc: Crc, s: System, es: seq<Event>, later: Event) {
    && InRepaintHour(later)
    && forall i :: 0 <= i < |es| ==> Possible(s, es[i]) && (es[i].WakeUp? ==> SameHour(es[i], later))
  }

  /** In that hour a repaint is due exactly if none was served, and the broker not restarted, since the last poll. */
  lemma {:induction false} DueIsHistory(crc: Crc, s: System, es: seq<Event>, later: Event, n: nat)
    requires IsHourRun(crc, s, es, later) && n <= |es|
    ensures After(crc, s, es[..n]).device == s.device
    ensures Checked(After(crc, s, es[..n]), later).1 <==> exists j :: DueSince(s, es, later, n, j)
  {
    if n == 0 {
      assert es[..0] == [];
      assert Checked(s, later).1 ==> DueSince(s, es, later, 0, -1);
    } else {
      var i := n - 1;
      DueIsHistory(crc, s, es, later, i);
      assert es[..n][..i] == es[..i];
      var t := After(crc, s, es[..i]);
      StepAndDue(crc, t, es[i], later);
      StepKeepsDevice(crc, t, es[i]);
      hide After, Checked, Step, Possible, Ends;
      DueStep(s, es, later, i, n);
    }
  }

  lemma StepKeepsDevice(crc: Crc, s: System, e: Event)
    ensures Step(crc, s, e).device == s.device
  {
    if e.WakeUp? {
      UnansweredWake(s, e);
      ConnectedKeepsDevice(s, e);
      hide Awake, Connected;
    }
  }

  lemma DueStep(s: System, es: seq<Event>, later: Event, i: nat, n: nat)
    requires i < |es| && n == i + 1 && later.WakeUp?
    ensures (exists j :: DueSince(s, es, later, n, j)) <==>
              es[i].PollOk? || ((exists j :: DueSince(s, es, later, i, j)) && !Ends(es[i]))
  {
    if es[i].PollOk? {
      assert DueSince(s, es, later, n, i);
    } else {
      hide Checked, Ends;
      forall j ensures DueSince(s, es, later, n, j) <==> DueSince(s, es, later, i, j) && !Ends(es[i]) {
        if j == i {
          assert !DueSince(s, es, later, n, j);
        }
      }
    }
  }
}
