/** A room's day: which meeting is on, which is next, what the panel says and when that changes (calendar.go). */
module Calendar {
  import opened Wrappers

  /** Instants and durations are nanoseconds, as in Go. */
  type Time = int

  const SECOND: Time := 1_000_000_000
  const MINUTE: Time := 60 * SECOND
  const STARTING_SOON_WINDOW: Time := 10 * MINUTE
  const BACK_TO_BACK_WINDOW: Time := 5 * MINUTE
  const TRANSITION_BUFFER: Time := 30 * SECOND

  datatype Event = Event(subject: string, organizer: string, start: Time, end: Time, isPrivate: bool)

  datatype Status = InMeeting | StartingSoon | Available

  predicate Covers(e: Event, t: Time) { e.start <= t < e.end }

  predicate StartsSoon(e: Event, t: Time) { t <= e.start <= t + STARTING_SOON_WINDOW }

  // ---- Searching the schedule

  function Current(events: seq<Event>, t: Time): (r: Option<Event>)
    ensures r.Some? ==> r.value in events && Covers(r.value, t)
    ensures r.None? ==> forall e <- events :: !Covers(e, t)
  {
    if events == [] then None
    else if Covers(events[0], t) then Some(events[0])
    else Current(events[1..], t)
  }

  function Next(events: seq<Event>, t: Time): (r: Option<Event>)
    ensures r.Some? ==> r.value in events && r.value.start >= t
    ensures r.None? ==> forall e <- events :: e.start < t
  {
    if events == [] then None
    else if events[0].start >= t then Some(events[0])
    else Next(events[1..], t)
  }

  method FindCurrent(events: seq<Event>, t: Time) returns (r: Option<Event>)
    ensures r == Current(events, t)
  {
    assert events[0..] == events;
    for i := 0 to |events|
      invariant Current(events, t) == Current(events[i..], t)
    {
      if !(t < events[i].start) && t < events[i].end {
        return Some(events[i]);
      }
      assert events[i..][1..] == events[i + 1..];
    }
    return None;
  }

  method FindNext(events: seq<Event>, t: Time) returns (r: Option<Event>)
    ensures r == Next(events, t)
  {
    assert events[0..] == events;
    for i := 0 to |events|
      invariant Next(events, t) == Next(events[i..], t)
    {
      if !(events[i].start < t) {
        return Some(events[i]);
      }
      assert events[i..][1..] == events[i + 1..];
    }
    return None;
  }

  ghost predicate Sorted(events: seq<Event>) {
    forall i, j :: 0 <= i < j < |events| ==> events[i].start <= events[j].start
  }

  /** In a sorted schedule the next event is the soonest one. */
  lemma {:induction false} NextIsSoonest(events: seq<Event>, t: Time)
    requires Sorted(events)
    ensures var n := Next(events, t);
            n.Some? ==> forall e <- events | e.start >= t :: n.value.start <= e.start
  {
    if events != [] {
      NextIsSoonest(events[1..], t);
      assert events == [events[0]] + events[1..];
      forall e <- events | e.start >= t ensures Next(events, t).value.start <= e.start {
        if events[0].start >= t {
          var i :| 0 <= i < |events| && events[i] == e;
        }
      }
    }
  }

  // ---- Status and transitions

  function RoomStatus(cur: Option<Event>, next: Option<Event>, now: Time): Status {
    if cur.Some? then InMeeting
    else if next.Some? && next.value.start - now <= STARTING_SOON_WINDOW then StartingSoon
    else Available
  }

  function BackToBack(cur: Option<Event>, next: Option<Event>): Option<Event> {
    if cur.Some? && next.Some? && next.value.start - cur.value.end <= BACK_TO_BACK_WINDOW then next else None
  }

  function NextTransitionAt(cur: Option<Event>, next: Option<Event>, now: Time): Option<Time> {
    if cur.Some? then
      var revealAt := cur.value.end - BACK_TO_BACK_WINDOW;
      if BackToBack(cur, next).Some? && now < revealAt then Some(revealAt + TRANSITION_BUFFER)
      else Some(cur.value.end + TRANSITION_BUFFER)
    else if next.Some? then
      var soonAt := next.value.start - STARTING_SOON_WINDOW;
      if now < soonAt then Some(soonAt + TRANSITION_BUFFER)
      else Some(next.value.start + TRANSITION_BUFFER)
    else None
  }

  /** What the panel should say at t, read off the whole schedule. */
  function StatusAt(events: seq<Event>, t: Time): Status {
    RoomStatus(Current(events, t), Next(events, t), t)
  }

  /** The transition a fresh snapshot at now announces. */
  function TransitionAfter(events: seq<Event>, now: Time): Option<Time> {
    NextTransitionAt(Current(events, now), Next(events, now), now)
  }

  /** While nothing starts and nothing is on, the next event stays the next event. */
  lemma QuietUntil(events: seq<Event>, now: Time, t: Time)
    requires Sorted(events) && now <= t && Current(events, now).None?
    requires forall e <- events | e.start >= now :: e.start > t
    ensures Current(events, t).None?
    ensures Next(events, t).Some? == Next(events, now).Some?
    ensures Next(events, t).Some? ==> Next(events, t).value.start == Next(events, now).value.start
  {
    NextIsSoonest(events, now);
    NextIsSoonest(events, t);
    forall e <- events ensures !Covers(e, t) {
      if e.start < now {
        assert !Covers(e, now);
      }
    }
  }

  /**
   * How long what a snapshot taken at p says stays true: to the end of its meeting, or to the next change it
   * foresees.
   */
  function Horizon(events: seq<Event>, p: Time): Option<Time> {
    var cur, next := Current(events, p), Next(events, p);
    if cur.Some? then Some(cur.value.end)
    else if next.None? then None
    else if p < next.value.start - STARTING_SOON_WINDOW then Some(next.value.start - STARTING_SOON_WINDOW)
    else Some(next.value.start)
  }

  /** Up to that horizon the status does not change; with no horizon, never. */
  lemma StatusHoldsToHorizon(events: seq<Event>, p: Time, t: Time)
    requires Sorted(events) && p <= t
    requires var h := Horizon(events, p); h.Some? ==> t < h.value
    ensures StatusAt(events, t) == StatusAt(events, p)
  {
    var cur := Current(events, p);
    if cur.Some? {
      assert Covers(cur.value, t) && cur.value in events;
    } else {
      NextIsSoonest(events, p);
      QuietUntil(events, p, t);
    }
  }

  /** Up to the announced transition, less its 30 s buffer, the status does not change; with no transition, never. */
  lemma StatusHolds(events: seq<Event>, now: Time, t: Time)
    requires Sorted(events) && now <= t
    requires var next := TransitionAfter(events, now); next.Some? ==> t < next.value - TRANSITION_BUFFER
    ensures StatusAt(events, t) == StatusAt(events, now)
  {
    StatusHoldsToHorizon(events, now, t);
  }

  /** A fresh snapshot never announces a transition less than 30 s away. */
  lemma TransitionIsAhead(events: seq<Event>, now: Time)
    ensures var next := TransitionAfter(events, now); next.Some? ==> next.value >= now + TRANSITION_BUFFER
  {
  }

  /** From an empty room, the starting-soon point is exactly when the panel changes. */
  lemma SoonPointIsExact(events: seq<Event>, now: Time)
    requires Sorted(events)
    requires Current(events, now).None? && Next(events, now).Some?
    requires now < Next(events, now).value.start - 10 * MINUTE
    ensures var at := Next(events, now).value.start - 10 * MINUTE;
            && TransitionAfter(events, now) == Some(at + 30 * SECOND)
            && StatusAt(events, now) == Available && StatusAt(events, at) == StartingSoon
            && forall t :: now <= t < at ==> StatusAt(events, t) == Available
  {
    var at := TransitionAfter(events, now).value - TRANSITION_BUFFER;
    NextIsSoonest(events, now);
    QuietUntil(events, now, at);
    forall t | now <= t < at ensures StatusAt(events, t) == Available {
      StatusHolds(events, now, t);
    }
  }

  /** Once starting soon, a real meeting takes over exactly at its start. */
  lemma MeetingStartIsExact(events: seq<Event>, now: Time)
    requires Sorted(events) && (forall e <- events :: e.start < e.end)
    requires StatusAt(events, now) == StartingSoon
    ensures var at := Next(events, now).value.start;
            && TransitionAfter(events, now) == Some(at + 30 * SECOND)
            && StatusAt(events, at) == InMeeting
            && forall t :: now <= t < at ==> StatusAt(events, t) == StartingSoon
  {
    var next := Next(events, now).value;
    assert Covers(next, next.start) && next in events;
    forall t | now <= t < next.start ensures StatusAt(events, t) == StartingSoon {
      StatusHolds(events, now, t);
    }
  }

  /** Until it ends, the current meeting stays the current one: nothing that starts later displaces it. */
  lemma {:induction false} CurrentPersists(events: seq<Event>, now: Time, t: Time)
    requires Sorted(events) && Current(events, now).Some? && now <= t < Current(events, now).value.end
    ensures Current(events, t) == Current(events, now)
  {
    if !Covers(events[0], now) {
      assert Current(events, now).value in events[1..];
      CurrentPersists(events[1..], now, t);
    }
  }

  /** Until it starts, the next event stays the next one. */
  lemma {:induction false} NextPersists(events: seq<Event>, now: Time, t: Time)
    requires Next(events, now).Some? && now <= t <= Next(events, now).value.start
    ensures Next(events, t) == Next(events, now)
  {
    if events[0].start < now {
      NextPersists(events[1..], now, t);
    }
  }

  /**
   * The panel wakes before its meeting ends exactly when another follows within five minutes and is not yet revealed;
   * the same meeting is then still on, and a follower that has not started yet is still the one to preview.
   */
  lemma PreviewIsAnnounced(events: seq<Event>, now: Time)
    requires Sorted(events) && Current(events, now).Some?
    ensures var cur, next := Current(events, now), Next(events, now);
            var at := TransitionAfter(events, now).value;
            && TransitionAfter(events, now).Some?
            && (at < cur.value.end <==> BackToBack(cur, next).Some? && now < cur.value.end - BACK_TO_BACK_WINDOW)
            && (at < cur.value.end ==>
                  && now < at && StatusAt(events, at) == InMeeting && Current(events, at) == cur
                  && (at <= next.value.start ==> BackToBack(Current(events, at), Next(events, at)) == next))
  {
    var cur, next := Current(events, now), Next(events, now);
    var at := TransitionAfter(events, now).value;
    if at < cur.value.end {
      CurrentPersists(events, now, at);
      if at <= next.value.start {
        NextPersists(events, now, at);
      }
    }
  }

  /** What the panel is to show: the status, and the follower previewed in the last five minutes of a meeting. */
  datatype Display = Display(status: Status, preview: Option<Event>)

  function DisplayAt(events: seq<Event>, t: Time): Display {
    var cur, next := Current(events, t), Next(events, t);
    var previews := cur.Some? && next.Some?
      && t >= cur.value.end - 5 * MINUTE && next.value.start <= cur.value.end + 5 * MINUTE;
    Display(StatusAt(events, t), if previews then next else None)
  }

  /**
   * During a meeting the announced instant is five minutes before its end exactly if it is not that late yet and some
   * event starts after now and at most five minutes after the end; otherwise it is the end itself.
   */
  lemma PreviewInstantIsExact(events: seq<Event>, now: Time)
    requires Sorted(events) && Current(events, now).Some?
    ensures var end := Current(events, now).value.end;
            var at := TransitionAfter(events, now);
            && at.Some?
            && at.value - 30 * SECOND
               == if now < end - 5 * MINUTE && exists e <- events :: now <= e.start <= end + 5 * MINUTE
                  then end - 5 * MINUTE else end
  {
    NextIsSoonest(events, now);
  }

  /**
   * And that is the first instant after now at which what the panel shows changes, if that event has not begun by
   * then.
   */
  lemma PreviewIsFirstChange(events: seq<Event>, now: Time, follower: Event)
    requires Sorted(events) && Current(events, now).Some?
    requires var end := Current(events, now).value.end;
             now < end - 5 * MINUTE && follower in events && end - 5 * MINUTE <= follower.start <= end + 5 * MINUTE
    ensures var at := TransitionAfter(events, now).value - TRANSITION_BUFFER;
            && (forall t :: now <= t < at ==> DisplayAt(events, t) == DisplayAt(events, now))
            && DisplayAt(events, at) != DisplayAt(events, now)
  {
    var at := TransitionAfter(events, now).value - TRANSITION_BUFFER;
    PreviewInstantIsExact(events, now);
    forall t | now <= t <= at ensures Current(events, t) == Current(events, now) && StatusAt(events, t) == InMeeting {
      CurrentPersists(events, now, t);
    }
    NextIsSoonest(events, at);
    assert Next(events, at).Some? && Next(events, at).value.start <= follower.start;
    hide Current, Next, TransitionAfter;
  }

  /**
   * Whatever overlaps it, the current meeting stays current to its end; unless a preview comes first, the announced
   * instant is that end, and the panel changes there exactly if no other event covers it.
   */
  lemma MeetingEndIsExact(events: seq<Event>, now: Time)
    requires Sorted(events) && Current(events, now).Some?
    ensures var cur := Current(events, now).value;
            forall t :: now <= t < cur.end ==> StatusAt(events, t) == InMeeting && Current(events, t) == Some(cur)
    ensures var cur := Current(events, now).value;
            var at := TransitionAfter(events, now).value - TRANSITION_BUFFER;
            && TransitionAfter(events, now).Some?
            && (BackToBack(Some(cur), Next(events, now)).None? || now >= cur.end - BACK_TO_BACK_WINDOW ==>
                  at == cur.end)
            && (at == cur.end ==>
                  (StatusAt(events, at) != StatusAt(events, now) <==> forall e <- events :: !Covers(e, at)))
  {
    var cur := Current(events, now).value;
    forall t | now <= t < cur.end ensures StatusAt(events, t) == InMeeting && Current(events, t) == Some(cur) {
      CurrentPersists(events, now, t);
    }
  }

  /** With nothing overlapping the meeting, the snapshot taken during it already says what follows at its end. */
  lemma WhatFollowsIsKnown(events: seq<Event>, now: Time)
    requires Sorted(events) && Current(events, now).Some?
    requires forall e <- events :: e.start < e.end
    requires var end := Current(events, now).value.end;
             forall e <- events :: if e.start < now then e.end <= end else end <= e.start
    ensures var end, next := Current(events, now).value.end, Next(events, now);
            StatusAt(events, end)
            == if next.Some? && next.value.start == end then InMeeting else RoomStatus(None, next, end)
  {
    var end, next := Current(events, now).value.end, Next(events, now);
    if next.Some? {
      NextPersists(events, now, end);
      NextIsSoonest(events, now);
      assert Covers(next.value, next.value.start);
    }
  }

  // ---- Normalizing raw events

  predicate StillRelevant(e: Event, from: Time) { e.end > from }

  /** The events not yet over at from, in their given order. */
  function Kept(events: seq<Event>, from: Time): (r: seq<Event>)
    ensures forall e :: e in r <==> e in events && StillRelevant(e, from)
    ensures |r| <= |events|
  {
    if events == [] then []
    else
      var init, last := events[..|events| - 1], events[|events| - 1];
      assert events == init + [last];
      if StillRelevant(last, from) then Kept(init, from) + [last] else Kept(init, from)
  }

  lemma KeptNone(from: Time)
    ensures Kept([], from) == []
  {
  }

  lemma KeptOneMore(raw: seq<Event>, i: nat, from: Time)
    requires i < |raw|
    ensures Kept(raw[..i + 1], from)
         == Kept(raw[..i], from) + if StillRelevant(raw[i], from) then [raw[i]] else []
  {
    assert raw[..i + 1][..i] == raw[..i];
  }

  /** Any result a sort by start, stable or not, may leave. */
  ghost predicate IsNormalized(raw: seq<Event>, from: Time, out: seq<Event>) {
    Sorted(out) && multiset(out) == multiset(Kept(raw, from))
  }

  function Insert(e: Event, s: seq<Event>): (r: seq<Event>)
    requires Sorted(s)
    ensures Sorted(r) && multiset(r) == multiset(s) + multiset{e}
  {
    if s == [] || e.start <= s[0].start then [e] + s
    else
      var r := Insert(e, s[1..]);
      InsertedBehind(e, s, r);
      [s[0]] + r
  }

  lemma InsertedBehind(e: Event, s: seq<Event>, r: seq<Event>)
    requires Sorted(s) && s != [] && s[0].start <= e.start
    requires Sorted(r) && multiset(r) == multiset(s[1..]) + multiset{e}
    ensures Sorted([s[0]] + r) && multiset([s[0]] + r) == multiset(s) + multiset{e}
  {
    assert s == [s[0]] + s[1..];
    forall i | 0 <= i < |r| ensures s[0].start <= r[i].start {
      assert r[i] in multiset(r);
    }
  }

  /** Stands for sort.Slice: nothing below relies on more than IsNormalized. */
  function SortByStart(s: seq<Event>): (r: seq<Event>)
    ensures Sorted(r) && multiset(r) == multiset(s)
  {
    if s == [] then []
    else
      assert s == [s[0]] + s[1..];
      Insert(s[0], SortByStart(s[1..]))
  }

  /** calendar.go: normalize filters into the front of its own argument, then sorts. */
  method Normalize(events: array<Event>, from: Time) returns (out: seq<Event>)
    modifies events
    ensures IsNormalized(old(events[..]), from, out)
  {
    hide Kept, SortByStart;
    ghost var raw := events[..];
    var n := 0;
    assert raw[..0] == [] && Kept([], from) == [] by {
      KeptNone(from);
    }
    for i := 0 to events.Length
      invariant n <= i
      invariant events[..n] == Kept(raw[..i], from)
      invariant forall k :: i <= k < events.Length ==> events[k] == raw[k]
    {
      KeptOneMore(raw, i, from);
      var e := events[i];
      if e.end > from {
        events[n] := e;
        n := n + 1;
      }
    }
    assert raw[..events.Length] == raw;
    out := SortByStart(events[..n]);
  }

  /** What the room's status means, with no order and no search: is some event on, does one start soon? */
  ghost function TrueStatus(raw: seq<Event>, t: Time): Status {
    if exists e <- raw :: Covers(e, t) then InMeeting
    else if exists e <- raw :: StartsSoon(e, t) then StartingSoon
    else Available
  }

  /**
   * Filtering and any sort leave the status what the raw events mean, but for a room about to be used only by events
   * that end no later than they start and are over already: the filter drops those.
   */
  lemma StatusIsOrderFree(raw: seq<Event>, from: Time, out: seq<Event>, t: Time)
    requires IsNormalized(raw, from, out) && from <= t
    ensures StatusAt(out, t) == TrueStatus(raw, t) <==>
              (TrueStatus(raw, t) == StartingSoon ==> exists e <- raw :: StartsSoon(e, t) && StillRelevant(e, from))
    ensures StatusAt(out, t) == TrueStatus(Kept(raw, from), t)
    ensures (forall e <- raw :: e.start < e.end) ==> StatusAt(out, t) == TrueStatus(raw, t)
  {
    SameMembers(raw, from, out);
    SearchFindsTrueStatus(out, t);
    assert forall e :: e in Kept(raw, from) <==> e in out;
    SameTrueStatus(out, Kept(raw, from), t);
    assert (exists e <- raw :: Covers(e, t)) <==> exists e <- out :: Covers(e, t);
  }

  /** Such an event: of no length, at the filter's own instant. */
  lemma EmptyEventIsDropped(at: Time)
    ensures var e := Event("", "", at, at, false);
            && IsNormalized([e], at, [])
            && TrueStatus([e], at) == StartingSoon && StatusAt([], at) == Available
  {
    var e := Event("", "", at, at, false);
    KeptOneMore([e], 0, at);
    assert [e][..1] == [e] && [e][..0] == [];
    assert e in [e] && StartsSoon(e, at);
  }

  // ---- When the status can change

  /** The instants at which one event can change the status. */
  predicate Turns(e: Event, t: Time) {
    t == e.start - STARTING_SOON_WINDOW || t == e.start || t == e.start + 1 || t == e.end
  }

  ghost predicate IsChange(events: seq<Event>, t: Time) { exists e <- events :: Turns(e, t) }

  /** From one instant to the next the status changes only at one of those. */
  lemma OnlyChangesChange(events: seq<Event>, t: Time)
    requires Sorted(events) && !IsChange(events, t)
    ensures StatusAt(events, t) == StatusAt(events, t - 1)
  {
    SearchFindsTrueStatus(events, t);
    SearchFindsTrueStatus(events, t - 1);
    forall e <- events
      ensures Covers(e, t) <==> Covers(e, t - 1)
      ensures StartsSoon(e, t) <==> StartsSoon(e, t - 1)
    {
      assert !Turns(e, t);
    }
    hide StatusAt;
  }

  /** A status that holds now and at every possible change after now holds throughout. */
  lemma {:induction false} HoldsThroughout(events: seq<Event>, now: Time, t: Time, s: Status)
    requires Sorted(events) && now <= t && StatusAt(events, now) == s
    requires forall x :: now < x <= t && IsChange(events, x) ==> StatusAt(events, x) == s
    ensures StatusAt(events, t) == s
    decreases t - now
  {
    hide StatusAt, IsChange;
    if now < t && !IsChange(events, t) {
      HoldsThroughout(events, now, t - 1, s);
      OnlyChangesChange(events, t);
    }
  }

  /** In a sorted schedule the two searches find what the room's status means. */
  lemma SearchFindsTrueStatus(events: seq<Event>, t: Time)
    requires Sorted(events)
    ensures StatusAt(events, t) == TrueStatus(events, t)
  {
    NextIsSoonest(events, t);
  }

  lemma SameTrueStatus(a: seq<Event>, b: seq<Event>, t: Time)
    requires forall e :: e in a <==> e in b
    ensures TrueStatus(a, t) == TrueStatus(b, t)
  {
    assert forall e :: (e in a && Covers(e, t)) <==> (e in b && Covers(e, t));
    assert forall e :: (e in a && StartsSoon(e, t)) <==> (e in b && StartsSoon(e, t));
  }

  lemma SameMembers(raw: seq<Event>, from: Time, out: seq<Event>)
    requires IsNormalized(raw, from, out)
    ensures forall e :: e in out <==> e in raw && e.end > from
  {
    forall e ensures e in out <==> e in raw && e.end > from {
      assert e in out <==> e in multiset(out);
      assert e in Kept(raw, from) <==> e in multiset(Kept(raw, from));
    }
  }
}
