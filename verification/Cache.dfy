/** The latest rendered payload of every device (cache.go). */
module Cache {
  import opened Bytes
  import opened Wrappers
  import opened Calendar

  /** Entry; the zero entry has no bytes, no ETag and was never forced. */
  datatype Entry = Entry(
    payload: seq<byte>, etag: string, failing: bool,
    cur: Option<Event>, next: Option<Event>, lastForcedDay: string)

  const EMPTY := Entry([], "", false, None, None, "")

  type Entries = map<string, Entry>

  function Lookup(m: Entries, device: string): Entry { if device in m then m[device] else EMPTY }

  /** A failed poll keeps whatever was being served. */
  function WithError(m: Entries, device: string): Entries { m[device := Lookup(m, device).(failing := true)] }

  /** Whether the once-daily repaint is due, and the entries with that noted. */
  function ForceCheck(m: Entries, device: string, hour: int, day: string, forcedHour: int): (Entries, bool) {
    if hour != forcedHour || Lookup(m, device).lastForcedDay == day then (m, false)
    else (m[device := Lookup(m, device).(lastForcedDay := day)], true)
  }

  class Store {
    var m: Entries

    constructor ()
      ensures m == map[]
    {
      m := map[];
    }

    method Get(device: string) returns (e: Entry, ok: bool)
      ensures ok == (device in m) && e == Lookup(m, device)
    {
      ok := device in m;
      e := if ok then m[device] else EMPTY;
    }

    method Set(device: string, e: Entry)
      modifies this
      ensures m == old(m)[device := e]
    {
      m := m[device := e];
    }

    method SetError(device: string)
      modifies this
      ensures m == WithError(old(m), device)
    {
      var e := Lookup(m, device);
      e := e.(failing := true);
      m := m[device := e];
    }

    /** hour and day are the local hour and calendar day of the request. */
    method ShouldForceFullRefresh(device: string, hour: int, day: string, forcedHour: int) returns (force: bool)
      modifies this
      ensures (m, force) == ForceCheck(old(m), device, hour, day, forcedHour)
    {
      if hour != forcedHour {
        return false;
      }
      var e := Lookup(m, device);
      if e.lastForcedDay == day {
        return false;
      }
      e := e.(lastForcedDay := day);
      m := m[device := e];
      return true;
    }
  }

  // ---- The once-daily repaint over whole runs

  datatype Op =
    | Put(device: string, entry: Entry)                  // the poller's Set
    | Fail(device: string)                               // the poller's SetError
    | Ask(device: string, hour: int, day: string)        // a display fetch

  function Apply(m: Entries, op: Op, forcedHour: int): (Entries, bool) {
    match op
    case Put(d, e) => (m[d := e], false)
    case Fail(d) => (WithError(m, d), false)
    case Ask(d, hour, day) => ForceCheck(m, d, hour, day, forcedHour)
  }

  function After(ops: seq<Op>, forcedHour: int): Entries {
    if ops == [] then map[] else Apply(After(ops[..|ops| - 1], forcedHour), ops[|ops| - 1], forcedHour).0
  }

  function ForcedAt(ops: seq<Op>, forcedHour: int, i: nat): bool
    requires i < |ops|
  {
    Apply(After(ops[..i], forcedHour), ops[i], forcedHour).1
  }

  /**
   * Op j is a repaint of the device on that day, and since then its entry was neither replaced nor forced on another
   * day.
   */
  ghost predicate StillMarked(ops: seq<Op>, forcedHour: int, device: string, day: string, i: nat, j: int)
    requires i <= |ops|
  {
    && 0 <= j < i && ops[j].device == device && Marks(ops, forcedHour, j, day)
    && forall k :: j < k < i && ops[k].device == device ==> !Replaces(ops, forcedHour, k, day)
  }

  /** Op j leaves the device's entry marked with the day: a repaint that day, or a stored entry that says so. */
  ghost predicate Marks(ops: seq<Op>, forcedHour: int, j: nat, day: string)
    requires j < |ops|
  {
    match ops[j]
    case Put(_, e) => e.lastForcedDay == day
    case Fail(_) => false
    case Ask(_, _, d) => d == day && ForcedAt(ops, forcedHour, j)
  }

  ghost predicate Replaces(ops: seq<Op>, forcedHour: int, k: nat, day: string)
    requires k < |ops|
  {
    match ops[k]
    case Put(_, e) => e.lastForcedDay != day
    case Fail(_) => false
    case Ask(_, _, d) => d != day && ForcedAt(ops, forcedHour, k)
  }

  lemma AfterOneMore(ops: seq<Op>, forcedHour: int, i: nat)
    requires i < |ops|
    ensures After(ops[..i + 1], forcedHour) == Apply(After(ops[..i], forcedHour), ops[i], forcedHour).0
  {
    assert ops[..i + 1][..i] == ops[..i];
  }

  /** The stored day says exactly whether a mark of that day is still standing. */
  lemma {:induction false} MarkIsHistory(ops: seq<Op>, forcedHour: int, device: string, day: string, i: nat)
    requires i <= |ops| && day != ""
    ensures Lookup(After(ops[..i], forcedHour), device).lastForcedDay == day
            <==> exists j :: StillMarked(ops, forcedHour, device, day, i, j)
  {
    if i == 0 {
      assert ops[..0] == [];
    } else {
      MarkIsHistory(ops, forcedHour, device, day, i - 1);
      DayStep(ops, forcedHour, device, day, i - 1, i);
      hide *;
      MarkStep(ops, forcedHour, device, day, i - 1, i);
    }
  }

  /** One operation marks the device's entry with the day, clears that mark, or leaves it as it was. */
  lemma DayStep(ops: seq<Op>, forcedHour: int, device: string, day: string, i: nat, n: nat)
    requires i < |ops| && n == i + 1
    ensures Lookup(After(ops[..n], forcedHour), device).lastForcedDay == day <==>
              if ops[i].device == device && (Marks(ops, forcedHour, i, day) || Replaces(ops, forcedHour, i, day))
              then Marks(ops, forcedHour, i, day)
              else Lookup(After(ops[..i], forcedHour), device).lastForcedDay == day
  {
    AfterOneMore(ops, forcedHour, i);
    hide After;
  }

  lemma MarkStep(ops: seq<Op>, forcedHour: int, device: string, day: string, i: nat, n: nat)
    requires i < |ops| && n == i + 1 && day != ""
    ensures (exists j :: StillMarked(ops, forcedHour, device, day, n, j)) <==>
              if ops[i].device == device && (Marks(ops, forcedHour, i, day) || Replaces(ops, forcedHour, i, day))
              then Marks(ops, forcedHour, i, day)
              else exists j :: StillMarked(ops, forcedHour, device, day, i, j)
  {
    hide Marks, Replaces;
    if ops[i].device == device && Marks(ops, forcedHour, i, day) {
      assert StillMarked(ops, forcedHour, device, day, n, i);
    }
    forall j | j != i
      ensures StillMarked(ops, forcedHour, device, day, n, j) <==>
                && StillMarked(ops, forcedHour, device, day, i, j)
                && !(ops[i].device == device && Replaces(ops, forcedHour, i, day))
    {
    }
    if ops[i].device == device && Marks(ops, forcedHour, i, day) {
      MarksNotReplaces(ops, forcedHour, i, day);
    }
    if exists j :: StillMarked(ops, forcedHour, device, day, i, j) {
      var j :| StillMarked(ops, forcedHour, device, day, i, j);
      assert StillMarked(ops, forcedHour, device, day, n, j)
        || (ops[i].device == device && Replaces(ops, forcedHour, i, day));
    }
  }

  lemma MarksNotReplaces(ops: seq<Op>, forcedHour: int, i: nat, day: string)
    requires i < |ops| && Marks(ops, forcedHour, i, day)
    ensures !Replaces(ops, forcedHour, i, day)
  {
  }

  /** A repaint is forced exactly in its hour, unless a repaint of that day is still on record. */
  lemma ForcedIsHistory(ops: seq<Op>, forcedHour: int, i: nat)
    requires i < |ops| && ops[i].Ask? && ops[i].day != ""
    ensures ForcedAt(ops, forcedHour, i) <==>
              ops[i].hour == forcedHour
              && !(exists j :: StillMarked(ops, forcedHour, ops[i].device, ops[i].day, i, j))
  {
    MarkIsHistory(ops, forcedHour, ops[i].device, ops[i].day, i);
    hide After, StillMarked;
  }

  /** So a second repaint on one day needs the entry to have been replaced, or a repaint on another day, in between. */
  lemma OncePerDayBetweenPolls(ops: seq<Op>, forcedHour: int, i: nat, k: nat)
    requires i < k < |ops| && ops[i].Ask? && ops[k].Ask? && ops[k].day != ""
    requires ops[i].device == ops[k].device && ops[i].day == ops[k].day
    requires ForcedAt(ops, forcedHour, i) && ForcedAt(ops, forcedHour, k)
    ensures exists j :: i < j < k && ops[j].device == ops[k].device && Replaces(ops, forcedHour, j, ops[k].day)
  {
    ForcedIsHistory(ops, forcedHour, k);
    hide After;
    assert Marks(ops, forcedHour, i, ops[k].day);
    assert !StillMarked(ops, forcedHour, ops[k].device, ops[k].day, k, i);
  }

  /**
   * And a poll is enough: the poller stores entries that were never forced, so the next fetch in the hour repaints
   * again.
   */
  lemma PollReArms(m: Entries, device: string, e: Entry, forcedHour: int, day: string)
    requires e.lastForcedDay == "" && day != ""
    ensures ForceCheck(m[device := e], device, forcedHour, day, forcedHour).1
  {
  }

  /** Two repaints in one hour of one day: poll, fetch, poll, fetch. */
  lemma ForcedTwiceInADay(device: string, e: Entry, forcedHour: int, day: string)
    requires e.lastForcedDay == "" && day != ""
    ensures var ask := Ask(device, forcedHour, day);
            var ops := [Put(device, e), ask, Put(device, e), ask];
            ForcedAt(ops, forcedHour, 1) && ForcedAt(ops, forcedHour, 3)
  {
    var ops := [Put(device, e), Ask(device, forcedHour, day), Put(device, e), Ask(device, forcedHour, day)];
    AfterOneMore(ops, forcedHour, 0);
    AfterOneMore(ops, forcedHour, 2);
    PollReArms(After(ops[..0], forcedHour), device, e, forcedHour, day);
    PollReArms(After(ops[..2], forcedHour), device, e, forcedHour, day);
    hide After, ForceCheck;
  }
}
