/**
 * The durable half of the telemetry store (telemetry.go) as a state machine: any number of concurrent Ingest
 * calls, the writer goroutine started by Run, pruning, cancellation and Close, interleaved step by step.
 */
module TelemetryQueue {
  datatype Record = Record(deviceId: string, lastSeen: int)

  /** Where an Ingest call is before it has either enqueued or dropped its record. */
  datatype Call = AtLock(rec: Record) | Locked(rec: Record) | Checked(rec: Record, sawClosed: bool)

  /** The writer goroutine: inside Prune, in its select, inside Append, in the drain loop after cancellation. */
  datatype Writer =
    | NotStarted | Pruning | Selecting | Appending(rec: Record)
    | Draining | DrainAppending(rec: Record) | Exited

  /** Close, between taking the write lock and closing the sink. */
  datatype Closer = Idle | Holding | Marked | QueueClosed | Unlocked | Waited | Done

  /** What the writer goroutine alone changes. */
  datatype Writing = Writing(
    writer: Writer, cancelled: bool,
    tried: seq<Record>,        // every record handed to Append, in order
    appended: nat, failed: nat, pruneErrors: nat,
    usedClosedSink: bool)      // Append or Prune after the sink was closed

  datatype State = State(
    cap: nat,
    q: seq<Record>, closed: bool, qClosed: bool,
    calls: map<nat, Call>,     // Ingest calls still to send or drop
    leaving: set<nat>,         // calls past that point, still holding the read lock
    started: nat,              // Ingest calls ever made
    accepted: seq<Record>,     // every record ever enqueued, in order
    dropped: nat,
    panicked: bool,            // a send or close on a closed channel
    w: Writing,
    closer: Closer, sinkClosed: bool,
    ranBeforeWait: bool)       // Close waited for a writer; CloseWaitsForRun says when that is

  function Init(cap: nat): State {
    var w := Writing(NotStarted, false, [], 0, 0, 0, false);
    State(cap, [], false, false, map[], {}, 0, [], 0, false, w, Idle, false, false)
  }

  // ---- Steps

  datatype Step =
    | IngestStart(id: nat, rec: Record) | IngestLock(id: nat) | IngestCheck(id: nat)
    | IngestSend(id: nat) | IngestUnlock(id: nat)
    | RunStart | PruneDone(err: bool) | Receive | AppendDone(err: bool) | Tick | SeeCancelled | Drain
    | Cancel
    | CloseLock | CloseMark | CloseQueue | CloseUnlock | CloseWait | CloseSink

  function HoldsReadLock(c: Call): bool { !c.AtLock? }

  function NobodyReads(s: State): bool {
    s.leaving == {} && forall id <- s.calls :: !HoldsReadLock(s.calls[id])
  }

  function WriteLocked(s: State): bool { s.closer in {Holding, Marked, QueueClosed} }

  predicate Enabled(s: State, step: Step) {
    match step
    case IngestStart(id, rec) => id !in s.calls && id !in s.leaving
    case IngestLock(id) => id in s.calls && s.calls[id].AtLock? && !WriteLocked(s)
    case IngestCheck(id) => id in s.calls && s.calls[id].Locked?
    case IngestSend(id) => id in s.calls && s.calls[id].Checked?
    case IngestUnlock(id) => id in s.leaving
    case RunStart => s.w.writer.NotStarted?
    case PruneDone(err) => s.w.writer.Pruning?
    case Receive => s.w.writer.Selecting? && (s.q != [] || s.qClosed)
    case AppendDone(err) => s.w.writer.Appending? || s.w.writer.DrainAppending?
    case Tick => s.w.writer.Selecting?
    case SeeCancelled => s.w.writer.Selecting? && s.w.cancelled
    case Drain => s.w.writer.Draining?
    case Cancel => true
    case CloseLock => s.closer.Idle? && NobodyReads(s)
    case CloseMark => s.closer.Holding?
    case CloseQueue => s.closer.Marked?
    case CloseUnlock => s.closer.QueueClosed?
    case CloseWait => s.closer.Unlocked? && (s.w.writer.NotStarted? || s.w.writer.Exited?)
    case CloseSink => s.closer.Waited?
  }

  /** The non-blocking send: a full queue drops, a closed one panics. */
  function Send(s: State, rec: Record): State {
    if s.qClosed then s.(panicked := true)
    else if |s.q| < s.cap then s.(q := s.q + [rec], accepted := s.accepted + [rec])
    else s.(dropped := s.dropped + 1)
  }

  /** Taking the head of the queue, or finding it closed and empty. */
  function Take(s: State, busy: Record -> Writer, idle: Writer): State {
    if s.q != [] then s.(q := s.q[1..], w := s.w.(writer := busy(s.q[0]))) else s.(w := s.w.(writer := idle))
  }

  predicate IsIngest(step: Step) {
    step.IngestStart? || step.IngestLock? || step.IngestCheck? || step.IngestSend? || step.IngestUnlock?
  }

  predicate IsClose(step: Step) {
    step.CloseLock? || step.CloseMark? || step.CloseQueue? || step.CloseUnlock? || step.CloseWait? || step.CloseSink?
  }

  function ApplyIngest(s: State, step: Step): State
    requires Enabled(s, step) && IsIngest(step)
  {
    match step
    case IngestStart(id, rec) => s.(calls := s.calls[id := AtLock(rec)], started := s.started + 1)
    case IngestLock(id) => s.(calls := s.calls[id := Locked(s.calls[id].rec)])
    case IngestCheck(id) => s.(calls := s.calls[id := Checked(s.calls[id].rec, s.closed)])
    case IngestSend(id) =>
      var c := s.calls[id];
      var t := s.(calls := s.calls - {id}, leaving := s.leaving + {id});
      if c.sawClosed then t.(dropped := t.dropped + 1) else Send(t, c.rec)
    case IngestUnlock(id) => s.(leaving := s.leaving - {id})
  }

  function ApplyWriter(s: State, step: Step): State
    requires Enabled(s, step) && !IsIngest(step) && !IsClose(step)
  {
    match step
    case RunStart => s.(w := s.w.(writer := Pruning))
    case PruneDone(err) =>
      s.(w := s.w.(writer := Selecting, pruneErrors := s.w.pruneErrors + (if err then 1 else 0),
                   usedClosedSink := s.w.usedClosedSink || s.sinkClosed))
    case Receive => Take(s, r => Appending(r), Exited)
    case AppendDone(err) =>
      s.(w := s.w.(writer := if s.w.writer.Appending? then Selecting else Draining,
                   tried := s.w.tried + [s.w.writer.rec],
                   appended := s.w.appended + (if err then 0 else 1), failed := s.w.failed + (if err then 1 else 0),
                   usedClosedSink := s.w.usedClosedSink || s.sinkClosed))
    case Tick => s.(w := s.w.(writer := Pruning))
    case SeeCancelled => s.(w := s.w.(writer := Draining))
    case Drain => Take(s, r => DrainAppending(r), Exited)
    case Cancel => s.(w := s.w.(cancelled := true))
  }

  function ApplyClose(s: State, step: Step): State
    requires Enabled(s, step) && IsClose(step)
  {
    match step
    case CloseLock => s.(closer := Holding)
    case CloseMark => s.(closer := Marked, closed := true)
    case CloseQueue => s.(closer := QueueClosed, qClosed := true, panicked := s.panicked || s.qClosed)
    case CloseUnlock => s.(closer := Unlocked)
    case CloseWait => s.(closer := Waited, ranBeforeWait := s.w.writer.Exited?)
    case CloseSink => s.(closer := Done, sinkClosed := true)
  }

  function Apply(s: State, step: Step): State
    requires Enabled(s, step)
  {
    if IsIngest(step) then ApplyIngest(s, step)
    else if IsClose(step) then ApplyClose(s, step)
    else ApplyWriter(s, step)
  }

  // ---- Runs

  ghost predicate IsRun(s: State, steps: seq<Step>)
    decreases |steps|
  {
    steps == [] || (Enabled(s, steps[0]) && IsRun(Apply(s, steps[0]), steps[1..]))
  }

  ghost function After(s: State, steps: seq<Step>): State
    requires IsRun(s, steps)
    decreases |steps|
  {
    if steps == [] then s else After(Apply(s, steps[0]), steps[1..])
  }

  // ---- The invariant

  /** The record the writer has taken out of the queue but not yet appended. */
  function InHand(s: State): seq<Record> {
    if s.w.writer.Appending? || s.w.writer.DrainAppending? then [s.w.writer.rec] else []
  }

  /** The locks do their job: no reader while Close holds the lock, and nobody about to send sees a closed queue. */
  predicate LockInv(s: State) {
    && (s.closed <==> s.closer !in {Idle, Holding})
    && (s.qClosed <==> s.closer !in {Idle, Holding, Marked})
    && (s.sinkClosed <==> s.closer.Done?)
    && (WriteLocked(s) ==> NobodyReads(s))
    && (forall id <- s.calls :: s.calls[id].Checked? ==> s.calls[id].sawClosed == s.closed)
    && !s.panicked
  }

  /** Nothing enqueued is lost, invented or reordered on its way to the sink. */
  predicate OrderInv(s: State) {
    && |s.q| <= s.cap
    && s.accepted == s.w.tried + InHand(s) + s.q
    && |s.w.tried| == s.w.appended + s.w.failed
  }

  /** Every call made is still on its way, was enqueued, or was dropped. */
  predicate CountInv(s: State) {
    s.started == |s.accepted| + s.dropped + |s.calls|
  }

  /** A writer that was never told to stop only stops once the queue is closed and empty. */
  predicate DrainInv(s: State) {
    && (s.w.writer.Draining? || s.w.writer.DrainAppending? ==> s.w.cancelled)
    && (s.w.writer.Exited? && !s.w.cancelled ==> s.qClosed && s.q == [])
    && (s.ranBeforeWait ==> s.w.writer.Exited? && s.closer in {Waited, Done})
    && (s.w.usedClosedSink ==> s.sinkClosed && !s.ranBeforeWait)
  }

  predicate Inv(s: State) { LockInv(s) && OrderInv(s) && CountInv(s) && DrainInv(s) }

  lemma IngestKeepsLockInv(s: State, step: Step)
    requires LockInv(s) && Enabled(s, step) && IsIngest(step)
    ensures LockInv(Apply(s, step))
  {
    hide ApplyClose, ApplyWriter;
    match step
    case IngestSend(id) => assert HoldsReadLock(s.calls[id]) && !WriteLocked(s);
    case IngestLock(id) => assert !WriteLocked(s);
    case IngestCheck(id) => assert HoldsReadLock(s.calls[id]) && !WriteLocked(s);
    case _ =>
  }

  lemma CloseKeepsLockInv(s: State, step: Step)
    requires LockInv(s) && Enabled(s, step) && IsClose(step)
    ensures LockInv(Apply(s, step))
  {
    hide ApplyIngest, ApplyWriter;
    match step
    case CloseMark =>
      forall id <- s.calls ensures !s.calls[id].Checked? {
        assert !HoldsReadLock(s.calls[id]);
      }
    case _ =>
  }

  lemma StepKeepsLockInv(s: State, step: Step)
    requires LockInv(s) && Enabled(s, step)
    ensures LockInv(Apply(s, step))
  {
    if IsIngest(step) {
      IngestKeepsLockInv(s, step);
    } else if IsClose(step) {
      CloseKeepsLockInv(s, step);
    } else {
      OthersKeepLocks(s, step);
    }
  }

  /** The writer and cancellation touch no lock and no Ingest call. */
  lemma OthersKeepLocks(s: State, step: Step)
    requires LockInv(s) && Enabled(s, step) && !IsIngest(step) && !IsClose(step)
    ensures LockInv(Apply(s, step))
  {
    hide ApplyIngest, ApplyClose;
    var t := Apply(s, step);
    assert t.closed == s.closed && t.qClosed == s.qClosed && t.sinkClosed == s.sinkClosed && t.closer == s.closer;
    assert t.calls == s.calls && t.leaving == s.leaving && t.panicked == s.panicked;
    hide Apply, Enabled, ApplyWriter;
  }

  lemma StepKeepsCountInv(s: State, step: Step)
    requires LockInv(s) && CountInv(s) && Enabled(s, step)
    ensures CountInv(Apply(s, step))
  {
    match step
    case IngestStart(id, rec) => AddedCall(s.calls, id, AtLock(rec));
    case IngestLock(id) => ChangedCall(s.calls, id, Locked(s.calls[id].rec));
    case IngestCheck(id) => ChangedCall(s.calls, id, Checked(s.calls[id].rec, s.closed));
    case IngestSend(id) => SendKeepsCount(s, id);
    case _ =>
  }

  lemma SendKeepsCount(s: State, id: nat)
    requires LockInv(s) && CountInv(s) && Enabled(s, IngestSend(id))
    ensures CountInv(Apply(s, IngestSend(id)))
  {
    RemovedCall(s.calls, id);
    assert HoldsReadLock(s.calls[id]) && !WriteLocked(s);
    var c := s.calls[id];
    assert !c.sawClosed ==> !s.qClosed;
    hide LockInv;
  }

  lemma StepKeepsOrderInv(s: State, step: Step)
    requires LockInv(s) && OrderInv(s) && Enabled(s, step)
    ensures OrderInv(Apply(s, step))
  {
    if IsIngest(step) {
      hide ApplyClose, ApplyWriter;
      if step.IngestSend? {
        assert HoldsReadLock(s.calls[step.id]);
      }
    } else if IsClose(step) {
      hide ApplyIngest, ApplyWriter;
    } else {
      WriterKeepsOrder(s, step);
    }
  }

  lemma WriterKeepsOrder(s: State, step: Step)
    requires OrderInv(s) && Enabled(s, step) && !IsIngest(step) && !IsClose(step)
    ensures OrderInv(Apply(s, step))
  {
    hide ApplyIngest, ApplyClose;
    match step
    case Receive => TakeKeepsOrder(s, r => Appending(r), Exited);
    case Drain => TakeKeepsOrder(s, r => DrainAppending(r), Exited);
    case _ =>
  }

  lemma TakeKeepsOrder(s: State, busy: Record -> Writer, idle: Writer)
    requires OrderInv(s) && InHand(s) == [] && !idle.Appending? && !idle.DrainAppending?
    requires forall r :: (busy(r).Appending? || busy(r).DrainAppending?) && busy(r).rec == r
    ensures OrderInv(Take(s, busy, idle))
  {
    if s.q != [] {
      assert s.q == [s.q[0]] + s.q[1..];
    }
  }

  lemma StepKeepsDrainInv(s: State, step: Step)
    requires LockInv(s) && DrainInv(s) && Enabled(s, step)
    ensures DrainInv(Apply(s, step))
  {
    match step
    case IngestSend(id) => assert HoldsReadLock(s.calls[id]);
    case _ =>
  }

  lemma AddedCall(m: map<nat, Call>, id: nat, c: Call)
    requires id !in m
    ensures |m[id := c]| == |m| + 1
  {
  }

  lemma ChangedCall(m: map<nat, Call>, id: nat, c: Call)
    requires id in m
    ensures |m[id := c]| == |m|
  {
  }

  lemma RemovedCall(m: map<nat, Call>, id: nat)
    requires id in m
    ensures |m - {id}| == |m| - 1
  {
    var n := m - {id};
    assert m == n[id := m[id]];
  }

  /** The invariant holds after every run, from a fresh store, of every length and interleaving. */
  lemma {:induction false} RunsKeepInv(s: State, steps: seq<Step>)
    requires Inv(s) && IsRun(s, steps)
    ensures Inv(After(s, steps))
    decreases |steps|
  {
    if steps != [] {
      StepKeepsLockInv(s, steps[0]);
      StepKeepsOrderInv(s, steps[0]);
      StepKeepsCountInv(s, steps[0]);
      StepKeepsDrainInv(s, steps[0]);
      hide Apply, Enabled, LockInv, OrderInv, CountInv, DrainInv;
      RunsKeepInv(Apply(s, steps[0]), steps[1..]);
    }
  }

  // ---- What every run of a fresh store guarantees

  /** Nothing is ever sent on, or closed twice, after the queue is closed. */
  lemma NeverPanics(cap: nat, steps: seq<Step>)
    requires IsRun(Init(cap), steps)
    ensures !After(Init(cap), steps).panicked
  {
    RunsKeepInv(Init(cap), steps);
  }

  /**
   * Every Ingest call is accounted for once: appended, failed, dropped, queued, in the writer's hand, or not yet past
   * its lock.
   */
  lemma NothingIsLost(cap: nat, steps: seq<Step>)
    requires IsRun(Init(cap), steps)
    ensures var s := After(Init(cap), steps);
            && s.started == s.w.appended + s.w.failed + s.dropped + |s.q| + |InHand(s)| + |s.calls|
            && |InHand(s)| <= 1 && |s.q| <= s.cap
  {
    RunsKeepInv(Init(cap), steps);
  }

  /** The sink has seen a prefix of the accepted records, in order; the rest are in hand and queued, in order. */
  lemma SinkSeesEnqueueOrder(cap: nat, steps: seq<Step>)
    requires IsRun(Init(cap), steps)
    ensures var s := After(Init(cap), steps); s.w.tried <= s.accepted && s.accepted == s.w.tried + InHand(s) + s.q
  {
    RunsKeepInv(Init(cap), steps);
  }

  // ---- Draining

  lemma {:induction false} RunsCompose(s: State, a: seq<Step>, b: seq<Step>)
    requires IsRun(s, a) && IsRun(After(s, a), b)
    ensures IsRun(s, a + b) && After(s, a + b) == After(After(s, a), b)
    decreases |a|
  {
    hide Apply, Enabled;
    if a == [] {
      assert a + b == b;
    } else {
      assert (a + b)[1..] == a[1..] + b;
      RunsCompose(Apply(s, a[0]), a[1..], b);
    }
  }

  lemma {:induction false} RunsSplit(s: State, a: seq<Step>, b: seq<Step>)
    requires IsRun(s, a + b)
    ensures IsRun(s, a) && IsRun(After(s, a), b) && After(s, a + b) == After(After(s, a), b)
    decreases |a|
  {
    hide Apply, Enabled;
    if a == [] {
      assert a + b == b;
    } else {
      assert (a + b)[1..] == a[1..] + b && (a + b)[0] == a[0];
      RunsSplit(Apply(s, a[0]), a[1..], b);
    }
  }

  /** A run up to its n-th step, that step, and the rest. */
  lemma SplitAt(s: State, steps: seq<Step>, n: nat)
    requires IsRun(s, steps) && n < |steps|
    ensures IsRun(s, steps[..n]) && Enabled(After(s, steps[..n]), steps[n])
    ensures IsRun(s, steps[..n + 1]) && After(s, steps[..n + 1]) == Apply(After(s, steps[..n]), steps[n])
    ensures IsRun(After(s, steps[..n + 1]), steps[n + 1..])
    ensures After(After(s, steps[..n + 1]), steps[n + 1..]) == After(s, steps)
  {
    hide Apply, Enabled;
    assert steps[..n] + steps[n..] == steps && steps[..n + 1] + steps[n + 1..] == steps;
    RunsSplit(s, steps[..n], steps[n..]);
    RunsSplit(s, steps[..n + 1], steps[n + 1..]);
    assert steps[..n] + [steps[n]] == steps[..n + 1];
    RunsSplit(s, steps[..n], [steps[n]]);
    assert [steps[n]][1..] == [];
  }

  /** What no step undoes. */
  ghost predicate Lasts(s: State, t: State) {
    && (!s.w.writer.NotStarted? ==> !t.w.writer.NotStarted?)
    && (s.ranBeforeWait && s.closer in {Waited, Done} ==> t.ranBeforeWait && t.closer in {Waited, Done})
    && (s.w.writer.Exited? ==> t.w.writer.Exited? && t.w.tried == s.w.tried)
    && (!s.w.writer.Exited? && t.w.writer.Exited? ==> t.q == [])
    && (s.w.writer.NotStarted? ==> t.w.tried == s.w.tried)
  }

  lemma StepsLast(s: State, step: Step)
    requires Enabled(s, step)
    ensures Lasts(s, Apply(s, step))
    ensures Apply(s, step).w.cancelled <==> s.w.cancelled || step.Cancel?
    ensures s.w.writer.NotStarted? && !step.RunStart? ==> Apply(s, step).w.writer.NotStarted?
  {
    if IsIngest(step) {
      IngestLasts(s, step);
    } else if IsClose(step) {
      CloseLasts(s, step);
    } else {
      WriterLasts(s, step);
    }
    hide ApplyIngest, ApplyClose, ApplyWriter, Enabled, Lasts;
  }

  lemma IngestLasts(s: State, step: Step)
    requires Enabled(s, step) && IsIngest(step)
    ensures Lasts(s, ApplyIngest(s, step)) && ApplyIngest(s, step).w == s.w
  {
    hide Enabled;
    match step
    case IngestSend(id) =>
    case IngestStart(_, _) =>
    case IngestLock(_) =>
    case IngestCheck(_) =>
    case IngestUnlock(_) =>
  }

  lemma CloseLasts(s: State, step: Step)
    requires Enabled(s, step) && IsClose(step)
    ensures Lasts(s, ApplyClose(s, step)) && ApplyClose(s, step).w == s.w
  {
    hide NobodyReads;
  }

  lemma WriterLasts(s: State, step: Step)
    requires Enabled(s, step) && !IsIngest(step) && !IsClose(step)
    ensures Lasts(s, ApplyWriter(s, step))
    ensures ApplyWriter(s, step).w.cancelled <==> s.w.cancelled || step.Cancel?
    ensures s.w.writer.NotStarted? && !step.RunStart? ==> ApplyWriter(s, step).w.writer.NotStarted?
  {
    match step
    case RunStart =>
    case PruneDone(_) =>
    case Receive =>
    case AppendDone(_) =>
    case Tick =>
    case SeeCancelled =>
    case Drain =>
    case Cancel =>
  }

  lemma {:induction false} RunsLast(s: State, steps: seq<Step>)
    requires IsRun(s, steps)
    ensures var t := After(s, steps);
            && (!s.w.writer.NotStarted? ==> !t.w.writer.NotStarted?)
            && (s.ranBeforeWait && s.closer in {Waited, Done} ==> t.ranBeforeWait)
            && (s.w.writer.Exited? ==> t.w.writer.Exited? && t.w.tried == s.w.tried)
            && (t.w.cancelled <==> s.w.cancelled || Cancel in steps)
            && (s.w.writer.NotStarted? && RunStart !in steps ==> t.w.writer.NotStarted? && t.w.tried == s.w.tried)
    decreases |steps|
  {
    if steps != [] {
      StepsLast(s, steps[0]);
      RunsLast(Apply(s, steps[0]), steps[1..]);
      assert steps == [steps[0]] + steps[1..];
      hide Apply, Enabled;
    }
  }

  lemma WaitNotesRun(s: State)
    requires Enabled(s, CloseWait) && !s.w.writer.NotStarted?
    ensures Apply(s, CloseWait).ranBeforeWait && Apply(s, CloseWait).closer.Waited?
  {
  }

  lemma RunStarts(s: State)
    requires Enabled(s, RunStart)
    ensures !Apply(s, RunStart).w.writer.NotStarted?
  {
  }

  /** Run was started before Close began to wait for it, so Close waited. */
  lemma CloseWaitsForRun(s: State, steps: seq<Step>, i: nat, j: nat)
    requires IsRun(s, steps) && i < j < |steps| && steps[i].RunStart? && steps[j].CloseWait?
    ensures After(s, steps).ranBeforeWait
  {
    hide Apply, Enabled, IsRun, After;
    SplitAt(s, steps, j);
    var before := steps[..j];
    SplitAt(s, before, i);
    assert before[i] == RunStart;
    RunStarts(After(s, before[..i]));
    RunsLast(After(s, before[..i + 1]), before[i + 1..]);
    WaitNotesRun(After(s, before));
    RunsLast(After(s, steps[..j + 1]), steps[j + 1..]);
  }

  /**
   * In every run in which Run was started before Close came to wait and nothing was cancelled, the sink closes only
   * after every accepted record was tried; and, cancelled or not, the sink is never used once closed.
   */
  lemma CloseDrains(cap: nat, steps: seq<Step>, i: nat, j: nat)
    requires IsRun(Init(cap), steps) && i < j < |steps| && steps[i].RunStart? && steps[j].CloseWait?
    ensures var s := After(Init(cap), steps);
            && (s.sinkClosed && Cancel !in steps ==> s.q == [] && s.w.tried == s.accepted)
            && !s.w.usedClosedSink
  {
    RunsKeepInv(Init(cap), steps);
    RunsLast(Init(cap), steps);
    CloseWaitsForRun(Init(cap), steps, i, j);
    hide IsRun, After;
  }

  /** What every run of a fresh store keeps of the order, and of what the writer has tried. */
  lemma FreshRun(cap: nat, steps: seq<Step>)
    requires IsRun(Init(cap), steps)
    ensures var s := After(Init(cap), steps); s.accepted == s.w.tried + InHand(s) + s.q
  {
    RunsKeepInv(Init(cap), steps);
    hide IsRun, After;
  }

  /** How often a step was taken. */
  function Times(steps: seq<Step>, step: Step): nat
    decreases |steps|
  {
    if steps == [] then 0 else (if steps[0] == step then 1 else 0) + Times(steps[1..], step)
  }

  /** t counts what s counted and this step. */
  ghost predicate Counts(s: State, step: Step, t: State) {
    && t.w.appended == s.w.appended + (if step == AppendDone(false) then 1 else 0)
    && t.w.failed == s.w.failed + (if step == AppendDone(true) then 1 else 0)
    && t.w.pruneErrors == s.w.pruneErrors + (if step == PruneDone(true) then 1 else 0)
  }

  lemma StepCounts(s: State, step: Step)
    requires Enabled(s, step)
    ensures Counts(s, step, Apply(s, step))
  {
    if IsIngest(step) {
      IngestLasts(s, step);
    } else if IsClose(step) {
      CloseLasts(s, step);
    } else {
      WriterCounts(s, step);
    }
    hide ApplyIngest, ApplyClose, ApplyWriter, Enabled, Lasts;
  }

  lemma WriterCounts(s: State, step: Step)
    requires Enabled(s, step) && !IsIngest(step) && !IsClose(step)
    ensures Counts(s, step, ApplyWriter(s, step))
  {
    hide Take;
    match step
    case RunStart =>
    case PruneDone(_) =>
    case Receive => TakeCounts(s, r => Appending(r), Exited);
    case AppendDone(_) =>
    case Tick =>
    case SeeCancelled =>
    case Drain => TakeCounts(s, r => DrainAppending(r), Exited);
    case Cancel =>
  }

  lemma TakeCounts(s: State, busy: Record -> Writer, idle: Writer)
    ensures var t := Take(s, busy, idle); t.w == s.w.(writer := t.w.writer)
  {
  }

  lemma {:induction false} RunCounts(s: State, steps: seq<Step>)
    requires IsRun(s, steps)
    ensures var t := After(s, steps);
            && t.w.appended == s.w.appended + Times(steps, AppendDone(false))
            && t.w.failed == s.w.failed + Times(steps, AppendDone(true))
            && t.w.pruneErrors == s.w.pruneErrors + Times(steps, PruneDone(true))
    decreases |steps|
  {
    hide Apply, Enabled;
    if steps != [] {
      StepCounts(s, steps[0]);
      RunCounts(Apply(s, steps[0]), steps[1..]);
    }
  }

  /** The counters say what happened: successful appends, failed ones, and failed prunes, each counted once. */
  lemma CountersAreExact(cap: nat, steps: seq<Step>)
    requires IsRun(Init(cap), steps)
    ensures var w := After(Init(cap), steps).w;
            && w.appended == Times(steps, AppendDone(false)) && w.failed == Times(steps, AppendDone(true))
            && w.pruneErrors == Times(steps, PruneDone(true))
  {
    RunCounts(Init(cap), steps);
  }

  lemma StepPrunes(s: State, step: Step)
    requires Enabled(s, step)
    ensures var t := Apply(s, step);
            (if t.w.writer.Pruning? then 1 else 0) + (if step.PruneDone? then 1 else 0)
            == (if s.w.writer.Pruning? then 1 else 0) + (if step.RunStart? || step.Tick? then 1 else 0)
  {
    if IsIngest(step) {
      IngestLasts(s, step);
      hide ApplyIngest, ApplyClose, ApplyWriter, Enabled, Lasts;
    } else if IsClose(step) {
      CloseLasts(s, step);
      hide ApplyIngest, ApplyClose, ApplyWriter, Enabled, Lasts;
    } else {
      hide ApplyIngest, ApplyClose;
      match step {
        case Receive =>
        case Drain =>
        case _ =>
      }
    }
  }

  /** Run prunes once at its start and once for every tick. */
  lemma {:induction false} PrunesAreExact(s: State, steps: seq<Step>)
    requires IsRun(s, steps)
    ensures (if After(s, steps).w.writer.Pruning? then 1 else 0)
            + Times(steps, PruneDone(false)) + Times(steps, PruneDone(true))
            == (if s.w.writer.Pruning? then 1 else 0) + Times(steps, RunStart) + Times(steps, Tick)
    decreases |steps|
  {
    hide Apply, Enabled;
    if steps != [] {
      StepPrunes(s, steps[0]);
      PrunesAreExact(Apply(s, steps[0]), steps[1..]);
    }
  }

  /** Without Run everything accepted is left in the queue. */
  lemma WithoutRunAllIsLeft(cap: nat, steps: seq<Step>)
    requires IsRun(Init(cap), steps) && RunStart !in steps
    ensures After(Init(cap), steps).q == After(Init(cap), steps).accepted
  {
    RunsLast(Init(cap), steps);
    FreshRun(cap, steps);
    hide IsRun, After;
  }

  /** What is ever left behind, cancelled or not: exactly the records accepted after the writer exited, in order. */
  lemma LeftBehindIsExact(cap: nat, steps: seq<Step>, n: nat)
    requires IsRun(Init(cap), steps) && n < |steps|
    requires IsRun(Init(cap), steps[..n]) && !After(Init(cap), steps[..n]).w.writer.Exited?
    requires IsRun(Init(cap), steps[..n + 1]) && After(Init(cap), steps[..n + 1]).w.writer.Exited?
    ensures var atExit, s := After(Init(cap), steps[..n + 1]), After(Init(cap), steps);
            atExit.accepted <= s.accepted && s.q == s.accepted[|atExit.accepted|..] && s.w.tried == atExit.accepted
  {
    hide Apply, Enabled, IsRun, After;
    SplitAt(Init(cap), steps, n);
    StepsLast(After(Init(cap), steps[..n]), steps[n]);
    RunsLast(After(Init(cap), steps[..n + 1]), steps[n + 1..]);
    FreshRun(cap, steps[..n + 1]);
    FreshRun(cap, steps);
  }

  // ---- Both conditions of CloseDrains are needed

  const CLOSING: seq<Step> := [CloseMark, CloseQueue, CloseUnlock, CloseWait, CloseSink]

  ghost function OneIngest(rec: Record): seq<Step> {
    [IngestStart(0, rec), IngestLock(0), IngestCheck(0), IngestSend(0), IngestUnlock(0)]
  }

  /** One Ingest on an open, idle store with room enqueues its record. */
  lemma IngestEnqueues(s: State, rec: Record)
    requires s.calls == map[] && s.leaving == {} && !WriteLocked(s) && !s.closed && !s.qClosed && |s.q| < s.cap
    ensures IsRun(s, OneIngest(rec))
    ensures After(s, OneIngest(rec)) == s.(q := s.q + [rec], accepted := s.accepted + [rec], started := s.started + 1)
  {
    var s1 := Apply(s, IngestStart(0, rec));
    var s2 := Apply(s1, IngestLock(0));
    var s3 := Apply(s2, IngestCheck(0));
    var s4 := Apply(s3, IngestSend(0));
    var s5 := Apply(s4, IngestUnlock(0));
    assert s5.calls == map[] && s5.leaving == {};
    Five(s, OneIngest(rec), s1, s2, s3, s4, s5);
  }

  lemma Cons(s: State, step: Step, s': State, rest: seq<Step>, end: State)
    requires Enabled(s, step) && Apply(s, step) == s' && IsRun(s', rest) && After(s', rest) == end
    ensures IsRun(s, [step] + rest) && After(s, [step] + rest) == end
  {
    hide Apply, Enabled;
    assert ([step] + rest)[1..] == rest;
  }

  /** Five enabled steps in a row are a run. */
  lemma Five(s: State, steps: seq<Step>, s1: State, s2: State, s3: State, s4: State, s5: State)
    requires |steps| == 5
    requires Enabled(s, steps[0]) && Apply(s, steps[0]) == s1
    requires Enabled(s1, steps[1]) && Apply(s1, steps[1]) == s2
    requires Enabled(s2, steps[2]) && Apply(s2, steps[2]) == s3
    requires Enabled(s3, steps[3]) && Apply(s3, steps[3]) == s4
    requires Enabled(s4, steps[4]) && Apply(s4, steps[4]) == s5
    ensures IsRun(s, steps) && After(s, steps) == s5
  {
    hide Apply, Enabled;
    assert IsRun(s5, []) && After(s5, []) == s5;
    hide IsRun, After;
    Cons(s4, steps[4], s5, [], s5);
    Cons(s3, steps[3], s4, [steps[4]] + [], s5);
    Cons(s2, steps[2], s3, [steps[3]] + ([steps[4]] + []), s5);
    Cons(s1, steps[1], s2, [steps[2]] + ([steps[3]] + ([steps[4]] + [])), s5);
    Cons(s, steps[0], s1, [steps[1]] + ([steps[2]] + ([steps[3]] + ([steps[4]] + []))), s5);
    assert steps == [steps[0]] + ([steps[1]] + ([steps[2]] + ([steps[3]] + ([steps[4]] + []))));
  }

  /** The six steps of Close, each as the fields it changes. */
  lemma CloserSteps(s: State)
    ensures s.closer.Idle? && NobodyReads(s) ==> Enabled(s, CloseLock) && Apply(s, CloseLock) == s.(closer := Holding)
    ensures s.closer.Holding? ==> Enabled(s, CloseMark) && Apply(s, CloseMark) == s.(closer := Marked, closed := true)
    ensures s.closer.Marked? && !s.qClosed ==>
              Enabled(s, CloseQueue) && Apply(s, CloseQueue) == s.(closer := QueueClosed, qClosed := true)
    ensures s.closer.QueueClosed? ==> Enabled(s, CloseUnlock) && Apply(s, CloseUnlock) == s.(closer := Unlocked)
    ensures s.closer.Unlocked? && (s.w.writer.NotStarted? || s.w.writer.Exited?) ==>
              Enabled(s, CloseWait) && Apply(s, CloseWait) == s.(closer := Waited, ranBeforeWait := s.w.writer.Exited?)
    ensures s.closer.Waited? ==> Enabled(s, CloseSink) && Apply(s, CloseSink) == s.(closer := Done, sinkClosed := true)
  {
  }

  /** Close on an idle store whose writer is not running goes through whatever is still queued. */
  lemma CloseGoesThrough(s: State)
    requires s.calls == map[] && s.leaving == {} && s.closer.Idle? && !s.qClosed
    requires s.w.writer.NotStarted? || s.w.writer.Exited?
    ensures IsRun(s, [CloseLock] + CLOSING)
    ensures After(s, [CloseLock] + CLOSING).sinkClosed && After(s, [CloseLock] + CLOSING).q == s.q
  {
    hide Apply, Enabled, IsRun, After;
    var s1 := s.(closer := Holding);
    var s2 := s1.(closer := Marked, closed := true);
    var s3 := s2.(closer := QueueClosed, qClosed := true);
    var s4 := s3.(closer := Unlocked);
    var s5 := s4.(closer := Waited, ranBeforeWait := s.w.writer.Exited?);
    var s6 := s5.(closer := Done, sinkClosed := true);
    CloserSteps(s);
    CloserSteps(s1);
    CloserSteps(s2);
    CloserSteps(s3);
    CloserSteps(s4);
    CloserSteps(s5);
    Five(s1, CLOSING, s2, s3, s4, s5, s6);
    Cons(s, CloseLock, s1, CLOSING, s6);
  }

  /** Without Run, Close leaves the accepted record behind. */
  lemma LostWithoutRun(cap: nat, rec: Record)
    requires cap >= 1
    ensures var steps := OneIngest(rec) + ([CloseLock] + CLOSING);
            IsRun(Init(cap), steps) && After(Init(cap), steps).sinkClosed && After(Init(cap), steps).q == [rec]
  {
    IngestEnqueues(Init(cap), rec);
    var s := After(Init(cap), OneIngest(rec));
    CloseGoesThrough(s);
    hide Apply, Enabled, IsRun, After;
    RunsCompose(Init(cap), OneIngest(rec), [CloseLock] + CLOSING);
  }

  ghost function CancelledWriter(): seq<Step> { [RunStart, PruneDone(false), Cancel, SeeCancelled, Drain] }

  /** The steps of an idle writer, each as the fields it changes. */
  lemma StartingSteps(s: State)
    ensures s.w.writer.NotStarted? ==> Enabled(s, RunStart) && Apply(s, RunStart) == s.(w := s.w.(writer := Pruning))
    ensures s.w.writer.Pruning? && !s.sinkClosed ==>
              Enabled(s, PruneDone(false)) && Apply(s, PruneDone(false)) == s.(w := s.w.(writer := Selecting))
    ensures Enabled(s, Cancel) && Apply(s, Cancel) == s.(w := s.w.(cancelled := true))
  {
    hide ApplyIngest, ApplyClose;
  }

  lemma StoppingSteps(s: State)
    ensures s.w.writer.Selecting? && s.w.cancelled ==>
              Enabled(s, SeeCancelled) && Apply(s, SeeCancelled) == s.(w := s.w.(writer := Draining))
    ensures s.w.writer.Draining? && s.q == [] ==>
              Enabled(s, Drain) && Apply(s, Drain) == s.(w := s.w.(writer := Exited))
  {
    hide ApplyIngest, ApplyClose;
  }

  /** A writer that starts, is cancelled and finds nothing to drain is gone. */
  lemma CancelledWriterExits(s: State)
    requires s.w.writer.NotStarted? && s.q == [] && !s.sinkClosed
    ensures IsRun(s, CancelledWriter())
    ensures After(s, CancelledWriter()) == s.(w := s.w.(writer := Exited, cancelled := true))
  {
    var s1 := s.(w := s.w.(writer := Pruning));
    var s2 := s.(w := s.w.(writer := Selecting));
    var s3 := s.(w := s.w.(writer := Selecting, cancelled := true));
    var s4 := s.(w := s.w.(writer := Draining, cancelled := true));
    var s5 := s.(w := s.w.(writer := Exited, cancelled := true));
    hide Apply, Enabled, IsRun, After;
    StartingSteps(s);
    StartingSteps(s1);
    StartingSteps(s2);
    StoppingSteps(s3);
    StoppingSteps(s4);
    Five(s, CancelledWriter(), s1, s2, s3, s4, s5);
  }

  /** With Run, but cancelled first, the writer is gone when the record arrives and Close leaves it behind. */
  lemma LostAfterCancel(cap: nat, rec: Record)
    requires cap >= 1
    ensures var steps := CancelledWriter() + OneIngest(rec) + ([CloseLock] + CLOSING);
            && IsRun(Init(cap), steps)
            && After(Init(cap), steps).sinkClosed && After(Init(cap), steps).q == [rec]
  {
    hide Apply, Enabled, IsRun, After, CancelledWriter, OneIngest;
    var s0 := Init(cap);
    CancelledWriterExits(s0);
    var s5 := After(s0, CancelledWriter());
    IngestEnqueues(s5, rec);
    CloseGoesThrough(After(s5, OneIngest(rec)));
    RunsCompose(s0, CancelledWriter(), OneIngest(rec));
    RunsCompose(s0, CancelledWriter() + OneIngest(rec), [CloseLock] + CLOSING);
  }
}
