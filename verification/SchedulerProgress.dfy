/**
 Progress of the scheduler: with work assigned some internal step is always possible,
 each one brings the backlog closer to empty, and no record is handed out twice.
 */
module SchedulerProgress {
  import opened Common
  import opened Versions
  import opened Serial
  import opened Records
  import opened Scheduler
  import opened SchedulerSafety
  import opened SchedulerRecovery
  import opened SchedulerRuns

  // ---------------------------------------------------------------- invariants over runs

  /**
   What holds between any two steps: the entries are exactly the records above the
   frontier, in order and linked by digests; a prepared head is the next record; the
   byte counters are sums within their limits; and the checkpoint stays close behind.
   */
  lemma CoordinatorInvariants(states: seq<Machine>, actions: seq<Action>, i: nat)
    requires Run(states, actions) && i < |states|
    ensures var m := states[i];
            && m.checkpoint <= m.frontier <= |m.log| == m.frontier + |m.entries|
            && m.frontier - m.checkpoint < m.options.interval
            && |m.log| - m.checkpoint < m.options.interval + m.options.backlogCount
            && (forall k :: 0 <= k < |m.entries| ==>
                  && m.entries[k].sequence == m.frontier + k + 1
                  && m.entries[k].digest == m.hashes.sha(m.log[m.frontier + k].bytes))
            && m.assignedBytes == SumBytes(m.entries) <= m.options.backlogBytes
            && m.reservedBytes == SumReservations(m.entries) <= m.options.executionBytes
            && (PreparedHead(m) ==> NextRecord(m, m.head.value.prepared.value))
            && CanRelease(m)
  {
    hide Run, LogOk, EntriesOk, StoreOk, ImageOk, PoolOk, ReceiptsOk, NextRecord;
    RunInvariant(states, actions, i);
    var m := states[i];
    ReleaseFits(m);
    forall k | 0 <= k < |m.entries|
      ensures m.entries[k].sequence == m.frontier + k + 1
      ensures m.entries[k].digest == m.hashes.sha(m.log[m.frontier + k].bytes)
    {
      assert Placed(m, k);
    }
  }

  // ---------------------------------------------------------------- drain

  function CountPrepared(entries: seq<Entry>): nat {
    if entries == [] then 0
    else CountPrepared(entries[1..]) + if entries[0].prepared.Some? then 1 else 0
  }

  function Load(workers: seq<Worker>): nat {
    if workers == [] then 0
    else Load(workers[1..]) + match workers[0] case Idle => 0 case Running(_) => 2 case Done(_, _) => 1
  }

  /** Steps still owed to the assigned records. */
  function Backlog(m: Machine): nat {
    3 * CountPrepared(m.entries) + Load(m.workers) + |m.entries|
  }

  lemma {:induction false} LoadUpdate(workers: seq<Worker>, w: nat, worker: Worker)
    requires w < |workers|
    ensures Load(workers[w := worker]) == Load(workers) - Load([workers[w]]) + Load([worker])
  {
    if w == 0 {
      assert workers[w := worker][1..] == workers[1..];
    } else {
      LoadUpdate(workers[1..], w - 1, worker);
      assert workers[w := worker][1..] == workers[1..][w - 1 := worker];
    }
  }

  lemma {:induction false} PreparedUpdate(entries: seq<Entry>, i: nat, e: Entry)
    requires i < |entries| && entries[i].prepared.Some? && e.prepared.None?
    ensures CountPrepared(entries[i := e]) == CountPrepared(entries) - 1
  {
    if i == 0 {
      assert entries[i := e][1..] == entries[1..];
    } else {
      PreparedUpdate(entries[1..], i - 1, e);
      assert entries[i := e][1..] == entries[1..][i - 1 := e];
    }
  }

  lemma {:induction false} PreparedSame(entries: seq<Entry>, more: seq<Entry>)
    requires |entries| == |more|
    requires forall k :: 0 <= k < |entries| ==> entries[k].prepared == more[k].prepared
    ensures CountPrepared(entries) == CountPrepared(more)
  {
    if entries != [] {
      PreparedSame(entries[1..], more[1..]);
    }
  }

  lemma {:induction false} PreparedDrop(entries: seq<Entry>, k: nat)
    requires k <= |entries|
    ensures CountPrepared(entries[k..]) <= CountPrepared(entries)
  {
    if k > 0 {
      PreparedDrop(entries[1..], k - 1);
      assert entries[k..] == entries[1..][k - 1..];
    }
  }

  ghost predicate Internal(m: Machine, action: Action) {
    && Enabled(m, action)
    && (action.Dispatch? || action.Interpret? || action.Complete?
        || (action.Advance? && LeadingResolved(m.entries) > 0))
  }

  /** Every internal step decreases the backlog and leaves the log alone. */
  lemma InternalDecreases(m: Machine, action: Action)
    requires Invariant(m) && Internal(m, action)
    ensures Backlog(After(m, action)) < Backlog(m)
    ensures After(m, action).log == m.log && |After(m, action).workers| == |m.workers|
  {
    hide Invariant, SerialStore, SerialOutcome, Install, Execute, CountPrepared, UpTo, OutcomesUpTo, Send, SumBytes,
      SumReservations;
    match action
    case Dispatch(w, i) =>
      var e := m.entries[i];
      LoadUpdate(m.workers, w, Running(Job(e.sequence, e.prepared.value, m.versions)));
      PreparedUpdate(m.entries, i, e.(prepared := None));
    case Interpret(w) =>
      var job := m.workers[w].job;
      LoadUpdate(m.workers, w, Done(job.sequence, Execute(job.command, job.view, job.sequence)));
    case Complete =>
      InstallKeeps(m);
      var w := m.completed[0];
      LoadUpdate(m.workers, w, Idle);
      var i := FindEntry(m.entries, m.workers[w].sequence).value;
      ResolvedPrepared(m.entries, i, m.workers[w].outcome);
      PreparedSame(Resolve(m.entries, i, m.workers[w].outcome), m.entries);
    case Advance =>
      PreparedDrop(m.entries, LeadingResolved(m.entries));
  }

  lemma IdleHoldsNothing(workers: seq<Worker>, n: nat)
    requires forall w :: 0 <= w < |workers| ==> workers[w].Idle?
    ensures !HeldBy(workers, n)
  {
  }

  lemma FirstMember(s: seq<nat>)
    requires s != []
    ensures s[0] in s
  {
  }

  /** With no worker busy, the lowest unresolved record is ready and inside the window. */
  lemma LowestReady(m: Machine)
    requires Invariant(m) && m.entries != [] && LeadingResolved(m.entries) == 0
    requires forall w :: 0 <= w < |m.workers| ==> m.workers[w].Idle?
    ensures Ready(m, m.entries[0])
  {
    hide SerialStore, SerialOutcome, LogOk, StoreOk, ImageOk, ReceiptsOk, HeadOk, CountersOk;
    assert Placed(m, 0) && EntryOk(m, 0);
    var n := m.entries[0].sequence;
    assert Unresolved(m, n);
    IdleHoldsNothing(m.workers, n);
    if m.entries[0].dependencies != [] {
      FirstMember(m.entries[0].dependencies);
    }
  }

  lemma SomeQueued(m: Machine, w: nat)
    requires PoolOk(m) && w < |m.workers| && m.workers[w].Done?
    ensures HasCompletion(m)
  {
  }

  /** While records are assigned, some internal step is enabled. */
  lemma SomeStep(m: Machine) returns (action: Action)
    requires Invariant(m) && m.entries != [] && |m.workers| > 0
    ensures Internal(m, action)
  {
    hide SerialStore, SerialOutcome, LogOk, Shape, EntriesOk, StoreOk, ImageOk, ReceiptsOk, HeadOk, CountersOk,
      LimitsOk, Ready;
    if LeadingResolved(m.entries) > 0 {
      FinishKeeps(m);
      action := Advance;
    } else if w :| 0 <= w < |m.workers| && m.workers[w].Done? {
      SomeQueued(m, w);
      action := Complete;
    } else if w :| 0 <= w < |m.workers| && m.workers[w].Running? {
      assert WorkerOk(m, w);
      action := Interpret(w);
    } else {
      assert forall w :: 0 <= w < |m.workers| ==> m.workers[w].Idle?;
      LowestReady(m);
      action := Dispatch(0, 0);
    }
  }

  /** A run of internal steps only. */
  ghost predicate Drive(states: seq<Machine>, actions: seq<Action>) {
    && |states| == |actions| + 1
    && forall i :: 0 <= i < |actions| ==>
         Internal(states[i], actions[i]) && states[i + 1] == After(states[i], actions[i])
  }

  lemma DriveTail(m: Machine, action: Action, states: seq<Machine>, actions: seq<Action>)
    requires Internal(m, action) && Drive(states, actions) && states[0] == After(m, action)
    ensures Drive([m] + states, [action] + actions)
  {
    hide Enabled, After;
    var all, steps := [m] + states, [action] + actions;
    forall i | 0 <= i < |steps|
      ensures Internal(all[i], steps[i]) && all[i + 1] == After(all[i], steps[i])
    {
      if i > 0 {
        assert Internal(states[i - 1], actions[i - 1]) && all[i + 1] == states[i - 1 + 1];
      }
    }
  }

  lemma DriveRest(states: seq<Machine>, actions: seq<Action>)
    requires Drive(states, actions) && actions != []
    ensures Internal(states[0], actions[0]) && states[1] == After(states[0], actions[0])
    ensures Drive(states[1..], actions[1..])
  {
    hide Enabled, After;
    forall i | 0 <= i < |actions[1..]|
      ensures Internal(states[1..][i], actions[1..][i]) && states[1..][i + 1] == After(states[1..][i], actions[1..][i])
    {
      assert Internal(states[i + 1], actions[i + 1]) && states[i + 1 + 1] == After(states[i + 1], actions[i + 1]);
    }
  }

  /** Every finite backlog drains: internal steps alone reach a state where each record is acknowledged. */
  lemma {:induction false} BacklogDrains(m: Machine) returns (states: seq<Machine>, actions: seq<Action>)
    requires Invariant(m) && |m.workers| > 0
    ensures Drive(states, actions) && states[0] == m
    ensures var last := states[|actions|];
            && Invariant(last) && last.entries == [] && last.log == m.log && last.frontier == |m.log|
            && forall n: nat :: m.frontier < n <= |m.log| ==> n in last.receipts
    decreases Backlog(m)
  {
    hide SerialStore, SerialOutcome, LogOk, EntriesOk, StoreOk, ImageOk, PoolOk, HeadOk, CountersOk, LimitsOk,
      Backlog, Enabled, After, Drive;
    if m.entries == [] {
      states, actions := [m], [];
      NoSteps(m);
    } else {
      var action := SomeStep(m);
      var next := After(m, action);
      StepKeeps(m, action);
      StepExtends(m, action);
      InternalDecreases(m, action);
      StepAcknowledges(m, action);
      var rest, more := BacklogDrains(next);
      states, actions := [m] + rest, [action] + more;
      DriveTail(m, action, rest, more);
      DriveExtends(rest, more);
      assert states[|actions|] == rest[|more|];
    }
  }

  lemma NoSteps(m: Machine)
    ensures Drive([m], [])
  {
  }

  lemma StepAcknowledges(m: Machine, action: Action)
    requires Invariant(m) && Internal(m, action)
    ensures m.frontier <= After(m, action).frontier
    ensures forall n: nat :: m.frontier < n <= After(m, action).frontier ==> n in After(m, action).receipts
  {
    hide SerialStore, SerialOutcome, LogOk, EntriesOk, StoreOk, ImageOk, PoolOk, HeadOk, CountersOk, LimitsOk,
      Install, Execute, Resolve;
    if action.Advance? {
      FinishKeeps(m);
    } else if action.Complete? {
      InstallKeeps(m);
    }
  }

  /** No drain is longer than the backlog it starts from, and each record it passes is acknowledged. */
  lemma {:induction false} DriveBounded(states: seq<Machine>, actions: seq<Action>)
    requires Drive(states, actions) && Invariant(states[0])
    ensures |states| == |actions| + 1
    ensures var m, last := states[0], states[|actions|];
            && |actions| + Backlog(last) <= Backlog(m)
            && Invariant(last) && last.log == m.log && |last.workers| == |m.workers|
            && m.frontier <= last.frontier
            && forall n: nat :: m.frontier < n <= last.frontier ==> n in last.receipts
    decreases |actions|
  {
    hide Invariant, Enabled, After, Backlog;
    if actions != [] {
      var m, next := states[0], states[1];
      DriveRest(states, actions);
      StepKeeps(m, actions[0]);
      InternalDecreases(m, actions[0]);
      StepAcknowledges(m, actions[0]);
      DriveBounded(states[1..], actions[1..]);
      DriveExtends(states[1..], actions[1..]);
    }
  }

  /**
   Whichever internal steps are taken, in whatever order, taking them until none is left drains
   the whole backlog: every record is visible and acknowledged.
   */
  lemma EveryDriveDrains(states: seq<Machine>, actions: seq<Action>)
    requires Drive(states, actions) && Invariant(states[0]) && |states[0].workers| > 0
    requires forall action :: !Internal(states[|actions|], action)
    ensures |actions| <= Backlog(states[0])
    ensures var m, last := states[0], states[|actions|];
            && Invariant(last) && last.entries == [] && last.log == m.log && last.frontier == |m.log|
            && forall n: nat :: m.frontier < n <= |m.log| ==> n in last.receipts
  {
    hide SerialStore, SerialOutcome, LogOk, EntriesOk, StoreOk, ImageOk, PoolOk, HeadOk, CountersOk, LimitsOk,
      Backlog, Enabled, After, Drive;
    DriveBounded(states, actions);
    var last := states[|actions|];
    if last.entries != [] {
      var _ := SomeStep(last);
    }
  }

  /** Receipts sent along a drain are still there at its end. */
  lemma {:induction false} DriveExtends(states: seq<Machine>, actions: seq<Action>)
    requires Drive(states, actions) && Invariant(states[0])
    ensures |states| == |actions| + 1 && Extends(states[0], states[|actions|])
    decreases |actions|
  {
    hide Invariant, Enabled, After;
    if actions != [] {
      DriveRest(states, actions);
      StepKeeps(states[0], actions[0]);
      StepExtends(states[0], actions[0]);
      DriveExtends(states[1..], actions[1..]);
    }
  }

  // ---------------------------------------------------------------- dispatched once

  /** Record `n` needs no further dispatch: it is visible or was handed to a worker. */
  ghost predicate HandedOut(m: Machine, n: nat) {
    && 0 < n <= |m.log| == m.frontier + |m.entries|
    && (n > m.frontier ==> m.entries[n - m.frontier - 1].prepared.None?)
  }

  lemma StaysHandedOut(m: Machine, action: Action, n: nat)
    requires Invariant(m) && Enabled(m, action) && HandedOut(m, n)
    ensures HandedOut(After(m, action), n)
  {
    hide SerialStore, SerialOutcome, LogOk, EntriesOk, StoreOk, ImageOk, PoolOk, ReceiptsOk, HeadOk, CountersOk,
      LimitsOk, Continues, Recover, Ready, Prepare, Resolve, NewEntry, Install, Execute, Envelope, Collect,
      ValidRequest, Send;
    StepKeeps(m, action);
    StepExtends(m, action);
    match action
    case Complete =>
      InstallKeeps(m);
      var w := m.completed[0];
      ResolvedPrepared(m.entries, FindEntry(m.entries, m.workers[w].sequence).value, m.workers[w].outcome);
    case ImportBatch(batch) => RecoverLog(m.(log := m.log + batch));
    case Crash => RecoverLog(m);
    case CrashDuring(step, writes) =>
      CutRecoverable(m, step, writes);
      RecoverLog(Cut(m, step, writes));
    case _ =>
  }

  lemma {:induction false} RunHandedOut(states: seq<Machine>, actions: seq<Action>, i: nat, j: nat, n: nat)
    requires Run(states, actions) && i <= j < |states| && HandedOut(states[i], n)
    ensures HandedOut(states[j], n)
  {
    hide Invariant, Enabled, After, Created, HandedOut;
    if i < j {
      RunHandedOut(states, actions, i, j - 1, n);
      RunInvariant(states, actions, j - 1);
      StaysHandedOut(states[j - 1], actions[j - 1], n);
    }
  }

  /** No record is dispatched twice, not even across a crash. */
  lemma DispatchedOnce(states: seq<Machine>, actions: seq<Action>, i: nat, j: nat)
    requires Run(states, actions) && i < j < |actions|
    requires actions[i].Dispatch? && actions[j].Dispatch?
    ensures actions[i].entry < |states[i].entries| && actions[j].entry < |states[j].entries|
    ensures states[i].entries[actions[i].entry].sequence != states[j].entries[actions[j].entry].sequence
  {
    hide SerialStore, SerialOutcome, LogOk, EntriesOk, StoreOk, ImageOk, PoolOk, ReceiptsOk, HeadOk, CountersOk,
      LimitsOk;
    RunInvariant(states, actions, i);
    RunInvariant(states, actions, j);
    var m, later := states[i], states[j];
    assert Enabled(m, actions[i]) && Enabled(later, actions[j]);
    assert Placed(m, actions[i].entry) && Placed(later, actions[j].entry);
    var n := m.entries[actions[i].entry].sequence;
    assert states[i + 1] == DispatchTo(m, actions[i].worker, actions[i].entry);
    assert HandedOut(states[i + 1], n);
    RunHandedOut(states, actions, i + 1, j, n);
  }

  // ---------------------------------------------------------------- the window

  ghost predicate Windowed(m: Machine) {
    forall w, n :: 0 <= w < |m.workers| && Assigned(m.workers[w]) == Some(n) ==> n <= m.frontier + m.options.window
  }

  /** A step leaves a worker's record alone, takes it away, or hands out one inside the window. */
  lemma StepAssigned(m: Machine, action: Action, w: nat, n: nat)
    requires Invariant(m) && Enabled(m, action)
    requires w < |After(m, action).workers| && Assigned(After(m, action).workers[w]) == Some(n)
    ensures w < |m.workers|
    ensures Assigned(m.workers[w]) == Some(n)
            || (action.Dispatch? && m.frontier < n <= |m.log| && n - m.frontier <= m.options.window)
  {
    hide Invariant, SerialStore, SerialOutcome, Install, Execute, UpTo, OutcomesUpTo, Send, SumBytes, SumReservations,
      Prepare, Resolve, NewEntry, Envelope, Collect, ValidRequest, ReplayTo, Cut, Continues, Commit;
    match action
    case Complete => InstallKeeps(m);
    case Administer => BarrierKeeps(m);
    case CrashDuring(step, writes) => CutIdle(m, step, writes);
    case _ =>
  }

  lemma CutIdle(m: Machine, step: Action, writes: nat)
    requires Enabled(m, CrashDuring(step, writes))
    ensures forall w :: 0 <= w < |After(m, CrashDuring(step, writes)).workers| ==>
              After(m, CrashDuring(step, writes)).workers[w].Idle?
  {
    hide ReplayTo, Cut, Enabled;
  }

  lemma StepWindowed(m: Machine, action: Action)
    requires Invariant(m) && Enabled(m, action) && Windowed(m)
    ensures Windowed(After(m, action))
  {
    hide Invariant, Enabled, After;
    StepExtends(m, action);
    var next := After(m, action);
    forall w, n | 0 <= w < |next.workers| && Assigned(next.workers[w]) == Some(n)
      ensures n <= next.frontier + next.options.window
    {
      StepAssigned(m, action, w, n);
    }
  }

  lemma {:induction false} RunWindowed(states: seq<Machine>, actions: seq<Action>, i: nat)
    requires Run(states, actions) && i < |states|
    ensures Windowed(states[i])
  {
    hide Invariant, Enabled, After;
    if i > 0 {
      RunWindowed(states, actions, i - 1);
      RunInvariant(states, actions, i - 1);
      StepWindowed(states[i - 1], actions[i - 1]);
    }
  }

  /**
   In every reachable state whatever a worker has is a log record above the frontier and at
   most a window ahead of it.
   */
  lemma WithinWindow(states: seq<Machine>, actions: seq<Action>, i: nat, w: nat, n: nat)
    requires Run(states, actions) && i < |states|
    requires w < |states[i].workers| && Assigned(states[i].workers[w]) == Some(n)
    ensures var m := states[i];
            m.frontier < n <= |m.log| && n <= m.frontier + m.options.window
  {
    hide SerialStore, SerialOutcome, LogOk, EntriesOk, StoreOk, ImageOk, ReceiptsOk, HeadOk, CountersOk, LimitsOk, Run;
    RunWindowed(states, actions, i);
    RunInvariant(states, actions, i);
    assert WorkerOk(states[i], w);
    assert Taken(states[i], n);
  }
}
