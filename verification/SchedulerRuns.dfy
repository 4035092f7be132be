/**
 Safety over whole runs of the scheduler: any interleaving of dispatch, completion,
 installation, checkpoint, barrier, maintenance and crash, also inside those steps, gives
 the outcomes of the serial run and keeps every receipt.
 */
module SchedulerRuns {
  import opened Common
  import opened Versions
  import opened Serial
  import opened Records
  import opened Scheduler
  import opened SchedulerSafety
  import opened SchedulerRecovery

  datatype Action =
    | Submit(request: Request)
    | Register
    | Dispatch(worker: nat, entry: nat)
    | Interpret(worker: nat)
    | Complete
    | Advance
    | Administer
    | Reclaim(floor: nat)
    | Checkpoint
    | PublishCursor
    | ImportBatch(batch: seq<Logged>)
    | Crash
    | CrashDuring(step: Action, writes: nat)

  ghost predicate Enabled(m: Machine, action: Action)
    decreases action, 0
  {
    match action
    case Submit(r) => m.head.None? && ValidRequest(r)
    case Register => PreparedHead(m) && Fits(m)
    case Dispatch(w, i) => w < |m.workers| && m.workers[w].Idle? && i < |m.entries| && Ready(m, m.entries[i])
    case Interpret(w) => w < |m.workers| && m.workers[w].Running? && m.workers[w].job.sequence > 0
    case Complete => HasCompletion(m)
    case Advance => CanRelease(m)
    case Administer => m.entries == [] && m.head.Some? && m.head.value.prepared.None?
    case Reclaim(floor) => m.entries == [] && m.floor <= floor <= m.frontier && |m.log| == m.frontier
    case Checkpoint => m.entries == []
    case PublishCursor => true
    case ImportBatch(batch) => m.entries == [] && m.head.None? && Continues(m, batch) && m.checkpoint <= |m.log|
    case Crash => m.checkpoint <= |m.log|
    case CrashDuring(step, writes) => Enabled(m, step) && Cut(m, step, writes).checkpoint <= |Cut(m, step, writes).log|
  }

  /**
   What is durable, and which replies are out, after the first `writes` effects of a step:
   each log append, each publication and each reply is one. Steps with at most one such effect
   have nothing in between.
   */
  ghost function Cut(m: Machine, action: Action, writes: nat): Machine
    requires Enabled(m, action)
    decreases action, 1
  {
    if writes == 0 then m
    else
      match action
      case Advance => Releasing(m, writes - 1)
      case Administer =>
        if writes == 1 then Drain(m) else Appended(Drain(m).(head := None), m.head.value.request)
      case Reclaim(_) => Publish(m, m.frontier, DigestAt(m, |m.log|))
      case ImportBatch(batch) => m.(log := m.log + batch[..if writes < |batch| then writes else |batch|])
      case CrashDuring(step, before) => Cut(m, step, before)
      case _ => m
  }

  /** A step of the coordinator, a worker or the environment; failures leave the machine as it was. */
  ghost function After(m: Machine, action: Action): Machine
    requires Enabled(m, action)
  {
    match action
    case Submit(r) => OrElse(Accept(m, r), m)
    case Register => Assign(m)
    case Dispatch(w, i) => DispatchTo(m, w, i)
    case Interpret(w) => Work(m, w)
    case Complete => OrElse(InstallOne(m), m)
    case Advance => Finish(m)
    case Administer => Barrier(m)
    case Reclaim(floor) => Maintain(m, floor)
    case Checkpoint => Drain(m)
    case PublishCursor => Republish(m)
    case ImportBatch(batch) => Import(m, batch)
    case Crash => Recover(m)
    case CrashDuring(step, writes) => Recover(Cut(m, step, writes))
  }

  function OrElse(r: Result<Machine>, m: Machine): Machine {
    if r.Ok? then r.value else m
  }

  /** A database just created: an empty log and the policy of its genesis. */
  ghost predicate Created(m: Machine) {
    && ValidOptions(m.options) && ValidHashes(m.hashes) && |m.origin| == DIGEST_LENGTH
    && m.log == [] && m.versions == Initial(m.genesis) && m.outcomes == map[]
    && m.checkpoint == 0 && m.checkpointDigest == m.origin && m.image == Image(m.versions, m.outcomes)
    && m.floor == 0 && m.frontier == 0 && m.entries == [] && m.assignedBytes == 0 && m.reservedBytes == 0
    && m.head.None? && m.completed == [] && m.receipts == map[]
    && (forall w :: 0 <= w < |m.workers| ==> m.workers[w].Idle?)
  }

  ghost predicate Run(states: seq<Machine>, actions: seq<Action>) {
    && |states| == |actions| + 1
    && Created(states[0])
    && forall i :: 0 <= i < |actions| ==>
         Enabled(states[i], actions[i]) && states[i + 1] == After(states[i], actions[i])
  }

  // ---------------------------------------------------------------- safety

  lemma CreatedKeeps(m: Machine)
    requires Created(m)
    ensures Invariant(m)
  {
    assert 0 in Below(0) by { assert AtOrBelow(0, 0); }
    assert SerialAt(m, 0) == Initial(m.genesis);
    SettledKeeps(m);
  }

  lemma StepKeeps(m: Machine, action: Action)
    requires Invariant(m) && Enabled(m, action)
    ensures Invariant(After(m, action))
  {
    hide SerialStore, SerialOutcome, LogOk, Shape, EntriesOk, StoreOk, ImageOk, PoolOk, ReceiptsOk, HeadOk,
      CountersOk, ValidRequest, Continues, Accept, InstallOne, Assign, DispatchTo, Work, Finish, Barrier, Maintain,
      Drain, Republish, Import, Recover, Ready;
    match action
    case Submit(r) => if Accept(m, r).Ok? { AcceptKeeps(m, r); }
    case Register => AssignKeeps(m);
    case Dispatch(w, i) => DispatchKeeps(m, w, i);
    case Interpret(w) => WorkKeeps(m, w);
    case Complete => InstallKeeps(m);
    case Advance => FinishKeeps(m);
    case Administer => BarrierKeeps(m);
    case Reclaim(floor) => MaintainKeeps(m, floor);
    case Checkpoint => DrainKeeps(m);
    case PublishCursor => RepublishKeeps(m);
    case ImportBatch(batch) => ImportKeeps(m, batch);
    case Crash => InvariantRecoverable(m); RecoverKeeps(m);
    case CrashDuring(step, writes) => CutRecoverable(m, step, writes); RecoverKeeps(Cut(m, step, writes));
  }

  /** Wherever a step is cut, what is durable is enough, holds the old log and covers every reply. */
  lemma {:induction false} CutRecoverable(m: Machine, action: Action, writes: nat)
    requires Invariant(m) && Enabled(m, action)
    ensures Recoverable(Cut(m, action, writes)) && Extends(m, Cut(m, action, writes))
    decreases action
  {
    hide SerialStore, SerialOutcome, LogOk, EntriesOk, StoreOk, ImageOk, PoolOk, ReceiptsOk, HeadOk, CountersOk,
      ValidRequest, Continues, Releasing, Appended, Drain, Publish, Recoverable, Ready;
    if writes > 0 {
      match action {
        case Advance => CutRelease(m, writes - 1);
        case Administer => CutBarrier(m);
        case Reclaim(_) => CutDrain(m);
        case ImportBatch(batch) =>
          var j := if writes < |batch| then writes else |batch|;
          PrefixContinues(m, batch, j);
          GrownRecoverable(m, batch[..j]);
        case CrashDuring(step, before) => CutRecoverable(m, step, before);
        case _ => InvariantRecoverable(m);
      }
    } else {
      InvariantRecoverable(m);
    }
  }

  lemma CutRelease(m: Machine, sent: nat)
    requires Invariant(m) && CanRelease(m)
    ensures Recoverable(Releasing(m, sent)) && Extends(m, Releasing(m, sent))
  {
    hide Invariant, SerialStore, SerialOutcome, Recoverable, LeadingResolved, Send, SumBytes, SumReservations, UpTo,
      OutcomesUpTo;
    ReleasingRecoverable(m, sent);
  }

  lemma CutBarrier(m: Machine)
    requires Invariant(m) && m.entries == [] && m.head.Some? && m.head.value.prepared.None?
    ensures Recoverable(Drain(m)) && Extends(m, Drain(m))
    ensures var d := Appended(Drain(m).(head := None), m.head.value.request); Recoverable(d) && Extends(m, d)
  {
    hide SerialStore, SerialOutcome, LogOk, EntriesOk, StoreOk, ImageOk, PoolOk, ReceiptsOk, CountersOk, Recoverable,
      Commit, ValidRequest, Settled, UpTo, OutcomesUpTo;
    DrainKeeps(m);
    InvariantRecoverable(Drain(m));
    WithoutHead(Drain(m));
    AppendedRecoverable(Drain(m).(head := None), m.head.value.request);
  }

  lemma CutDrain(m: Machine)
    requires Invariant(m) && |m.log| == m.frontier
    ensures var d := Publish(m, m.frontier, DigestAt(m, |m.log|)); Recoverable(d) && Extends(m, d)
  {
    hide SerialStore, SerialOutcome, LogOk, EntriesOk, StoreOk, ImageOk, PoolOk, ReceiptsOk, HeadOk, CountersOk,
      Recoverable, UpTo, OutcomesUpTo;
    PublishKeeps(m, m.frontier);
    InvariantRecoverable(Publish(m, m.frontier, DigestAt(m, |m.log|)));
  }

  /** A crash can strike after the append of a barrier, with its record in the log and in no image. */
  lemma CutBarrierStrikes(m: Machine, writes: nat)
    requires Invariant(m) && Enabled(m, Administer) && Room(m, m.head.value.request) && writes >= 2
    ensures var d := Cut(m, Administer, writes);
            && |d.log| == |m.log| + 1 && d.log[..|m.log|] == m.log
            && d.log[|m.log|].command == m.head.value.request.command
            && d.checkpoint == |m.log| && |d.log| !in d.image.outcomes
            && d.versions == m.versions && d.receipts == m.receipts
  {
    hide SerialStore, SerialOutcome, LogOk, EntriesOk, StoreOk, ImageOk, PoolOk, CountersOk, ValidRequest, Commit,
      UpTo, ReceiptsOk;
    BarrierCommit(m);
    CommitExact(Drain(m).(head := None), m.head.value.request) by { HeadRequest(m); }
    DrainKeeps(m);
    ImageBelow(Drain(m));
  }

  lemma HeadRequest(m: Machine)
    requires Invariant(m) && m.head.Some?
    ensures ValidRequest(m.head.value.request)
  {
    hide LogOk, Shape, EntriesOk, StoreOk, ImageOk, PoolOk, ReceiptsOk, CountersOk, LimitsOk, ValidRequest;
  }

  lemma ImageBelow(m: Machine)
    requires Invariant(m)
    ensures forall n :: n in m.image.outcomes ==> n <= |m.log|
  {
    hide LogOk, Shape, EntriesOk, StoreOk, PoolOk, ReceiptsOk, CountersOk, LimitsOk, HeadOk, SerialStore,
      SerialOutcome, Holds;
    forall n | n in m.image.outcomes
      ensures n <= |m.log|
    {
      assert ResolutionOk(m, n, m.image.outcomes[n]);
    }
  }

  /** A crash can strike after the checkpoint of a release and any number of its replies. */
  lemma CutReleaseStrikes(m: Machine, sent: nat)
    requires Invariant(m) && CanRelease(m) && sent <= LeadingResolved(m.entries) && LeadingResolved(m.entries) > 0
    ensures var d := Cut(m, Advance, 1 + sent);
            && d.checkpoint == Finish(m).checkpoint && d.image == Finish(m).image && d.log == m.log
            && forall n: nat :: n in d.receipts <==> n in m.receipts || m.frontier < n <= m.frontier + sent
  {
    hide SerialStore, SerialOutcome, LogOk, EntriesOk, StoreOk, ImageOk, PoolOk, CountersOk, HeadOk, UpTo,
      OutcomesUpTo, SumBytes, SumReservations;
    forall i | 0 <= i < sent
      ensures m.entries[..sent][i].sequence == m.frontier + 1 + i
    {
      assert Placed(m, i);
    }
    forall n: nat
      ensures n in Cut(m, Advance, 1 + sent).receipts <==> n in m.receipts || m.frontier < n <= m.frontier + sent
    {
      SendIs(m.receipts, m.entries[..sent], m.frontier + 1, n);
    }
  }

  /** A crash can strike between the two publications of maintenance and among the appends of an import. */
  lemma CutOthersStrike(m: Machine, floor: nat, batch: seq<Logged>, writes: nat)
    requires Enabled(m, Reclaim(floor)) && Enabled(m, ImportBatch(batch)) && 0 < writes <= |batch|
    ensures var d := Cut(m, Reclaim(floor), writes);
            d.checkpoint == m.frontier && d.floor == m.floor && d.versions == m.versions && d.outcomes == m.outcomes
    ensures var d := Cut(m, ImportBatch(batch), writes);
            d.log == m.log + batch[..writes] && d.image == m.image && d.checkpoint == m.checkpoint
  {
    hide UpTo, OutcomesUpTo;
  }

  lemma {:induction false} RunInvariant(states: seq<Machine>, actions: seq<Action>, i: nat)
    requires Run(states, actions) && i < |states|
    ensures Invariant(states[i])
  {
    hide Invariant, Enabled, After, Created;
    if i == 0 {
      CreatedKeeps(states[0]);
    } else {
      RunInvariant(states, actions, i - 1);
      StepKeeps(states[i - 1], actions[i - 1]);
    }
  }

  /**
   Serial equivalence: whatever the interleaving, an installed outcome is the outcome
   of executing the log record by record, and every visible record is installed.
   */
  lemma SerialEquivalence(states: seq<Machine>, actions: seq<Action>, i: nat, n: nat)
    requires Run(states, actions) && i < |states|
    ensures var m := states[i];
            && (n in m.outcomes ==> 0 < n <= |m.log| && m.outcomes[n].outcome == SerialOutcome(m.genesis, m.log, n))
            && (m.floor < n <= m.frontier ==> n in m.outcomes)
            && (n in m.receipts ==>
                  0 < n <= m.frontier <= |m.log| && m.receipts[n] == SerialOutcome(m.genesis, m.log, n))
  {
    hide Run, SerialStore, SerialOutcome, Holds;
    RunInvariant(states, actions, i);
    var m := states[i];
    if n in m.outcomes {
      assert ResolutionOk(m, n, m.outcomes[n]);
    }
    if m.floor < n <= m.frontier {
      assert n in Installed(m);
    }
  }

  /**
   The promise in plain words: there is exactly one way to run the log one record after
   another, each record on what the records before it left, and the stored outcomes, the
   receipts and the visible reads of every reachable state are those of that run.
   */
  lemma OneAfterAnother(states: seq<Machine>, actions: seq<Action>, i: nat, outcomes: seq<Outcome>)
    requires Run(states, actions) && i < |states|
    requires OneByOne(states[i].genesis, states[i].log, outcomes)
    ensures var m := states[i];
            && |outcomes| == |m.log| && m.floor <= m.frontier <= |m.log|
            && (forall n :: n in m.outcomes ==> 0 < n <= |m.log| && m.outcomes[n].outcome == outcomes[n - 1])
            && (forall n :: n in m.receipts ==> 0 < n <= |m.log| && m.receipts[n] == outcomes[n - 1])
            && (forall n, a, b :: m.floor <= n <= m.frontier ==>
                  (Read(m.versions, a, n) == Some(b) <==> LastPut(m.genesis, outcomes[..n], a, b)))
  {
    hide Run, SerialOutcomes, SerialStore, SerialOutcome, OneByOne, LastPut, Read, Stands;
    RunInvariant(states, actions, i);
    var m := states[i];
    LogContracts(m);
    SerialIsOneByOne(m.genesis, m.log, outcomes);
    forall n | n in m.outcomes
      ensures 0 < n <= |m.log| && m.outcomes[n].outcome == outcomes[n - 1]
    {
      SerialEquivalence(states, actions, i, n);
      SerialAmong(m.genesis, m.log, n);
    }
    forall n | n in m.receipts
      ensures 0 < n <= |m.log| && m.receipts[n] == outcomes[n - 1]
    {
      SerialEquivalence(states, actions, i, n);
      SerialAmong(m.genesis, m.log, n);
    }
    forall n, a, b | m.floor <= n <= m.frontier
      ensures Read(m.versions, a, n) == Some(b) <==> LastPut(m.genesis, outcomes[..n], a, b)
    {
      VisibleReads(states, actions, i, a, n);
      ReadStands(SerialStore(m.genesis, m.log, n), a, n, b);
      StandsIsLastPut(m.genesis, m.log, n, a, b);
      SerialFirst(m.genesis, m.log, n);
    }
  }

  lemma LogContracts(m: Machine)
    requires Invariant(m)
    ensures forall k :: 0 <= k < |m.log| ==> Contract(m.log[k].command)
    ensures m.floor <= m.frontier <= |m.log|
  {
    hide StoreOk, ImageOk, PoolOk, EntriesOk, HeadOk, CountersOk, LimitsOk, Contract, ReceiptsOk;
  }

  lemma SerialAmong(genesis: Cell, log: seq<Logged>, n: nat)
    requires 0 < n <= |log|
    ensures SerialOutcomes(genesis, log, |log|)[n - 1] == SerialOutcome(genesis, log, n)
  {
    hide SerialOutcome;
  }

  lemma SerialFirst(genesis: Cell, log: seq<Logged>, n: nat)
    requires n <= |log|
    ensures SerialOutcomes(genesis, log, |log|)[..n] == SerialOutcomes(genesis, log, n)
  {
    hide SerialOutcome;
  }

  /** Such a run exists in every reachable state, so the promise is never empty. */
  lemma OneByOneExists(states: seq<Machine>, actions: seq<Action>, i: nat) returns (outcomes: seq<Outcome>)
    requires Run(states, actions) && i < |states|
    ensures OneByOne(states[i].genesis, states[i].log, outcomes)
    ensures forall other :: OneByOne(states[i].genesis, states[i].log, other) ==> other == outcomes
  {
    hide Run, SerialOutcomes, OneByOne;
    RunInvariant(states, actions, i);
    var m := states[i];
    LogContracts(m);
    outcomes := SerialOutcomes(m.genesis, m.log, |m.log|);
    SerialIsOneByOne(m.genesis, m.log, outcomes);
    forall other | OneByOne(m.genesis, m.log, other)
      ensures other == outcomes
    {
      SerialIsOneByOne(m.genesis, m.log, other);
    }
  }

  /** Every read at a visible, uncollected sequence sees the serial state at that sequence. */
  lemma VisibleReads(states: seq<Machine>, actions: seq<Action>, i: nat, a: Address, n: nat)
    requires Run(states, actions) && i < |states|
    requires states[i].floor <= n <= states[i].frontier
    ensures var m := states[i];
            n <= |m.log| && Read(m.versions, a, n) == Read(SerialStore(m.genesis, m.log, n), a, n)
  {
    hide Run, SerialStore, SerialOutcome, Holds, Read;
    RunInvariant(states, actions, i);
    HeldReads(states[i], a, n);
  }

  /**
   The stored effects of every visible, uncollected record are all in the store at its own
   sequence: reading an outcome back never finds one of its versions missing or different.
   */
  lemma ExactVersions(states: seq<Machine>, actions: seq<Action>, i: nat, n: nat, a: Address)
    requires Run(states, actions) && i < |states| && states[i].floor < n <= states[i].frontier
    ensures var m := states[i];
            && n in m.outcomes
            && (a in m.outcomes[n].outcome.Effects() ==>
                  Version(a, n) in m.versions && m.versions[Version(a, n)] == m.outcomes[n].outcome.Effects()[a])
  {
    hide Run, SerialStore, SerialOutcome;
    RunInvariant(states, actions, i);
    SerialEquivalence(states, actions, i, n);
    if a in states[i].outcomes[n].outcome.Effects() {
      VersionHeld(states[i], n, a);
    }
  }

  lemma VersionHeld(m: Machine, n: nat, a: Address)
    requires StoreOk(m) && m.floor < n <= m.frontier <= |m.log|
    requires a in OutcomeAt(m, n).Effects()
    ensures Version(a, n) in m.versions && m.versions[Version(a, n)] == OutcomeAt(m, n).Effects()[a]
  {
    hide SerialStore, SerialOutcome, Resolutions;
    SerialVersions(m.genesis, m.log, |m.log|, Version(a, n));
    assert n in Installed(m);
  }

  // ---------------------------------------------------------------- durability

  /** No step drops a log record or changes a receipt. */
  ghost predicate Extends(m: Machine, next: Machine) {
    && next.genesis == m.genesis && next.hashes == m.hashes && next.origin == m.origin && next.options == m.options
    && m.log <= next.log
    && m.frontier <= next.frontier
    && m.floor <= next.floor
    && (forall n :: n in m.receipts ==> n in next.receipts && next.receipts[n] == m.receipts[n])
  }

  lemma StepExtends(m: Machine, action: Action)
    requires Invariant(m) && Enabled(m, action)
    ensures Extends(m, After(m, action))
  {
    hide SerialStore, SerialOutcome, LogOk, EntriesOk, StoreOk, ImageOk, PoolOk, HeadOk, CountersOk, LimitsOk,
      Continues, Recover, Ready, Prepare, Resolve, NewEntry, Install, Execute, Envelope, Collect, ValidRequest;
    match action
    case Advance => if LeadingResolved(m.entries) > 0 { AdvanceExtends(m); }
    case ImportBatch(batch) => RecoverLog(m.(log := m.log + batch));
    case Crash => RecoverLog(m);
    case Administer => AdministerExtends(m);
    case CrashDuring(step, writes) =>
      CutRecoverable(m, step, writes);
      RecoverLog(Cut(m, step, writes));
    case _ =>
  }

  lemma AdministerExtends(m: Machine)
    requires Shape(m) && ReceiptsOk(m) && m.entries == [] && m.head.Some?
    ensures Extends(m, Barrier(m))
  {
    hide SerialStore, SerialOutcome, Install, Execute, Envelope;
  }

  lemma AdvanceExtends(m: Machine)
    requires Shape(m) && ReceiptsOk(m) && CanRelease(m) && LeadingResolved(m.entries) > 0
    ensures Extends(m, Finish(m))
  {
    hide SerialStore, SerialOutcome;
    var k := LeadingResolved(m.entries);
    forall i | 0 <= i < k
      ensures m.entries[..k][i].sequence == m.frontier + 1 + i
    {
      assert Placed(m, i);
    }
    forall n | n in m.receipts
      ensures n in Finish(m).receipts && Finish(m).receipts[n] == m.receipts[n]
    {
      SendIs(m.receipts, m.entries[..k], m.frontier + 1, n);
    }
  }

  lemma {:induction false} RunExtends(states: seq<Machine>, actions: seq<Action>, i: nat, j: nat)
    requires Run(states, actions) && i <= j < |states|
    ensures Extends(states[i], states[j])
  {
    hide Invariant, Enabled, After, Created;
    if i < j {
      RunExtends(states, actions, i, j - 1);
      RunInvariant(states, actions, j - 1);
      StepExtends(states[j - 1], actions[j - 1]);
    }
  }

  /**
   A crash at any later point, between steps or inside one, recovers every receipt: the
   recovered outcome of an acknowledged record is the one that was sent, unless its history
   was collected.
   */
  lemma CrashReproducesReceipts(states: seq<Machine>, actions: seq<Action>, i: nat, j: nat, n: nat, step: Action,
      writes: nat)
    requires Run(states, actions) && i <= j < |states| && Enabled(states[j], step)
    requires n in Cut(states[j], step, writes).receipts || n in states[i].receipts
    ensures var d := Cut(states[j], step, writes);
            && d.checkpoint <= |d.log| && states[j].log <= d.log
            && (n in states[i].receipts ==> n in d.receipts && d.receipts[n] == states[i].receipts[n])
            && var recovered := Recover(d);
               && recovered.log == d.log
               && 0 < n <= recovered.frontier == |recovered.log|
               && SerialOutcome(recovered.genesis, recovered.log, n) == d.receipts[n]
               && (n > recovered.floor ==> n in recovered.outcomes && recovered.outcomes[n].outcome == d.receipts[n])
  {
    hide Run, SerialStore, SerialOutcome, Recover, Enabled, Cut, Invariant;
    RunInvariant(states, actions, j);
    RunExtends(states, actions, i, j);
    CutRecoverable(states[j], step, writes);
    CutReceipts(Cut(states[j], step, writes), n);
  }

  lemma CutReceipts(d: Machine, n: nat)
    requires Recoverable(d) && n in d.receipts
    ensures d.checkpoint <= |d.log|
    ensures var recovered := Recover(d);
            && recovered.log == d.log
            && 0 < n <= recovered.frontier == |recovered.log|
            && SerialOutcome(recovered.genesis, recovered.log, n) == d.receipts[n]
            && (n > recovered.floor ==> n in recovered.outcomes && recovered.outcomes[n].outcome == d.receipts[n])
  {
    hide SerialStore, SerialOutcome, Holds, LogOk, Recover, Invariant, Settled, Resolutions;
    RecoverKeeps(d);
    RecoverLog(d);
    if n > Recover(d).floor {
      RecoveredOutcome(Recover(d), n);
    }
  }

  lemma RecoveredOutcome(m: Machine, n: nat)
    requires Invariant(m) && m.frontier == |m.log| && m.floor < n <= |m.log|
    ensures n in m.outcomes && m.outcomes[n].outcome == OutcomeAt(m, n)
  {
    hide SerialStore, SerialOutcome, Holds, LogOk, EntriesOk, HeadOk, ImageOk, PoolOk;
    assert n in Installed(m);
    assert ResolutionOk(m, n, m.outcomes[n]);
  }
}
