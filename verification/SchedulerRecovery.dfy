/**
 Barriers, maintenance, replica import and crash recovery: each keeps the invariant, and
 what is durable in the middle of any of them is enough to recover from.
 */
module SchedulerRecovery {
  import opened Common
  import opened Bytes
  import opened Versions
  import opened Serial
  import opened Records
  import opened Scheduler
  import opened SchedulerSafety

  // ---------------------------------------------------------------- drained machines

  lemma QueueBusy(workers: seq<Worker>, completed: seq<nat>)
    requires QueueOk(workers, completed) && completed != []
    ensures completed[0] < |workers| && workers[completed[0]].Done?
  {
  }

  /** Nothing is assigned, so every worker is idle and every record is done. */
  lemma Drained(m: Machine)
    requires Shape(m) && PoolOk(m) && m.entries == []
    ensures m.frontier == |m.log| && m.completed == []
    ensures forall w :: 0 <= w < |m.workers| ==> m.workers[w].Idle?
    ensures Installed(m) == Below(|m.log|)
  {
    forall w | 0 <= w < |m.workers|
      ensures m.workers[w].Idle?
    {
      assert WorkerOk(m, w);
    }
    if m.completed != [] {
      QueueBusy(m.workers, m.completed);
    }
    forall n
      ensures n in Installed(m) <==> n in Below(|m.log|)
    {
      if 0 <= n <= |m.log| {
        assert AtOrBelow(n, |m.log|);
      }
    }
  }

  /** A machine with nothing assigned, checkpointed at the end of its log. */
  ghost predicate Settled(m: Machine) {
    && m.entries == [] && m.completed == []
    && (forall w :: 0 <= w < |m.workers| ==> m.workers[w].Idle?)
    && m.frontier == m.checkpoint == |m.log| && m.floor <= |m.log|
    && m.checkpointDigest == DigestAt(m, |m.log|)
    && m.assignedBytes == 0 && m.reservedBytes == 0
  }

  lemma SettledInstalled(m: Machine)
    requires m.entries == []
    ensures Installed(m) == Below(|m.log|)
  {
    forall n
      ensures n in Installed(m) <==> n in Below(|m.log|)
    {
      if 0 <= n <= |m.log| {
        assert AtOrBelow(n, |m.log|);
      }
    }
  }

  lemma SettledKeeps(m: Machine)
    requires Settled(m) && LogOk(m) && ReceiptsOk(m) && HeadOk(m) && ValidOptions(m.options)
    requires Holds(m.versions, SerialAt(m, |m.log|), m.floor, Below(|m.log|))
    requires Resolutions(m, m.outcomes, Below(|m.log|))
    requires m.image == Image(m.versions, m.outcomes)
    ensures Invariant(m)
  {
    hide SerialStore, SerialOutcome, Holds, Resolutions, LogOk, ReceiptsOk, HeadOk;
    SettledInstalled(m);
  }

  /** Cutting a store that holds nothing past `n` at `n` changes nothing. */
  lemma UpToAll(versions: Store, serial: Store, floor: nat, n: nat)
    requires Holds(versions, serial, floor, Below(n))
    ensures UpTo(versions, n) == versions
  {
    forall v | v in versions
      ensures v.sequence <= n
    {
      assert v.sequence in Below(n);
    }
  }

  lemma OutcomesUpToAll(m: Machine, outcomes: map<nat, Resolution>, n: nat)
    requires Resolutions(m, outcomes, Below(n))
    ensures OutcomesUpTo(outcomes, n) == outcomes
  {
    forall k | k in outcomes
      ensures k <= n
    {
      assert k in Below(n);
    }
  }

  lemma DrainKeeps(m: Machine)
    requires Invariant(m) && m.entries == []
    ensures Invariant(Drain(m)) && Settled(Drain(m))
  {
    hide SerialStore, SerialOutcome, Holds, Resolutions, LogOk, ReceiptsOk, HeadOk, ImageOk, StoreOk;
    Drained(m);
    if m.checkpoint != m.frontier {
      PublishKeeps(m, |m.log|);
    }
  }

  // ---------------------------------------------------------------- barrier

  /** With every record done, executing on the live store is the serial execution. */
  lemma DrainedOutcome(m: Machine, next: Machine, more: Logged)
    requires Settled(m) && StoreOk(m) && LogOk(next) && Grows(m, next, [more])
    ensures Execute(more.command, m.versions, |m.log| + 1) == OutcomeAt(next, |m.log| + 1)
  {
    hide SerialStore, SerialOutcome, Holds, Resolutions, Read;
    var d := |m.log|;
    assert Contract(next.log[d].command);
    forall a: Address
      ensures Read(m.versions, a, d) == Read(SerialAt(m, d), a, d)
    {
      HeldReads(m, a, d);
    }
    GrownSerial(m, next, [more], d);
    OutcomeIs(next, d + 1);
    ExecuteAgrees(more.command, m.versions, SerialAt(next, d), d + 1);
  }

  lemma CommittedLog(m: Machine, r: Request)
    requires LogOk(m) && ValidRequest(r) && Commit(m, r).Ok?
    ensures var bytes := Envelope(m.hashes, |m.log| + 1, DigestAt(m, |m.log|), r.kind, r.body);
            && bytes.Ok?
            && Grows(m, Commit(m, r).value, [Logged(r.command, bytes.value)])
            && LogOk(Commit(m, r).value)
  {
    hide SerialStore, SerialOutcome, Contract, ReadRecord, Header, Execute, ValidHashes, Install, UpTo, OutcomesUpTo,
      LittleEndian, LogOk;
    var d := |m.log|;
    var next := Commit(m, r).value;
    var bytes := Envelope(m.hashes, d + 1, DigestAt(m, d), r.kind, r.body).value;
    var more := [Logged(r.command, bytes)];
    assert ValidHashes(m.hashes) && |DigestAt(m, d)| == DIGEST_LENGTH by {
      DigestLength(m, d);
    }
    ReadOfEnvelope(m.hashes, d + 1, DigestAt(m, d), r.kind, r.body, [], |bytes|);
    assert bytes + [] == bytes;
    assert Linked(m.(log := m.log + more), d, bytes);
    CommitContinues(m, r, bytes);
    GrownLog(m, next, more);
  }

  lemma CommitContinues(m: Machine, r: Request, bytes: ByteString)
    requires ValidRequest(r) && |m.log| + 1 < U64_MAX
    requires Linked(m.(log := m.log + [Logged(r.command, bytes)]), |m.log|, bytes)
    ensures Continues(m, [Logged(r.command, bytes)])
  {
    hide Contract, ReadRecord;
  }

  lemma DigestLength(m: Machine, n: nat)
    requires LogOk(m) && n <= |m.log|
    ensures |DigestAt(m, n)| == DIGEST_LENGTH && ValidHashes(m.hashes)
  {
  }

  lemma BelowNext(n: nat)
    requires n > 0
    ensures Below(n - 1) + {n} == Below(n)
  {
    forall k
      ensures k in Below(n - 1) + {n} <==> k in Below(n)
    {
      if 0 <= k <= n {
        assert AtOrBelow(k, n) && (k < n ==> AtOrBelow(k, n - 1));
      }
    }
  }

  /** The roots after one committed record are the serial state of the longer log. */
  lemma CommittedStore(m: Machine, next: Machine, more: Logged)
    requires Settled(m) && StoreOk(m) && LogOk(next) && Grows(m, next, [more]) && next.floor == m.floor
    requires var d := |m.log|;
             var outcome := Execute(more.command, m.versions, d + 1);
             && next.versions == Install(m.versions, d + 1, outcome)
             && next.outcomes == m.outcomes[d + 1 := Resolution(DigestAt(next, d + 1), outcome)]
    ensures Holds(next.versions, SerialAt(next, |next.log|), next.floor, Below(|next.log|))
    ensures Resolutions(next, next.outcomes, Below(|next.log|))
  {
    hide SerialStore, SerialOutcome, Holds, Resolutions, Read, LogOk, Execute, Install;
    var d := |m.log|;
    DrainedOutcome(m, next, more);
    SettledInstalled(m);
    BelowNext(d + 1);
    GrownHolds(m, next, [more], m.versions, Below(d));
    GrownResolutions(m, next, [more], m.outcomes, Below(d));
    SerialWrittenBy(next, d + 1);
    HoldsInstall(m.versions, SerialAt(next, d + 1), m.floor, Below(d), d + 1, OutcomeAt(next, d + 1));
    AddResolution(next, m.outcomes, Below(d), d + 1);
  }

  lemma AddResolution(m: Machine, outcomes: map<nat, Resolution>, done: set<nat>, n: nat)
    requires Resolutions(m, outcomes, done) && 0 < n <= |m.log|
    ensures Resolutions(m, outcomes[n := Resolution(DigestAt(m, n), OutcomeAt(m, n))], done + {n})
  {
  }

  lemma CommittedReceipts(m: Machine, next: Machine, more: seq<Logged>)
    requires ReceiptsOk(m) && Grows(m, next, more) && |m.log| < |next.log| == next.frontier
    requires next.receipts == m.receipts[|next.log| := OutcomeAt(next, |next.log|)]
    requires m.frontier == |m.log|
    ensures ReceiptsOk(next)
  {
    hide SerialStore, SerialOutcome;
    forall n | n in next.receipts
      ensures next.receipts[n] == OutcomeAt(next, n)
    {
      if n <= |m.log| {
        GrownSerial(m, next, more, n);
      }
    }
  }

  lemma CommitKeeps(m: Machine, r: Request)
    requires Invariant(m) && Settled(m) && m.head.None? && ValidRequest(r) && Commit(m, r).Ok?
    ensures Invariant(Commit(m, r).value) && Settled(Commit(m, r).value)
  {
    hide SerialStore, SerialOutcome, Holds, Resolutions, LogOk, ReceiptsOk, ImageOk, StoreOk, ValidRequest, Execute,
      Install, ValidHashes, Header, UpTo, OutcomesUpTo;
    var d, next := |m.log|, Commit(m, r).value;
    CommittedLog(m, r);
    var more := Logged(r.command, Envelope(m.hashes, d + 1, DigestAt(m, d), r.kind, r.body).value);
    assert next.log[d] == more;
    var outcome := Execute(r.command, m.versions, d + 1);
    var installed := next.(versions := Install(m.versions, d + 1, outcome),
      outcomes := m.outcomes[d + 1 := Resolution(DigestAt(next, d + 1), outcome)]);
    LogFrame(next, installed);
    CommittedStore(m, installed, more);
    DrainedOutcome(m, installed, more);
    UpToAll(installed.versions, SerialAt(installed, |installed.log|), installed.floor, d + 1);
    OutcomesUpToAll(installed, installed.outcomes, d + 1);
    CommittedReceipts(m, next, [more]);
    SettledKeeps(next);
  }

  /** The request still finds a sequence and fits the format. */
  predicate Room(m: Machine, r: Request) {
    |m.log| + 1 < 0xFFFF_FFFF_FFFF_FFFF && |r.body| + 72 <= 64 * 1024 * 1024
  }

  /**
   An administrative record sees every record before it and none after it. It is logged and
   acknowledged exactly when there is room for it; otherwise only its request is gone.
   */
  lemma BarrierKeeps(m: Machine)
    requires Invariant(m) && m.entries == [] && m.head.Some? && m.head.value.prepared.None?
    ensures Invariant(Barrier(m)) && Settled(Barrier(m)) && Barrier(m).head.None?
    ensures var r, next, n := m.head.value.request, Barrier(m), |m.log| + 1;
            && next.genesis == m.genesis && next.workers == m.workers && next.hashes == m.hashes
            && (Room(m, r) ==>
                  && |next.log| == n && next.log[..n - 1] == m.log && next.log[n - 1].command == r.command
                  && n in next.receipts && next.receipts[n] == SerialOutcome(m.genesis, next.log, n))
            && (!Room(m, r) ==> next.log == m.log && next.receipts == m.receipts && next.versions == m.versions)
  {
    hide SerialStore, SerialOutcome, Holds, Resolutions, LogOk, ReceiptsOk, ImageOk, StoreOk, Commit, ValidRequest,
      EntriesOk, PoolOk;
    DrainKeeps(m);
    var drained := Drain(m).(head := None);
    WithoutHead(Drain(m));
    var r := m.head.value.request;
    CommitExact(drained, r);
    if Commit(drained, r).Ok? {
      CommitKeeps(drained, r);
      CommitFrame(drained, r);
      ReceiptIs(Barrier(m), |m.log| + 1);
    }
  }

  /** The commit behind a barrier: when it succeeds and how it fails. */
  lemma BarrierCommit(m: Machine)
    requires Invariant(m) && m.entries == [] && m.head.Some? && m.head.value.prepared.None?
    ensures var r, c := m.head.value.request, Commit(Drain(m).(head := None), m.head.value.request);
            && (c.Ok? <==> Room(m, r))
            && (c.Ok? ==> c.value == Barrier(m) && c.value.frontier == |m.log| + 1)
            && (c.Err? ==>
                  && Barrier(m) == Drain(m).(head := None)
                  && c.error == if |m.log| + 1 >= 0xFFFF_FFFF_FFFF_FFFF then Exhausted else InvalidInput)
  {
    hide SerialStore, SerialOutcome, Holds, Resolutions, LogOk, ReceiptsOk, ImageOk, StoreOk, Commit, ValidRequest,
      EntriesOk, PoolOk;
    CommitExact(Drain(m).(head := None), m.head.value.request);
  }

  lemma CommitFrame(m: Machine, r: Request)
    requires Commit(m, r).Ok?
    ensures var next := Commit(m, r).value;
            next.genesis == m.genesis && next.workers == m.workers && next.hashes == m.hashes && next.head == m.head
  {
    hide Execute, Install, Envelope, UpTo, OutcomesUpTo;
  }

  lemma ReceiptIs(m: Machine, n: nat)
    requires Invariant(m) && n in m.receipts
    ensures 0 < n <= m.frontier <= |m.log| && m.receipts[n] == SerialOutcome(m.genesis, m.log, n)
  {
    hide SerialStore, SerialOutcome, LogOk, EntriesOk, StoreOk, ImageOk, PoolOk, HeadOk, CountersOk, LimitsOk, Shape;
  }

  lemma HeadCommand(m: Machine)
    requires Invariant(m) && m.head.Some?
    ensures PreparedHead(m) <==> m.head.value.request.command.Transaction?
    ensures PreparedHead(m) ==> m.head.value.prepared.value.command == m.head.value.request.command
  {
    hide LogOk, StoreOk, ImageOk, PoolOk, ReceiptsOk, EntriesOk, Shape, Linked, ValidRequest;
  }

  lemma LastDigest(m: Machine)
    requires Invariant(m)
    ensures |DigestAt(m, |m.log|)| == DIGEST_LENGTH
  {
    hide Shape, StoreOk, ImageOk, PoolOk, EntriesOk, HeadOk, CountersOk, LimitsOk, ReceiptsOk;
  }

  lemma WithoutHead(m: Machine)
    requires Invariant(m)
    ensures Invariant(m.(head := None))
  {
    hide SerialStore, SerialOutcome, Holds, Resolutions, LogOk, ReceiptsOk, ImageOk;
    var next := m.(head := None);
    ProgressFrame(m, next);
    PoolFrame(m, next);
    EntriesFrame(m, next);
    ResolutionsFrame(m, next, m.outcomes, Installed(m));
    LogFrame(m, next);
    ImageFrame(m, next);
    ReceiptsFrame(m, next);
  }

  // ---------------------------------------------------------------- maintenance

  lemma OutcomesAboveFloor(m: Machine, next: Machine, outcomes: map<nat, Resolution>, done: set<nat>)
    requires Resolutions(m, outcomes, done) && SameLog(m, next) && m.floor <= next.floor
    ensures Resolutions(next, OutcomesAbove(outcomes, next.floor), done)
  {
    forall n | n in OutcomesAbove(outcomes, next.floor)
      ensures ResolutionOk(next, n, outcomes[n])
    {
      assert ResolutionOk(m, n, outcomes[n]);
    }
  }

  /** Collecting at a floor between the old one and the frontier keeps every invariant. */
  lemma MaintainKeeps(m: Machine, floor: nat)
    requires Invariant(m) && m.entries == [] && m.floor <= floor <= m.frontier
    ensures Invariant(Maintain(m, floor)) && Settled(Maintain(m, floor))
    ensures forall a, n :: n >= floor ==> Read(Maintain(m, floor).versions, a, n) == Read(m.versions, a, n)
  {
    hide SerialStore, SerialOutcome, Holds, Resolutions, LogOk, ReceiptsOk, HeadOk, Read, Collect, OutcomesAbove,
      ImageOk;
    var d, next := |m.log|, Maintain(m, floor);
    Drained(m);
    HoldsCollect(m.versions, SerialAt(m, d), m.floor, Below(d), floor) by {
      forall k: nat | k <= floor
        ensures k in Below(d)
      {
        assert AtOrBelow(k, d);
      }
    }
    OutcomesAboveFloor(m, next, m.outcomes, Below(d));
    LogFrame(m, next);
    HeadFrame(m, next);
    ReceiptsFrame(m, next);
    SettledKeeps(next);
    forall a, n | n >= floor
      ensures Read(next.versions, a, n) == Read(m.versions, a, n)
    {
      CollectCollects(m.versions, floor);
      CollectedReads(m.versions, next.versions, floor, a, n);
    }
  }

  /**
   Maintenance does collect: at or below the floor one version of each row is left and no
   outcome; everything above it, and all metadata, stays.
   */
  lemma MaintainCollects(m: Machine, floor: nat)
    requires Invariant(m) && m.entries == [] && m.floor <= floor <= m.frontier
    ensures var next := Maintain(m, floor);
            && next.floor == floor && next.checkpoint == next.frontier == m.frontier && next.log == m.log
            && (forall v, w ::
                  v in next.versions && w in next.versions && v.address == w.address && v.address.Row?
                  && v.sequence <= floor && w.sequence <= floor ==>
                    v == w)
            && (forall v :: v in m.versions && (v.sequence > floor || !v.address.Row?) ==>
                  v in next.versions && next.versions[v] == m.versions[v])
            && (forall n :: n in next.outcomes <==> n in m.outcomes && n > floor)
            && (forall n :: n in next.outcomes ==> next.outcomes[n] == m.outcomes[n])
            && next.image == Image(next.versions, next.outcomes)
  {
    hide Invariant, NewestSequence;
    var next := Maintain(m, floor);
    forall v, w | v in next.versions && w in next.versions && v.address == w.address && v.address.Row?
                  && v.sequence <= floor && w.sequence <= floor
      ensures v == w
    {
      CollectMinimal(m.versions, floor, v, w);
    }
  }

  lemma CollectCollects(s: Store, floor: nat)
    ensures Collected(s, Collect(s, floor), floor)
  {
  }

  // ---------------------------------------------------------------- recovery

  /** Replay from the published image rebuilds the serial state record by record. */
  lemma {:induction false} ReplayIs(m: Machine, n: nat)
    requires LogOk(m) && ImageOk(m) && m.floor <= m.checkpoint <= n <= |m.log|
    ensures var r := ReplayTo(m, m.checkpoint, n);
            && Holds(r.versions, SerialAt(m, |m.log|), m.floor, Below(n))
            && Resolutions(m, r.outcomes, Below(n))
    decreases n
  {
    hide SerialStore, SerialOutcome, Holds, Resolutions, LogOk, Execute, Install;
    if n > m.checkpoint {
      ReplayIs(m, n - 1);
      var r, c := ReplayTo(m, m.checkpoint, n - 1), m.log[n - 1].command;
      ReplayedOutcome(m, r.versions, n);
      BelowNext(n);
      SerialWrittenBy(m, n);
      HoldsInstall(r.versions, SerialAt(m, |m.log|), m.floor, Below(n - 1), n, OutcomeAt(m, n));
      AddResolution(m, r.outcomes, Below(n - 1), n);
    }
  }

  lemma ReplayedOutcome(m: Machine, versions: Store, n: nat)
    requires LogOk(m) && m.floor < n <= |m.log|
    requires Holds(versions, SerialAt(m, |m.log|), m.floor, Below(n - 1))
    ensures Execute(m.log[n - 1].command, versions, n) == OutcomeAt(m, n)
  {
    hide SerialStore, SerialOutcome, Holds, Read, Execute;
    var c, d := m.log[n - 1].command, n - 1;
    assert Contract(c);
    forall a: Address
      ensures Read(versions, a, d) == Read(SerialAt(m, d), a, d)
    {
      assert forall k: nat :: k <= d ==> AtOrBelow(k, d);
      HoldsReads(versions, SerialAt(m, |m.log|), m.floor, Below(d), a, d);
      SerialReads(m, a, d, |m.log|);
    }
    OutcomeIs(m, n);
    ExecuteAgrees(c, versions, SerialAt(m, n - 1), n);
  }

  /** What must hold of the durable state and of the replies sent for a reopening to lose nothing. */
  ghost predicate Recoverable(m: Machine) {
    && LogOk(m) && ImageOk(m) && ReceiptsOk(m) && ValidOptions(m.options) && m.floor <= m.checkpoint
    && m.checkpointDigest == DigestAt(m, m.checkpoint)
  }

  /** From any such state, discarding everything but the image and the log loses nothing. */
  lemma RecoverKeeps(m: Machine)
    requires Recoverable(m)
    ensures m.checkpoint <= |m.log| && Invariant(Recover(m)) && Settled(Recover(m))
  {
    hide SerialStore, SerialOutcome, Holds, Resolutions, LogOk, ReplayTo, HeadOk, Contract;
    var d, next := |m.log|, Recover(m);
    ReplayIs(m, d);
    LogFrame(m, next);
    ResolutionsFrame(m, next, next.outcomes, Below(d));
    ReceiptsFrame(m, next);
    assert HeadOk(next) by { NoHead(next); }
    SettledKeeps(next);
  }

  lemma InvariantRecoverable(m: Machine)
    requires Invariant(m)
    ensures Recoverable(m)
  {
    hide SerialStore, SerialOutcome, LogOk, EntriesOk, StoreOk, ImageOk, PoolOk, ReceiptsOk, HeadOk, CountersOk;
  }

  lemma NoHead(m: Machine)
    requires m.head.None?
    ensures HeadOk(m)
  {
  }

  lemma ImportKeeps(m: Machine, batch: seq<Logged>)
    requires Invariant(m) && Continues(m, batch)
    ensures m.checkpoint <= |m.log| && Invariant(Import(m, batch)) && Settled(Import(m, batch))
    ensures Import(m, batch).log == m.log + batch
  {
    hide SerialStore, SerialOutcome, LogOk, Recover, ImageOk, ReceiptsOk, HeadOk, Contract, Continues, EntriesOk,
      PoolOk, StoreOk;
    var longer := m.(log := m.log + batch);
    GrownRecoverable(m, batch);
    RecoverKeeps(longer);
    RecoverLog(longer);
  }

  lemma RecoverLog(m: Machine)
    requires m.checkpoint <= |m.log|
    ensures Recover(m).log == m.log && Recover(m).receipts == m.receipts
    ensures Recover(m).genesis == m.genesis && Recover(m).hashes == m.hashes
    ensures Recover(m).origin == m.origin && Recover(m).options == m.options
    ensures Recover(m).frontier == |m.log| && Recover(m).floor == m.floor
  {
  }

  // ---------------------------------------------------------------- crashes inside a step

  /** Records appended and not yet executed are replayed with the rest. */
  lemma GrownRecoverable(m: Machine, batch: seq<Logged>)
    requires Invariant(m) && Continues(m, batch)
    ensures Recoverable(m.(log := m.log + batch))
  {
    hide SerialStore, SerialOutcome, Holds, Resolutions, LogOk, HeadOk, Contract, Continues, EntriesOk, PoolOk, StoreOk;
    var longer := m.(log := m.log + batch);
    GrownLog(m, longer, batch);
    GrownImage(m, longer, batch);
    GrownReceipts(m, longer, batch);
    GrownSerial(m, longer, batch, m.checkpoint);
  }

  /** An import appends its records one by one: any prefix of the batch continues the log. */
  lemma PrefixContinues(m: Machine, batch: seq<Logged>, j: nat)
    requires Continues(m, batch) && j <= |batch|
    ensures Continues(m, batch[..j])
  {
    hide Contract, ReadRecord;
    var longer, part := m.(log := m.log + batch), m.(log := m.log + batch[..j]);
    forall i | |m.log| <= i < |part.log|
      ensures Contract(part.log[i].command) && LinkedAt(part, i)
    {
      assert LinkedAt(longer, i) && Contract(longer.log[i].command);
      assert part.log[i] == longer.log[i] && (i > 0 ==> part.log[i - 1] == longer.log[i - 1]);
    }
  }

  /** A barrier's record is durable before it is executed, and executed before it is published. */
  function Appended(m: Machine, r: Request): Machine {
    match Commit(m, r)
    case Ok(next) => m.(log := next.log)
    case Err(_) => m
  }

  lemma AppendedRecoverable(m: Machine, r: Request)
    requires Invariant(m) && ValidRequest(r)
    ensures Recoverable(Appended(m, r)) && m.log <= Appended(m, r).log
  {
    hide SerialStore, SerialOutcome, LogOk, ImageOk, ReceiptsOk, StoreOk, PoolOk, EntriesOk, HeadOk, Contract, Commit,
      Continues;
    if Commit(m, r).Ok? {
      var bytes := CommittedRecord(m, r);
      GrownRecoverable(m, [Logged(r.command, bytes)]);
    } else {
      InvariantRecoverable(m);
    }
  }

  /** What a commit appends continues the log. */
  lemma CommittedRecord(m: Machine, r: Request) returns (bytes: ByteString)
    requires LogOk(m) && ValidRequest(r) && Commit(m, r).Ok?
    ensures Continues(m, [Logged(r.command, bytes)]) && Commit(m, r).value.log == m.log + [Logged(r.command, bytes)]
  {
    hide SerialStore, SerialOutcome, Contract, ReadRecord, Header, Execute, Install, UpTo, OutcomesUpTo, Envelope,
      ValidHashes;
    CommittedLog(m, r);
    bytes := Envelope(m.hashes, |m.log| + 1, DigestAt(m, |m.log|), r.kind, r.body).value;
    assert LinkedAt(Commit(m, r).value, |m.log|);
    CommitContinues(m, r, bytes);
  }

  /** The checkpoint is published and `sent` of the replies are out when the rest of a release is lost. */
  function Releasing(m: Machine, sent: nat): Machine
    requires CanRelease(m)
  {
    var k := LeadingResolved(m.entries);
    if k == 0 then m else Finish(m).(receipts := Send(m.receipts, m.entries[..if sent < k then sent else k]))
  }

  lemma ReleasingRecoverable(m: Machine, sent: nat)
    requires Invariant(m) && CanRelease(m)
    ensures var d := Releasing(m, sent);
            && Recoverable(d) && d.log == m.log && d.frontier >= m.frontier
            && (forall n :: n in m.receipts ==> n in d.receipts && d.receipts[n] == m.receipts[n])
  {
    hide SerialStore, SerialOutcome, LogOk, Holds, Resolutions, EntriesOk, HeadOk, ImageOk, PoolOk, Send, SumBytes,
      SumReservations, UpTo, OutcomesUpTo;
    var k, d := LeadingResolved(m.entries), Releasing(m, sent);
    if k > 0 {
      FinishCheckpoint(m);
      ImageFrame(Finish(m), d);
      LogFrame(m, d);
      SentReceipts(m, d, if sent < k then sent else k);
    }
  }

  /** Receipts sent so far are serial outcomes of records the frontier has passed. */
  lemma SentReceipts(m: Machine, d: Machine, sent: nat)
    requires Shape(m) && EntriesOk(m) && ReceiptsOk(m) && SameLog(m, d) && sent <= LeadingResolved(m.entries)
    requires d.receipts == Send(m.receipts, m.entries[..sent]) && m.frontier + sent <= d.frontier <= |d.log|
    ensures ReceiptsOk(d)
    ensures forall n :: n in m.receipts ==> n in d.receipts && d.receipts[n] == m.receipts[n]
  {
    hide SerialStore, SerialOutcome;
    forall j | 0 <= j < sent
      ensures m.entries[..sent][j].sequence == m.frontier + 1 + j
    {
      assert Placed(m, j);
    }
    forall n: nat
      ensures n in d.receipts ==> 0 < n <= d.frontier && d.receipts[n] == OutcomeAt(d, n)
      ensures n in m.receipts ==> n in d.receipts && d.receipts[n] == m.receipts[n]
    {
      SendIs(m.receipts, m.entries[..sent], m.frontier + 1, n);
      if m.frontier < n <= m.frontier + sent {
        assert EntryOk(m, n - m.frontier - 1);
      }
    }
  }
}
