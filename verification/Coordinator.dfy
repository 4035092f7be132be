/**
 The coordinator as it runs: one object whose methods update the schedule, the store
 and the worker pool in place. Each method is proved against the machine of `Scheduler`.
 */
module Coordinator {
  import opened Common
  import opened Bytes
  import opened Versions
  import opened Serial
  import opened Records
  import opened Scheduler
  import opened SchedulerSafety
  import opened SchedulerRecovery

  // ---------------------------------------------------------------- what a group does

  /** The outcome of a registration: the machine, the requests left, and what stopped it. */
  datatype Intake = Intake(machine: Machine, queue: seq<Request>, barrier: Option<Request>, failure: Option<Error>)

  predicate Fatal(e: Error) {
    !e.InvalidInput? && !e.OperationalLimit?
  }

  /** What taking the next request from the queue leads to. */
  datatype Poll = Quiet | Stopped(request: Request) | Rejected(error: Error) | Prepared(machine: Machine)

  function PollQueue(m: Machine, queue: seq<Request>, calm: nat): Poll {
    if calm == 0 || queue == [] then Quiet
    else if !queue[0].command.Transaction? then Stopped(queue[0])
    else
      match Accept(m, queue[0])
      case Err(e) => Rejected(e)
      case Ok(next) => Poll.Prepared(next)
  }

  /** At most `rounds` heads are prepared and assigned; `calm` polls pass before an interruption. */
  function Intakes(m: Machine, queue: seq<Request>, rounds: nat, calm: nat): Intake
    decreases rounds, 1
  {
    if rounds == 0 then Intake(m, queue, None, None)
    else if PreparedHead(m) then TakeHead(m, queue, rounds, calm)
    else
      match PollQueue(m, queue, calm)
      case Quiet => Intake(m, queue, None, None)
      case Stopped(r) => Intake(m, queue[1..], Some(r), None)
      case Rejected(e) =>
        if Fatal(e) then Intake(m, queue[1..], None, Some(e)) else Intakes(m, queue[1..], rounds - 1, calm - 1)
      case Prepared(next) => TakeHead(next, queue[1..], rounds, calm - 1)
  }

  function TakeHead(m: Machine, queue: seq<Request>, rounds: nat, calm: nat): Intake
    requires rounds > 0
    decreases rounds, 0
  {
    if PreparedHead(m) && Fits(m) then Intakes(Assign(m), queue, rounds - 1, calm) else Intake(m, queue, None, None)
  }

  /** A group never breaks the coordinator's invariant, whatever it accepts or rejects. */
  lemma {:induction false} IntakesKeep(m: Machine, queue: seq<Request>, rounds: nat, calm: nat)
    requires Invariant(m) && (m.head.None? || PreparedHead(m))
    requires forall r :: r in queue ==> ValidRequest(r)
    ensures var i := Intakes(m, queue, rounds, calm);
            && Invariant(i.machine)
            && m.log <= i.machine.log && i.machine.image == m.image && i.machine.checkpoint == m.checkpoint
            && (i.machine.head.None? || PreparedHead(i.machine))
    decreases rounds, 1
  {
    hide Invariant, ValidRequest, Fits, PollQueue, NewEntry, Fatal, DigestAt;
    if rounds > 0 {
      if PreparedHead(m) {
        TakeHeadKeeps(m, queue, rounds, calm);
      } else {
        PollKeeps(m, queue, calm);
        match PollQueue(m, queue, calm)
        case Rejected(e) => IntakesKeep(m, queue[1..], rounds - 1, calm - 1);
        case Prepared(next) =>
          PolledLog(m, queue, calm);
          TakeHeadKeeps(next, queue[1..], rounds, calm - 1);
        case _ =>
      }
    }
  }

  lemma {:induction false} TakeHeadKeeps(m: Machine, queue: seq<Request>, rounds: nat, calm: nat)
    requires rounds > 0 && Invariant(m) && PreparedHead(m)
    requires forall r :: r in queue ==> ValidRequest(r)
    ensures var i := TakeHead(m, queue, rounds, calm);
            && Invariant(i.machine)
            && m.log <= i.machine.log && i.machine.image == m.image && i.machine.checkpoint == m.checkpoint
            && (i.machine.head.None? || PreparedHead(i.machine))
    decreases rounds, 0
  {
    hide Invariant, ValidRequest, Fits, NewEntry, Intakes;
    if Fits(m) {
      AssignKeeps(m);
      IntakesKeep(Assign(m), queue, rounds - 1, calm);
    }
  }

  lemma PolledLog(m: Machine, queue: seq<Request>, calm: nat)
    requires PollQueue(m, queue, calm).Prepared?
    ensures var next := PollQueue(m, queue, calm).machine;
            next.log == m.log && next.image == m.image && next.checkpoint == m.checkpoint
  {
  }

  /** A polled head is prepared, and its machine is still sound. */
  lemma PollKeeps(m: Machine, queue: seq<Request>, calm: nat)
    requires Invariant(m) && m.head.None? && forall r :: r in queue ==> ValidRequest(r)
    ensures var poll := PollQueue(m, queue, calm);
            && (poll.Prepared? ==> Invariant(poll.machine) && PreparedHead(poll.machine))
            && (!poll.Quiet? ==> calm > 0 && queue != [])
  {
    hide Invariant, Envelope;
    if PollQueue(m, queue, calm).Prepared? {
      AcceptKeeps(m, queue[0]);
    }
  }

  /** Unfolding one round without a head. */
  lemma IntakesStep(m: Machine, queue: seq<Request>, rounds: nat, calm: nat)
    requires rounds > 0 && m.head.None?
    ensures Intakes(m, queue, rounds, calm) ==
            match PollQueue(m, queue, calm)
            case Quiet => Intake(m, queue, None, None)
            case Stopped(r) => Intake(m, queue[1..], Some(r), None)
            case Rejected(e) =>
              if Fatal(e) then Intake(m, queue[1..], None, Some(e)) else Intakes(m, queue[1..], rounds - 1, calm - 1)
            case Prepared(next) => TakeHead(next, queue[1..], rounds, calm - 1)
  {
  }

  lemma IntakesDone(m: Machine, queue: seq<Request>, calm: nat)
    ensures Intakes(m, queue, 0, calm) == Intake(m, queue, None, None)
  {
  }

  /** Unfolding one round with a prepared head. */
  lemma TakeHeadStep(m: Machine, queue: seq<Request>, rounds: nat, calm: nat)
    requires rounds > 0 && PreparedHead(m)
    ensures Intakes(m, queue, rounds, calm) == TakeHead(m, queue, rounds, calm)
  {
  }

  lemma HeadStep(m: Machine, queue: seq<Request>, rounds: nat, calm: nat)
    requires rounds > 0 && PreparedHead(m)
    ensures TakeHead(m, queue, rounds, calm) ==
            if Fits(m) then Intakes(Assign(m), queue, rounds - 1, calm) else Intake(m, queue, None, None)
  {
  }

  /** The last entry is the last record, so a group is prepared against the log it is building. */
  lemma LastIsTail(m: Machine)
    requires Invariant(m) && m.entries != []
    ensures m.entries[|m.entries| - 1].sequence == |m.log|
    ensures m.entries[|m.entries| - 1].digest == DigestAt(m, |m.log|)
  {
    hide SerialStore, SerialOutcome, LogOk, EntriesOk, StoreOk, ImageOk, PoolOk, ReceiptsOk, HeadOk, CountersOk,
      LimitsOk;
    assert Placed(m, |m.entries| - 1);
  }

  // ---------------------------------------------------------------- what a dispatch does

  function FirstReady(m: Machine, start: nat): (r: Option<nat>)
    requires start <= |m.entries|
    ensures match r
            case Some(i) => start <= i < |m.entries| && Ready(m, m.entries[i]) &&
                            forall k :: start <= k < i ==> !Ready(m, m.entries[k])
            case None => forall k :: start <= k < |m.entries| ==> !Ready(m, m.entries[k])
    decreases |m.entries| - start
  {
    if start == |m.entries| then None
    else if Ready(m, m.entries[start]) then Some(start)
    else FirstReady(m, start + 1)
  }

  function DispatchFrom(m: Machine, w: nat): Machine
    requires w <= |m.workers|
    decreases |m.workers| - w
  {
    if w == |m.workers| then m
    else if !m.workers[w].Idle? then DispatchFrom(m, w + 1)
    else
      match FirstReady(m, 0)
      case None => m
      case Some(i) => DispatchFrom(DispatchTo(m, w, i), w + 1)
  }

  ghost predicate AllBusy(m: Machine, w: nat) {
    forall x :: 0 <= x < w && x < |m.workers| ==> !m.workers[x].Idle?
  }

  ghost predicate NoneReady(m: Machine) {
    forall i :: 0 <= i < |m.entries| ==> !Ready(m, m.entries[i])
  }

  /** Dispatch leaves no worker idle beside a ready record. */
  lemma {:induction false} DispatchExhausts(m: Machine, w: nat)
    requires Invariant(m) && w <= |m.workers| && AllBusy(m, w)
    ensures var next := DispatchFrom(m, w); Invariant(next) && (AllBusy(next, |next.workers|) || NoneReady(next))
    decreases |m.workers| - w
  {
    hide Invariant, Ready;
    if w < |m.workers| {
      if !m.workers[w].Idle? {
        DispatchExhausts(m, w + 1);
      } else if FirstReady(m, 0).Some? {
        var i := FirstReady(m, 0).value;
        assert m.entries[i].prepared.Some? by { ReadyIsPrepared(m, i); }
        DispatchKeeps(m, w, i);
        DispatchExhausts(DispatchTo(m, w, i), w + 1);
      }
    }
  }

  lemma ReadyIsPrepared(m: Machine, i: nat)
    requires i < |m.entries| && Ready(m, m.entries[i])
    ensures m.entries[i].prepared.Some?
  {
  }

  /** Entry `i` waits: an earlier record that is not resolved may write what it may read. */
  ghost predicate Waits(m: Machine, i: nat)
    requires Invariant(m) && i < |m.entries|
  {
    exists j :: 0 <= j < i && m.entries[j].outcome.None? && MayWriteFor(m, j, i)
  }

  ghost predicate MayWriteFor(m: Machine, j: nat, i: nat)
    requires Invariant(m) && j < i < |m.entries|
  {
    EntriesAreRecords(m);
    OverlapsAny(WriteScopes(m.log[m.frontier + j].command), ReadScopes(m.log[m.frontier + i].command))
  }

  lemma EntriesAreRecords(m: Machine)
    requires Invariant(m)
    ensures |m.log| == m.frontier + |m.entries|
  {
    hide LogOk, StoreOk, ImageOk, PoolOk, EntriesOk, HeadOk, CountersOk, LimitsOk, ReceiptsOk;
  }

  /**
   Readiness in the log's terms: an assigned record is ready exactly when no worker has had it,
   it is one of the first `window` records above the frontier, and no earlier record that is
   still unresolved may write what it may read.
   */
  lemma ReadyExact(m: Machine, i: nat)
    requires Invariant(m) && i < |m.entries|
    ensures Ready(m, m.entries[i]) <==> m.entries[i].prepared.Some? && i < m.options.window && !Waits(m, i)
  {
    hide LogOk, StoreOk, ImageOk, PoolOk, HeadOk, CountersOk, LimitsOk, ReceiptsOk, OverlapsAny, ReadScopes,
      WriteScopes, SerialOutcome, SerialStore;
    var e := m.entries[i];
    assert Placed(m, i) && EntryOk(m, i);
    if e.prepared.Some? && e.dependencies != [] {
      var d := e.dependencies[0];
      assert d in e.dependencies && Unresolved(m, d) && Conflicts(m, d, m.log[m.frontier + i].command);
      assert MayWriteFor(m, d - m.frontier - 1, i);
    }
    if e.prepared.Some? && Waits(m, i) {
      var j: nat :| j < i && m.entries[j].outcome.None? && MayWriteFor(m, j, i);
      assert Placed(m, j) && EntryOk(m, j) && WaitsFor(e, m.entries[j], ReadScopes(m.log[m.frontier + i].command));
      assert m.entries[j].sequence in e.dependencies;
    }
  }

  /**
   No worker idles for nothing: after dispatch, if one is idle, each of the first `window`
   records is with a worker, done, or waits for an unresolved record it may depend on.
   */
  lemma IdleMeansWaiting(m: Machine, w: nat, i: nat)
    requires Invariant(m)
    requires var next := DispatchFrom(m, 0);
             && w < |next.workers| && next.workers[w].Idle?
             && i < |next.entries| && i < next.options.window && next.entries[i].prepared.Some?
    ensures Invariant(DispatchFrom(m, 0)) && Waits(DispatchFrom(m, 0), i)
  {
    hide Invariant, Ready, Waits;
    DispatchExhausts(m, 0);
    ReadyExact(DispatchFrom(m, 0), i);
  }

  // ---------------------------------------------------------------- what a completion does

  function InstallAll(m: Machine, count: nat): Result<Machine>
    decreases count
  {
    if count == 0 then Ok(m)
    else if !HasCompletion(m) then Err(InvalidInput)
    else
      var next :- InstallOne(m);
      InstallAll(next, count - 1)
  }

  /** Installing every queued completion succeeds, and so does releasing what became visible. */
  lemma {:induction false} CompletionsKeep(m: Machine, count: nat)
    requires Invariant(m) && count <= |m.completed|
    ensures var r := InstallAll(m, count);
            && r.Ok? && Invariant(r.value) && CanRelease(r.value) && Invariant(Finish(r.value))
            && |r.value.completed| == |m.completed| - count
    decreases count
  {
    hide Invariant, InstallOne, HasCompletion;
    if count == 0 {
      FinishKeeps(m);
    } else {
      InstallKeeps(m);
      CompletionsKeep(InstallOne(m).value, count - 1);
    }
  }

  lemma {:induction false} LeadingIs(entries: seq<Entry>, k: nat)
    requires k <= |entries| && (k < |entries| ==> entries[k].outcome.None?)
    requires forall i :: 0 <= i < k ==> entries[i].outcome.Some?
    ensures LeadingResolved(entries) == k
  {
  }

  /** Part of the released prefix never sums to more than the whole. */
  lemma SumFits(entries: seq<Entry>, i: nat, k: nat)
    requires i < k <= |entries|
    ensures SumBytes(entries[..i + 1]) == SumBytes(entries[..i]) + entries[i].bytes <= SumBytes(entries)
    ensures SumReservations(entries[..i + 1]) == SumReservations(entries[..i]) + entries[i].reservation
         <= SumReservations(entries)
  {
    SumSplit(entries, i + 1);
    assert entries[..i + 1][..i] == entries[..i];
  }

  /** Why the resolved prefix can be popped entry by entry. */
  lemma ReleaseFacts(m: Machine, k: nat)
    requires Shape(m) && CountersOk(m) && k == LeadingResolved(m.entries)
    ensures k <= |m.entries| && m.checkpoint <= m.frontier
    ensures forall i :: 0 <= i < k ==> m.entries[i].outcome.Some?
    ensures forall i :: 0 <= i < |m.entries| ==> (m.entries[i].sequence <= m.frontier + k <==> i < k)
    ensures SumBytes(m.entries) <= m.assignedBytes && SumReservations(m.entries) <= m.reservedBytes
  {
    hide SumBytes, SumReservations;
    forall i | 0 <= i < |m.entries|
      ensures m.entries[i].sequence <= m.frontier + k <==> i < k
    {
      assert Placed(m, i);
    }
  }

  lemma ReleaseReady(m: Machine)
    requires Invariant(m)
    ensures Shape(m) && CountersOk(m)
    ensures UpTo(m.versions, |m.log|) == m.versions && OutcomesUpTo(m.outcomes, |m.log|) == m.outcomes
  {
    hide SerialStore, SerialOutcome, LogOk, EntriesOk, StoreOk, ImageOk, PoolOk, ReceiptsOk, HeadOk, UpTo, OutcomesUpTo;
    UpToDurable(m);
  }

  /** The end of a completion, field by field. */
  lemma FinishIs(m: Machine, k: nat, due: bool)
    requires CanRelease(m) && k == LeadingResolved(m.entries)
    requires due == (m.frontier + k - m.checkpoint >= m.options.interval)
    ensures k == 0 ==> Finish(m) == m
    ensures k > 0 ==>
              Finish(m) == m.(
                frontier := m.frontier + k,
                checkpoint := if due then m.frontier + k else m.checkpoint,
                checkpointDigest := if due then m.entries[k - 1].digest else m.checkpointDigest,
                image := if due then Image(UpTo(m.versions, m.frontier + k), OutcomesUpTo(m.outcomes, m.frontier + k))
                    else m.image,
                entries := m.entries[k..],
                assignedBytes := Finish(m).assignedBytes,
                reservedBytes := Finish(m).reservedBytes,
                receipts := Send(m.receipts, m.entries[..k]))
    ensures k > 0 ==>
              Finish(m).assignedBytes == m.assignedBytes - SumBytes(m.entries[..k]) &&
              Finish(m).reservedBytes == m.reservedBytes - SumReservations(m.entries[..k])
  {
    hide SumBytes, SumReservations, Send, UpTo, OutcomesUpTo, LeadingResolved;
  }

  lemma RecoverIs(m: Machine, versions: Store, outcomes: map<nat, Resolution>)
    requires m.checkpoint <= |m.log| && Replay(versions, outcomes) == ReplayTo(m, m.checkpoint, |m.log|)
    ensures Recover(m) == m.(versions := versions, outcomes := outcomes, checkpoint := |m.log|,
      checkpointDigest := if m.log == [] then m.origin else m.hashes.sha(m.log[|m.log| - 1].bytes),
      image := Image(versions, outcomes), frontier := |m.log|, entries := [], assignedBytes := 0, reservedBytes := 0,
      head := None, workers := IdleWorkers(|m.workers|), completed := [])
  {
    hide ReplayTo;
  }

  /** Nothing is installed past the end of the log. */
  lemma UpToDurable(m: Machine)
    requires StoreOk(m)
    ensures UpTo(m.versions, |m.log|) == m.versions && OutcomesUpTo(m.outcomes, |m.log|) == m.outcomes
  {
    hide SerialStore, SerialOutcome;
    forall v | v in m.versions
      ensures v.sequence <= |m.log|
    {
      assert v.sequence in Installed(m);
    }
    forall n | n in m.outcomes
      ensures n <= |m.log|
    {
      assert n in Installed(m);
    }
  }

  /** What a crash leaves behind is enough to reopen. */
  lemma CrashInvariant(m: Machine)
    requires Recoverable(m)
    ensures m.checkpoint <= |m.log| && m.checkpointDigest == DigestAt(m, m.checkpoint)
    ensures Invariant(Recover(m))
    ensures forall n :: n in m.image.outcomes ==> n <= |m.log| && m.image.outcomes[n].digest == DigestAt(m, n)
  {
    hide SerialStore, SerialOutcome, LogOk, ReceiptsOk, Invariant, Recover, Settled, Holds;
    RecoverKeeps(m);
    forall n | n in m.image.outcomes
      ensures n <= |m.log| && m.image.outcomes[n].digest == DigestAt(m, n)
    {
      assert ResolutionOk(m, n, m.image.outcomes[n]);
    }
  }

  // ---------------------------------------------------------------- the object

  class Coordinator {
    const options: Options
    const hashes: Hashes
    const genesis: Cell
    const origin: ByteString

    // The store: the durable log, the live roots and the published manifest.
    var log: seq<Logged>
    var versions: Store
    var outcomes: map<nat, Resolution>
    var checkpoint: nat
    var checkpointDigest: ByteString
    var image: Image
    var floor: nat

    // The schedule.
    var frontier: nat
    var entries: seq<Entry>
    var assignedBytes: nat
    var reservedBytes: nat
    var head: Option<Head>

    // The worker pool and the replies already sent.
    var workers: seq<Worker>
    var completed: seq<nat>
    var receipts: map<nat, Outcome>

    function Value(): Machine
      reads this
    {
      Machine(options, hashes, genesis, origin, log, versions, outcomes, checkpoint, checkpointDigest, image, floor,
        frontier, entries, assignedBytes, reservedBytes, head, workers, completed, receipts)
    }

    lemma ValueIs()
      ensures Value() ==
              Machine(options, hashes, genesis, origin, log, versions, outcomes, checkpoint, checkpointDigest,
        image, floor, frontier, entries, assignedBytes, reservedBytes, head, workers, completed, receipts)
    {
    }

    constructor (m: Machine)
      ensures Value() == m
    {
      options, hashes, genesis, origin := m.options, m.hashes, m.genesis, m.origin;
      log, versions, outcomes, checkpoint := m.log, m.versions, m.outcomes, m.checkpoint;
      checkpointDigest, image, floor, frontier := m.checkpointDigest, m.image, m.floor, m.frontier;
      entries, assignedBytes, reservedBytes, head := m.entries, m.assignedBytes, m.reservedBytes, m.head;
      workers, completed, receipts := m.workers, m.completed, m.receipts;
    }

    /** `prepare` a request as the record after `previous`; only a success becomes the head. */
    method PrepareHead(r: Request, previous: nat, predecessor: ByteString) returns (result: Result<()>)
      modifies `head
      ensures match Prepare(options, hashes, r, previous, predecessor)
              case Ok(p) => result == Ok(()) && head == Some(Head(r, p))
              case Err(e) => result == Err(e) && head == old(head)
      ensures ValidRequest(r) && |predecessor| == DIGEST_LENGTH ==>
                (result.Ok? <==>
                  if r.command.Administrative? then |r.body| + 72 <= options.backlogBytes
                  else
                    && previous + 1 < 0xFFFF_FFFF_FFFF_FFFF
                    && r.reservation <= options.executionBytes && r.reservation <= options.preparationBytes
                    && |r.body| + 72 <= options.backlogBytes && |r.body| + 72 <= 64 * 1024 * 1024)
    {
      if ValidRequest(r) && |predecessor| == DIGEST_LENGTH {
        PrepareExact(options, hashes, r, previous, predecessor);
      }
      var prepared := Prepare(options, hashes, r, previous, predecessor);
      if prepared.Err? {
        return Err(prepared.error);
      }
      head := Some(Head(r, prepared.value));
      result := Ok(());
    }

    /** Move the head to the end of the schedule and give back its record. */
    method TakeRecord(ghost records: seq<Logged>) returns (record: Logged)
      requires PreparedHead(Value())
      modifies `head, `entries, `assignedBytes, `reservedBytes
      ensures var p := old(head).value.prepared.value;
              && record == Logged(p.command, p.bytes)
              && head.None? && entries != []
              && Value() == Assign(old(Value())).(log := old(log))
              && Pending(records + [record]) == Assign(old(Pending(records)))
    {
      var p := head.value.prepared.value;
      var digest := hashes.sha(p.bytes);
      var dependencies := [];
      var inputs := ReadScopes(p.command);
      for k := 0 to |entries|
        invariant unchanged(this)
        invariant dependencies == Blocking(entries[..k], inputs)
      {
        assert entries[..k + 1][..k] == entries[..k];
        if entries[k].outcome.None? && OverlapsAny(entries[k].writes, inputs) {
          dependencies := dependencies + [entries[k].sequence];
        }
      }
      assert entries[..|entries|] == entries;
      assignedBytes := assignedBytes + |p.bytes|;
      reservedBytes := reservedBytes + p.reservation;
      entries := entries + [Entry(p.sequence, digest, WriteScopes(p.command), dependencies, Some(p.command), None,
        |p.bytes|, p.reservation)];
      head := None;
      record := Logged(p.command, p.bytes);
      assert log + (records + [record]) == log + records + [record];
    }

    /** What the next head of a group is prepared against: the last entry, which is not yet durable. */
    function Last(): (nat, ByteString)
      requires entries != []
      reads `entries
    {
      (entries[|entries| - 1].sequence, entries[|entries| - 1].digest)
    }

    /** The machine as it will be once the records of the current group are durable. */
    ghost function Pending(records: seq<Logged>): Machine
      reads this
    {
      Value().(log := log + records)
    }

    /** Poll the queue for the next head of a group. */
    method NextHead(queue: seq<Request>, calm: nat, ghost records: seq<Logged>) returns (poll: Poll)
      requires head.None? && entries != [] && Invariant(Pending(records))
      modifies `head
      ensures PollQueue(old(Pending(records)), queue, calm).Prepared? ==>
                poll.Prepared? && PollQueue(old(Pending(records)), queue, calm).machine == Pending(records)
      ensures !PollQueue(old(Pending(records)), queue, calm).Prepared? ==>
                poll == PollQueue(old(Pending(records)), queue, calm) && head == None
    {
      hide Invariant, Prepare;
      if calm == 0 || queue == [] {
        return Quiet;
      }
      var request := queue[0];
      if !request.command.Transaction? {
        return Stopped(request);
      }
      LastIsTail(Pending(records));
      var result := PrepareHead(request, Last().0, Last().1);
      poll := if result.Err? then Rejected(result.error) else Poll.Prepared(Value());
    }

    /**
     Register a group: assign the prepared head and whatever follows it in the queue,
     then make all of it durable at once. A fatal failure leaves the log as it was.
     */
    method Register(queue: seq<Request>, calm: nat)
      returns (rest: seq<Request>, barrier: Option<Request>, failure: Option<Error>)
      requires Invariant(Value()) && PreparedHead(Value()) && Fits(Value())
      requires forall r :: r in queue ==> ValidRequest(r)
      modifies `log, `head, `entries, `assignedBytes, `reservedBytes
      ensures var i := Intakes(old(Value()), queue, 1 + if |queue| < 63 then |queue| else 63, calm);
              && rest == i.queue && barrier == i.barrier && failure == i.failure
              && (failure.None? ==> Value() == i.machine && Invariant(Value()))
              && (failure.Some? ==> log == old(log))
    {
      hide Invariant, Prepare, Fits, ValidRequest, Intakes, TakeHead, PollQueue, Assign, Fatal, HeadFits, DigestAt;
      rest, barrier, failure := queue, None, None;
      var records := [];
      var rounds: nat := 1 + if |queue| < 63 then |queue| else 63;
      var polls: nat := calm;
      assert Pending(records) == Value();
      IntakesKeep(Value(), queue, rounds, calm);
      ghost var goal := Intakes(Value(), queue, rounds, calm);
      while rounds > 0
        invariant log == old(log) && (head.None? || PreparedHead(Value()))
        invariant Invariant(Pending(records))
        invariant entries != [] || head.Some?
        invariant forall r :: r in rest ==> r in queue
        invariant barrier == None && failure == None
        invariant goal == Intakes(Pending(records), rest, rounds, polls)
        decreases rounds
      {
        if head.None? {
          PollKeeps(Pending(records), rest, polls);
          IntakesStep(Pending(records), rest, rounds, polls);
          var poll := NextHead(rest, polls, records);
          if poll.Quiet? {
            break;
          }
          rest, polls := rest[1..], polls - 1;
          if poll.Stopped? {
            barrier := Some(poll.request);
            break;
          }
          if poll.Rejected? {
            if Fatal(poll.error) {
              failure := Some(poll.error);
              return;
            }
            rounds := rounds - 1;
            continue;
          }
        } else {
          TakeHeadStep(Pending(records), rest, rounds, polls);
        }
        HeadStep(Pending(records), rest, rounds, polls);
        if !HeadFits(records) {
          break;
        }
        AssignKeeps(Pending(records));
        var record := TakeRecord(records);
        records := records + [record];
        rounds := rounds - 1;
      }
      if rounds == 0 {
        IntakesDone(Pending(records), rest, polls);
      }
      log := log + records;
    }

    predicate HeadFits(ghost records: seq<Logged>)
      requires PreparedHead(Value())
      reads this
      ensures HeadFits(records) == Fits(Pending(records))
    {
      var p := head.value.prepared.value;
      !(|entries| >= options.backlogCount
        || assignedBytes + |p.bytes| > options.backlogBytes
        || reservedBytes + p.reservation > options.executionBytes)
    }

    /** Hand ready records to idle workers until either runs out. */
    method Dispatch() returns (progress: bool)
      requires Invariant(Value())
      modifies `entries, `workers
      ensures Value() == DispatchFrom(old(Value()), 0)
      ensures Invariant(Value()) && (AllBusy(Value(), |workers|) || NoneReady(Value()))
      ensures !progress ==> Value() == old(Value())
    {
      hide Invariant, Ready;
      progress := false;
      DispatchExhausts(Value(), 0);
      var w := 0;
      while w < |workers|
        invariant w <= |workers| == |old(workers)|
        invariant DispatchFrom(old(Value()), 0) == DispatchFrom(Value(), w)
        invariant !progress ==> Value() == old(Value())
      {
        if workers[w].Idle? {
          var found := FirstReady(Value(), 0);
          if found.None? {
            break;
          }
          var e := entries[found.value];
          ReadyIsPrepared(Value(), found.value);
          entries := entries[found.value := e.(prepared := None)];
          workers := workers[w := Running(Job(e.sequence, e.prepared.value, versions))];
          progress := true;
        }
        w := w + 1;
      }
    }

    /** Mark entry `i` resolved and drop its sequence from every dependency list. */
    method ResolveEntry(i: nat, outcome: Outcome)
      requires i < |entries|
      modifies `entries
      ensures entries == Resolve(old(entries), i, outcome)
    {
      var n := entries[i].sequence;
      entries := entries[i := entries[i].(outcome := Some(outcome), writes := [])];
      ghost var before, marked := old(entries), entries;
      var k := 0;
      while k < |entries|
        invariant k <= |entries| == |before|
        invariant forall j :: k <= j < |entries| ==> entries[j] == marked[j]
        invariant forall j :: 0 <= j < k ==>
                    entries[j] == marked[j].(dependencies := Without(marked[j].dependencies, n))
      {
        entries := entries[k := entries[k].(dependencies := Without(entries[k].dependencies, n))];
        k := k + 1;
      }
    }

    /** Install the oldest queued completion in place. */
    method InstallNext() returns (result: Result<()>)
      requires HasCompletion(Value())
      modifies `workers, `completed, `versions, `outcomes, `entries
      ensures match InstallOne(old(Value()))
              case Ok(next) => result == Ok(()) && Value() == next
              case Err(e) => result == Err(e)
    {
      hide Install, Resolve, FindEntry;
      var w := completed[0];
      var n, outcome := workers[w].sequence, workers[w].outcome;
      workers, completed := workers[w := Idle], completed[1..];
      var found := FindEntry(entries, n);
      if found.None? {
        return Err(InvalidInput);
      }
      if n <= checkpoint || n in outcomes {
        return Err(InvalidInput);
      }
      var i := found.value;
      versions := Install(versions, n, outcome);
      outcomes := outcomes[n := Resolution(entries[i].digest, outcome)];
      ResolveEntry(i, outcome);
      result := Ok(());
    }

    /** Install every queued completion, then advance, checkpoint and release. */
    method Complete() returns (result: Result<()>)
      requires Invariant(Value()) && completed != []
      modifies this
      ensures result == Ok(())
      ensures InstallAll(old(Value()), |old(completed)|).Ok?
      ensures var installed := InstallAll(old(Value()), |old(completed)|).value;
              CanRelease(installed) && Value() == Finish(installed)
      ensures Invariant(Value())
    {
      hide Invariant, InstallOne, HasCompletion, CanRelease, Finish, Shape, CountersOk, UpTo, OutcomesUpTo;
      var queued := |completed|;
      CompletionsKeep(Value(), queued);
      var index := 0;
      while index < queued
        invariant index <= queued == |old(completed)| && |completed| == queued - index
        invariant Invariant(Value())
        invariant InstallAll(old(Value()), queued) == InstallAll(Value(), queued - index)
      {
        InstallKeeps(Value());
        var r := InstallNext();
        if r.Err? {
          return r;
        }
        index := index + 1;
      }
      ReleaseReady(Value());
      Release();
      result := Ok(());
    }

    /** Move the frontier over the resolved prefix of the schedule. */
    method AdvanceFrontier() returns (k: nat)
      requires Shape(Value())
      modifies `frontier
      ensures k == LeadingResolved(entries) && frontier == old(frontier) + k
    {
      ghost var m := Value();
      k := 0;
      while k < |entries| && entries[k].outcome.Some?
        invariant k <= |entries|
        invariant forall j :: 0 <= j < k ==> entries[j].outcome.Some?
        invariant frontier == m.frontier + k
      {
        assert Placed(m, k);
        frontier := entries[k].sequence;
        k := k + 1;
      }
      LeadingIs(m.entries, k);
    }

    /** Pop and answer every entry at or below the frontier. */
    method ReleasePrefix(ghost k: nat)
      requires k <= |entries| && forall i :: 0 <= i < k ==> entries[i].outcome.Some?
      requires forall i :: 0 <= i < |entries| ==> (entries[i].sequence <= frontier <==> i < k)
      requires SumBytes(entries) <= assignedBytes && SumReservations(entries) <= reservedBytes
      modifies `entries, `assignedBytes, `reservedBytes, `receipts
      ensures entries == old(entries)[k..]
      ensures assignedBytes == old(assignedBytes) - SumBytes(old(entries)[..k])
      ensures reservedBytes == old(reservedBytes) - SumReservations(old(entries)[..k])
      ensures receipts == Send(old(receipts), old(entries)[..k])
    {
      ghost var all, released: nat := entries, 0;
      while entries != [] && entries[0].sequence <= frontier
        invariant released <= k && entries == all[released..]
        invariant assignedBytes == old(assignedBytes) - SumBytes(all[..released])
        invariant reservedBytes == old(reservedBytes) - SumReservations(all[..released])
        invariant receipts == Send(old(receipts), all[..released])
        decreases |entries|
      {
        var e := entries[0];
        assert e == all[released];
        SumFits(all, released, k);
        entries := entries[1..];
        assignedBytes, reservedBytes := assignedBytes - e.bytes, reservedBytes - e.reservation;
        assert all[..released + 1][..released] == all[..released];
        receipts := receipts[e.sequence := e.outcome.value];
        released := released + 1;
      }
      assert released < |all| ==> entries != [] && entries[0] == all[released];
    }

    /** The end of `complete`. */
    method Release()
      requires Shape(Value()) && CountersOk(Value()) && CanRelease(Value())
      requires UpTo(versions, |log|) == versions && OutcomesUpTo(outcomes, |log|) == outcomes
      modifies `frontier, `entries, `assignedBytes, `reservedBytes, `receipts, `checkpoint, `checkpointDigest, `image
      ensures Value() == Finish(old(Value()))
    {
      hide *;
      ghost var m := Value();
      ValueIs();
      var k := AdvanceFrontier();
      FinishIs(m, k, m.frontier + k - m.checkpoint >= m.options.interval);
      ReleaseFacts(m, k);
      if k > 0 {
        ReleaseVisible(k);
      }
      ValueIs();
    }

    /** The frontier has moved over `k` entries: checkpoint if that is due, then release them. */
    method ReleaseVisible(k: nat)
      requires 0 < k <= |entries| && forall i :: 0 <= i < k ==> entries[i].outcome.Some?
      requires forall i :: 0 <= i < |entries| ==> (entries[i].sequence <= frontier <==> i < k)
      requires SumBytes(entries) <= assignedBytes && SumReservations(entries) <= reservedBytes
      requires checkpoint <= frontier
      requires UpTo(versions, |log|) == versions && OutcomesUpTo(outcomes, |log|) == outcomes
      modifies `entries, `assignedBytes, `reservedBytes, `receipts, `checkpoint, `checkpointDigest, `image
      ensures var due := frontier - old(checkpoint) >= options.interval;
              && checkpoint == (if due then frontier else old(checkpoint))
              && checkpointDigest == (if due then old(entries)[k - 1].digest else old(checkpointDigest))
              && image == if due then Image(UpTo(versions, frontier), OutcomesUpTo(outcomes, frontier)) else old(image)
      ensures entries == old(entries)[k..]
      ensures assignedBytes == old(assignedBytes) - SumBytes(old(entries)[..k])
      ensures reservedBytes == old(reservedBytes) - SumReservations(old(entries)[..k])
      ensures receipts == Send(old(receipts), old(entries)[..k])
    {
      hide *;
      if frontier - checkpoint >= options.interval {
        PublishAt(frontier, entries[k - 1].digest);
      }
      ReleasePrefix(k);
    }

    /** Publish the roots at `n`; at the end of the log the live roots are those roots. */
    method PublishAt(n: nat, digest: ByteString)
      requires UpTo(versions, |log|) == versions && OutcomesUpTo(outcomes, |log|) == outcomes
      modifies `checkpoint, `checkpointDigest, `image
      ensures checkpoint == n && checkpointDigest == digest
      ensures image == Image(UpTo(versions, n), OutcomesUpTo(outcomes, n))
    {
      hide *;
      var roots: Image;
      if n == |log| {
        roots := Image(versions, outcomes);
      } else {
        roots := Image(UpTo(versions, n), OutcomesUpTo(outcomes, n));
      }
      checkpoint, checkpointDigest, image := n, digest, roots;
    }

    /** Make one record durable, install its outcome and publish the result. */
    method InstallRecord(n: nat, command: Command, bytes: ByteString) returns (outcome: Outcome)
      requires n > 0
      modifies `log, `versions, `outcomes, `frontier, `receipts, `checkpoint, `checkpointDigest, `image
      ensures outcome == Execute(command, old(versions), n)
      ensures log == old(log) + [Logged(command, bytes)]
      ensures versions == Install(old(versions), n, outcome)
      ensures outcomes == old(outcomes)[n := Resolution(hashes.sha(bytes), outcome)]
      ensures checkpoint == frontier == n && checkpointDigest == hashes.sha(bytes)
      ensures image == Image(UpTo(versions, n), OutcomesUpTo(outcomes, n))
      ensures receipts == old(receipts)[n := outcome]
    {
      hide *;
      var digest := hashes.sha(bytes);
      log := log + [Logged(command, bytes)];
      outcome := Execute(command, versions, n);
      versions, outcomes := Install(versions, n, outcome), outcomes[n := Resolution(digest, outcome)];
      frontier, receipts := n, receipts[n := outcome];
      checkpoint, checkpointDigest, image := n, digest, Image(UpTo(versions, n), OutcomesUpTo(outcomes, n));
    }

    /** `commit`: append, execute, install and publish one record with nothing else in flight. */
    method CommitRecord(r: Request) returns (result: Result<Outcome>)
      modifies `log, `versions, `outcomes, `frontier, `receipts, `checkpoint, `checkpointDigest, `image
      ensures match Commit(old(Value()), r)
              case Ok(next) => result == Ok(next.receipts[next.frontier]) && Value() == next
              case Err(e) => result == Err(e) && Value() == old(Value())
    {
      hide Execute, Install, UpTo, OutcomesUpTo, Envelope;
      if checkpoint != |log| {
        return Err(NeedsRecovery);
      }
      var n :- NextSequence(|log|);
      var predecessor := if log == [] then origin else hashes.sha(log[|log| - 1].bytes);
      var bytes :- Envelope(hashes, n, predecessor, r.kind, r.body);
      var outcome := InstallRecord(n, r.command, bytes);
      result := Ok(outcome);
    }

    /** `publish_checkpoint`, when the drained checkpoint trails. */
    method PublishDurable()
      requires UpTo(versions, |log|) == versions && OutcomesUpTo(outcomes, |log|) == outcomes
      modifies `checkpoint, `checkpointDigest, `image
      ensures Value() == Drain(old(Value()))
    {
      hide UpTo, OutcomesUpTo;
      if checkpoint != frontier {
        PublishAt(|log|, if log == [] then origin else hashes.sha(log[|log| - 1].bytes));
      }
    }

    /** The administrative arm of `run`: the head executes alone, after everything before it. */
    method Administer() returns (result: Result<Outcome>)
      requires Invariant(Value()) && entries == [] && head.Some? && head.value.prepared.None?
      modifies this
      ensures Value() == Barrier(old(Value())) && Invariant(Value()) && Settled(Value())
      ensures result.Ok? <==> Room(old(Value()), old(head).value.request)
      ensures result.Ok? ==>
                && |log| == |old(log)| + 1 && log[..|old(log)|] == old(log)
                && log[|old(log)|].command == old(head).value.request.command
                && result.value == SerialOutcome(genesis, log, |log|)
      ensures result.Err? ==>
                && log == old(log)
                && result.error == if |log| + 1 >= 0xFFFF_FFFF_FFFF_FFFF then Exhausted else InvalidInput
    {
      hide Invariant, Settled, Shape, CountersOk, UpTo, OutcomesUpTo, Drain, Commit, SerialOutcome;
      ghost var m := Value();
      BarrierKeeps(m);
      BarrierCommit(m);
      ReleaseReady(m);
      PublishDurable();
      var request := head.value.request;
      head := None;
      assert Value() == Drain(m).(head := None);
      result := CommitRecord(request);
    }

    /**
     Execute the log past the published image, checking each retained record against
     the checkpoint; `first` is the oldest record the log still holds.
     */
    method ReplayLog(first: nat) returns (result: Result<()>)
      requires 0 < first <= checkpoint + 1 && checkpoint <= |log|
      requires checkpointDigest == DigestAt(Value(), checkpoint)
      requires forall n :: n in image.outcomes ==> n <= |log| && image.outcomes[n].digest == DigestAt(Value(), n)
      modifies `versions, `outcomes
      ensures result == Ok(())
      ensures Replay(versions, outcomes) == ReplayTo(old(Value()), checkpoint, |log|)
    {
      hide Execute, Install;
      ghost var m := Value();
      versions, outcomes := image.versions, image.outcomes;
      var resolved := checkpoint;
      var predecessor := if first == 1 then origin else hashes.sha(log[first - 2].bytes);
      var n := first;
      while n <= |log|
        invariant first <= n <= |log| + 1
        invariant predecessor == DigestAt(m, n - 1)
        invariant resolved == if n <= checkpoint + 1 then checkpoint else n - 1
        invariant resolved == checkpoint ==> outcomes == image.outcomes
        invariant Replay(versions, outcomes) == ReplayTo(m, checkpoint, resolved)
      {
        var digest := hashes.sha(log[n - 1].bytes);
        if n == checkpoint && digest != checkpointDigest {
          return Err(Corrupt);
        }
        if n > checkpoint {
          if n != resolved + 1 || (resolved == checkpoint && predecessor != checkpointDigest) {
            return Err(Corrupt);
          }
          var outcome := Execute(log[n - 1].command, versions, n);
          versions := Install(versions, n, outcome);
          outcomes := outcomes[n := Resolution(digest, outcome)];
          resolved := n;
        } else if n in outcomes && outcomes[n].digest != digest {
          return Err(Corrupt);
        }
        predecessor := digest;
        n := n + 1;
      }
      if resolved != |log| {
        return Err(Corrupt);
      }
      result := Ok(());
    }

    /** Nothing is assigned and every worker waits. */
    method Reset(durable: nat)
      modifies `frontier, `entries, `assignedBytes, `reservedBytes, `head, `workers, `completed
      ensures frontier == durable && entries == [] && assignedBytes == 0 && reservedBytes == 0 && head == None
      ensures workers == IdleWorkers(|old(workers)|) && completed == []
    {
      hide *;
      frontier, assignedBytes, reservedBytes := durable, 0, 0;
      entries, completed, head := [], [], None;
      workers := IdleWorkers(|workers|);
    }

    /** Open after a crash, wherever it struck: replay, then publish the end of the log as the checkpoint. */
    method Reopen(first: nat) returns (result: Result<()>)
      requires Recoverable(Value()) && 0 < first <= checkpoint + 1
      modifies this
      ensures result == Ok(())
      ensures old(checkpoint) <= |old(log)| && Value() == Recover(old(Value())) && Invariant(Value())
    {
      hide Invariant, Recoverable, ReplayTo, Recover, IdleWorkers, DigestAt;
      ghost var m := Value();
      CrashInvariant(m);
      result := ReplayLog(first);
      if result.Err? {
        return;
      }
      RecoverIs(m, versions, outcomes);
      checkpointDigest := if log == [] then origin else hashes.sha(log[|log| - 1].bytes);
      checkpoint, image := |log|, Image(versions, outcomes);
      Reset(checkpoint);
    }
  }
}
