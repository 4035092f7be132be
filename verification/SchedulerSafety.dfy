/**
 What every step of the scheduler keeps: the installed versions and outcomes are
 those of the serial run of the log, whatever the order of dispatch, completion,
 checkpoint and crash.
 */
module SchedulerSafety {
  import opened Common
  import opened Bytes
  import opened Versions
  import opened Serial
  import opened Records
  import opened Scheduler
  import Access

  // ---------------------------------------------------------------- stores

  /** A store that holds every done version of an address reads it as the serial store does. */
  lemma HoldsReads(versions: Store, serial: Store, floor: nat, done: set<nat>, a: Address, n: nat)
    requires Holds(versions, serial, floor, done) && n >= floor
    requires forall k :: floor < k <= n && Version(a, k) in serial ==> k in done
    ensures NewestSequence(versions, a, n) == NewestSequence(serial, a, n)
    ensures Newest(versions, a, n) == Newest(serial, a, n)
    ensures Read(versions, a, n) == Read(serial, a, n)
  {
    NewestSequenceIs(serial, a, n);
    NewestSequenceIs(versions, a, n);
    match NewestSequence(serial, a, n)
    case None =>
    case Some(k) =>
      if k <= floor {
        NewestSequenceUnique(serial, a, floor, k);
      }
      assert Version(a, k) in versions;
      NewestSequenceUnique(versions, a, n, k);
  }

  /** A store that holds nothing past `d` agrees with any longer serial run. */
  lemma HoldsLonger(versions: Store, serial: Store, longer: Store, floor: nat, done: set<nat>, d: nat)
    requires Holds(versions, serial, floor, done) && floor <= d
    requires serial == UpTo(longer, d)
    requires forall k :: k in done ==> k <= d
    ensures Holds(versions, longer, floor, done)
  {
    forall v | v in longer && NewestSequence(longer, v.address, floor) == Some(v.sequence)
      ensures v in versions
    {
      UpToReads(longer, d, v.address, floor);
      NewestSequenceIs(longer, v.address, floor);
      assert v in serial;
    }
  }

  ghost predicate WrittenBy(serial: Store, n: nat, o: Outcome) {
    forall v: Version :: v.sequence == n ==>
      (v in serial <==> v.address in o.Effects()) && (v in serial ==> serial[v] == o.Effects()[v.address])
  }

  /** Installing the serial outcome of a record adds it to the records held. */
  lemma HoldsInstall(versions: Store, serial: Store, floor: nat, done: set<nat>, n: nat, o: Outcome)
    requires Holds(versions, serial, floor, done) && floor < n
    requires WrittenBy(serial, n, o)
    ensures Holds(Install(versions, n, o), serial, floor, done + {n})
  {
    forall v: Version
      ensures v in Install(versions, n, o) ==>
                v in serial && Install(versions, n, o)[v] == serial[v] && v.sequence in done + {n}
      ensures v in serial && v.sequence > floor && v.sequence in done + {n} ==> v in Install(versions, n, o)
      ensures v in serial && NewestSequence(serial, v.address, floor) == Some(v.sequence) ==>
              v in Install(versions, n, o)
    {
      InstallMembers(versions, n, o, v);
    }
  }

  lemma HoldsUpTo(versions: Store, serial: Store, floor: nat, done: set<nat>, n: nat)
    requires Holds(versions, serial, floor, done) && floor <= n
    requires forall k: nat :: k <= n ==> k in done
    ensures Holds(UpTo(versions, n), serial, floor, Below(n))
  {
    forall v | v in UpTo(versions, n)
      ensures v.sequence in Below(n)
    {
      assert AtOrBelow(v.sequence, n);
    }
    forall v | v in serial && NewestSequence(serial, v.address, floor) == Some(v.sequence)
      ensures v in UpTo(versions, n)
    {
      NewestSequenceIs(serial, v.address, floor);
    }
  }

  /** Raising the floor keeps the baseline of every address. */
  lemma HoldsCollect(versions: Store, serial: Store, floor: nat, done: set<nat>, above: nat)
    requires Holds(versions, serial, floor, done) && floor <= above
    requires forall k: nat :: k <= above ==> k in done
    ensures Holds(Collect(versions, above), serial, above, done)
  {
    forall v | v in serial && NewestSequence(serial, v.address, above) == Some(v.sequence)
      ensures v in Collect(versions, above)
    {
      HoldsReads(versions, serial, floor, done, v.address, above);
      NewestSequenceIs(versions, v.address, above);
      assert v == Version(v.address, v.sequence);
    }
  }

  // ---------------------------------------------------------------- serial facts

  lemma SerialReads(m: Machine, a: Address, k: nat, n: nat)
    requires k <= n <= |m.log|
    ensures Read(SerialAt(m, n), a, k) == Read(SerialAt(m, k), a, k)
    ensures Newest(SerialAt(m, n), a, k) == Newest(SerialAt(m, k), a, k)
  {
    SerialUpTo(m.genesis, m.log, k, n);
    UpToReads(SerialAt(m, n), k, a, k);
  }

  /** Every version of the serial store was written by the record of its sequence. */
  lemma SerialWriter(m: Machine, v: Version)
    requires LogOk(m) && v in SerialAt(m, |m.log|) && v.sequence > 0
    ensures v.sequence <= |m.log| && Writes(m.log[v.sequence - 1].command, v.address)
  {
    SerialVersions(m.genesis, m.log, |m.log|, v);
    var c := m.log[v.sequence - 1].command;
    assert Contract(c);
    assert OutcomeAt(m, v.sequence) == c.run(View(SerialAt(m, v.sequence - 1), v.sequence - 1));
  }

  lemma SerialWrittenBy(m: Machine, n: nat)
    requires 0 < n <= |m.log|
    ensures WrittenBy(SerialAt(m, |m.log|), n, OutcomeAt(m, n))
  {
    forall v: Version | v.sequence == n
      ensures v in SerialAt(m, |m.log|) <==> v.address in OutcomeAt(m, n).Effects()
      ensures v in SerialAt(m, |m.log|) ==> SerialAt(m, |m.log|)[v] == OutcomeAt(m, n).Effects()[v.address]
    {
      SerialVersions(m.genesis, m.log, |m.log|, v);
    }
  }

  /** An unresolved entry waits for every earlier unresolved entry that may write what it reads. */
  lemma WaitsForWriter(m: Machine, i: nat, j: nat, a: Address)
    requires Shape(m) && EntriesOk(m)
    requires j < i < |m.entries| && m.entries[i].outcome.None? && m.entries[j].outcome.None?
    requires Writes(m.log[m.frontier + j].command, a) && Reads(m.log[m.frontier + i].command, a)
    ensures m.frontier + j + 1 in m.entries[i].dependencies
  {
    hide SerialStore, SerialOutcome;
    var c := m.log[m.frontier + i].command;
    assert Placed(m, i) && Placed(m, j) && EntryOk(m, i) && EntryOk(m, j);
    NoSharedAddress(m.log[m.frontier + j].command, c, a);
    assert WaitsFor(m.entries[i], m.entries[j], ReadScopes(c));
  }

  lemma ReadableWriterDone(m: Machine, i: nat, a: Address, k: nat)
    requires Shape(m) && EntriesOk(m)
    requires i < |m.entries| && m.entries[i].outcome.None? && m.entries[i].dependencies == []
    requires Reads(m.log[m.frontier + i].command, a)
    requires 0 < k <= m.frontier + i && Writes(m.log[k - 1].command, a)
    ensures !Unresolved(m, k)
  {
    if Unresolved(m, k) {
      WaitsForWriter(m, i, k - m.frontier - 1, a);
    }
  }

  /** Where every version a read can see is installed, the live store reads as the serial run. */
  lemma HeldReads(m: Machine, a: Address, n: nat)
    requires StoreOk(m) && m.floor <= n <= |m.log|
    requires forall k: nat :: m.floor < k <= n && Version(a, k) in SerialAt(m, |m.log|) ==> !Unresolved(m, k)
    ensures Read(m.versions, a, n) == Read(SerialAt(m, n), a, n)
  {
    var serial := SerialAt(m, |m.log|);
    forall k | m.floor < k <= n && Version(a, k) in serial
      ensures k in Installed(m)
    {
      assert !Unresolved(m, k);
    }
    HoldsReads(m.versions, serial, m.floor, Installed(m), a, n);
    SerialReads(m, a, n, |m.log|);
  }

  /**
   An unresolved record whose dependencies are gone reads, from the live store, what
   the serial run reads: every earlier writer it could see is installed.
   */
  lemma ReadyReads(m: Machine, i: nat, a: Address)
    requires LogOk(m) && Shape(m) && EntriesOk(m) && StoreOk(m)
    requires i < |m.entries| && m.entries[i].outcome.None? && m.entries[i].dependencies == []
    requires Reads(m.log[m.frontier + i].command, a)
    ensures var n := m.frontier + i; Read(m.versions, a, n) == Read(SerialAt(m, n), a, n)
  {
    hide SerialStore, SerialOutcome, StoreOk, EntriesOk, LogOk, Reads, Writes, Read, Unresolved;
    var n := m.frontier + i;
    forall k: nat | m.floor < k <= n && Version(a, k) in SerialAt(m, |m.log|)
      ensures !Unresolved(m, k)
    {
      SerialWriter(m, Version(a, k));
      ReadableWriterDone(m, i, a, k);
    }
    HeldReads(m, a, n);
  }

  // ---------------------------------------------------------------- frames

  /** Steps that leave the log alone. */
  ghost predicate SameLog(m: Machine, next: Machine) {
    && next.options == m.options && next.hashes == m.hashes && next.genesis == m.genesis
    && next.origin == m.origin && next.log == m.log
  }

  /** No record is resolved or released. */
  ghost predicate SameProgress(m: Machine, next: Machine) {
    && next.frontier == m.frontier
    && |next.entries| == |m.entries|
    && forall i :: 0 <= i < |m.entries| ==> next.entries[i].outcome == m.entries[i].outcome
  }

  lemma ProgressFrame(m: Machine, next: Machine)
    requires SameLog(m, next) && SameProgress(m, next)
    ensures forall n: nat :: Unresolved(next, n) <==> Unresolved(m, n)
    ensures Installed(next) == Installed(m)
  {
  }

  lemma ResolutionsFrame(m: Machine, next: Machine, outcomes: map<nat, Resolution>, done: set<nat>)
    requires SameLog(m, next) && next.floor == m.floor
    requires Resolutions(m, outcomes, done)
    ensures Resolutions(next, outcomes, done)
  {
    forall n | n in outcomes
      ensures ResolutionOk(next, n, outcomes[n])
    {
      assert ResolutionOk(m, n, outcomes[n]);
    }
  }

  lemma LogFrame(m: Machine, next: Machine)
    requires SameLog(m, next) && LogOk(m)
    ensures LogOk(next)
  {
    forall i | 0 <= i < |next.log|
      ensures LinkedAt(next, i)
    {
      assert LinkedAt(m, i);
    }
  }

  lemma HeadFrame(m: Machine, next: Machine)
    requires SameLog(m, next) && next.head == m.head && HeadOk(m)
    ensures HeadOk(next)
  {
    if PreparedHead(next) {
      assert NextRecord(m, m.head.value.prepared.value);
    }
  }

  lemma ImageFrame(m: Machine, next: Machine)
    requires SameLog(m, next) && next.floor == m.floor && next.image == m.image && next.checkpoint == m.checkpoint
    requires ImageOk(m)
    ensures ImageOk(next)
  {
    ResolutionsFrame(m, next, m.image.outcomes, Below(m.checkpoint));
  }

  lemma ReceiptsFrame(m: Machine, next: Machine)
    requires SameLog(m, next) && next.receipts == m.receipts && m.frontier <= next.frontier <= |next.log|
    requires ReceiptsOk(m)
    ensures ReceiptsOk(next)
  {
  }

  // ---------------------------------------------------------------- dispatch

  lemma SumsUpdate(entries: seq<Entry>, i: nat, e: Entry)
    requires i < |entries| && e.bytes == entries[i].bytes && e.reservation == entries[i].reservation
    ensures SumBytes(entries[i := e]) == SumBytes(entries)
    ensures SumReservations(entries[i := e]) == SumReservations(entries)
  {
    var k := |entries| - 1;
    if i < k {
      SumsUpdate(entries[..k], i, e);
      assert entries[i := e][..k] == entries[..k][i := e];
    } else {
      assert entries[i := e][..k] == entries[..k];
    }
  }

  lemma DispatchEntries(m: Machine, w: nat, i: nat)
    requires Shape(m) && EntriesOk(m)
    requires w < |m.workers| && i < |m.entries| && Ready(m, m.entries[i])
    ensures SameProgress(m, DispatchTo(m, w, i))
    ensures Shape(DispatchTo(m, w, i)) && EntriesOk(DispatchTo(m, w, i))
  {
    hide SerialStore, SerialOutcome;
    var next := DispatchTo(m, w, i);
    ProgressFrame(m, next);
    forall j | 0 <= j < |next.entries|
      ensures Placed(next, j)
    {
      assert Placed(m, j);
    }
    forall j | 0 <= j < |next.entries|
      ensures EntryOk(next, j)
    {
      DispatchEntry(m, next, i, j);
    }
  }

  lemma DispatchEntry(m: Machine, next: Machine, i: nat, j: nat)
    requires Shape(m) && SameLog(m, next) && SameProgress(m, next) && j < |m.entries|
    requires i < |m.entries| && next.entries == m.entries[i := m.entries[i].(prepared := None)]
    requires m.entries[i].dependencies == []
    requires EntryOk(m, j)
    ensures EntryOk(next, j)
  {
    hide SerialStore, SerialOutcome;
    ProgressFrame(m, next);
    var inputs := ReadScopes(m.log[m.frontier + j].command);
    forall k | 0 <= k < j && next.entries[j].outcome.None?
      ensures WaitsFor(next.entries[j], next.entries[k], inputs)
    {
      assert WaitsFor(m.entries[j], m.entries[k], inputs);
    }
  }

  lemma DispatchTaken(m: Machine, w: nat, i: nat, k: nat)
    requires Shape(m)
    requires w < |m.workers| && i < |m.entries| && m.entries[i].prepared.Some? && m.entries[i].outcome.None?
    ensures Taken(DispatchTo(m, w, i), k) <==> Taken(m, k) || k == m.entries[i].sequence
  {
    assert Placed(m, i);
  }

  lemma DispatchExclusive(workers: seq<Worker>, w: nat, job: Job)
    requires w < |workers| && workers[w].Idle? && Exclusive(workers) && !HeldBy(workers, job.sequence)
    ensures Exclusive(workers[w := Running(job)])
  {
  }

  lemma DispatchQueue(workers: seq<Worker>, completed: seq<nat>, w: nat, job: Job)
    requires w < |workers| && workers[w].Idle? && QueueOk(workers, completed)
    ensures QueueOk(workers[w := Running(job)], completed)
  {
  }

  lemma HeldByDispatch(workers: seq<Worker>, w: nat, job: Job, n: nat)
    requires w < |workers| && workers[w].Idle?
    ensures HeldBy(workers[w := Running(job)], n) <==> HeldBy(workers, n) || n == job.sequence
  {
    var next := workers[w := Running(job)];
    if HeldBy(workers, n) {
      var x :| 0 <= x < |workers| && Assigned(workers[x]) == Some(n);
      assert Assigned(next[x]) == Some(n);
    }
    if n == job.sequence {
      assert Assigned(next[w]) == Some(n);
    }
  }

  lemma HeldIsTaken(m: Machine, n: nat)
    requires forall w :: 0 <= w < |m.workers| ==> WorkerOk(m, w)
    requires HeldBy(m.workers, n)
    ensures Taken(m, n)
  {
    var w :| 0 <= w < |m.workers| && Assigned(m.workers[w]) == Some(n);
    assert WorkerOk(m, w);
  }

  lemma DispatchWorkers(m: Machine, w: nat, i: nat)
    requires LogOk(m) && Shape(m) && EntriesOk(m) && StoreOk(m) && PoolOk(m)
    requires w < |m.workers| && m.workers[w].Idle? && i < |m.entries| && Ready(m, m.entries[i])
    ensures PoolOk(DispatchTo(m, w, i))
  {
    hide SerialStore, SerialOutcome;
    var next := DispatchTo(m, w, i);
    var job := Job(m.entries[i].sequence, m.entries[i].prepared.value, m.versions);
    assert Placed(m, i) && EntryOk(m, i);
    if HeldBy(m.workers, job.sequence) {
      HeldIsTaken(m, job.sequence);
    }
    DispatchExclusive(m.workers, w, job);
    DispatchQueue(m.workers, m.completed, w, job);
    forall x | 0 <= x < |next.workers|
      ensures WorkerOk(next, x)
    {
      if x == w {
        DispatchedWorker(m, w, i);
      } else {
        OtherWorker(m, w, i, x);
      }
    }
    forall k: nat | Taken(next, k)
      ensures HeldBy(next.workers, k)
    {
      DispatchTaken(m, w, i, k);
      HeldByDispatch(m.workers, w, job, k);
    }
  }

  lemma OtherWorker(m: Machine, w: nat, i: nat, x: nat)
    requires Shape(m) && w < |m.workers| && i < |m.entries|
    requires m.entries[i].prepared.Some? && m.entries[i].outcome.None?
    requires x < |m.workers| && x != w && WorkerOk(m, x)
    ensures WorkerOk(DispatchTo(m, w, i), x)
  {
    hide SerialStore, SerialOutcome;
    if Assigned(m.workers[x]).Some? {
      DispatchTaken(m, w, i, Assigned(m.workers[x]).value);
    }
  }

  lemma DispatchedView(m: Machine, i: nat)
    requires LogOk(m) && Shape(m) && EntriesOk(m) && StoreOk(m)
    requires i < |m.entries| && m.entries[i].outcome.None? && m.entries[i].dependencies == []
    ensures ViewOk(Job(m.frontier + i + 1, m.log[m.frontier + i].command, m.versions), SerialAt(m, m.frontier + i))
  {
    hide LogOk, EntriesOk, StoreOk, SerialStore, SerialOutcome, Reads, Read, Placed;
    var n, c := m.frontier + i, m.log[m.frontier + i].command;
    forall a | Reads(c, a)
      ensures Read(m.versions, a, n) == Read(SerialAt(m, n), a, n)
    {
      ReadyReads(m, i, a);
    }
  }

  /** The view captured at dispatch reads what the serial run reads. */
  lemma DispatchedWorker(m: Machine, w: nat, i: nat)
    requires LogOk(m) && Shape(m) && EntriesOk(m) && StoreOk(m)
    requires w < |m.workers| && i < |m.entries| && Ready(m, m.entries[i])
    ensures WorkerOk(DispatchTo(m, w, i), w)
  {
    hide LogOk, StoreOk, SerialStore, SerialOutcome, ViewOk, Reads;
    assert Placed(m, i) && EntryOk(m, i);
    DispatchTaken(m, w, i, m.entries[i].sequence);
    DispatchedView(m, i);
  }

  lemma DispatchKeeps(m: Machine, w: nat, i: nat)
    requires Invariant(m)
    requires w < |m.workers| && m.workers[w].Idle? && i < |m.entries| && Ready(m, m.entries[i])
    ensures Invariant(DispatchTo(m, w, i))
  {
    hide SerialStore, SerialOutcome;
    var next := DispatchTo(m, w, i);
    DispatchEntries(m, w, i);
    DispatchWorkers(m, w, i);
    SumsUpdate(m.entries, i, m.entries[i].(prepared := None));
    ProgressFrame(m, next);
    ResolutionsFrame(m, next, m.outcomes, Installed(m));
    LogFrame(m, next);
    HeadFrame(m, next);
    ImageFrame(m, next);
    ReceiptsFrame(m, next);
  }

  // ---------------------------------------------------------------- workers

  lemma OutcomeIs(m: Machine, n: nat)
    requires 0 < n <= |m.log|
    ensures OutcomeAt(m, n) == Execute(m.log[n - 1].command, SerialAt(m, n - 1), n)
    ensures SerialAt(m, n) == Install(SerialAt(m, n - 1), n, OutcomeAt(m, n))
  {
  }

  lemma WorkedOutcome(m: Machine, w: nat)
    requires LogOk(m) && w < |m.workers| && m.workers[w].Running? && WorkerOk(m, w)
    ensures m.workers[w].job.sequence > 0 && WorkerOk(Work(m, w), w)
  {
    hide SerialStore, SerialOutcome, Read;
    var job := m.workers[w].job;
    assert Contract(m.log[job.sequence - 1].command);
    OutcomeIs(m, job.sequence);
    ExecuteAgrees(job.command, job.view, SerialAt(m, job.sequence - 1), job.sequence);
    assert Taken(Work(m, w), job.sequence);
  }

  /** A worker runs its record on what the records before it left, whatever is installed by then. */
  lemma WorkSees(m: Machine, w: nat, r: Snapshot)
    requires Invariant(m) && w < |m.workers| && m.workers[w].Running?
    requires 0 < m.workers[w].job.sequence <= |m.log|
    requires Sees(r, m.workers[w].job.command, m.genesis,
                  SerialOutcomes(m.genesis, m.log, m.workers[w].job.sequence - 1))
    ensures Work(m, w).workers[w] == Done(m.workers[w].job.sequence, m.workers[w].job.command.run(r))
  {
    hide SerialStore, SerialOutcome, EntriesOk, HeadOk, ImageOk, Holds, Sees;
    assert WorkerOk(m, w);
    WorkedOutcome(m, w);
    OutcomeIs(m, m.workers[w].job.sequence);
    SerialSees(m.genesis, m.log, m.workers[w].job.sequence, r);
  }

  lemma WorkEntries(m: Machine, w: nat)
    requires Shape(m) && EntriesOk(m)
    requires w < |m.workers| && m.workers[w].Running? && m.workers[w].job.sequence > 0
    ensures Shape(Work(m, w)) && EntriesOk(Work(m, w))
  {
    hide SerialStore, SerialOutcome;
    var next := Work(m, w);
    ProgressFrame(m, next);
    forall j | 0 <= j < |next.entries|
      ensures Placed(next, j) && EntryOk(next, j)
    {
      assert Placed(m, j) && EntryOk(m, j);
    }
  }

  /** A worker's completion carries the serial outcome of its record. */
  lemma WorkKeeps(m: Machine, w: nat)
    requires Invariant(m)
    requires w < |m.workers| && m.workers[w].Running?
    ensures m.workers[w].job.sequence > 0 && Invariant(Work(m, w))
  {
    hide SerialStore, SerialOutcome, LogOk, EntriesOk, HeadOk, ImageOk, Holds;
    assert WorkerOk(m, w);
    WorkedOutcome(m, w);
    var next := Work(m, w);
    ProgressFrame(m, next);
    WorkedPool(m, w);
    WorkEntries(m, w);
    ResolutionsFrame(m, next, m.outcomes, Installed(m));
    LogFrame(m, next);
    HeadFrame(m, next);
    ImageFrame(m, next);
    ReceiptsFrame(m, next);
  }

  lemma WorkedExclusive(workers: seq<Worker>, w: nat, outcome: Outcome)
    requires w < |workers| && workers[w].Running? && Exclusive(workers)
    ensures Exclusive(workers[w := Done(workers[w].job.sequence, outcome)])
    ensures forall n: nat :: HeldBy(workers, n) ==> HeldBy(workers[w := Done(workers[w].job.sequence, outcome)], n)
  {
    var next := workers[w := Done(workers[w].job.sequence, outcome)];
    assert forall x :: 0 <= x < |workers| ==> Assigned(next[x]) == Assigned(workers[x]);
    forall n: nat | HeldBy(workers, n)
      ensures HeldBy(next, n)
    {
      var x :| 0 <= x < |workers| && Assigned(workers[x]) == Some(n);
      assert Assigned(next[x]) == Some(n);
    }
  }

  lemma WorkedQueue(workers: seq<Worker>, completed: seq<nat>, w: nat, outcome: Outcome)
    requires w < |workers| && workers[w].Running? && QueueOk(workers, completed)
    ensures QueueOk(workers[w := Done(workers[w].job.sequence, outcome)], completed + [w])
  {
    var next, queue := workers[w := Done(workers[w].job.sequence, outcome)], completed + [w];
    assert queue[|completed|] == w;
    forall x | 0 <= x < |next| && next[x].Done?
      ensures x in queue
    {
    }
  }

  lemma WorkedPool(m: Machine, w: nat)
    requires PoolOk(m)
    requires w < |m.workers| && m.workers[w].Running? && m.workers[w].job.sequence > 0
    requires WorkerOk(Work(m, w), w)
    ensures PoolOk(Work(m, w))
  {
    hide SerialStore, SerialOutcome;
    var next := Work(m, w);
    var job := m.workers[w].job;
    var outcome := Execute(job.command, job.view, job.sequence);
    WorkedExclusive(m.workers, w, outcome);
    WorkedQueue(m.workers, m.completed, w, outcome);
    forall x | 0 <= x < |next.workers|
      ensures WorkerOk(next, x)
    {
      if x != w {
        assert WorkerOk(m, x);
      }
    }
    forall k: nat | Taken(next, k)
      ensures HeldBy(next.workers, k)
    {
      assert Taken(m, k);
    }
  }

  // ---------------------------------------------------------------- installing

  lemma {:induction false} FindPlaced(entries: seq<Entry>, first: nat, i: nat)
    requires i < |entries|
    requires forall k :: 0 <= k < |entries| ==> entries[k].sequence == first + k
    ensures FindEntry(entries, first + i) == Some(i)
  {
    if i > 0 {
      FindPlaced(entries[1..], first + 1, i - 1);
    }
  }

  lemma {:induction false} WithoutMembers(dependencies: seq<nat>, n: nat, d: nat)
    ensures d in Without(dependencies, n) <==> d in dependencies && d != n
  {
    if dependencies != [] {
      WithoutMembers(dependencies[1..], n, d);
    }
  }

  /** Resolving entry `i` resolves exactly record `n`. */
  lemma ResolvedProgress(m: Machine, next: Machine, i: nat, outcome: Outcome)
    requires SameLog(m, next) && next.frontier == m.frontier && i < |m.entries|
    requires next.entries == Resolve(m.entries, i, outcome)
    ensures forall k: nat :: Unresolved(next, k) <==> Unresolved(m, k) && k != m.frontier + i + 1
    ensures |m.log| == m.frontier + |m.entries| ==> Installed(next) == Installed(m) + {m.frontier + i + 1}
  {
  }

  lemma ResolvedEntry(m: Machine, next: Machine, i: nat, outcome: Outcome, j: nat)
    requires Shape(m) && SameLog(m, next) && next.frontier == m.frontier && i < |m.entries|
    requires next.entries == Resolve(m.entries, i, outcome)
    requires m.entries[i].prepared.None? && outcome == OutcomeAt(m, m.frontier + i + 1)
    requires j < |m.entries| && EntryOk(m, j)
    ensures EntryOk(next, j)
  {
    hide SerialStore, SerialOutcome;
    assert Placed(m, i) && Placed(m, j);
    ResolvedProgress(m, next, i, outcome);
    var n := m.entries[i].sequence;
    var e, inputs := m.entries[j], ReadScopes(m.log[m.frontier + j].command);
    forall d
      ensures d in next.entries[j].dependencies <==> d in e.dependencies && d != n
    {
      WithoutMembers(e.dependencies, n, d);
    }
    forall k | 0 <= k < j && next.entries[j].outcome.None?
      ensures WaitsFor(next.entries[j], next.entries[k], inputs)
    {
      assert WaitsFor(e, m.entries[k], inputs);
      assert Placed(m, k);
    }
  }

  lemma {:induction false} ResolvedSums(entries: seq<Entry>, more: seq<Entry>)
    requires |entries| == |more|
    requires forall k :: 0 <= k < |entries| ==>
               entries[k].bytes == more[k].bytes && entries[k].reservation == more[k].reservation
    ensures SumBytes(entries) == SumBytes(more) && SumReservations(entries) == SumReservations(more)
  {
    if entries != [] {
      ResolvedSums(entries[..|entries| - 1], more[..|entries| - 1]);
    }
  }

  lemma ResolvedEntries(m: Machine, next: Machine, i: nat, outcome: Outcome)
    requires Shape(m) && EntriesOk(m) && SameLog(m, next) && next.frontier == m.frontier && i < |m.entries|
    requires next.floor == m.floor && next.checkpoint == m.checkpoint && next.checkpointDigest == m.checkpointDigest
    requires next.entries == Resolve(m.entries, i, outcome)
    requires m.entries[i].prepared.None? && outcome == OutcomeAt(m, m.frontier + i + 1)
    ensures Shape(next) && EntriesOk(next)
  {
    hide SerialStore, SerialOutcome;
    forall j | 0 <= j < |next.entries|
      ensures Placed(next, j) && EntryOk(next, j)
    {
      assert Placed(m, j) && EntryOk(m, j);
      ResolvedEntry(m, next, i, outcome, j);
    }
  }

  lemma PoppedQueue(workers: seq<Worker>, completed: seq<nat>)
    requires QueueOk(workers, completed) && completed != []
    ensures QueueOk(workers[completed[0] := Idle], completed[1..])
  {
    var w, next, queue := completed[0], workers[completed[0] := Idle], completed[1..];
    forall q | 0 <= q < |queue|
      ensures queue[q] < |next| && next[queue[q]].Done?
    {
      assert queue[q] == completed[q + 1];
    }
    forall x | 0 <= x < |next| && next[x].Done?
      ensures x in queue
    {
      assert x in completed;
    }
  }

  lemma PoppedHeld(workers: seq<Worker>, w: nat, k: nat)
    requires w < |workers| && HeldBy(workers, k) && Assigned(workers[w]) != Some(k)
    ensures HeldBy(workers[w := Idle], k)
  {
    var x :| 0 <= x < |workers| && Assigned(workers[x]) == Some(k);
    assert Assigned(workers[w := Idle][x]) == Some(k);
  }

  lemma InstalledPool(m: Machine, next: Machine, i: nat, outcome: Outcome)
    requires Shape(m) && PoolOk(m) && m.completed != [] && SameLog(m, next) && next.frontier == m.frontier
    requires i < |m.entries| && next.entries == Resolve(m.entries, i, outcome)
    requires next.workers == m.workers[m.completed[0] := Idle] && next.completed == m.completed[1..]
    requires m.workers[m.completed[0]].Done? && m.workers[m.completed[0]].sequence == m.frontier + i + 1
    ensures PoolOk(next)
  {
    hide SerialStore, SerialOutcome, Resolve, ViewOk, Reads;
    var w := m.completed[0];
    ResolvedProgress(m, next, i, outcome);
    assert forall k :: 0 <= k < |m.entries| ==> next.entries[k].prepared == m.entries[k].prepared by {
      ResolvedPrepared(m.entries, i, outcome);
    }
    PoppedQueue(m.workers, m.completed);
    forall x | 0 <= x < |next.workers|
      ensures WorkerOk(next, x)
    {
      assert WorkerOk(m, x);
      assert x != w ==> Assigned(m.workers[w]) != Assigned(m.workers[x]);
    }
    forall k: nat | Taken(next, k)
      ensures HeldBy(next.workers, k)
    {
      assert Taken(m, k);
      PoppedHeld(m.workers, w, k);
    }
  }

  lemma ResolvedPrepared(entries: seq<Entry>, i: nat, outcome: Outcome)
    requires i < |entries|
    ensures |Resolve(entries, i, outcome)| == |entries|
    ensures forall k :: 0 <= k < |entries| ==> Resolve(entries, i, outcome)[k].prepared == entries[k].prepared
  {
  }

  /** A queued completion belongs to an assigned record that is not resolved yet. */
  lemma CompletionFound(m: Machine)
    requires Shape(m) && StoreOk(m) && PoolOk(m) && m.completed != []
    ensures HasCompletion(m)
    ensures var n := m.workers[m.completed[0]].sequence;
            && m.frontier < n <= m.frontier + |m.entries|
            && m.workers[m.completed[0]].outcome == OutcomeAt(m, n)
            && m.entries[n - m.frontier - 1].prepared.None?
            && FindEntry(m.entries, n) == Some(n - m.frontier - 1)
            && n > m.checkpoint && n !in m.outcomes
            && InstallOne(m).Ok?
  {
    hide SerialStore, SerialOutcome;
    var w := m.completed[0];
    assert WorkerOk(m, w);
    var n := m.workers[w].sequence;
    assert forall k :: 0 <= k < |m.entries| ==> Placed(m, k) ==> m.entries[k].sequence == m.frontier + 1 + k;
    FindPlaced(m.entries, m.frontier + 1, n - m.frontier - 1);
    assert n !in Installed(m);
  }

  /** Installing an outcome out of order keeps the store a cut of the serial run. */
  lemma InstalledStore(m: Machine, n: nat)
    requires Shape(m) && StoreOk(m) && m.frontier < n <= |m.log|
    ensures Holds(Install(m.versions, n, OutcomeAt(m, n)), SerialAt(m, |m.log|), m.floor, Installed(m) + {n})
    ensures Resolutions(m, m.outcomes[n := Resolution(DigestAt(m, n), OutcomeAt(m, n))], Installed(m) + {n})
  {
    hide SerialStore, SerialOutcome;
    SerialWrittenBy(m, n);
    HoldsInstall(m.versions, SerialAt(m, |m.log|), m.floor, Installed(m), n, OutcomeAt(m, n));
  }

  lemma InstallKeeps(m: Machine)
    requires Invariant(m) && m.completed != []
    ensures HasCompletion(m) && InstallOne(m).Ok? && Invariant(InstallOne(m).value)
    ensures |InstallOne(m).value.completed| == |m.completed| - 1
  {
    hide SerialStore, SerialOutcome, LogOk, EntriesOk, HeadOk, ImageOk, Holds, Resolve, Resolutions, Install;
    CompletionFound(m);
    var n, outcome := m.workers[m.completed[0]].sequence, m.workers[m.completed[0]].outcome;
    var i := n - m.frontier - 1;
    var next := InstallOne(m).value;
    assert Placed(m, i);
    ResolvedProgress(m, next, i, outcome);
    ResolvedEntries(m, next, i, outcome);
    ResolvedSumsOf(m.entries, i, outcome);
    InstalledPool(m, next, i, outcome);
    InstalledStore(m, n);
    ResolutionsFrame(m, next, next.outcomes, Installed(next));
    LogFrame(m, next);
    HeadFrame(m, next);
    ImageFrame(m, next);
    ReceiptsFrame(m, next);
  }

  lemma ResolvedSumsOf(entries: seq<Entry>, i: nat, outcome: Outcome)
    requires i < |entries|
    ensures |Resolve(entries, i, outcome)| == |entries|
    ensures SumBytes(Resolve(entries, i, outcome)) == SumBytes(entries)
    ensures SumReservations(Resolve(entries, i, outcome)) == SumReservations(entries)
  {
    ResolvedSums(Resolve(entries, i, outcome), entries);
  }

  // ---------------------------------------------------------------- publishing

  /** Records at or below the frontier are all done. */
  lemma BelowFrontier(m: Machine, n: nat)
    requires Shape(m) && n <= m.frontier
    ensures forall k: nat :: k <= n ==> k in Installed(m)
  {
  }

  lemma OutcomesBelow(m: Machine, outcomes: map<nat, Resolution>, done: set<nat>, n: nat)
    requires Resolutions(m, outcomes, done)
    requires forall k: nat :: k <= n ==> k in done
    ensures Resolutions(m, OutcomesUpTo(outcomes, n), Below(n))
  {
    forall k | k in OutcomesUpTo(outcomes, n)
      ensures k in Below(n)
    {
      assert AtOrBelow(k, n);
    }
  }

  /**
   A published checkpoint holds exactly the serial state at or below its sequence,
   even when later records are already installed.
   */
  lemma PublishImage(m: Machine, n: nat, digest: ByteString)
    requires Shape(m) && StoreOk(m) && m.floor <= n <= |m.log|
    requires forall k: nat :: k <= n ==> k in Installed(m)
    ensures ImageOk(Publish(m, n, digest))
  {
    hide SerialStore, SerialOutcome, Installed;
    var next := Publish(m, n, digest);
    HoldsUpTo(m.versions, SerialAt(m, |m.log|), m.floor, Installed(m), n);
    OutcomesBelow(m, m.outcomes, Installed(m), n);
    ResolutionsFrame(m, next, next.image.outcomes, Below(n));
  }

  /** Publishing any visible prefix keeps the invariant. */
  lemma PublishKeeps(m: Machine, n: nat)
    requires Invariant(m) && m.checkpoint <= n <= m.frontier
    ensures Invariant(Publish(m, n, DigestAt(m, n)))
  {
    hide SerialStore, SerialOutcome, Holds, Resolutions;
    var next := Publish(m, n, DigestAt(m, n));
    BelowFrontier(m, n);
    PublishImage(m, n, DigestAt(m, n));
    ProgressFrame(m, next);
    PoolFrame(m, next);
    EntriesFrame(m, next);
    ResolutionsFrame(m, next, m.outcomes, Installed(m));
    LogFrame(m, next);
    HeadFrame(m, next);
    ReceiptsFrame(m, next);
  }

  lemma EntriesFrame(m: Machine, next: Machine)
    requires Shape(m) && EntriesOk(m) && SameLog(m, next)
    requires next.entries == m.entries && next.frontier == m.frontier
    requires next.floor <= next.checkpoint <= next.frontier && next.checkpointDigest == DigestAt(next, next.checkpoint)
    ensures Shape(next) && EntriesOk(next)
  {
    hide SerialStore, SerialOutcome;
    ProgressFrame(m, next);
    forall j | 0 <= j < |next.entries|
      ensures Placed(next, j) && EntryOk(next, j)
    {
      assert Placed(m, j) && EntryOk(m, j);
    }
  }

  lemma PoolFrame(m: Machine, next: Machine)
    requires PoolOk(m) && SameLog(m, next) && next.entries == m.entries && next.frontier == m.frontier
    requires next.workers == m.workers && next.completed == m.completed
    ensures PoolOk(next)
  {
    hide SerialStore, SerialOutcome;
    ProgressFrame(m, next);
    forall x | 0 <= x < |next.workers|
      ensures WorkerOk(next, x)
    {
      assert WorkerOk(m, x);
    }
    forall k: nat | Taken(next, k)
      ensures HeldBy(next.workers, k)
    {
      assert Taken(m, k);
    }
  }

  /** So does republishing at the checkpoint itself, as cursor metadata does. */
  lemma RepublishKeeps(m: Machine)
    requires Invariant(m)
    ensures Invariant(Republish(m))
  {
    PublishKeeps(m, m.checkpoint);
  }

  // ---------------------------------------------------------------- finishing

  lemma {:induction false} SumSplit(entries: seq<Entry>, k: nat)
    requires k <= |entries|
    ensures SumBytes(entries) == SumBytes(entries[..k]) + SumBytes(entries[k..])
    ensures SumReservations(entries) == SumReservations(entries[..k]) + SumReservations(entries[k..])
  {
    if k == |entries| {
      assert entries[..k] == entries;
    } else {
      var last := |entries| - 1;
      SumSplit(entries[..last], k);
      assert entries[..last][..k] == entries[..k];
      assert entries[..last][k..] == entries[k..][..last - k];
    }
  }

  /** Releasing resolved entries never takes more than was reserved. */
  lemma ReleaseFits(m: Machine)
    requires Shape(m) && CountersOk(m)
    ensures CanRelease(m)
  {
    SumSplit(m.entries, LeadingResolved(m.entries));
  }

  lemma {:induction false} SendIs(receipts: map<nat, Outcome>, released: seq<Entry>, first: nat, n: nat)
    requires forall i :: 0 <= i < |released| ==> released[i].outcome.Some? && released[i].sequence == first + i
    ensures n in Send(receipts, released) <==> n in receipts || first <= n < first + |released|
    ensures n in Send(receipts, released) ==>
              Send(receipts, released)[n] ==
              if first <= n < first + |released| then released[n - first].outcome.value else receipts[n]
  {
    if released != [] {
      SendIs(receipts, released[..|released| - 1], first, n);
    }
  }

  /** The machine after the resolved prefix of `k` entries is released. */
  ghost predicate Released(m: Machine, next: Machine, k: nat) {
    && SameLog(m, next) && next.floor == m.floor && k <= |m.entries|
    && next.frontier == m.frontier + k
    && next.entries == m.entries[k..]
    && (forall i :: 0 <= i < k ==> m.entries[i].outcome.Some?)
  }

  lemma ReleasedProgress(m: Machine, next: Machine, k: nat)
    requires Released(m, next, k)
    ensures forall n: nat :: Unresolved(next, n) <==> Unresolved(m, n)
    ensures Installed(next) == Installed(m)
  {
    forall n: nat
      ensures Unresolved(next, n) <==> Unresolved(m, n)
    {
      if next.frontier < n <= next.frontier + |next.entries| {
        assert next.entries[n - next.frontier - 1] == m.entries[n - m.frontier - 1];
      }
    }
  }

  lemma ReleasedEntries(m: Machine, next: Machine, k: nat)
    requires Released(m, next, k) && Shape(m) && EntriesOk(m)
    requires next.floor <= next.checkpoint <= next.frontier && next.checkpointDigest == DigestAt(next, next.checkpoint)
    ensures Shape(next) && EntriesOk(next)
  {
    hide SerialStore, SerialOutcome;
    ReleasedProgress(m, next, k);
    forall j | 0 <= j < |next.entries|
      ensures Placed(next, j) && EntryOk(next, j)
    {
      assert next.entries[j] == m.entries[j + k];
      assert Placed(m, j + k) && EntryOk(m, j + k);
      ReleasedWaits(m, next, k, j);
    }
  }

  lemma ReleasedWaits(m: Machine, next: Machine, k: nat, j: nat)
    requires Released(m, next, k) && Shape(m) && EntriesOk(m) && j < |next.entries|
    ensures next.entries[j].outcome.None? ==>
              forall i :: 0 <= i < j ==>
                WaitsFor(next.entries[j], next.entries[i], ReadScopes(m.log[next.frontier + j].command))
  {
    hide SerialStore, SerialOutcome;
    var inputs := ReadScopes(m.log[next.frontier + j].command);
    assert EntryOk(m, j + k);
    forall i | 0 <= i < j && next.entries[j].outcome.None?
      ensures WaitsFor(next.entries[j], next.entries[i], inputs)
    {
      assert WaitsFor(m.entries[j + k], m.entries[i + k], inputs);
    }
  }

  lemma ReleasedPool(m: Machine, next: Machine, k: nat)
    requires Released(m, next, k) && Shape(m) && PoolOk(m)
    requires next.workers == m.workers && next.completed == m.completed
    ensures PoolOk(next)
  {
    hide SerialStore, SerialOutcome;
    ReleasedProgress(m, next, k);
    forall n: nat
      ensures Taken(next, n) <==> Taken(m, n)
    {
      if Unresolved(next, n) {
        assert next.entries[n - next.frontier - 1] == m.entries[n - m.frontier - 1];
      }
    }
    forall x | 0 <= x < |next.workers|
      ensures WorkerOk(next, x)
    {
      assert WorkerOk(m, x);
    }
  }

  /** Receipts carry the serial outcomes of the records they acknowledge. */
  lemma ReleasedReceipts(m: Machine, next: Machine, k: nat)
    requires Released(m, next, k) && Shape(m) && EntriesOk(m) && ReceiptsOk(m)
    requires next.receipts == Send(m.receipts, m.entries[..k])
    ensures ReceiptsOk(next)
    ensures forall n: nat :: m.frontier < n <= next.frontier ==> n in next.receipts
  {
    hide SerialStore, SerialOutcome;
    forall i | 0 <= i < k
      ensures m.entries[..k][i].sequence == m.frontier + 1 + i
    {
      assert Placed(m, i);
    }
    forall n: nat
      ensures n in next.receipts ==> 0 < n <= next.frontier && next.receipts[n] == OutcomeAt(next, n)
      ensures m.frontier < n <= next.frontier ==> n in next.receipts
    {
      SendIs(m.receipts, m.entries[..k], m.frontier + 1, n);
      if m.frontier < n <= next.frontier {
        assert EntryOk(m, n - m.frontier - 1);
      }
    }
  }

  /** The checkpoint is published before the frontier it covers is released. */
  lemma FinishCheckpoint(m: Machine)
    requires Shape(m) && EntriesOk(m) && StoreOk(m) && ImageOk(m) && CanRelease(m) && LeadingResolved(m.entries) > 0
    ensures var next := Finish(m);
            && ImageOk(next)
            && next.floor <= next.checkpoint <= next.frontier
            && next.checkpointDigest == DigestAt(next, next.checkpoint)
  {
    hide SerialStore, SerialOutcome, Holds, Resolutions, EntryOk, Send, SumBytes, SumReservations, UpTo, OutcomesUpTo;
    var k, next := LeadingResolved(m.entries), Finish(m);
    var n := m.frontier + k;
    assert Placed(m, k - 1);
    if n - m.checkpoint >= m.options.interval {
      var digest := m.entries[k - 1].digest;
      var published := Publish(m, n, digest);
      assert forall j: nat :: j <= n ==> !Unresolved(m, j);
      PublishImage(m, n, digest);
      ImageFrame(published, next);
    } else {
      ImageFrame(m, next);
    }
  }

  lemma FinishKeeps(m: Machine)
    requires Invariant(m)
    ensures CanRelease(m) && Invariant(Finish(m))
    ensures forall n: nat :: m.frontier < n <= Finish(m).frontier ==> n in Finish(m).receipts
  {
    hide SerialStore, SerialOutcome, Holds, Resolutions, EntriesOk, LogOk, HeadOk, ImageOk, PoolOk, ReceiptsOk, Send,
      SumBytes, SumReservations, UpTo, OutcomesUpTo, Unresolved;
    ReleaseFits(m);
    var k, next := LeadingResolved(m.entries), Finish(m);
    if k > 0 {
      FinishCheckpoint(m);
      ReleasedEntries(m, next, k);
      ReleasedProgress(m, next, k);
      ReleasedPool(m, next, k);
      ReleasedReceipts(m, next, k);
      SumSplit(m.entries, k);
      ResolutionsFrame(m, next, m.outcomes, Installed(m));
      LogFrame(m, next);
      HeadFrame(m, next);
    }
  }

  /**
   A release moves the frontier to just below the first unresolved record, drops what it passed,
   and publishes a checkpoint there exactly when the old one trails by the interval.
   */
  lemma FinishExact(m: Machine)
    requires Invariant(m)
    ensures CanRelease(m)
    ensures var next := Finish(m);
            && m.frontier <= next.frontier <= |m.log| == |next.log|
            && (forall n :: m.frontier < n <= next.frontier ==> !Unresolved(m, n))
            && (next.frontier < |m.log| ==> Unresolved(m, next.frontier + 1))
            && next.entries == m.entries[next.frontier - m.frontier..]
            && next.log == m.log && next.versions == m.versions && next.outcomes == m.outcomes
            && next.checkpoint == if m.frontier < next.frontier && next.frontier >= m.checkpoint + m.options.interval
                                  then next.frontier else m.checkpoint
  {
    hide LogOk, EntriesOk, StoreOk, ImageOk, PoolOk, ReceiptsOk, HeadOk, LimitsOk, Send, SumBytes, SumReservations,
      UpTo, OutcomesUpTo;
    ReleaseFits(m);
  }

  // ---------------------------------------------------------------- registering

  /** `Blocking` lists exactly the unresolved entries with an overlapping write scope. */
  lemma {:induction false} BlockingExact(entries: seq<Entry>, inputs: seq<Access.Scope>, d: nat)
    ensures d in Blocking(entries, inputs) <==>
            exists j :: 0 <= j < |entries| && entries[j].sequence == d && entries[j].outcome.None?
                        && OverlapsAny(entries[j].writes, inputs)
  {
    hide OverlapsAny;
    if entries != [] {
      var k := |entries| - 1;
      BlockingExact(entries[..k], inputs, d);
      assert forall j :: 0 <= j < k ==> entries[..k][j] == entries[j];
    }
  }

  /** Steps that append to the log. */
  ghost predicate Grows(m: Machine, next: Machine, more: seq<Logged>) {
    && next.options == m.options && next.hashes == m.hashes && next.genesis == m.genesis
    && next.origin == m.origin && next.log == m.log + more
  }

  lemma GrownSerial(m: Machine, next: Machine, more: seq<Logged>, n: nat)
    requires Grows(m, next, more) && n <= |m.log|
    ensures DigestAt(next, n) == DigestAt(m, n)
    ensures SerialAt(next, n) == SerialAt(m, n)
    ensures n > 0 ==> OutcomeAt(next, n) == OutcomeAt(m, n)
  {
    SerialPrefix(m.genesis, m.log, more, n);
  }

  /** `more` continues the log: canonical records with consecutive sequences and digests. */
  ghost predicate Continues(m: Machine, more: seq<Logged>) {
    && |m.log| + |more| < U64_MAX
    && var longer := m.(log := m.log + more);
       forall i :: |m.log| <= i < |longer.log| ==> Contract(longer.log[i].command) && LinkedAt(longer, i)
  }

  lemma GrownLog(m: Machine, next: Machine, more: seq<Logged>)
    requires LogOk(m) && Grows(m, next, more) && Continues(m, more)
    ensures LogOk(next)
  {
    hide Contract, ReadRecord, ValidHashes;
    var longer := m.(log := m.log + more);
    forall i | 0 <= i < |next.log|
      ensures Contract(next.log[i].command) && LinkedAt(next, i)
    {
      if i < |m.log| {
        assert LinkedAt(m, i);
      } else {
        assert LinkedAt(longer, i);
      }
    }
  }

  lemma GrownHolds(m: Machine, next: Machine, more: seq<Logged>, versions: Store, done: set<nat>)
    requires Grows(m, next, more) && m.floor <= |m.log|
    requires Holds(versions, SerialAt(m, |m.log|), m.floor, done)
    requires forall k :: k in done ==> k <= |m.log|
    ensures Holds(versions, SerialAt(next, |next.log|), m.floor, done)
  {
    hide Holds, UpTo, Execute, Install;
    SerialUpTo(next.genesis, next.log, |m.log|, |next.log|);
    GrownSerial(m, next, more, |m.log|);
    HoldsLonger(versions, SerialAt(m, |m.log|), SerialAt(next, |next.log|), m.floor, done, |m.log|);
  }

  lemma GrownResolutions(m: Machine, next: Machine, more: seq<Logged>, outcomes: map<nat, Resolution>, done: set<nat>)
    requires Grows(m, next, more) && next.floor == m.floor && Resolutions(m, outcomes, done)
    ensures Resolutions(next, outcomes, done)
  {
    forall n | n in outcomes
      ensures ResolutionOk(next, n, outcomes[n])
    {
      assert ResolutionOk(m, n, outcomes[n]);
      GrownSerial(m, next, more, n);
    }
  }

  lemma GrownImage(m: Machine, next: Machine, more: seq<Logged>)
    requires Grows(m, next, more) && m.floor <= |m.log| && next.floor == m.floor
    requires next.image == m.image && next.checkpoint == m.checkpoint && ImageOk(m)
    ensures ImageOk(next)
  {
    hide Holds, Resolutions, SerialStore, SerialOutcome;
    GrownHolds(m, next, more, m.image.versions, Below(m.checkpoint));
    GrownResolutions(m, next, more, m.image.outcomes, Below(m.checkpoint));
  }

  lemma GrownReceipts(m: Machine, next: Machine, more: seq<Logged>)
    requires Grows(m, next, more) && next.receipts == m.receipts && ReceiptsOk(m)
    requires m.frontier <= next.frontier <= |next.log|
    ensures ReceiptsOk(next)
  {
    hide SerialStore, SerialOutcome;
    forall n | n in next.receipts
      ensures next.receipts[n] == OutcomeAt(next, n)
    {
      GrownSerial(m, next, more, n);
    }
  }

  /** A prepared request is the next record of the log. */
  lemma PreparedIsNext(m: Machine, r: Request)
    requires LogOk(m) && ValidRequest(r)
    requires Prepare(m.options, m.hashes, r, |m.log|, DigestAt(m, |m.log|)).Ok?
    ensures var p := Prepare(m.options, m.hashes, r, |m.log|, DigestAt(m, |m.log|)).value;
            && (p.Some? <==> r.command.Transaction?)
            && (p.Some? ==> NextRecord(m, p.value) && p.value.command == r.command)
  {
    hide Contract, ReadRecord, Header;
    if r.command.Transaction? {
      var n, digest := |m.log| + 1, DigestAt(m, |m.log|);
      var bytes := Envelope(m.hashes, n, digest, r.kind, r.body).value;
      ReadOfEnvelope(m.hashes, n, digest, r.kind, r.body, [], |bytes|);
      assert bytes + [] == bytes;
    }
  }

  lemma AcceptKeeps(m: Machine, r: Request)
    requires Invariant(m) && m.head.None? && ValidRequest(r) && Accept(m, r).Ok?
    ensures Invariant(Accept(m, r).value)
  {
    hide SerialStore, SerialOutcome, Holds, Resolutions, LogOk, ValidRequest, Prepare, Linked;
    var next := Accept(m, r).value;
    PreparedIsNextOf(m, next, r);
    ProgressFrame(m, next);
    PoolFrame(m, next);
    EntriesFrame(m, next);
    ResolutionsFrame(m, next, m.outcomes, Installed(m));
    LogFrame(m, next);
    ImageFrame(m, next);
    ReceiptsFrame(m, next);
  }

  lemma PreparedIsNextOf(m: Machine, next: Machine, r: Request)
    requires LogOk(m) && ValidRequest(r) && Accept(m, r) == Ok(next)
    ensures HeadOk(next)
  {
    hide SerialStore, SerialOutcome, Contract, LogOk, Prepare, ReadRecord;
    PreparedIsNext(m, r);
    if PreparedHead(next) {
      assert NextRecord(m, next.head.value.prepared.value);
      assert Linked(m, |m.log|, next.head.value.prepared.value.bytes);
    }
  }

  // ---------------------------------------------------------------- assigning

  lemma AssignProgress(m: Machine)
    requires PreparedHead(m) && |m.log| == m.frontier + |m.entries|
    ensures var next := Assign(m);
            && (forall k: nat :: Unresolved(next, k) <==> Unresolved(m, k) || k == |m.log| + 1)
            && (forall k: nat :: Taken(next, k) <==> Taken(m, k))
            && Installed(next) == Installed(m)
  {
  }

  lemma AssignedLog(m: Machine)
    requires LogOk(m) && HeadOk(m) && PreparedHead(m)
    ensures Grows(m, Assign(m), [Logged(m.head.value.prepared.value.command, m.head.value.prepared.value.bytes)])
    ensures LogOk(Assign(m))
  {
    hide Contract, ReadRecord, ValidHashes;
    var p, next := m.head.value.prepared.value, Assign(m);
    var more := [Logged(p.command, p.bytes)];
    var longer := m.(log := m.log + more);
    assert NextRecord(m, p) && Linked(m, |m.log|, p.bytes);
    assert Linked(longer, |m.log|, p.bytes);
    GrownLog(m, next, more);
  }

  /** The new entry waits for exactly the unresolved entries that may write what it reads. */
  lemma AssignedEntry(m: Machine)
    requires Shape(m) && EntriesOk(m) && PreparedHead(m)
    requires m.head.value.prepared.value.sequence == |m.log| + 1
    requires m.head.value.prepared.value.command.Transaction?
    ensures EntryOk(Assign(m), |m.entries|) && Placed(Assign(m), |m.entries|)
  {
    hide SerialStore, SerialOutcome, OverlapsAny, ReadScopes, WriteScopes;
    var p, next := m.head.value.prepared.value, Assign(m);
    var e, inputs := next.entries[|m.entries|], ReadScopes(p.command);
    AssignProgress(m);
    forall d | d in e.dependencies
      ensures d < e.sequence && Unresolved(next, d) && Conflicts(next, d, p.command)
    {
      BlockingExact(m.entries, inputs, d);
      var j :| 0 <= j < |m.entries| && m.entries[j].sequence == d && m.entries[j].outcome.None?
               && OverlapsAny(m.entries[j].writes, inputs);
      assert Placed(m, j) && EntryOk(m, j);
    }
    forall j | 0 <= j < |m.entries|
      ensures WaitsFor(e, next.entries[j], inputs)
    {
      BlockingExact(m.entries, inputs, m.entries[j].sequence);
    }
  }

  lemma AssignedEntries(m: Machine)
    requires Shape(m) && EntriesOk(m) && PreparedHead(m) && m.head.value.prepared.value.sequence == |m.log| + 1
    requires m.head.value.prepared.value.command.Transaction?
    ensures Shape(Assign(m)) && EntriesOk(Assign(m))
  {
    hide SerialStore, SerialOutcome, OverlapsAny, ReadScopes, WriteScopes, Blocking;
    var p, next := m.head.value.prepared.value, Assign(m);
    var more := [Logged(p.command, p.bytes)];
    AssignProgress(m);
    AssignedEntry(m);
    GrownSerial(m, next, more, m.checkpoint);
    forall j | 0 <= j < |next.entries|
      ensures Placed(next, j) && EntryOk(next, j)
    {
      if j < |m.entries| {
        EarlierEntry(m, j);
      }
    }
  }

  lemma EarlierEntry(m: Machine, j: nat)
    requires Shape(m) && EntriesOk(m) && PreparedHead(m) && j < |m.entries|
    requires m.head.value.prepared.value.sequence == |m.log| + 1
    ensures Placed(Assign(m), j) && EntryOk(Assign(m), j)
  {
    hide SerialStore, SerialOutcome, OverlapsAny, ReadScopes, WriteScopes, Blocking;
    var p, next := m.head.value.prepared.value, Assign(m);
    var more := [Logged(p.command, p.bytes)];
    AssignProgress(m);
    assert Placed(m, j) && EntryOk(m, j);
    GrownSerial(m, next, more, m.frontier + j + 1);
    var inputs := ReadScopes(m.log[m.frontier + j].command);
    forall i | 0 <= i < j && next.entries[j].outcome.None?
      ensures WaitsFor(next.entries[j], next.entries[i], inputs)
    {
      assert WaitsFor(m.entries[j], m.entries[i], inputs);
    }
  }

  lemma AssignedPool(m: Machine)
    requires Shape(m) && PoolOk(m) && PreparedHead(m)
    ensures PoolOk(Assign(m))
  {
    hide SerialStore, SerialOutcome, ViewOk, Blocking;
    var p, next := m.head.value.prepared.value, Assign(m);
    var more := [Logged(p.command, p.bytes)];
    AssignProgress(m);
    forall x | 0 <= x < |next.workers|
      ensures WorkerOk(next, x)
    {
      assert WorkerOk(m, x);
      if Assigned(m.workers[x]).Some? {
        var n := Assigned(m.workers[x]).value;
        GrownSerial(m, next, more, n);
        GrownSerial(m, next, more, n - 1);
      }
    }
  }

  lemma AssignKeeps(m: Machine)
    requires Invariant(m) && PreparedHead(m) && Fits(m)
    ensures Invariant(Assign(m))
  {
    hide SerialStore, SerialOutcome, Holds, Resolutions, LogOk, EntriesOk, PoolOk, ImageOk, ReceiptsOk, Shape, Linked,
      ValidRequest, NewEntry, Installed;
    var p, next := m.head.value.prepared.value, Assign(m);
    var more := [Logged(p.command, p.bytes)];
    assert NextRecord(m, p);
    AssignedLog(m);
    AssignedEntries(m);
    AssignedPool(m);
    AssignedStore(m);
    GrownReceiptsOf(m, next, more);
    AssignedCounters(m);
  }

  lemma AssignedCounters(m: Machine)
    requires CountersOk(m) && PreparedHead(m)
    ensures CountersOk(Assign(m))
  {
    assert Assign(m).entries[..|m.entries|] == m.entries;
  }

  lemma GrownReceiptsOf(m: Machine, next: Machine, more: seq<Logged>)
    requires Shape(m) && ReceiptsOk(m) && Grows(m, next, more)
    requires next.receipts == m.receipts && next.frontier == m.frontier
    ensures ReceiptsOk(next)
  {
    GrownReceipts(m, next, more);
  }

  lemma AssignedStore(m: Machine)
    requires Shape(m) && StoreOk(m) && ImageOk(m) && PreparedHead(m)
    ensures StoreOk(Assign(m)) && ImageOk(Assign(m))
  {
    hide SerialStore, SerialOutcome, Holds, Resolutions, NewEntry;
    var p, next := m.head.value.prepared.value, Assign(m);
    var more := [Logged(p.command, p.bytes)];
    AssignProgress(m);
    GrownHolds(m, next, more, m.versions, Installed(m));
    GrownResolutions(m, next, more, m.outcomes, Installed(m));
    GrownImage(m, next, more);
  }
}
