/**
 The scheduler protocol as a machine over values: records are assigned in log
 order, executed by workers out of order, installed as they complete, and made
 visible as a contiguous prefix.

 `Invariant` ties every state of the machine to the serial execution of its log.
 */
module Scheduler {
  import opened Common
  import opened Bytes
  import opened Versions
  import opened Serial
  import opened Records
  import Access

  datatype Options = Options(
    interval: nat,
    window: nat,
    backlogCount: nat,
    backlogBytes: nat,
    executionBytes: nat,
    preparationBytes: nat)

  /** `budget::validate` for the limits the coordinator uses. */
  predicate ValidOptions(o: Options) {
    && 1 <= o.interval <= 4096
    && o.window > 0
    && 0 < o.backlogCount <= U32_MAX
    && o.backlogBytes > 0 && o.executionBytes > 0 && o.preparationBytes > 0
  }

  /** A submitted command with its encoding and the memory its preparation reserves. */
  datatype Request = Request(command: Command, kind: nat, body: ByteString, reservation: nat)

  datatype Prepared = Prepared(command: Command, sequence: nat, bytes: ByteString, reservation: nat)

  datatype Head = Head(request: Request, prepared: Option<Prepared>)

  datatype Entry = Entry(
    sequence: nat,
    digest: ByteString,
    writes: seq<Access.Scope>,
    dependencies: seq<nat>,
    prepared: Option<Command>,
    outcome: Option<Outcome>,
    bytes: nat,
    reservation: nat)

  datatype Job = Job(sequence: nat, command: Command, view: Store)

  /** `Done` is a worker whose completion is queued but not yet installed; it is still busy. */
  datatype Worker = Idle | Running(job: Job) | Done(sequence: nat, outcome: Outcome)

  datatype Resolution = Resolution(digest: ByteString, outcome: Outcome)

  /** The published roots: all that survives a crash besides the log. */
  datatype Image = Image(versions: Store, outcomes: map<nat, Resolution>)

  datatype Machine = Machine(
    options: Options,
    hashes: Hashes,
    genesis: Cell,
    origin: ByteString,
    log: seq<Logged>,
    versions: Store,
    outcomes: map<nat, Resolution>,
    checkpoint: nat,
    checkpointDigest: ByteString,
    image: Image,
    floor: nat,
    frontier: nat,
    entries: seq<Entry>,
    assignedBytes: nat,
    reservedBytes: nat,
    head: Option<Head>,
    workers: seq<Worker>,
    completed: seq<nat>,
    receipts: map<nat, Outcome>)

  /** The digest anchoring the log after record `n`. */
  function DigestAt(m: Machine, n: nat): ByteString
    requires n <= |m.log|
  {
    if n == 0 then m.origin else m.hashes.sha(m.log[n - 1].bytes)
  }

  ghost function SerialAt(m: Machine, n: nat): Store
    requires n <= |m.log|
  {
    SerialStore(m.genesis, m.log, n)
  }

  ghost function OutcomeAt(m: Machine, n: nat): Outcome
    requires 0 < n <= |m.log|
  {
    SerialOutcome(m.genesis, m.log, n)
  }

  // ---------------------------------------------------------------- scopes

  /** `overlaps`: some write scope meets some read scope. */
  predicate OverlapsAny(writes: seq<Access.Scope>, inputs: seq<Access.Scope>) {
    exists i, j :: 0 <= i < |inputs| && 0 <= j < |writes| && Access.Overlap(writes[j], inputs[i])
  }

  function ReadScopes(c: Command): seq<Access.Scope> {
    if c.Transaction? then Access.Scopes(c.manifest.entries, false) else []
  }

  function WriteScopes(c: Command): seq<Access.Scope> {
    if c.Transaction? then Access.Scopes(c.manifest.entries, true) else []
  }

  /** Records whose declared scopes do not overlap share no row. */
  lemma NoSharedAddress(earlier: Command, later: Command, a: Address)
    requires earlier.Transaction? && later.Transaction?
    requires Writes(earlier, a) && Reads(later, a)
    ensures OverlapsAny(WriteScopes(earlier), ReadScopes(later))
  {
    Access.ScopesGrant(earlier.manifest.entries, true, a.table, a.key);
    Access.ScopesGrant(later.manifest.entries, false, a.table, a.key);
    var writes, inputs := WriteScopes(earlier), ReadScopes(later);
    var j :| 0 <= j < |writes| && Access.Covers(writes[j], a.table, a.key);
    var i :| 0 <= i < |inputs| && Access.Covers(inputs[i], a.table, a.key);
    assert Access.Overlap(writes[j], inputs[i]);
  }

  // ---------------------------------------------------------------- steps

  /** The unresolved entries a new record must wait for: a newer writer can abort. */
  function Blocking(entries: seq<Entry>, inputs: seq<Access.Scope>): seq<nat> {
    if entries == [] then []
    else
      var e := entries[|entries| - 1];
      Blocking(entries[..|entries| - 1], inputs)
        + if e.outcome.None? && OverlapsAny(e.writes, inputs) then [e.sequence] else []
  }

  /** `next_sequence`: the last sequence number is never assigned. */
  function NextSequence(durable: nat): Result<nat> {
    if durable + 1 < U64_MAX then Ok(durable + 1) else Err(Exhausted)
  }

  /** `prepare`: administrative requests stay unprepared; a transaction becomes a record. */
  function Prepare(o: Options, h: Hashes, r: Request, previous: nat,
      predecessor: ByteString): Result<Option<Prepared>>
  {
    if !r.command.Transaction? then
      if |r.body| + RECORD_OVERHEAD > o.backlogBytes then Err(OperationalLimit(|r.body| + RECORD_OVERHEAD))
      else Ok(None)
    else
      var sequence :- NextSequence(previous);
      if r.reservation > o.executionBytes || r.reservation > o.preparationBytes then
          Err(OperationalLimit(r.reservation))
      else
        var bytes :- Envelope(h, sequence, predecessor, r.kind, r.body);
        if |bytes| > o.backlogBytes then Err(OperationalLimit(|bytes|))
        else Ok(Some(Prepared(r.command, sequence, bytes, r.reservation)))
  }

  /**
   Which requests are admitted, in the terms a caller can check: the log has a sequence left,
   the reservation is within both limits, and the record is within the format and the backlog.
   */
  lemma PrepareExact(o: Options, h: Hashes, r: Request, previous: nat, predecessor: ByteString)
    requires ValidRequest(r) && |predecessor| == DIGEST_LENGTH
    ensures var p, size := Prepare(o, h, r, previous, predecessor), |r.body| + 72;
            && (r.command.Administrative? ==>
                  p == if size <= o.backlogBytes then Ok(None) else Err(OperationalLimit(size)))
            && (r.command.Transaction? ==>
                  && (p.Ok? <==>
                        && previous + 1 < 0xFFFF_FFFF_FFFF_FFFF
                        && r.reservation <= o.executionBytes && r.reservation <= o.preparationBytes
                        && size <= o.backlogBytes && size <= 64 * 1024 * 1024)
                  && (p.Err? ==>
                        p.error == if previous + 1 >= 0xFFFF_FFFF_FFFF_FFFF then Exhausted
                        else if r.reservation > o.executionBytes || r.reservation > o.preparationBytes then
                          OperationalLimit(r.reservation)
                        else if size > 64 * 1024 * 1024 then InvalidInput
                        else OperationalLimit(size)))
    ensures var p := Prepare(o, h, r, previous, predecessor);
            r.command.Transaction? && p.Ok? ==>
              && p.value.Some? && p.value.value.command == r.command && p.value.value.sequence == previous + 1
              && p.value.value.reservation == r.reservation
              && |p.value.value.bytes| == |r.body| + 72
  {
    hide Contract, Header;
    if Envelope(h, previous + 1, predecessor, r.kind, r.body).Ok? {
      EnvelopeLength(h, previous + 1, predecessor, r.kind, r.body);
    }
  }

  /** Take a request from the queue as the next head; a rejected one leaves the machine alone. */
  function Accept(m: Machine, r: Request): Result<Machine> {
    var prepared :- Prepare(m.options, m.hashes, r, |m.log|, DigestAt(m, |m.log|));
    Ok(m.(head := Some(Head(r, prepared))))
  }

  predicate PreparedHead(m: Machine) {
    m.head.Some? && m.head.value.prepared.Some?
  }

  /** The prepared head fits the remaining backlog and execution reservations. */
  predicate Fits(m: Machine)
    requires PreparedHead(m)
  {
    var p := m.head.value.prepared.value;
    && |m.entries| < m.options.backlogCount
    && m.assignedBytes + |p.bytes| <= m.options.backlogBytes
    && m.reservedBytes + p.reservation <= m.options.executionBytes
  }

  function NewEntry(m: Machine, p: Prepared): Entry {
    Entry(p.sequence, m.hashes.sha(p.bytes), WriteScopes(p.command),
      Blocking(m.entries, ReadScopes(p.command)), Some(p.command), None, |p.bytes|, p.reservation)
  }

  /** Append the prepared head to the log and the schedule. */
  function Assign(m: Machine): Machine
    requires PreparedHead(m)
  {
    var p := m.head.value.prepared.value;
    m.(log := m.log + [Logged(p.command, p.bytes)],
       entries := m.entries + [NewEntry(m, p)],
       assignedBytes := m.assignedBytes + |p.bytes|,
       reservedBytes := m.reservedBytes + p.reservation,
       head := None)
  }

  predicate InWindow(sequence: nat, frontier: nat, durable: nat, window: nat) {
    sequence > frontier && sequence <= durable && sequence - frontier <= window
  }

  predicate Ready(m: Machine, e: Entry) {
    && e.prepared.Some?
    && e.dependencies == []
    && InWindow(e.sequence, m.frontier, |m.log|, m.options.window)
  }

  /** Hand entry `i` to worker `w` with a view captured now. */
  function DispatchTo(m: Machine, w: nat, i: nat): Machine
    requires w < |m.workers| && i < |m.entries| && m.entries[i].prepared.Some?
  {
    var e := m.entries[i];
    m.(entries := m.entries[i := e.(prepared := None)],
       workers := m.workers[w := Running(Job(e.sequence, e.prepared.value, m.versions))])
  }

  /** Worker `w` interprets its job and queues the completion. */
  function Work(m: Machine, w: nat): Machine
    requires w < |m.workers| && m.workers[w].Running? && m.workers[w].job.sequence > 0
  {
    var job := m.workers[w].job;
    m.(workers := m.workers[w := Done(job.sequence, Execute(job.command, job.view, job.sequence))],
       completed := m.completed + [w])
  }

  function Without(dependencies: seq<nat>, n: nat): seq<nat> {
    if dependencies == [] then []
    else if dependencies[0] == n then Without(dependencies[1..], n)
    else [dependencies[0]] + Without(dependencies[1..], n)
  }

  /** Resolve entry `i` and release every entry waiting for it. */
  function Resolve(entries: seq<Entry>, i: nat, outcome: Outcome): seq<Entry>
    requires i < |entries|
  {
    var n := entries[i].sequence;
    seq(|entries|, k requires 0 <= k < |entries| =>
      var e := entries[k];
      var waiting := Without(e.dependencies, n);
      if k == i then e.(outcome := Some(outcome), writes := [], dependencies := waiting)
      else e.(dependencies := waiting))
  }

  function FindEntry(entries: seq<Entry>, n: nat): (r: Option<nat>)
    ensures r.Some? ==> r.value < |entries| && entries[r.value].sequence == n
  {
    if entries == [] then None
    else if entries[0].sequence == n then Some(0)
    else
      match FindEntry(entries[1..], n)
      case None => None
      case Some(i) => Some(i + 1)
  }

  predicate HasCompletion(m: Machine) {
    m.completed != [] && m.completed[0] < |m.workers| && m.workers[m.completed[0]].Done?
  }

  /** Install the oldest queued completion, refusing a sequence that is already resolved. */
  function InstallOne(m: Machine): Result<Machine>
    requires HasCompletion(m)
  {
    var w := m.completed[0];
    var n, outcome := m.workers[w].sequence, m.workers[w].outcome;
    match FindEntry(m.entries, n)
    case None => Err(InvalidInput)
    case Some(i) =>
      if n <= m.checkpoint || n in m.outcomes then Err(InvalidInput)
      else
        Ok(m.(workers := m.workers[w := Idle],
              completed := m.completed[1..],
              versions := Install(m.versions, n, outcome),
              outcomes := m.outcomes[n := Resolution(m.entries[i].digest, outcome)],
              entries := Resolve(m.entries, i, outcome)))
  }

  /** How many leading entries are resolved. */
  function LeadingResolved(entries: seq<Entry>): (k: nat)
    ensures k <= |entries|
    ensures forall i :: 0 <= i < k ==> entries[i].outcome.Some?
    ensures k < |entries| ==> entries[k].outcome.None?
  {
    if entries == [] || entries[0].outcome.None? then 0
    else
      var k := LeadingResolved(entries[1..]);
      assert forall i :: 0 < i < k + 1 ==> entries[i] == entries[1..][i - 1];
      k + 1
  }

  function SumBytes(entries: seq<Entry>): nat {
    if entries == [] then 0 else SumBytes(entries[..|entries| - 1]) + entries[|entries| - 1].bytes
  }

  function SumReservations(entries: seq<Entry>): nat {
    if entries == [] then 0 else SumReservations(entries[..|entries| - 1]) + entries[|entries| - 1].reservation
  }

  function OutcomesUpTo(outcomes: map<nat, Resolution>, n: nat): map<nat, Resolution> {
    map k | k in outcomes && k <= n :: outcomes[k]
  }

  /** Publish the roots at or below `n` as the checkpoint. */
  function Publish(m: Machine, n: nat, digest: ByteString): Machine {
    m.(checkpoint := n, checkpointDigest := digest,
       image := Image(UpTo(m.versions, n), OutcomesUpTo(m.outcomes, n)))
  }

  /** Reply to the callers of resolved entries, oldest first. */
  function Send(receipts: map<nat, Outcome>, released: seq<Entry>): map<nat, Outcome>
    requires forall i :: 0 <= i < |released| ==> released[i].outcome.Some?
  {
    if released == [] then receipts
    else
      var last := released[|released| - 1];
      Send(receipts, released[..|released| - 1])[last.sequence := last.outcome.value]
  }

  predicate CanRelease(m: Machine) {
    var released := m.entries[..LeadingResolved(m.entries)];
    && m.checkpoint <= m.frontier
    && SumBytes(released) <= m.assignedBytes
    && SumReservations(released) <= m.reservedBytes
  }

  /**
   The end of `complete`: advance the frontier over the resolved prefix, publish a
   checkpoint if it lags by the interval, then release the prefix.
   */
  function Finish(m: Machine): Machine
    requires CanRelease(m)
  {
    var k := LeadingResolved(m.entries);
    if k == 0 then m
    else
      var n := m.frontier + k;
      var p := if n - m.checkpoint >= m.options.interval then Publish(m, n, m.entries[k - 1].digest) else m;
      p.(frontier := n,
         entries := m.entries[k..],
         assignedBytes := m.assignedBytes - SumBytes(m.entries[..k]),
         reservedBytes := m.reservedBytes - SumReservations(m.entries[..k]),
         receipts := Send(m.receipts, m.entries[..k]))
  }

  /** `publish_checkpoint`, when the checkpoint trails a drained frontier. */
  function Drain(m: Machine): Machine {
    if m.checkpoint == m.frontier then m else Publish(m, |m.log|, DigestAt(m, |m.log|))
  }

  /** Append, execute and publish one record with nothing else in flight. */
  function Commit(m: Machine, r: Request): Result<Machine> {
    if m.checkpoint != |m.log| then Err(NeedsRecovery)
    else
      var n :- NextSequence(|m.log|);
      var bytes :- Envelope(m.hashes, n, DigestAt(m, |m.log|), r.kind, r.body);
      var outcome, digest := Execute(r.command, m.versions, n), m.hashes.sha(bytes);
      var installed := m.(log := m.log + [Logged(r.command, bytes)],
        versions := Install(m.versions, n, outcome),
        outcomes := m.outcomes[n := Resolution(digest, outcome)],
        frontier := n,
        receipts := m.receipts[n := outcome]);
      Ok(Publish(installed, n, digest))
  }

  /**
   A record commits exactly when nothing is in flight, a sequence is left and the format has
   room; it then stands at the end of the log, visible, published and acknowledged.
   */
  lemma CommitExact(m: Machine, r: Request)
    requires ValidRequest(r)
    ensures var c, n := Commit(m, r), |m.log| + 1;
            && (c.Ok? <==> m.checkpoint == |m.log| && n < 0xFFFF_FFFF_FFFF_FFFF && |r.body| + 72 <= 64 * 1024 * 1024)
            && (c.Err? ==>
                  c.error == if m.checkpoint != |m.log| then NeedsRecovery
                  else if n >= 0xFFFF_FFFF_FFFF_FFFF then Exhausted
                  else InvalidInput)
            && (c.Ok? ==>
                  && |c.value.log| == n && c.value.log[..n - 1] == m.log && c.value.log[n - 1].command == r.command
                  && c.value.frontier == n == c.value.checkpoint
                  && n in c.value.receipts && n in c.value.image.outcomes
                  && c.value.image.outcomes[n].outcome == c.value.receipts[n])
  {
    hide Contract, Header, Execute, Install, UpTo;
  }

  /** An administrative head runs alone: publish the drained frontier, then commit. */
  function Barrier(m: Machine): Machine
    requires m.head.Some?
  {
    var drained := Drain(m).(head := None);
    match Commit(drained, m.head.value.request)
    case Ok(next) => next
    case Err(_) => drained
  }

  /** Cursor metadata is published with the logical roots still at the checkpoint. */
  function Republish(m: Machine): Machine {
    Publish(m, m.checkpoint, m.checkpointDigest)
  }

  function OutcomesAbove(outcomes: map<nat, Resolution>, n: nat): map<nat, Resolution> {
    map k | k in outcomes && k > n :: outcomes[k]
  }

  /** Maintenance: publish the drained frontier, then collect history below `floor`. */
  function Maintain(m: Machine, floor: nat): Machine {
    var p := Publish(m, m.frontier, DigestAt(m, |m.log|));
    var versions := Collect(p.versions, floor);
    var outcomes := OutcomesAbove(p.outcomes, floor);
    p.(versions := versions, outcomes := outcomes, image := Image(versions, outcomes), floor := floor)
  }

  // ---------------------------------------------------------------- recovery

  datatype Replay = Replay(versions: Store, outcomes: map<nat, Resolution>)

  /** Serial replay of records `base + 1` up to `n` on top of `image`. */
  function ReplayTo(m: Machine, base: nat, n: nat): Replay
    requires base <= n <= |m.log|
    decreases n
  {
    if n == base then Replay(m.image.versions, m.image.outcomes)
    else
      var r := ReplayTo(m, base, n - 1);
      var outcome := Execute(m.log[n - 1].command, r.versions, n);
      Replay(Install(r.versions, n, outcome),
             r.outcomes[n := Resolution(m.hashes.sha(m.log[n - 1].bytes), outcome)])
  }

  function IdleWorkers(count: nat): seq<Worker> {
    seq(count, i => Idle)
  }

  /** Open after a crash: only the published image and the durable log survive. */
  function Recover(m: Machine): Machine
    requires m.checkpoint <= |m.log|
  {
    var d := |m.log|;
    var r := ReplayTo(m, m.checkpoint, d);
    m.(versions := r.versions, outcomes := r.outcomes,
       checkpoint := d, checkpointDigest := DigestAt(m, d), image := Image(r.versions, r.outcomes),
       frontier := d, entries := [], assignedBytes := 0, reservedBytes := 0,
       head := None, workers := IdleWorkers(|m.workers|), completed := [])
  }

  /** A replica executes imported records as recovery would. */
  function Import(m: Machine, batch: seq<Logged>): Machine
    requires m.checkpoint <= |m.log|
  {
    Recover(m.(log := m.log + batch))
  }

  // ---------------------------------------------------------------- invariant

  ghost predicate Unresolved(m: Machine, n: nat) {
    m.frontier < n <= m.frontier + |m.entries| && m.entries[n - m.frontier - 1].outcome.None?
  }

  /** The records whose outcomes are installed. */
  ghost function Installed(m: Machine): set<nat> {
    set n: nat | 0 <= n <= |m.log| && !Unresolved(m, n)
  }

  ghost predicate LogOk(m: Machine) {
    && ValidHashes(m.hashes)
    && |m.origin| == DIGEST_LENGTH
    && |m.log| < U64_MAX
    && (forall i :: 0 <= i < |m.log| ==> Contract(m.log[i].command))
    && (forall i :: 0 <= i < |m.log| ==> LinkedAt(m, i))
  }

  ghost predicate LinkedAt(m: Machine, i: nat)
    requires i < |m.log|
  {
    Linked(m, i, m.log[i].bytes)
  }

  /** The canonical record after `n` others carries sequence `n + 1` and their digest. */
  ghost predicate Linked(m: Machine, n: nat, bytes: ByteString)
    requires n <= |m.log|
  {
    ReadRecord(m.hashes, bytes, |bytes|, n + 1, DigestAt(m, n)) == Ok(bytes)
  }

  ghost predicate Shape(m: Machine) {
    && m.floor <= m.checkpoint <= m.frontier
    && |m.log| == m.frontier + |m.entries|
    && m.checkpointDigest == DigestAt(m, m.checkpoint)
    && (forall i :: 0 <= i < |m.entries| ==> Placed(m, i))
  }

  ghost predicate Placed(m: Machine, i: nat)
    requires i < |m.entries| && |m.log| == m.frontier + |m.entries|
  {
    var e, n := m.entries[i], m.frontier + i + 1;
    && e.sequence == n
    && e.digest == DigestAt(m, n)
    && e.bytes == |m.log[n - 1].bytes|
    && m.log[n - 1].command.Transaction?
  }

  ghost predicate EntriesOk(m: Machine)
    requires |m.log| == m.frontier + |m.entries|
  {
    forall i :: 0 <= i < |m.entries| ==> EntryOk(m, i)
  }

  ghost predicate WaitsFor(later: Entry, earlier: Entry, inputs: seq<Access.Scope>) {
    earlier.outcome.None? && OverlapsAny(earlier.writes, inputs) ==> earlier.sequence in later.dependencies
  }

  /** Record `n` may write what the command may read. */
  ghost predicate Conflicts(m: Machine, n: nat, c: Command) {
    0 < n <= |m.log| && OverlapsAny(WriteScopes(m.log[n - 1].command), ReadScopes(c))
  }

  ghost predicate EntryOk(m: Machine, i: nat)
    requires i < |m.entries| && |m.log| == m.frontier + |m.entries|
  {
    var e, c := m.entries[i], m.log[m.frontier + i].command;
    && (e.outcome.Some? ==> e.outcome.value == OutcomeAt(m, m.frontier + i + 1) && e.prepared.None?)
    && (e.outcome.None? ==> e.writes == WriteScopes(c))
    && (e.prepared.Some? ==> e.prepared.value == c)
    && (e.prepared.None? ==> e.dependencies == [])
    && (forall d :: d in e.dependencies ==> d < e.sequence && Unresolved(m, d) && Conflicts(m, d, c))
    && (e.outcome.None? ==> forall j :: 0 <= j < i ==> WaitsFor(e, m.entries[j], ReadScopes(c)))
  }

  /** `versions` is `serial` cut to the records that are done, perhaps collected at `floor`. */
  ghost predicate Holds(versions: Store, serial: Store, floor: nat, done: set<nat>) {
    && (forall v :: v in versions ==> v in serial && versions[v] == serial[v] && v.sequence in done)
    && (forall v :: v in serial && v.sequence > floor && v.sequence in done ==> v in versions)
    && (forall v :: v in serial && NewestSequence(serial, v.address, floor) == Some(v.sequence) ==> v in versions)
  }

  ghost predicate ResolutionOk(m: Machine, n: nat, r: Resolution) {
    0 < n <= |m.log| && r == Resolution(DigestAt(m, n), OutcomeAt(m, n))
  }

  /** The stored outcomes are those of the done records above the floor, and no others. */
  ghost predicate Resolutions(m: Machine, outcomes: map<nat, Resolution>, done: set<nat>) {
    && (forall n :: n in outcomes ==> n in done && ResolutionOk(m, n, outcomes[n]))
    && (forall n :: n in done && n > m.floor ==> n in outcomes)
  }

  ghost predicate AtOrBelow(k: nat, n: nat) {
    k <= n
  }

  ghost function Below(n: nat): set<nat> {
    set k: nat | 0 <= k <= n && AtOrBelow(k, n)
  }

  ghost predicate StoreOk(m: Machine) {
    && Holds(m.versions, SerialAt(m, |m.log|), m.floor, Installed(m))
    && Resolutions(m, m.outcomes, Installed(m))
  }

  ghost predicate ImageOk(m: Machine) {
    && m.checkpoint <= |m.log|
    && Holds(m.image.versions, SerialAt(m, |m.log|), m.floor, Below(m.checkpoint))
    && Resolutions(m, m.image.outcomes, Below(m.checkpoint))
  }

  function Assigned(w: Worker): Option<nat> {
    match w
    case Idle => None
    case Running(job) => Some(job.sequence)
    case Done(n, _) => Some(n)
  }

  /** The captured view reads like the serial state just before the job's record. */
  ghost predicate ViewOk(job: Job, serial: Store)
    requires job.sequence > 0
  {
    forall a :: Reads(job.command, a) ==> Read(job.view, a, job.sequence - 1) == Read(serial, a, job.sequence - 1)
  }

  ghost predicate WorkerOk(m: Machine, w: nat)
    requires w < |m.workers|
  {
    match m.workers[w]
    case Idle => true
    case Running(job) =>
      && Taken(m, job.sequence)
      && job.command == m.log[job.sequence - 1].command
      && ViewOk(job, SerialAt(m, job.sequence - 1))
    case Done(n, outcome) => Taken(m, n) && outcome == OutcomeAt(m, n)
  }

  /** Record `n` is handed to a worker and not yet installed. */
  ghost predicate Taken(m: Machine, n: nat) {
    && 0 < n <= |m.log|
    && Unresolved(m, n)
    && m.entries[n - m.frontier - 1].prepared.None?
  }

  /** No record is given to two workers. */
  ghost predicate Exclusive(workers: seq<Worker>) {
    forall w, x :: 0 <= w < x < |workers| && Assigned(workers[w]).Some? ==> Assigned(workers[w]) != Assigned(workers[x])
  }

  /** The queue holds each finished worker once. */
  ghost predicate QueueOk(workers: seq<Worker>, completed: seq<nat>) {
    && (forall q :: 0 <= q < |completed| ==> completed[q] < |workers| && workers[completed[q]].Done?)
    && (forall q, r :: 0 <= q < r < |completed| ==> completed[q] != completed[r])
    && (forall w :: 0 <= w < |workers| && workers[w].Done? ==> w in completed)
  }

  ghost predicate HeldBy(workers: seq<Worker>, n: nat) {
    exists w :: 0 <= w < |workers| && Assigned(workers[w]) == Some(n)
  }

  ghost predicate PoolOk(m: Machine) {
    && (forall w :: 0 <= w < |m.workers| ==> WorkerOk(m, w))
    && Exclusive(m.workers)
    && QueueOk(m.workers, m.completed)
    && (forall n: nat :: Taken(m, n) ==> HeldBy(m.workers, n))
  }

  ghost predicate ReceiptsOk(m: Machine) {
    && m.frontier <= |m.log|
    && forall n :: n in m.receipts ==> 0 < n <= m.frontier && m.receipts[n] == OutcomeAt(m, n)
  }

  /** What `record::encode` promises about a request. */
  ghost predicate ValidRequest(r: Request) {
    && Contract(r.command)
    && (if r.command.Transaction? then r.kind == 1 else 2 <= r.kind <= 3)
    && (r.kind == 3 ==> |r.body| == POLICY_LENGTH)
  }

  /** A prepared head is exactly the next record of the log. */
  ghost predicate HeadOk(m: Machine) {
    m.head.Some? ==>
      var h := m.head.value;
      && ValidRequest(h.request)
      && (h.prepared.Some? <==> h.request.command.Transaction?)
      && (h.prepared.Some? ==> NextRecord(m, h.prepared.value) && h.prepared.value.command == h.request.command)
  }

  ghost predicate NextRecord(m: Machine, p: Prepared) {
    && p.sequence == |m.log| + 1 < U64_MAX
    && Linked(m, |m.log|, p.bytes)
    && |p.bytes| <= m.options.backlogBytes
    && p.reservation <= m.options.executionBytes
  }

  /** The byte counters are the sums over the assigned entries. */
  ghost predicate CountersOk(m: Machine) {
    m.assignedBytes == SumBytes(m.entries) && m.reservedBytes == SumReservations(m.entries)
  }

  /** No counter passes its limit, and the checkpoint stays close to the frontier. */
  ghost predicate LimitsOk(m: Machine) {
    && ValidOptions(m.options)
    && |m.entries| <= m.options.backlogCount
    && m.assignedBytes <= m.options.backlogBytes
    && m.reservedBytes <= m.options.executionBytes
    && m.frontier < m.checkpoint + m.options.interval
  }

  ghost predicate Invariant(m: Machine) {
    && LogOk(m) && Shape(m) && EntriesOk(m) && StoreOk(m) && ImageOk(m) && PoolOk(m) && ReceiptsOk(m)
    && HeadOk(m) && CountersOk(m) && LimitsOk(m)
  }
}
