/**
 What a caller may count on while the coordinator and its workers keep going: a transaction
 that was accepted is logged and acknowledged after a bounded number of their steps, in
 whatever order they come and however much work is queued in front of it.
 */
module SchedulerLiveness {
  import opened Common
  import opened Bytes
  import opened Versions
  import opened Serial
  import opened Records
  import opened Scheduler
  import opened SchedulerSafety
  import opened SchedulerRecovery
  import opened SchedulerRuns
  import opened SchedulerProgress

  /** The steps that serve accepted work: the internal ones, registering a prepared head, executing a barrier. */
  ghost predicate Serves(m: Machine, action: Action) {
    Internal(m, action) || ((action.Register? || action.Administer?) && Enabled(m, action))
  }

  ghost predicate Service(states: seq<Machine>, actions: seq<Action>) {
    && |states| == |actions| + 1
    && forall i :: 0 <= i < |actions| ==> Serves(states[i], actions[i]) && states[i + 1] == After(states[i], actions[i])
  }

  /** Steps still owed to what was accepted: a waiting head is worth one more than its entry. */
  function Work(m: Machine): nat {
    Backlog(m) + if m.head.Some? then 5 else 0
  }

  /** What the caller can check before submitting: `PrepareExact` and, for a barrier, the room in the log. */
  predicate Admissible(m: Machine, r: Request) {
    && |m.log| + 1 < 0xFFFF_FFFF_FFFF_FFFF
    && |r.body| + 72 <= m.options.backlogBytes && |r.body| + 72 <= 64 * 1024 * 1024
    && (r.command.Transaction? ==>
          r.reservation <= m.options.executionBytes && r.reservation <= m.options.preparationBytes)
  }

  /** The command is the waiting head of the log `base`, or was appended to it. */
  ghost predicate Owed(m: Machine, base: seq<Logged>, c: Command) {
    || (m.log == base && m.head.Some? && m.head.value.request.command == c && Room(m, m.head.value.request))
    || (m.head.None? && |m.log| == |base| + 1 && m.log[..|base|] == base && m.log[|base|].command == c)
  }

  lemma {:induction false} PreparedSnoc(entries: seq<Entry>, e: Entry)
    ensures CountPrepared(entries + [e]) == CountPrepared(entries) + if e.prepared.Some? then 1 else 0
  {
    if entries != [] {
      PreparedSnoc(entries[1..], e);
      assert (entries + [e])[1..] == entries[1..] + [e];
    }
  }

  /** Internal steps leave the waiting head and the configuration alone. */
  lemma InternalFrame(m: Machine, action: Action)
    requires Invariant(m) && Internal(m, action)
    ensures var next := After(m, action);
            next.head == m.head && next.genesis == m.genesis && |next.workers| == |m.workers|
  {
    hide Invariant, SerialStore, SerialOutcome, Install, Resolve, UpTo, OutcomesUpTo, Send, SumBytes, SumReservations,
      Execute;
    if action.Complete? {
      InstallKeeps(m);
    }
  }

  /** Registering the head appends its record and pays for its entry. */
  lemma RegisterFrame(m: Machine)
    requires Invariant(m) && PreparedHead(m) && Fits(m)
    ensures Enabled(m, Register)
    ensures var next := After(m, Register);
            && Invariant(next) && next.head.None? && next.log[..|m.log|] == m.log && |next.log| == |m.log| + 1
            && next.log[|m.log|].command == m.head.value.request.command
            && next.genesis == m.genesis && next.workers == m.workers && Work(next) < Work(m)
  {
    hide Invariant, CountPrepared, Load;
    AssignKeeps(m);
    HeadCommand(m);
    PreparedSnoc(m.entries, NewEntry(m, m.head.value.prepared.value));
  }

  /** Executing a barrier logs and acknowledges its record, for which there was room. */
  lemma AdministerFrame(m: Machine)
    requires Invariant(m) && Enabled(m, Administer) && Room(m, m.head.value.request)
    ensures var next, n := After(m, Administer), |m.log| + 1;
            && Invariant(next) && next.head.None? && |next.log| == n && next.log[..n - 1] == m.log
            && next.log[n - 1].command == m.head.value.request.command
            && next.genesis == m.genesis && next.workers == m.workers && Work(next) < Work(m)
            && m.frontier <= next.frontier && forall k: nat :: m.frontier < k <= next.frontier ==> k in next.receipts
  {
    hide Invariant, Barrier, Load, SerialOutcome;
    BarrierKeeps(m);
    var next := Barrier(m);
    EmptyFrontier(m);
    assert next.entries == [];
    EmptyFrontier(next);
  }

  lemma EmptyFrontier(m: Machine)
    requires Invariant(m) && m.entries == []
    ensures m.frontier == |m.log|
  {
    hide LogOk, StoreOk, ImageOk, PoolOk, EntriesOk, HeadOk, CountersOk, LimitsOk, ReceiptsOk;
  }

  /** Each serving step brings the work closer to done and loses nothing that is owed. */
  lemma ServeKeeps(m: Machine, action: Action, base: seq<Logged>, c: Command)
    requires Invariant(m) && Serves(m, action) && Owed(m, base, c)
    ensures var next := After(m, action);
            && Enabled(m, action) && Invariant(next) && Owed(next, base, c) && Work(next) < Work(m)
            && next.genesis == m.genesis && |next.workers| == |m.workers|
            && m.frontier <= next.frontier && forall n: nat :: m.frontier < n <= next.frontier ==> n in next.receipts
  {
    hide Invariant, Backlog;
    if Internal(m, action) {
      StepKeeps(m, action);
      InternalFrame(m, action);
      InternalDecreases(m, action);
      StepAcknowledges(m, action);
    } else if action.Register? {
      RegisterFrame(m);
    } else {
      AdministerFrame(m);
    }
  }

  /** A prepared head always fits an empty schedule: nothing that was accepted can starve. */
  lemma HeadFitsEmpty(m: Machine)
    requires Invariant(m) && m.entries == [] && PreparedHead(m)
    ensures Fits(m)
  {
    hide LogOk, StoreOk, ImageOk, PoolOk, ReceiptsOk, EntriesOk, Shape, Linked, ValidRequest;
  }

  /** While anything is assigned or waiting, a serving step is enabled. */
  lemma SomeService(m: Machine) returns (action: Action)
    requires Invariant(m) && |m.workers| > 0 && (m.entries != [] || m.head.Some?)
    ensures Serves(m, action)
  {
    hide Invariant, Fits, Internal;
    if m.entries != [] {
      action := SomeStep(m);
    } else if PreparedHead(m) {
      HeadFitsEmpty(m);
      action := Register;
    } else {
      action := Administer;
    }
  }

  lemma ServiceRest(states: seq<Machine>, actions: seq<Action>)
    requires Service(states, actions) && actions != []
    ensures Serves(states[0], actions[0]) && Enabled(states[0], actions[0]) && states[1] == After(states[0], actions[0])
    ensures Service(states[1..], actions[1..])
  {
    hide Enabled, After;
    forall i | 0 <= i < |actions[1..]|
      ensures Serves(states[1..][i], actions[1..][i]) && states[1..][i + 1] == After(states[1..][i], actions[1..][i])
    {
      assert Serves(states[i + 1], actions[i + 1]) && states[i + 1 + 1] == After(states[i + 1], actions[i + 1]);
    }
  }

  lemma {:induction false} ServiceBounded(states: seq<Machine>, actions: seq<Action>, base: seq<Logged>, c: Command)
    requires Service(states, actions) && Invariant(states[0]) && Owed(states[0], base, c)
    ensures |states| == |actions| + 1
    ensures var m, last := states[0], states[|actions|];
            && |actions| + Work(last) <= Work(m)
            && Invariant(last) && Owed(last, base, c) && last.genesis == m.genesis && |last.workers| == |m.workers|
            && m.frontier <= last.frontier && Extends(m, last)
            && forall n: nat :: m.frontier < n <= last.frontier ==> n in last.receipts
    decreases |actions|
  {
    hide Invariant, Enabled, After, Work, Owed, Internal;
    if actions != [] {
      ServiceRest(states, actions);
      ServeKeeps(states[0], actions[0], base, c);
      StepExtends(states[0], actions[0]);
      ServiceBounded(states[1..], actions[1..], base, c);
    }
  }

  /** An admissible request becomes the head of a sound machine with the same log. */
  lemma AcceptedHead(m: Machine, r: Request)
    requires Invariant(m) && m.head.None? && ValidRequest(r) && Admissible(m, r)
    ensures Enabled(m, Submit(r))
    ensures var next := After(m, Submit(r));
            && Invariant(next) && Owed(next, m.log, r.command) && next.genesis == m.genesis && next.workers == m.workers
            && next.frontier == m.frontier
  {
    hide Invariant, Prepare;
    LastDigest(m);
    PrepareExact(m.options, m.hashes, r, |m.log|, DigestAt(m, |m.log|));
    AcceptKeeps(m, r);
  }

  /** What a settled machine with the debt paid looks like. */
  lemma DebtPaid(m: Machine, base: seq<Logged>, c: Command)
    requires Invariant(m) && Owed(m, base, c) && m.entries == [] && m.head.None?
    ensures |m.log| == |base| + 1 == m.frontier && m.log[..|base|] == base && m.log[|base|].command == c
    ensures |m.log| in m.receipts ==> m.receipts[|m.log|] == SerialOutcome(m.genesis, m.log, |m.log|)
  {
    hide LogOk, StoreOk, ImageOk, PoolOk, EntriesOk, HeadOk, CountersOk, LimitsOk, SerialOutcome, SerialStore;
  }

  lemma FrontierWithin(m: Machine)
    requires Invariant(m)
    ensures m.frontier <= |m.log|
  {
    hide LogOk, StoreOk, ImageOk, PoolOk, EntriesOk, HeadOk, CountersOk, LimitsOk, ReceiptsOk;
  }

  /**
   From any reachable state with a free head, a request within the limits is accepted, every
   way of serving it is bounded, and every one that goes on until no serving step is left has
   put it in the log right after everything already there and sent its receipt with its
   serial outcome. Administrative requests are served alike.
   */
  lemma AcceptedIsAcknowledged(m: Machine, r: Request, states: seq<Machine>, actions: seq<Action>)
    requires Invariant(m) && |m.workers| > 0 && m.head.None? && ValidRequest(r)
    requires |m.log| + 1 < 0xFFFF_FFFF_FFFF_FFFF
    requires |r.body| + 72 <= m.options.backlogBytes && |r.body| + 72 <= 64 * 1024 * 1024
    requires r.command.Transaction? ==>
               r.reservation <= m.options.executionBytes && r.reservation <= m.options.preparationBytes
    requires Service(states, actions) && states[0] == After(m, Submit(r))
    ensures |actions| <= Work(states[0])
    ensures (forall action :: !Serves(states[|actions|], action)) ==>
              var last, n := states[|actions|], |m.log| + 1;
              && Invariant(last) && last.entries == [] && |last.log| == n == last.frontier
              && last.log[..n - 1] == m.log && last.log[n - 1].command == r.command
              && n in last.receipts && last.receipts[n] == SerialOutcome(m.genesis, last.log, n)
  {
    hide Invariant, After, Service, Serves, Accept, ValidRequest, SerialOutcome, Work, Owed;
    AcceptedHead(m, r);
    ServiceBounded(states, actions, m.log, r.command);
    var last := states[|actions|];
    if forall action :: !Serves(last, action) {
      if last.entries != [] || last.head.Some? {
        var _ := SomeService(last);
      }
      FrontierWithin(m);
      DebtPaid(last, m.log, r.command);
    }
  }

  /** Every legal configuration has a database to start from. */
  lemma FreshDatabase(options: Options, hashes: Hashes, genesis: Cell, origin: ByteString, count: nat)
    returns (m: Machine)
    requires ValidOptions(options) && ValidHashes(hashes) && |origin| == DIGEST_LENGTH
    ensures Created(m) && Run([m], []) && Invariant(m)
    ensures m.options == options && m.hashes == hashes && m.genesis == genesis && |m.workers| == count
  {
    hide Invariant;
    var versions := Initial(genesis);
    m := Machine(options, hashes, genesis, origin, [], versions, map[], 0, origin, Image(versions, map[]), 0,
      0, [], 0, 0, None, seq(count, i => Idle), [], map[]);
    CreatedKeeps(m);
  }
}
