/**
 What a group takes: which requests leave the queue, which of them become records and in
 what order, which are turned away, and why the group ends where it does.
 */
module Groups {
  import opened Common
  import opened Serial
  import opened Scheduler
  import opened SchedulerSafety
  import opened SchedulerRecovery
  import opened Coordinator

  /** A transaction the limits allow, once a sequence is left for it. */
  predicate WithinLimits(o: Options, r: Request) {
    && r.reservation <= o.executionBytes && r.reservation <= o.preparationBytes
    && |r.body| + 72 <= o.backlogBytes && |r.body| + 72 <= 64 * 1024 * 1024
  }

  /** The commands of the requests within the limits, in order. */
  function Selected(o: Options, queue: seq<Request>): (commands: seq<Command>)
    ensures |commands| <= |queue|
  {
    if queue == [] then []
    else (if WithinLimits(o, queue[0]) then [queue[0].command] else []) + Selected(o, queue[1..])
  }

  function Commands(log: seq<Logged>): (commands: seq<Command>)
    ensures |commands| == |log|
  {
    seq(|log|, i requires 0 <= i < |log| => log[i].command)
  }

  function Waiting(m: Machine): seq<Command> {
    if m.head.Some? then [m.head.value.request.command] else []
  }

  /** How many requests of the queue were read as transactions. */
  function Taken(queue: seq<Request>, i: Intake): int {
    |queue| - |i.queue| - if i.barrier.Some? || i.failure.Some? then 1 else 0
  }

  /**
   The requests read are the front of the queue. A barrier is the first that is no transaction;
   only a log without sequences left fails. The transactions within the limits become records
   in queue order, behind the head that was waiting, and at most the last of them waits as head.
   */
  ghost predicate Takes(m: Machine, queue: seq<Request>, i: Intake) {
    var read := Taken(queue, i);
    && 0 <= read <= |queue|
    && i.queue == queue[if i.barrier.Some? || i.failure.Some? then read + 1 else read..]
    && (forall k :: 0 <= k < read ==> queue[k].command.Transaction?)
    && (i.barrier.Some? ==> i.failure.None? && i.barrier.value == queue[read] && !queue[read].command.Transaction?)
    && (i.failure.Some? ==>
          && i.failure.value == Exhausted && queue[read].command.Transaction?
          && |i.machine.log| + 1 == 0xFFFF_FFFF_FFFF_FFFF)
    && m.log <= i.machine.log
    && Waiting(m) + Selected(m.options, queue[..read])
       == Commands(i.machine.log[|m.log|..]) + Waiting(i.machine)
  }

  /** Requests turned away and records appended. */
  function Rounds(m: Machine, queue: seq<Request>, i: Intake): int {
    var read := Taken(queue, i);
    |i.machine.log| - |m.log| + if 0 <= read <= |queue| then read - |Selected(m.options, queue[..read])| else 0
  }

  /** It ends at a barrier, a failure, a head that does not fit, an empty or interrupted queue, or its last round. */
  ghost predicate Ends(m: Machine, queue: seq<Request>, rounds: nat, calm: nat, i: Intake) {
    && Rounds(m, queue, i) <= rounds
    && (i.barrier.Some? || i.failure.Some? || (PreparedHead(i.machine) && !Fits(i.machine))
        || Taken(queue, i) == |queue| || Taken(queue, i) == calm || Rounds(m, queue, i) == rounds)
  }

  lemma {:induction false} GroupExact(m: Machine, queue: seq<Request>, rounds: nat, calm: nat)
    requires Invariant(m) && (m.head.None? || PreparedHead(m))
    requires forall r :: r in queue ==> ValidRequest(r)
    ensures var i := Intakes(m, queue, rounds, calm);
            i.machine.options == m.options && Takes(m, queue, i) && Ends(m, queue, rounds, calm, i)
    decreases rounds, 1
  {
    hide Invariant, ValidRequest, Fits, Takes, Ends, Accept, PreparedHead, Fatal;
    if rounds == 0 {
      Untouched(m, queue, rounds, calm);
    } else if PreparedHead(m) {
      HeadExact(m, queue, rounds, calm);
    } else {
      assert m.head.None?;
      match PollQueue(m, queue, calm)
      case Quiet => Untouched(m, queue, rounds, calm);
      case Stopped(r) => AtBarrier(m, queue, rounds, calm);
      case Rejected(e) =>
        Polled(m, queue[0]);
        if Fatal(e) {
          Failed(m, queue, rounds, calm);
        } else {
          GroupExact(m, queue[1..], rounds - 1, calm - 1);
          TakenOne(m, m, queue, rounds, calm, Intakes(m, queue[1..], rounds - 1, calm - 1));
        }
      case Prepared(next) =>
        Polled(m, queue[0]);
        HeadExact(next, queue[1..], rounds, calm - 1);
        TakenOne(m, next, queue, rounds, calm, TakeHead(next, queue[1..], rounds, calm - 1));
    }
  }

  /** What a polled transaction leads to: a waiting head, a rejection, or the end of the sequence numbers. */
  lemma Polled(m: Machine, r: Request)
    requires Invariant(m) && m.head.None? && ValidRequest(r) && r.command.Transaction?
    ensures match Accept(m, r)
            case Ok(next) =>
              && Invariant(next) && PreparedHead(next) && next.log == m.log && next.options == m.options
              && WithinLimits(m.options, r) && Waiting(next) == [r.command]
            case Err(e) =>
              if |m.log| + 1 == 0xFFFF_FFFF_FFFF_FFFF then e == Exhausted && Fatal(e)
              else !Fatal(e) && !WithinLimits(m.options, r)
  {
    hide Invariant, ValidRequest, Prepare, DigestAt;
    LastDigest(m);
    LogBelow(m);
    PrepareExact(m.options, m.hashes, r, |m.log|, DigestAt(m, |m.log|));
    if Accept(m, r).Ok? {
      AcceptKeeps(m, r);
    }
  }

  lemma LogBelow(m: Machine)
    requires Invariant(m)
    ensures |m.log| < 0xFFFF_FFFF_FFFF_FFFF
  {
    hide Shape, StoreOk, ImageOk, PoolOk, EntriesOk, HeadOk, CountersOk, LimitsOk, ReceiptsOk;
  }

  lemma Untouched(m: Machine, queue: seq<Request>, rounds: nat, calm: nat)
    requires rounds == 0 || calm == 0 || queue == [] || (PreparedHead(m) && !Fits(m))
    ensures Takes(m, queue, Intake(m, queue, None, None)) && Ends(m, queue, rounds, calm, Intake(m, queue, None, None))
  {
    hide Fits;
    assert queue[..0] == [] && m.log[|m.log|..] == [];
    assert Commands([]) == [];
  }

  lemma AtBarrier(m: Machine, queue: seq<Request>, rounds: nat, calm: nat)
    requires queue != [] && !queue[0].command.Transaction?
    ensures var i := Intake(m, queue[1..], Some(queue[0]), None);
            Takes(m, queue, i) && Ends(m, queue, rounds, calm, i)
  {
    hide Fits;
    assert queue[..0] == [] && m.log[|m.log|..] == [];
    assert Commands([]) == [];
  }

  lemma Failed(m: Machine, queue: seq<Request>, rounds: nat, calm: nat)
    requires queue != [] && queue[0].command.Transaction? && |m.log| + 1 == 0xFFFF_FFFF_FFFF_FFFF
    ensures var i := Intake(m, queue[1..], None, Some(Exhausted));
            Takes(m, queue, i) && Ends(m, queue, rounds, calm, i)
  {
    hide Fits;
    assert queue[..0] == [] && m.log[|m.log|..] == [];
    assert Commands([]) == [];
  }

  /** One request read: turned away, or waiting in front of the rest. */
  lemma TakenOne(m: Machine, next: Machine, queue: seq<Request>, rounds: nat, calm: nat, i: Intake)
    requires queue != [] && queue[0].command.Transaction? && m.head.None? && rounds > 0 && calm > 0
    requires next.log == m.log && next.options == m.options
    requires Waiting(next) == if WithinLimits(m.options, queue[0]) then [queue[0].command] else []
    requires Takes(next, queue[1..], i)
    requires Ends(next, queue[1..], if WithinLimits(m.options, queue[0]) then rounds else rounds - 1, calm - 1, i)
    ensures Takes(m, queue, i) && Ends(m, queue, rounds, calm, i)
  {
    hide Fits, WithinLimits, Commands;
    var read := Taken(queue, i);
    assert queue[..read][0] == queue[0] && queue[..read][1..] == queue[1..][..read - 1];
  }

  /** The waiting head becomes the first record. */
  lemma HeadAssigned(m: Machine, queue: seq<Request>, rounds: nat, calm: nat, i: Intake)
    requires rounds > 0 && PreparedHead(m)
    requires m.head.value.prepared.value.command == m.head.value.request.command
    requires Takes(Assign(m), queue, i) && Ends(Assign(m), queue, rounds - 1, calm, i)
    ensures Takes(m, queue, i) && Ends(m, queue, rounds, calm, i)
  {
    hide Fits, Selected, NewEntry;
    var log, rest := i.machine.log[|m.log|..], i.machine.log[|m.log| + 1..];
    assert i.machine.log[..|m.log| + 1] == Assign(m).log;
    assert i.machine.log[|m.log|] == i.machine.log[..|m.log| + 1][|m.log|];
    assert log == [log[0]] + rest;
    assert Commands(log) == [log[0].command] + Commands(rest);
    assert log[0].command == m.head.value.request.command;
    var selected := Selected(m.options, queue[..Taken(queue, i)]);
    assert selected == [] + selected == Commands(rest) + Waiting(i.machine);
    Reassociate([log[0].command], Commands(rest), Waiting(i.machine));
    assert m.log <= i.machine.log by { assert i.machine.log[..|m.log|] == i.machine.log[..|m.log| + 1][..|m.log|]; }
  }

  lemma {:induction false} HeadExact(m: Machine, queue: seq<Request>, rounds: nat, calm: nat)
    requires rounds > 0 && Invariant(m) && PreparedHead(m)
    requires forall r :: r in queue ==> ValidRequest(r)
    ensures var i := TakeHead(m, queue, rounds, calm);
            i.machine.options == m.options && Takes(m, queue, i) && Ends(m, queue, rounds, calm, i)
    decreases rounds, 0
  {
    hide Invariant, ValidRequest, Fits, NewEntry, Intakes, Takes, Ends;
    if Fits(m) {
      AssignKeeps(m);
      HeadCommand(m);
      GroupExact(Assign(m), queue, rounds - 1, calm);
      HeadAssigned(m, queue, rounds, calm, Intakes(Assign(m), queue, rounds - 1, calm));
    } else {
      Untouched(m, queue, rounds, calm);
    }
  }
}
