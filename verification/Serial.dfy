/**
 The reference execution: records of the durable log interpreted one by one, each
 against the state left by the records before it.

 The interpreter is a function of the state it reads; `Contract` says what its
 verified access manifest promises about that function.
 */
module Serial {
  import opened Common
  import opened Bytes
  import opened Versions
  import Access

  datatype Outcome =
    | Success(result: ByteString, writes: map<Address, Cell>)
    | Aborted(code: nat)
  {
    function Effects(): map<Address, Cell> {
      if Success? then writes else map[]
    }
  }

  /** What a program can see: the value of every address at its prior sequence. */
  type Snapshot = Address -> Option<ByteString>

  datatype Command =
    | Transaction(manifest: Access.AccessManifest, run: Snapshot -> Outcome)
    | Administrative(run: Snapshot -> Outcome)

  /** A durable record: its meaning and its canonical bytes. */
  datatype Logged = Logged(command: Command, bytes: ByteString)

  /** A transaction reads rows in its read scopes; metadata is open to every command. */
  ghost predicate Reads(c: Command, a: Address) {
    c.Transaction? && a.Row? ==> Access.Grants(c.manifest.entries, false, a.table, a.key)
  }

  /** A transaction writes rows in its write scopes; administrative records write metadata. */
  ghost predicate Writes(c: Command, a: Address) {
    if c.Transaction? then a.Row? && Access.Grants(c.manifest.entries, true, a.table, a.key) else !a.Row?
  }

  ghost predicate SameReads(c: Command, r: Snapshot, q: Snapshot) {
    forall a :: Reads(c, a) ==> r(a) == q(a)
  }

  /** The outcome depends on readable addresses only, and effects are writable ones. */
  ghost predicate Contract(c: Command) {
    && (forall r: Snapshot, q: Snapshot :: SameReads(c, r, q) ==> c.run(r) == c.run(q))
    && (forall r: Snapshot, a :: a in c.run(r).Effects() ==> Writes(c, a))
  }

  function View(s: Store, n: nat): Snapshot {
    a => Read(s, a, n)
  }

  /** Interpret record `n` against the versions strictly before it. */
  function Execute(c: Command, s: Store, n: nat): Outcome
    requires n > 0
  {
    c.run(View(s, n - 1))
  }

  /** Add the effects of record `n`, tagged with its sequence. */
  function Install(s: Store, n: nat, o: Outcome): Store {
    s + map a | a in o.Effects() :: Version(a, n) := o.Effects()[a]
  }

  function Initial(genesis: Cell): Store {
    map[Version(Policy, 0) := genesis]
  }

  function SerialStore(genesis: Cell, log: seq<Logged>, n: nat): Store
    requires n <= |log|
    decreases n, 0
  {
    if n == 0 then Initial(genesis)
    else Install(SerialStore(genesis, log, n - 1), n, SerialOutcome(genesis, log, n))
  }

  function SerialOutcome(genesis: Cell, log: seq<Logged>, n: nat): Outcome
    requires 0 < n <= |log|
    decreases n - 1, 1
  {
    Execute(log[n - 1].command, SerialStore(genesis, log, n - 1), n)
  }

  lemma {:induction false} SerialPrefix(genesis: Cell, log: seq<Logged>, more: seq<Logged>, n: nat)
    requires n <= |log|
    ensures SerialStore(genesis, log + more, n) == SerialStore(genesis, log, n)
    ensures n > 0 ==> SerialOutcome(genesis, log + more, n) == SerialOutcome(genesis, log, n)
  {
    if n > 0 {
      SerialPrefix(genesis, log, more, n - 1);
      assert (log + more)[n - 1] == log[n - 1];
    }
  }

  lemma InstallMembers(s: Store, n: nat, o: Outcome, v: Version)
    ensures v in Install(s, n, o) <==> v in s || (v.sequence == n && v.address in o.Effects())
    ensures v in Install(s, n, o) ==>
              Install(s, n, o)[v] == if v.sequence == n && v.address in o.Effects() then o.Effects()[v.address]
                  else s[v]
  {
    if v.sequence == n && v.address in o.Effects() {
      assert v == Version(v.address, n);
    }
  }

  /** A version of sequence `k` is in the serial store exactly when record `k` wrote it. */
  lemma {:induction false} SerialVersions(genesis: Cell, log: seq<Logged>, n: nat, v: Version)
    requires n <= |log|
    ensures v in SerialStore(genesis, log, n) <==>
            if v.sequence == 0 then v.address == Policy
            else v.sequence <= n && v.address in SerialOutcome(genesis, log, v.sequence).Effects()
    ensures v in SerialStore(genesis, log, n) && v.sequence == 0 ==> SerialStore(genesis, log, n)[v] == genesis
    ensures v in SerialStore(genesis, log, n) && v.sequence > 0 ==>
              SerialStore(genesis, log, n)[v] == SerialOutcome(genesis, log, v.sequence).Effects()[v.address]
  {
    hide Install, Execute;
    if n > 0 {
      SerialVersions(genesis, log, n - 1, v);
      InstallMembers(SerialStore(genesis, log, n - 1), n, SerialOutcome(genesis, log, n), v);
    }
  }

  lemma ExecuteAgrees(c: Command, s: Store, t: Store, n: nat)
    requires n > 0 && Contract(c)
    requires forall a :: Reads(c, a) ==> Read(s, a, n - 1) == Read(t, a, n - 1)
    ensures Execute(c, s, n) == Execute(c, t, n)
  {
    assert SameReads(c, View(s, n - 1), View(t, n - 1));
  }

  // ---------------------------------------------------------------- what a record sees

  /** Version `m` of `a` holds `cell` and none follows it up to `n`. */
  ghost predicate LastVersion(s: Store, a: Address, m: nat, n: nat, cell: Cell) {
    && m <= n && Version(a, m) in s && s[Version(a, m)] == cell
    && forall j :: m < j <= n ==> Version(a, j) !in s
  }

  /** The last thing to happen to `a` up to `n` was that `bytes` was put there. */
  ghost predicate Stands(s: Store, a: Address, n: nat, bytes: ByteString) {
    exists m :: LastVersion(s, a, m, n, Put(bytes))
  }

  /** The snapshot shows, wherever the command may read, the value last put at or below `n` and nothing else. */
  ghost predicate Shows(r: Snapshot, c: Command, s: Store, n: nat) {
    forall a, b :: Reads(c, a) ==> (r(a) == Some(b) <==> Stands(s, a, n, b))
  }

  lemma ReadStands(s: Store, a: Address, n: nat, bytes: ByteString)
    ensures Read(s, a, n) == Some(bytes) <==> Stands(s, a, n, bytes)
  {
    NewestSequenceIs(s, a, n);
    if m :| LastVersion(s, a, m, n, Put(bytes)) {
      NewestSequenceUnique(s, a, n, m);
    }
    if Read(s, a, n) == Some(bytes) {
      assert LastVersion(s, a, NewestSequence(s, a, n).value, n, Put(bytes));
    }
  }

  /** A record executes on what the records before it left: the newest version of each address it may read. */
  lemma ExecuteSees(c: Command, s: Store, n: nat, r: Snapshot)
    requires n > 0 && Contract(c) && Shows(r, c, s, n - 1)
    ensures Execute(c, s, n) == c.run(r)
  {
    forall a | Reads(c, a)
      ensures r(a) == Read(s, a, n - 1)
    {
      if r(a).Some? {
        ReadStands(s, a, n - 1, r(a).value);
      }
      if Read(s, a, n - 1).Some? {
        ReadStands(s, a, n - 1, Read(s, a, n - 1).value);
      }
    }
    assert SameReads(c, View(s, n - 1), r);
  }

  /** Record `k` left `cell` at `a`; record zero is the genesis, which sets the policy. */
  ghost predicate Left(genesis: Cell, outcomes: seq<Outcome>, k: nat, a: Address, cell: Cell)
    requires k <= |outcomes|
  {
    if k == 0 then a == Policy && cell == genesis
    else a in outcomes[k - 1].Effects() && outcomes[k - 1].Effects()[a] == cell
  }

  /** Of all records, `k` is the last to leave anything at `a`. */
  ghost predicate LastWriter(genesis: Cell, outcomes: seq<Outcome>, k: nat, a: Address, cell: Cell)
    requires k <= |outcomes|
  {
    && Left(genesis, outcomes, k, a, cell)
    && forall i :: k <= i < |outcomes| ==> a !in outcomes[i].Effects()
  }

  ghost predicate LastPut(genesis: Cell, outcomes: seq<Outcome>, a: Address, bytes: ByteString) {
    exists k :: 0 <= k <= |outcomes| && LastWriter(genesis, outcomes, k, a, Put(bytes))
  }

  /** Readable addresses have the value the last writer put there; without one, or after a deletion, none. */
  ghost predicate Sees(r: Snapshot, c: Command, genesis: Cell, outcomes: seq<Outcome>) {
    forall a, b :: Reads(c, a) ==> (r(a) == Some(b) <==> LastPut(genesis, outcomes, a, b))
  }

  /** Record `i + 1` ran on a snapshot that shows what the records before it left. */
  ghost predicate RanInOrder(genesis: Cell, log: seq<Logged>, outcomes: seq<Outcome>, i: nat)
    requires i < |log| == |outcomes|
  {
    exists r: Snapshot :: Sees(r, log[i].command, genesis, outcomes[..i]) && outcomes[i] == log[i].command.run(r)
  }

  /** One record after another: the meaning of a log, stated without stores, versions or sequences. */
  ghost predicate OneByOne(genesis: Cell, log: seq<Logged>, outcomes: seq<Outcome>) {
    |outcomes| == |log| && forall i :: 0 <= i < |log| ==> RanInOrder(genesis, log, outcomes, i)
  }

  function SerialOutcomes(genesis: Cell, log: seq<Logged>, n: nat): (outcomes: seq<Outcome>)
    requires n <= |log|
    ensures |outcomes| == n
  {
    seq(n, i requires 0 <= i < n => SerialOutcome(genesis, log, i + 1))
  }

  /** The last version in the serial store is that of the last writer. */
  lemma LastVersionWriter(genesis: Cell, log: seq<Logged>, n: nat, a: Address, m: nat, cell: Cell)
    requires m <= n <= |log|
    ensures LastWriter(genesis, SerialOutcomes(genesis, log, n), m, a, cell) <==>
            LastVersion(SerialStore(genesis, log, n), a, m, n, cell)
  {
    hide SerialStore, SerialOutcome;
    SerialVersions(genesis, log, n, Version(a, m));
    forall i | m <= i < n
      ensures Version(a, i + 1) in SerialStore(genesis, log, n) <==>
              a in SerialOutcomes(genesis, log, n)[i].Effects()
    {
      SerialVersions(genesis, log, n, Version(a, i + 1));
    }
    var s, outcomes := SerialStore(genesis, log, n), SerialOutcomes(genesis, log, n);
    if LastVersion(s, a, m, n, cell) {
      forall i | m <= i < n
        ensures a !in outcomes[i].Effects()
      {
        assert Version(a, i + 1) !in s;
      }
    }
    if LastWriter(genesis, outcomes, m, a, cell) {
      forall j | m < j <= n
        ensures Version(a, j) !in s
      {
        assert a !in outcomes[j - 1].Effects();
        assert Version(a, j - 1 + 1) !in s;
      }
    }
  }

  lemma StandsIsLastPut(genesis: Cell, log: seq<Logged>, n: nat, a: Address, bytes: ByteString)
    requires n <= |log|
    ensures Stands(SerialStore(genesis, log, n), a, n, bytes) <==>
            LastPut(genesis, SerialOutcomes(genesis, log, n), a, bytes)
  {
    hide SerialStore, SerialOutcomes, LastVersion, LastWriter;
    var s := SerialStore(genesis, log, n);
    forall m: nat | m <= n
      ensures LastWriter(genesis, SerialOutcomes(genesis, log, n), m, a, Put(bytes)) <==>
              LastVersion(s, a, m, n, Put(bytes))
    {
      LastVersionWriter(genesis, log, n, a, m, Put(bytes));
    }
    forall m: nat
      ensures LastVersion(s, a, m, n, Put(bytes)) ==> m <= n
    {
      VersionBelow(s, a, m, n, Put(bytes));
    }
  }

  lemma VersionBelow(s: Store, a: Address, m: nat, n: nat, cell: Cell)
    ensures LastVersion(s, a, m, n, cell) ==> m <= n
  {
  }

  /** What the serial store shows is what the earlier outcomes left. */
  lemma ShowsIsSees(r: Snapshot, c: Command, genesis: Cell, log: seq<Logged>, n: nat)
    requires n <= |log|
    ensures Shows(r, c, SerialStore(genesis, log, n), n) <==> Sees(r, c, genesis, SerialOutcomes(genesis, log, n))
  {
    hide SerialStore, SerialOutcomes, Stands, LastPut;
    forall a, b
      ensures Stands(SerialStore(genesis, log, n), a, n, b) <==>
              LastPut(genesis, SerialOutcomes(genesis, log, n), a, b)
    {
      StandsIsLastPut(genesis, log, n, a, b);
    }
  }

  /** The view of a store is such a snapshot, so there always is one. */
  lemma ViewShows(c: Command, s: Store, n: nat)
    ensures Shows(View(s, n), c, s, n)
  {
    forall a, b
      ensures View(s, n)(a) == Some(b) <==> Stands(s, a, n, b)
    {
      ReadStands(s, a, n, b);
    }
  }

  /** A record's serial outcome is its run on any snapshot of what the serial outcomes before it left. */
  lemma SerialSees(genesis: Cell, log: seq<Logged>, n: nat, r: Snapshot)
    requires 0 < n <= |log| && Contract(log[n - 1].command)
    requires Sees(r, log[n - 1].command, genesis, SerialOutcomes(genesis, log, n - 1))
    ensures SerialOutcome(genesis, log, n) == log[n - 1].command.run(r)
  {
    hide SerialStore, Execute, Sees, Shows;
    ShowsIsSees(r, log[n - 1].command, genesis, log, n - 1);
    ExecuteSees(log[n - 1].command, SerialStore(genesis, log, n - 1), n, r);
  }

  /**
   The serial execution is the one and only way to run the log one record after another:
   it is such a run, and every such run has its outcomes.
   */
  lemma SerialIsOneByOne(genesis: Cell, log: seq<Logged>, outcomes: seq<Outcome>)
    requires forall i :: 0 <= i < |log| ==> Contract(log[i].command)
    ensures OneByOne(genesis, log, outcomes) <==> outcomes == SerialOutcomes(genesis, log, |log|)
  {
    hide SerialOutcome, Contract, RanInOrder;
    var serial := SerialOutcomes(genesis, log, |log|);
    if outcomes == serial {
      forall i | 0 <= i < |log|
        ensures RanInOrder(genesis, log, outcomes, i)
      {
        SerialRan(genesis, log, i);
      }
    }
    if OneByOne(genesis, log, outcomes) {
      OnlyOneByOne(genesis, log, outcomes, |log|);
      assert outcomes[..|log|] == outcomes;
    }
  }

  lemma SerialRan(genesis: Cell, log: seq<Logged>, i: nat)
    requires i < |log|
    ensures RanInOrder(genesis, log, SerialOutcomes(genesis, log, |log|), i)
  {
    hide SerialStore, Sees, Shows;
    var s := SerialStore(genesis, log, i);
    ViewShows(log[i].command, s, i);
    ShowsIsSees(View(s, i), log[i].command, genesis, log, i);
    assert SerialOutcomes(genesis, log, |log|)[..i] == SerialOutcomes(genesis, log, i);
  }

  lemma {:induction false} OnlyOneByOne(genesis: Cell, log: seq<Logged>, outcomes: seq<Outcome>, n: nat)
    requires n <= |log| && OneByOne(genesis, log, outcomes)
    requires forall i :: 0 <= i < |log| ==> Contract(log[i].command)
    ensures outcomes[..n] == SerialOutcomes(genesis, log, n)
  {
    hide SerialOutcome, Contract, Sees;
    if n > 0 {
      OnlyOneByOne(genesis, log, outcomes, n - 1);
      assert RanInOrder(genesis, log, outcomes, n - 1);
      var r: Snapshot :| Sees(r, log[n - 1].command, genesis, outcomes[..n - 1])
                         && outcomes[n - 1] == log[n - 1].command.run(r);
      SerialSees(genesis, log, n, r);
      assert outcomes[..n] == outcomes[..n - 1] + [outcomes[n - 1]];
    }
  }

  /** An earlier serial state is the later one cut off at its sequence. */
  lemma SerialUpTo(genesis: Cell, log: seq<Logged>, k: nat, n: nat)
    requires k <= n <= |log|
    ensures SerialStore(genesis, log, k) == UpTo(SerialStore(genesis, log, n), k)
  {
    forall v
      ensures v in SerialStore(genesis, log, k) <==> v in UpTo(SerialStore(genesis, log, n), k)
      ensures v in SerialStore(genesis, log, k) ==>
                SerialStore(genesis, log, k)[v] == UpTo(SerialStore(genesis, log, n), k)[v]
    {
      SerialVersions(genesis, log, k, v);
      SerialVersions(genesis, log, n, v);
    }
  }
}
