/**
 A derived mirror fed from the database: each batch and its watermark commit together,
 and only then is the source told. Whatever crashes in between, the mirror is exactly
 the fold of the records up to its watermark.
 */
module Derived {
  import opened Common
  import opened Bytes
  import Manifests
  import Retention

  datatype Effect =
    | Put(table: nat, key: ByteString, value: ByteString)
    | Delete(table: nat, key: ByteString)
    | Catalogue(table: nat, live: bool, name: ByteString)
    | Limits

  /** One resolved record; an aborted one has no effects. */
  datatype Record = Record(sequence: nat, effects: seq<Effect>, encoded: ByteString)

  datatype Table = Table(live: bool, name: ByteString)

  datatype Tables = Tables(
    catalogue: map<nat, Table>,
    mirror: map<(nat, ByteString), ByteString>,
    records: map<nat, ByteString>)

  const EMPTY := Tables(map[], map[], map[])

  // ---------------------------------------------------------------- meaning

  function Apply(t: Tables, e: Effect): Result<Tables> {
    match e
    case Put(table, key, value) =>
      if table !in t.catalogue || !t.catalogue[table].live then Err(InvalidInput)
      else Ok(t.(mirror := t.mirror[(table, key) := value]))
    case Delete(table, key) => Ok(t.(mirror := t.mirror - {(table, key)}))
    case Catalogue(table, live, name) =>
      Ok(t.(catalogue := t.catalogue[table := Table(live, name)],
            mirror := if live then t.mirror else map k | k in t.mirror && k.0 != table :: t.mirror[k]))
    case Limits => Ok(t)
  }

  function ApplyEffects(t: Tables, effects: seq<Effect>): Result<Tables> {
    if effects == [] then Ok(t)
    else
      var before :- ApplyEffects(t, effects[..|effects| - 1]);
      Apply(before, effects[|effects| - 1])
  }

  /** Apply one record's effects and enter it in the audit table, whose key refuses a replay. */
  function ApplyRecord(t: Tables, r: Record): Result<Tables> {
    var after :- ApplyEffects(t, r.effects);
    if r.sequence in after.records then Err(InvalidInput)
    else Ok(after.(records := after.records[r.sequence := r.encoded]))
  }

  /** The mirror after the first `n` records of the source. */
  function Fold(log: seq<Record>, n: nat): Result<Tables>
    requires n <= |log|
  {
    if n == 0 then Ok(EMPTY)
    else
      var before :- Fold(log, n - 1);
      ApplyRecord(before, log[n - 1])
  }

  /** The source numbers its records and never writes to a dropped table. */
  ghost predicate SourceOk(log: seq<Record>) {
    && (forall i :: 0 <= i < |log| ==> log[i].sequence == i + 1)
    && (forall n :: 0 <= n <= |log| ==> Fold(log, n).Ok?)
  }

  lemma {:induction false} FoldExtends(log: seq<Record>, more: seq<Record>, n: nat)
    requires n <= |log|
    ensures Fold(log + more, n) == Fold(log, n)
  {
    if n > 0 {
      FoldExtends(log, more, n - 1);
    }
  }

  // ---------------------------------------------------------------- what the mirror contains

  /** The effects of the first `n` records, in order. */
  function Effects(log: seq<Record>, n: nat): seq<Effect>
    requires n <= |log|
  {
    if n == 0 then [] else Effects(log, n - 1) + log[n - 1].effects
  }

  /** The effect writes or deletes the row, or drops its table. */
  predicate Overwrites(e: Effect, table: nat, key: ByteString) {
    match e
    case Put(t, k, _) => t == table && k == key
    case Delete(t, k) => t == table && k == key
    case Catalogue(t, live, _) => t == table && !live
    case Limits => false
  }

  /** The last effect on the row is that it was put with this value. */
  ghost predicate Holds(effects: seq<Effect>, table: nat, key: ByteString, value: ByteString) {
    exists i :: 0 <= i < |effects| && effects[i] == Put(table, key, value)
                && forall j :: i < j < |effects| ==> !Overwrites(effects[j], table, key)
  }

  predicate Declares(e: Effect, table: nat) {
    e.Catalogue? && e.table == table
  }

  /** The last catalogue effect of the table says this about it. */
  ghost predicate Listed(effects: seq<Effect>, table: nat, entry: Table) {
    exists i :: 0 <= i < |effects| && effects[i] == Catalogue(table, entry.live, entry.name)
                && forall j :: i < j < |effects| ==> !Declares(effects[j], table)
  }

  /** Every row is put into a table that is live at that point. */
  ghost predicate Accepted(effects: seq<Effect>) {
    forall i :: 0 <= i < |effects| && effects[i].Put? ==>
      exists name :: Listed(effects[..i], effects[i].table, Table(true, name))
  }

  /** One more effect: it decides the rows and tables it speaks of, and leaves the others. */
  lemma HoldsSnoc(effects: seq<Effect>, e: Effect, table: nat, key: ByteString, value: ByteString)
    ensures Holds(effects + [e], table, key, value) <==>
            e == Put(table, key, value) || (!Overwrites(e, table, key) && Holds(effects, table, key, value))
  {
    var all, n := effects + [e], |effects|;
    assert all[n] == e;
    if e == Put(table, key, value) {
      assert all[n] == Put(table, key, value);
    }
    if !Overwrites(e, table, key) && Holds(effects, table, key, value) {
      var i :| 0 <= i < n && effects[i] == Put(table, key, value)
               && forall j :: i < j < n ==> !Overwrites(effects[j], table, key);
      assert all[i] == Put(table, key, value);
      assert forall j :: i < j < n ==> all[j] == effects[j];
    }
    if Holds(all, table, key, value) {
      var i :| 0 <= i < |all| && all[i] == Put(table, key, value)
               && forall j :: i < j < |all| ==> !Overwrites(all[j], table, key);
      if i < n {
        assert !Overwrites(all[n], table, key);
        assert effects[i] == all[i];
        assert forall j :: i < j < n ==> effects[j] == all[j];
      }
    }
  }

  lemma ListedSnoc(effects: seq<Effect>, e: Effect, table: nat, entry: Table)
    ensures Listed(effects + [e], table, entry) <==>
            e == Catalogue(table, entry.live, entry.name) || (!Declares(e, table) && Listed(effects, table, entry))
  {
    var all, n := effects + [e], |effects|;
    assert all[n] == e;
    if e == Catalogue(table, entry.live, entry.name) {
      assert all[n] == Catalogue(table, entry.live, entry.name);
    }
    if !Declares(e, table) && Listed(effects, table, entry) {
      var i :| 0 <= i < n && effects[i] == Catalogue(table, entry.live, entry.name)
               && forall j :: i < j < n ==> !Declares(effects[j], table);
      assert all[i] == Catalogue(table, entry.live, entry.name);
      assert forall j :: i < j < n ==> all[j] == effects[j];
    }
    if Listed(all, table, entry) {
      var i :| 0 <= i < |all| && all[i] == Catalogue(table, entry.live, entry.name)
               && forall j :: i < j < |all| ==> !Declares(all[j], table);
      if i < n {
        assert !Declares(all[n], table);
        assert effects[i] == all[i];
        assert forall j :: i < j < n ==> effects[j] == all[j];
      }
    }
  }

  /** What tables say about a row and about a table. */
  ghost predicate Agrees(t: Tables, effects: seq<Effect>) {
    && (forall table: nat, key, value ::
          Holds(effects, table, key, value) <==> (table, key) in t.mirror && t.mirror[(table, key)] == value)
    && (forall table: nat, entry ::
          Listed(effects, table, entry) <==> table in t.catalogue && t.catalogue[table] == entry)
  }

  lemma AgreesSnoc(t: Tables, effects: seq<Effect>, e: Effect)
    requires Agrees(t, effects) && Apply(t, e).Ok?
    ensures Agrees(Apply(t, e).value, effects + [e])
  {
    hide Holds, Listed;
    var next := Apply(t, e).value;
    forall table: nat, key, value
      ensures Holds(effects + [e], table, key, value) <==>
              (table, key) in next.mirror && next.mirror[(table, key)] == value
    {
      HoldsSnoc(effects, e, table, key, value);
    }
    forall table: nat, entry
      ensures Listed(effects + [e], table, entry) <==> table in next.catalogue && next.catalogue[table] == entry
    {
      ListedSnoc(effects, e, table, entry);
    }
  }

  lemma AcceptedSnoc(effects: seq<Effect>, e: Effect)
    ensures Accepted(effects + [e]) <==>
            Accepted(effects) && (e.Put? ==> exists name :: Listed(effects, e.table, Table(true, name)))
  {
    hide Listed;
    var all, n := effects + [e], |effects|;
    assert all[..n] == effects && all[n] == e;
    assert forall i :: 0 <= i < n ==> all[i] == effects[i] && all[..i] == effects[..i];
  }

  /** Applied from nothing, effects are accepted exactly when every put meets a live table. */
  lemma {:induction false} EffectsExact(effects: seq<Effect>)
    ensures ApplyEffects(EMPTY, effects).Ok? <==> Accepted(effects)
    ensures ApplyEffects(EMPTY, effects).Ok? ==> Agrees(ApplyEffects(EMPTY, effects).value, effects)
  {
    hide Accepted, Agrees;
    if effects == [] {
      NothingAgrees();
    } else {
      var front, e := effects[..|effects| - 1], effects[|effects| - 1];
      assert effects == front + [e];
      EffectsExact(front);
      AcceptedSnoc(front, e);
      if Accepted(front) {
        LiveTable(ApplyEffects(EMPTY, front).value, front, e);
        if Apply(ApplyEffects(EMPTY, front).value, e).Ok? {
          AgreesSnoc(ApplyEffects(EMPTY, front).value, front, e);
        }
      }
    }
  }

  lemma NothingAgrees()
    ensures Accepted([]) && Agrees(EMPTY, [])
  {
  }

  lemma LiveTable(t: Tables, effects: seq<Effect>, e: Effect)
    requires Agrees(t, effects)
    ensures Apply(t, e).Ok? <==> (e.Put? ==> exists name :: Listed(effects, e.table, Table(true, name)))
  {
    hide Listed, Holds;
    if e.Put? && e.table in t.catalogue && t.catalogue[e.table].live {
      assert Listed(effects, e.table, Table(true, t.catalogue[e.table].name));
    }
  }

  lemma {:induction false} EffectsAppend(t: Tables, first: seq<Effect>, second: seq<Effect>)
    ensures ApplyEffects(t, first + second)
         == match ApplyEffects(t, first)
            case Ok(u) => ApplyEffects(u, second)
            case Err(e) => Err(e)
  {
    hide Apply;
    if second == [] {
      assert first + second == first;
    } else {
      var front := second[..|second| - 1];
      EffectsAppend(t, first, front);
      assert (first + second)[..|first + second| - 1] == first + front;
    }
  }

  /** Effects have nothing to do with the audit records. */
  lemma {:induction false} EffectsFrame(t: Tables, records: map<nat, ByteString>, effects: seq<Effect>)
    ensures ApplyEffects(t.(records := records), effects)
         == match ApplyEffects(t, effects)
            case Ok(u) => Ok(u.(records := records))
            case Err(e) => Err(e)
  {
    if effects != [] {
      EffectsFrame(t, records, effects[..|effects| - 1]);
    }
  }

  /** The audit table lists exactly the first `n` records. */
  ghost predicate Audited(records: map<nat, ByteString>, log: seq<Record>, n: nat)
    requires n <= |log|
  {
    && (forall k :: k in records <==> 1 <= k <= n)
    && forall k :: 1 <= k <= n ==> records[k] == log[k - 1].encoded
  }

  lemma {:induction false} FoldEffects(log: seq<Record>, n: nat)
    requires n <= |log| && forall i :: 0 <= i < |log| ==> log[i].sequence == i + 1
    ensures var applied := ApplyEffects(EMPTY, Effects(log, n));
            match Fold(log, n)
            case Ok(t) => applied == Ok(t.(records := map[])) && Audited(t.records, log, n)
            case Err(_) => applied.Err?
  {
    hide Apply, ApplyEffects;
    if n == 0 {
      NoEffects();
    } else {
      FoldEffects(log, n - 1);
      EffectsAppend(EMPTY, Effects(log, n - 1), log[n - 1].effects);
      if Fold(log, n - 1).Ok? {
        var t := Fold(log, n - 1).value;
        EffectsFrame(t.(records := map[]), t.records, log[n - 1].effects);
        assert t.(records := map[]).(records := t.records) == t;
        var bare := ApplyEffects(t.(records := map[]), log[n - 1].effects);
        if bare.Ok? {
          EffectsFrame(t, map[], log[n - 1].effects);
          assert ApplyEffects(t, log[n - 1].effects) == Ok(bare.value.(records := t.records));
          assert n !in t.records;
        }
      }
    }
  }

  lemma NoEffects()
    ensures ApplyEffects(EMPTY, []) == Ok(EMPTY)
  {
  }

  /**
   What the fold is, without the fold: it exists exactly when every put meets a live table; a
   row is in the mirror with a value exactly when it was put with it and neither overwritten,
   deleted nor dropped with its table since; a table is what its last catalogue effect made it;
   and the audit table lists exactly the records.
   */
  lemma FoldExact(log: seq<Record>, n: nat)
    requires n <= |log| && forall i :: 0 <= i < |log| ==> log[i].sequence == i + 1
    ensures Fold(log, n).Ok? <==> Accepted(Effects(log, n))
    ensures Fold(log, n).Ok? ==>
              var t, effects := Fold(log, n).value, Effects(log, n);
              && (forall table: nat, key, value ::
                    Holds(effects, table, key, value) <==> (table, key) in t.mirror && t.mirror[(table, key)] == value)
              && (forall table: nat, entry ::
                    Listed(effects, table, entry) <==> table in t.catalogue && t.catalogue[table] == entry)
              && Audited(t.records, log, n)
  {
    hide Fold, ApplyEffects, Holds, Listed, Accepted, Audited;
    FoldEffects(log, n);
    EffectsExact(Effects(log, n));
  }

  // ---------------------------------------------------------------- the consumer's database

  /** What SQLite keeps: the cursor token and watermark, and the derived tables. */
  datatype Progress = Progress(cursor: nat, watermark: nat)

  datatype Batch = Batch(start: nat, end: nat, records: seq<Record>)

  class Connection {
    var progress: Option<Progress>
    var tables: Tables

    constructor ()
      ensures progress == None && tables == EMPTY
    {
      progress, tables := None, EMPTY;
    }

    /** Record the token and watermark zero; a mirror with data but no watermark is refused. */
    method Begin(cursor: nat) returns (r: Result<()>)
      requires progress == None
      modifies `progress
      ensures r.Ok? <==> tables.catalogue == map[] && tables.mirror == map[] && tables.records == map[]
      ensures progress == if r.Ok? then Some(Progress(cursor, 0)) else None
    {
      if tables.catalogue != map[] || tables.mirror != map[] || tables.records != map[] {
        return Err(InvalidInput);
      }
      progress := Some(Progress(cursor, 0));
      r := Ok(());
    }

    /**
     `stage` and commit: apply the batch after the committed watermark and move the
     watermark with it. A batch that is not the next suffix, or fails part way, changes nothing.
     */
    method Stage(batch: Batch) returns (r: Result<nat>)
      modifies this
      ensures r.Ok? <==>
                && old(progress).Some? && Next(batch, old(progress).value.watermark)
                && ApplyRecords(old(tables), batch.records).Ok?
      ensures r.Ok? ==>
                && r.value == batch.end
                && progress == Some(old(progress).value.(watermark := batch.end))
                && tables == ApplyRecords(old(tables), batch.records).value
      ensures r.Err? ==> progress == old(progress) && tables == old(tables)
    {
      if progress.None? {
        return Err(InvalidInput);
      }
      var previous := progress.value.watermark;
      if batch.start != previous || batch.end != batch.start + |batch.records| {
        return Err(InvalidInput);
      }
      var staged := tables;
      for i := 0 to |batch.records|
        invariant unchanged(this)
        invariant forall k :: 0 <= k < i ==> batch.records[k].sequence == previous + k + 1
        invariant ApplyRecords(tables, batch.records[..i]) == Ok(staged)
      {
        var record := batch.records[i];
        assert batch.records[..i + 1][..i] == batch.records[..i];
        if record.sequence != previous + i + 1 {
          return Err(InvalidInput);
        }
        var applied := StageRecord(staged, record);
        if applied.Err? {
          FailsEarly(tables, batch.records, i + 1);
          return Err(InvalidInput);
        }
        staged := applied.value;
      }
      assert batch.records[..|batch.records|] == batch.records;
      tables := staged;
      progress := Some(progress.value.(watermark := batch.end));
      r := Ok(batch.end);
    }
  }

  predicate Next(batch: Batch, watermark: nat) {
    && batch.start == watermark && batch.end == batch.start + |batch.records|
    && forall k :: 0 <= k < |batch.records| ==> batch.records[k].sequence == watermark + k + 1
  }

  function ApplyRecords(t: Tables, records: seq<Record>): Result<Tables> {
    if records == [] then Ok(t)
    else
      var before :- ApplyRecords(t, records[..|records| - 1]);
      ApplyRecord(before, records[|records| - 1])
  }

  lemma {:induction false} FailsEarly(t: Tables, records: seq<Record>, i: nat)
    requires i <= |records| && ApplyRecords(t, records[..i]).Err?
    ensures ApplyRecords(t, records).Err?
    decreases |records| - i
  {
    if i == |records| {
      assert records[..i] == records;
    } else {
      assert records[..i + 1][..i] == records[..i];
      FailsEarly(t, records, i + 1);
    }
  }

  /** The effects of one record, in order, then its audit row. */
  method StageRecord(t: Tables, r: Record) returns (result: Result<Tables>)
    ensures result.Ok? <==> ApplyRecord(t, r).Ok?
    ensures result.Ok? ==> result == ApplyRecord(t, r)
  {
    var staged := t;
    for i := 0 to |r.effects|
      invariant ApplyEffects(t, r.effects[..i]) == Ok(staged)
    {
      assert r.effects[..i + 1][..i] == r.effects[..i];
      var applied := Apply(staged, r.effects[i]);
      if applied.Err? {
        EffectFails(t, r.effects, i + 1);
        return Err(InvalidInput);
      }
      staged := applied.value;
    }
    assert r.effects[..|r.effects|] == r.effects;
    if r.sequence in staged.records {
      return Err(InvalidInput);
    }
    result := Ok(staged.(records := staged.records[r.sequence := r.encoded]));
  }

  lemma {:induction false} EffectFails(t: Tables, effects: seq<Effect>, i: nat)
    requires i <= |effects| && ApplyEffects(t, effects[..i]).Err?
    ensures ApplyEffects(t, effects).Err?
    decreases |effects| - i
  {
    if i == |effects| {
      assert effects[..i] == effects;
    } else {
      assert effects[..i + 1][..i] == effects[..i];
      EffectFails(t, effects, i + 1);
    }
  }

  /** Staging the next stretch of the source moves the fold on. */
  lemma {:induction false} StagedIsFold(log: seq<Record>, from: nat, until: nat)
    requires SourceOk(log) && from <= until <= |log|
    ensures ApplyRecords(Fold(log, from).value, log[from..until]) == Fold(log, until)
    decreases until
  {
    hide ApplyRecord;
    if from < until {
      StagedIsFold(log, from, until - 1);
      LastOfSlice(log, from, until);
    } else {
      assert log[from..until] == [];
    }
  }

  lemma LastOfSlice(log: seq<Record>, from: nat, until: nat)
    requires from < until <= |log|
    ensures var slice := log[from..until];
            slice[..|slice| - 1] == log[from..until - 1] && slice[|slice| - 1] == log[until - 1]
  {
  }

  // ---------------------------------------------------------------- the protocol

  /** Source, consumer database, and a cursor checked out but not yet committed by the consumer. */
  datatype World = World(
    source: Retention.State,
    log: seq<Record>,
    progress: Option<Progress>,
    tables: Tables,
    pending: Option<nat>)

  datatype Action =
    | Source(next: Retention.State, more: seq<Record>)
    | Checkout(name: ByteString)
    | Begin
    | Consume(end: nat)
    | Acknowledge
    | CrashSource
    | CrashConsumer

  /** Other clients, commits and maintenance never touch this consumer's cursor. */
  ghost predicate LeavesCursor(w: World, next: Retention.State) {
    w.progress.Some? ==>
      var id := w.progress.value.cursor;
      id in w.source.cursors ==> id in next.cursors && next.cursors[id] == w.source.cursors[id]
  }

  ghost predicate Step(w: World, action: Action, next: World) {
    match action
    case Source(source, more) =>
      && Retention.Step(w.source, source) && LeavesCursor(w, source)
      && SourceOk(w.log + more) && |w.log + more| == source.manifest.durable
      && next == w.(source := source, log := w.log + more)
    case Checkout(name) =>
      && w.progress.None?
      && Retention.Checkout(w.source, 0, Retention.Resolved, name).Ok?
      && next == w.(source := Retention.Checkout(w.source, 0, Retention.Resolved, name).value,
                    pending := Some(w.source.manifest.nextCursor))
    case Begin =>
      && w.progress.None? && w.pending.Some? && w.tables == EMPTY
      && w.pending.value in w.source.cursors
         && w.source.cursors[w.pending.value]
            == Retention.Cursor(Retention.Resolved, 0, w.source.cursors[w.pending.value].name)
      && next == w.(progress := Some(Progress(w.pending.value, 0)), pending := None)
    case Consume(end) =>
      && w.progress.Some? && w.progress.value.watermark <= end <= w.source.frontier <= |w.log|
      && ApplyRecords(w.tables, w.log[w.progress.value.watermark..end]).Ok?
      && next == w.(progress := Some(w.progress.value.(watermark := end)),
                    tables := ApplyRecords(w.tables, w.log[w.progress.value.watermark..end]).value)
    case Acknowledge =>
      && w.progress.Some?
      && Retention.Ack(w.source, w.progress.value.cursor, Retention.Resolved, w.progress.value.watermark).Ok?
      && next == w.(source := Retention.Ack(w.source, w.progress.value.cursor, Retention.Resolved,
                                            w.progress.value.watermark).value)
    case CrashSource => next.source.frontier == w.source.manifest.durable
                        && next == w.(source := w.source.(claims := [], frontier := w.source.manifest.durable))
    case CrashConsumer => next == w.(pending := None)
  }

  /** The mirror is the fold to its watermark, which lies between the cursor's baseline and the frontier. */
  ghost predicate Exact(w: World) {
    && Retention.Protected(w.source)
    && SourceOk(w.log) && |w.log| == w.source.manifest.durable
    && match w.progress
       case None => w.tables == EMPTY
       case Some(p) =>
         && p.watermark <= w.source.frontier
         && Fold(w.log, p.watermark) == Ok(w.tables)
         && p.cursor in w.source.cursors
         && w.source.cursors[p.cursor].kind == Retention.Resolved
         && w.source.cursors[p.cursor].baseline <= p.watermark
  }

  lemma FrontierInLog(s: Retention.State)
    requires Retention.Protected(s)
    ensures s.frontier <= s.manifest.durable
  {
  }

  lemma StepExact(w: World, action: Action, next: World)
    requires Exact(w) && Step(w, action, next)
    ensures Exact(next)
  {
    hide Retention.Protected, Retention.Step, SourceOk, Fold, ApplyRecords, Retention.Checkout, Retention.Ack;
    FrontierInLog(w.source);
    match action
    case Source(source, more) =>
      Retention.StepKeeps(w.source, source);
      if w.progress.Some? {
        FoldExtends(w.log, more, w.progress.value.watermark);
      }
    case Checkout(name) =>
      Retention.CheckoutKeeps(w.source, 0, Retention.Resolved, name);
      CheckoutDurable(w.source, name);
    case Begin =>
      ZeroFold(w.log);
    case Consume(end) =>
      StagedIsFold(w.log, w.progress.value.watermark, end);
    case Acknowledge =>
      Retention.AckKeeps(w.source, w.progress.value.cursor, Retention.Resolved, w.progress.value.watermark);
      AckMoves(w.source, w.progress.value.cursor, w.progress.value.watermark);
    case CrashSource =>
      Retention.RestartKeeps(w.source, next.source);
    case CrashConsumer =>
  }

  lemma ZeroFold(log: seq<Record>)
    ensures Fold(log, 0) == Ok(EMPTY)
  {
  }

  lemma CheckoutDurable(s: Retention.State, name: ByteString)
    requires Retention.Checkout(s, 0, Retention.Resolved, name).Ok?
    ensures Retention.Checkout(s, 0, Retention.Resolved, name).value.manifest.durable == s.manifest.durable
  {
  }

  /** An acknowledgement raises this cursor's baseline to the watermark and nothing else. */
  lemma AckMoves(s: Retention.State, id: nat, watermark: nat)
    requires Retention.Ack(s, id, Retention.Resolved, watermark).Ok?
    ensures var next := Retention.Ack(s, id, Retention.Resolved, watermark).value;
            && next.manifest.durable == s.manifest.durable && next.frontier == s.frontier
            && id in next.cursors && next.cursors[id].kind == Retention.Resolved
               && next.cursors[id].baseline == watermark
  {
  }

  ghost predicate Created(w: World) {
    && Retention.Protected(w.source) && w.log == [] && w.source.manifest.durable == 0
    && w.progress == None && w.tables == EMPTY && w.pending == None
  }

  ghost predicate Run(worlds: seq<World>, actions: seq<Action>) {
    && |worlds| == |actions| + 1 && Created(worlds[0])
    && forall i :: 0 <= i < |actions| ==> Step(worlds[i], actions[i], worlds[i + 1])
  }

  /** Exactly once: over every interleaving of reads, commits, acknowledgements and crashes. */
  lemma {:induction false} RunExact(worlds: seq<World>, actions: seq<Action>, i: nat)
    requires Run(worlds, actions) && i < |worlds|
    ensures Exact(worlds[i])
  {
    hide Step, Exact, Retention.Protected;
    if i == 0 {
      CreatedExact(worlds[0]);
    } else {
      RunExact(worlds, actions, i - 1);
      StepExact(worlds[i - 1], actions[i - 1], worlds[i]);
    }
  }

  /**
   Exactly once, row by row: at a committed watermark the mirror holds exactly the rows that the
   records up to it last put and did not delete or drop, and has seen exactly those records.
   */
  lemma RunMirror(worlds: seq<World>, actions: seq<Action>, i: nat)
    requires Run(worlds, actions) && i < |worlds| && worlds[i].progress.Some?
    ensures var w := worlds[i];
            var n := w.progress.value.watermark;
            && n <= w.source.frontier <= |w.log|
            && (forall table: nat, key, value ::
                  Holds(Effects(w.log, n), table, key, value) <==>
                  (table, key) in w.tables.mirror && w.tables.mirror[(table, key)] == value)
            && (forall table: nat, entry ::
                  Listed(Effects(w.log, n), table, entry) <==>
                  table in w.tables.catalogue && w.tables.catalogue[table] == entry)
            && Audited(w.tables.records, w.log, n)
  {
    hide Run, Retention.Protected, Fold, Holds, Listed, Accepted, Audited;
    RunExact(worlds, actions, i);
    FrontierInLog(worlds[i].source);
    FoldExact(worlds[i].log, worlds[i].progress.value.watermark);
  }

  lemma CreatedExact(w: World)
    requires Created(w)
    ensures Exact(w)
  {
    hide Retention.Protected;
    ZeroFold([]);
  }

  /** `resume` always finds its cursor and its history, and its acknowledgement is accepted or changes nothing. */
  lemma ResumeFinds(worlds: seq<World>, actions: seq<Action>, i: nat)
    requires Run(worlds, actions) && i < |worlds| && worlds[i].progress.Some?
    ensures var w := worlds[i];
            var p := w.progress.value;
            && Retention.Lookup(w.source, p.cursor, Retention.Resolved).Ok?
            && Retention.Lookup(w.source, p.cursor, Retention.Resolved).value.Some?
            && Retention.Lookup(w.source, p.cursor, Retention.Resolved).value.value.baseline <= p.watermark
            && p.watermark <= w.source.frontier
            && w.source.manifest.historyFloor <= p.watermark
            && (Manifests.ValidId(w.source.manifest.generation + 1) ==>
                  Retention.Ack(w.source, p.cursor, Retention.Resolved, p.watermark).Ok?)
  {
    hide Run, Retention.Protected, SourceOk, Fold;
    RunExact(worlds, actions, i);
    var w := worlds[i];
    var p := w.progress.value;
    Retention.CursorsReadable(w.source, p.cursor);
    BaselineAbove(w.source, p.cursor);
  }

  lemma BaselineAbove(s: Retention.State, id: nat)
    requires Retention.Protected(s) && id in s.cursors
    ensures s.manifest.historyFloor <= s.cursors[id].baseline
  {
    hide Manifests.ValidManifest;
    assert Retention.CursorOk(s, id, s.cursors[id]);
  }
}
