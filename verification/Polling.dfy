/**
 Reading a source that moves: between two polls it may commit, publish, serve other claims,
 collect what no claim protects and restart. A held cursor keeps what its reader still needs,
 and the pages read one after another are exactly a stretch of the append-only log.
 */
module Polling {
  import opened Common
  import opened Bytes
  import opened Records
  import opened Exchange
  import opened Manifests
  import opened Feed
  import opened LogicalPages
  import Retention

  /** The claims and manifest of a source beside the whole log it ever wrote, with its outcomes. */
  datatype Live = Live(state: Retention.State, log: seq<LogicalRecord>)

  /** Record `n` is canonical, names the record before it, and carries its outcome. */
  ghost predicate RecordSound(c: Codec, h: Hashes, w: Live, n: nat)
    requires 0 < n <= |w.log| < |w.state.digests|
  {
    var r := w.log[n - 1];
    && ReadRecord(h, r.log, |r.log|, n, w.state.digests[n - 1]) == Ok(r.log)
    && w.state.digests[n] == h.sha(r.log) && Matches(h, r.log, r.outcome)
    && r.outcome.sequence == n && c.encode(r.outcome).Some?
  }

  ghost predicate LogSound(c: Codec, h: Hashes, w: Live) {
    && ValidCodec(c) && |w.log| == w.state.manifest.durable && |w.state.digests| == |w.log| + 1
    && forall n :: 0 < n <= |w.log| ==> RecordSound(c, h, w, n)
  }

  ghost predicate Sound(c: Codec, h: Hashes, w: Live) {
    Retention.Protected(w.state) && LogSound(c, h, w)
  }

  /** One step of the source: any of its operations, and only sound records join the log. */
  ghost predicate Moves(c: Codec, h: Hashes, w: Live, next: Live) {
    && Retention.Step(w.state, next.state) && w.log <= next.log
    && |next.log| == next.state.manifest.durable && |next.state.digests| == |next.log| + 1
    && forall n :: |w.log| < n <= |next.log| ==> RecordSound(c, h, next, n)
  }

  /** The files the source still holds: outcomes above the history floor, the records of its segments. */
  function View(w: Live): Source
    requires w.state.frontier <= |w.log|
    requires forall j :: 0 <= j < |w.state.manifest.segments| ==> Within(w, j)
  {
    var m := w.state.manifest;
    Source(w.state,
      map n: nat | m.historyFloor < n <= w.state.frontier && Visible(n, w.state) :: w.log[n - 1].outcome,
      seq(|m.segments|, j requires 0 <= j < |m.segments| =>
        assert Within(w, j); Stored(w.log, m.segments[j].first, m.segments[j].last)))
  }

  /** Outcomes a feed may return. */
  predicate Visible(n: nat, s: Retention.State) {
    s.manifest.historyFloor < n <= s.frontier
  }

  predicate Within(w: Live, j: nat)
    requires j < |w.state.manifest.segments|
  {
    0 < w.state.manifest.segments[j].first <= w.state.manifest.segments[j].last <= |w.log|
  }

  function Stored(log: seq<LogicalRecord>, first: nat, last: nat): (r: seq<ByteString>)
    requires 0 < first <= last <= |log|
    ensures |r| == last - first + 1 && forall i :: 0 <= i < |r| ==> r[i] == log[first - 1 + i].log
  {
    seq(last - first + 1, i requires 0 <= i < last - first + 1 => log[first - 1 + i].log)
  }

  /** A sound source has a view. */
  lemma ViewDefined(c: Codec, h: Hashes, w: Live)
    requires Sound(c, h, w)
    ensures w.state.frontier <= |w.log|
    ensures forall j :: 0 <= j < |w.state.manifest.segments| ==> Within(w, j)
  {
    hide LogSound;
    SoundLength(c, h, w);
    ManifestCovers(w.state);
    forall j | 0 <= j < |w.state.manifest.segments|
      ensures Within(w, j)
    {
      SegmentWithin(w.state, j);
    }
  }

  lemma SoundLength(c: Codec, h: Hashes, w: Live)
    requires LogSound(c, h, w)
    ensures |w.log| == w.state.manifest.durable && |w.state.digests| == |w.log| + 1 && ValidCodec(c)
  {
  }

  lemma SegmentWithin(s: Retention.State, j: nat)
    requires Retention.Protected(s) && j < |s.manifest.segments|
    ensures 0 < s.manifest.segments[j].first <= s.manifest.segments[j].last <= s.manifest.durable
  {
    hide ValidManifest;
    assert Retention.AnchoredAt(s.manifest, s.digests, j);
  }

  // ---------------------------------------------------------------- what a sound source holds

  lemma ViewHistory(c: Codec, h: Hashes, w: Live)
    requires Sound(c, h, w)
    ensures w.state.frontier <= |w.log| && forall j :: 0 <= j < |w.state.manifest.segments| ==> Within(w, j)
    ensures View(w).state == w.state && HistoryOk(c, View(w))
    ensures forall n :: w.state.manifest.historyFloor < n <= w.state.frontier ==>
              n in View(w).history && View(w).history[n] == w.log[n - 1].outcome
  {
    hide Retention.Protected, ReadRecord;
    ViewDefined(c, h, w);
    SoundLength(c, h, w);
    forall n | w.state.manifest.historyFloor < n <= w.state.frontier
      ensures n in View(w).history && View(w).history[n] == w.log[n - 1].outcome
      ensures w.log[n - 1].outcome.sequence == n && c.encode(w.log[n - 1].outcome).Some?
    {
      assert Visible(n, w.state) && RecordSound(c, h, w, n);
    }
  }

  lemma ViewLogs(c: Codec, h: Hashes, w: Live)
    requires Sound(c, h, w)
    ensures w.state.frontier <= |w.log| && forall j :: 0 <= j < |w.state.manifest.segments| ==> Within(w, j)
    ensures LogsOk(h, View(w))
  {
    hide Retention.Protected, ReadRecord, LogAt, LogSound, ValidManifest, ValidCodec;
    ViewHistory(c, h, w);
    var s, m := View(w), w.state.manifest;
    assert forall j :: 0 <= j < |m.segments| ==> Within(w, j) ==>
      |s.logs[j]| == m.segments[j].last - m.segments[j].first + 1;
    forall j, n | 0 <= j < |m.segments| && m.segments[j].first <= n <= m.segments[j].last
      ensures RecordOk(h, s, j, n)
    {
      StoredOk(c, h, w, j, n);
    }
  }

  /** Record `n`, while the source still holds it. */
  lemma LogHeld(c: Codec, h: Hashes, w: Live, n: nat)
    requires Sound(c, h, w) && w.state.manifest.logFloor <= n <= w.state.manifest.durable
    ensures w.state.frontier <= |w.log| && forall j :: 0 <= j < |w.state.manifest.segments| ==> Within(w, j)
    ensures 0 < n <= |w.log| && LogOf(View(w), n) == w.log[n - 1].log
  {
    hide Retention.Protected, ReadRecord, LogAt, LogSound, ValidManifest, ValidCodec, LogsOk;
    ViewHistory(c, h, w);
    ViewLogs(c, h, w);
    SoundLength(c, h, w);
    var j := Located(w.state, n);
    SegmentWithin(w.state, j);
    LogRecord(h, View(w), j, n);
  }

  lemma Located(s: Retention.State, n: nat) returns (j: nat)
    requires Retention.Protected(s) && s.manifest.logFloor <= n <= s.manifest.durable
    ensures j < |s.manifest.segments| && s.manifest.segments[j].first <= n <= s.manifest.segments[j].last
  {
    hide ValidDescriptor;
    var m := s.manifest;
    SegmentsPartition(m, n, |m.segments|);
    j :| 0 <= j < |m.segments| && m.segments[j].first <= n <= m.segments[j].last;
  }

  lemma StoredOk(c: Codec, h: Hashes, w: Live, j: nat, n: nat)
    requires Sound(c, h, w) && j < |w.state.manifest.segments|
    requires w.state.manifest.segments[j].first <= n <= w.state.manifest.segments[j].last
    requires w.state.frontier <= |w.log| && forall j :: 0 <= j < |w.state.manifest.segments| ==> Within(w, j)
    ensures RecordOk(h, View(w), j, n)
  {
    hide ReadRecord, ValidManifest, ValidCodec;
    assert Within(w, j);
    assert RecordSound(c, h, w, n);
    Retention.AnchoredLength(w.state.manifest, w.state.digests);
  }

  lemma LogFloorPositive(s: Retention.State)
    requires Retention.Protected(s)
    ensures s.manifest.logFloor > 0
  {
    hide ValidDescriptor;
  }

  /** The log a source still holds is linked record by record. */
  lemma ViewLinked(c: Codec, h: Hashes, w: Live)
    requires Sound(c, h, w)
    ensures w.state.frontier <= |w.log| && forall j :: 0 <= j < |w.state.manifest.segments| ==> Within(w, j)
    ensures LogLinked(h, View(w))
  {
    hide Retention.Protected, ReadRecord, LogOf, ValidCodec;
    ViewLogs(c, h, w);
    SoundLength(c, h, w);
    LogFloorPositive(w.state);
    var s, m := View(w), w.state.manifest;
    forall n | m.logFloor <= n <= m.durable
      ensures NamesPrevious(h, s, n)
    {
      LogHeld(c, h, w, n);
      assert RecordSound(c, h, w, n);
      var p := w.state.digests[n - 1];
      if n > m.logFloor {
        LogHeld(c, h, w, n - 1);
        assert RecordSound(c, h, w, n - 1);
      }
      assert ReadRecord(h, LogOf(s, n), |LogOf(s, n)|, n, p) == Ok(LogOf(s, n));
    }
  }

  /** Whatever is read from the view is the log itself. */
  lemma ViewStretch(c: Codec, h: Hashes, w: Live, after: nat)
    requires Sound(c, h, w) && w.state.manifest.historyFloor <= after <= w.state.frontier
    ensures w.state.frontier <= |w.log| && forall j :: 0 <= j < |w.state.manifest.segments| ==> Within(w, j)
    ensures forall n :: after < n <= w.state.frontier ==> n in View(w).history
    ensures Stretch(View(w).history, after, w.state.frontier) == Outcomes(w.log)[after..w.state.frontier]
    ensures w.state.manifest.logFloor <= after + 1 ==>
              LogicalStretch(View(w), after, w.state.frontier) == w.log[after..w.state.frontier]
  {
    hide LogSound, ReadRecord, LogAt;
    ViewHistory(c, h, w);
    ViewLogs(c, h, w);
    ManifestCovers(w.state);
    var all := Stretch(View(w).history, after, w.state.frontier);
    assert forall i :: 0 <= i < |all| ==> all[i] == Outcomes(w.log)[after + i];
    if w.state.manifest.logFloor <= after + 1 {
      var records := LogicalStretch(View(w), after, w.state.frontier);
      forall i | 0 <= i < |records|
        ensures records[i] == w.log[after + i]
      {
        LogHeld(c, h, w, after + 1 + i);
      }
    }
  }

  function Outcomes(log: seq<LogicalRecord>): (r: seq<OutcomeRecord>)
    ensures |r| == |log|
  {
    seq(|log|, i requires 0 <= i < |log| => log[i].outcome)
  }

  lemma OutcomesPrefix(log: seq<LogicalRecord>, longer: seq<LogicalRecord>)
    requires log <= longer
    ensures Outcomes(log) <= Outcomes(longer)
  {
  }

  // ---------------------------------------------------------------- movement

  /** Whatever the source does, it stays sound and its log only grows. */
  lemma MovesKeep(c: Codec, h: Hashes, w: Live, next: Live)
    requires Sound(c, h, w) && Moves(c, h, w, next)
    ensures Sound(c, h, next) && Retention.MovesOn(w.state, next.state)
  {
    hide Retention.Protected, Retention.Step, ReadRecord, ValidCodec;
    Retention.StepKeeps(w.state, next.state);
    forall n | 0 < n <= |next.log|
      ensures RecordSound(c, h, next, n)
    {
      if n <= |w.log| {
        assert RecordSound(c, h, w, n);
      }
    }
  }

  ghost predicate Moving(c: Codec, h: Hashes, worlds: seq<Live>) {
    && worlds != [] && Sound(c, h, worlds[0])
    && forall i :: 0 <= i < |worlds| - 1 ==> Moves(c, h, worlds[i], worlds[i + 1])
  }

  lemma {:induction false} MovingSound(c: Codec, h: Hashes, worlds: seq<Live>, i: nat, j: nat)
    requires Moving(c, h, worlds) && i <= j < |worlds|
    ensures Sound(c, h, worlds[i]) && Sound(c, h, worlds[j])
    ensures worlds[i].log <= worlds[j].log && worlds[i].state.frontier <= worlds[j].state.frontier
    decreases j
  {
    hide Sound, Moves;
    if j > 0 {
      var k := if i < j then i else j - 1;
      MovingSound(c, h, worlds, k, j - 1);
      assert Moves(c, h, worlds[j - 1], worlds[j - 1 + 1]);
      MovesKeep(c, h, worlds[j - 1], worlds[j]);
      MovesGrow(c, h, worlds[j - 1], worlds[j]);
    }
  }

  lemma MovesGrow(c: Codec, h: Hashes, w: Live, next: Live)
    requires Moves(c, h, w, next)
    ensures w.log <= next.log
  {
    hide Retention.Step;
  }

  /** A cursor whose holder has acknowledged nothing past a position still reaches it after any step. */
  lemma ReachKept(s: Retention.State, next: Retention.State, id: nat, at: nat)
    requires Retention.Protected(s) && Retention.Step(s, next) && Held(s, id, at)
    requires id in next.cursors && next.cursors[id].baseline <= at
    ensures Held(next, id, at) && next.cursors[id].kind == s.cursors[id].kind
  {
    hide Retention.Protected, ValidManifest, Retention.Step;
    Retention.StepKeeps(s, next);
    Retention.KindKept(s, next, id);
  }

  /** The cursor exists and a read from `at` is in its reach. */
  ghost predicate Held(s: Retention.State, id: nat, at: nat) {
    id in s.cursors && s.cursors[id].baseline <= at <= s.frontier
  }

  lemma HeldInReach(c: Codec, h: Hashes, w: Live, id: nat, at: nat)
    requires Sound(c, h, w) && Held(w.state, id, at)
    ensures w.state.frontier <= |w.log| && forall j :: 0 <= j < |w.state.manifest.segments| ==> Within(w, j)
    ensures InReach(View(w), id, w.state.cursors[id].kind, at)
    ensures w.state.manifest.historyFloor <= at
    ensures !w.state.cursors[id].kind.Resolved? ==> w.state.manifest.logFloor <= at + 1
  {
    hide LogSound, ValidManifest;
    ViewHistory(c, h, w);
    Retention.CursorsReadable(w.state, id);
    BaselineProtected(w.state, id, w.state.cursors[id].kind);
  }

  // ---------------------------------------------------------------- availability

  /** `log_available`: the segments past the baseline follow one another up to the durable end. */
  method LogAvailable(c: Codec, h: Hashes, w: Live, baseline: nat) returns (ok: bool)
    requires Sound(c, h, w) && baseline <= w.state.frontier
    ensures ok <==> w.state.manifest.logFloor <= baseline + 1
  {
    hide LogSound, ValidManifest, Retention.Protected;
    ManifestCovers(w.state);
    var m := w.state.manifest;
    if m.logFloor > baseline + 1 {
      return false;
    }
    var next := baseline + 1;
    for j := 0 to |m.segments|
      invariant next == if j > 0 && m.segments[j - 1].last > baseline then m.segments[j - 1].last + 1 else baseline + 1
    {
      SegmentStarts(w.state, j);
      if m.segments[j].last > baseline {
        if m.segments[j].first > next {
          return false;
        }
        next := m.segments[j].last + 1;
      }
    }
    ok := next == m.durable + 1;
  }

  /** `available`: the floors, then all that lies past the baseline; on a sound source the floors decide. */
  method CheckAvailable(c: Codec, h: Hashes, w: Live, baseline: nat, kind: Retention.Kind) returns (r: Result<()>)
    requires Sound(c, h, w)
    ensures r == Retention.Available(w.state, baseline, kind)
  {
    hide LogSound, ValidManifest, Retention.Protected, View;
    if baseline < w.state.manifest.historyFloor || baseline > w.state.frontier {
      return Err(HistoryUnavailable);
    }
    ViewHistory(c, h, w);
    var s := View(w);
    for n := baseline + 1 to w.state.frontier + 1 {
      if n !in s.history {
        return Err(HistoryUnavailable);
      }
    }
    if !kind.Resolved? {
      var ok := LogAvailable(c, h, w, baseline);
      if !ok {
        return Err(HistoryUnavailable);
      }
    }
    r := Ok(());
  }

  // ---------------------------------------------------------------- joining pages

  function Flatten<T>(pages: seq<seq<T>>): seq<T> {
    if pages == [] then [] else Flatten(pages[..|pages| - 1]) + pages[|pages| - 1]
  }

  predicate IsSlice<T(==)>(log: seq<T>, ends: seq<nat>, pages: seq<seq<T>>, i: nat)
    requires i < |pages| && |ends| == |pages| + 1
  {
    ends[i] <= ends[i + 1] <= |log| && pages[i] == log[ends[i]..ends[i + 1]]
  }

  lemma {:induction false} SlicesJoin<T>(log: seq<T>, ends: seq<nat>, pages: seq<seq<T>>)
    requires |ends| == |pages| + 1 && forall i :: 0 <= i < |pages| ==> IsSlice(log, ends, pages, i)
    ensures ends[0] <= ends[|pages|] && (pages != [] ==> ends[|pages|] <= |log|)
    ensures pages != [] ==> Flatten(pages) == log[ends[0]..ends[|pages|]]
    decreases |pages|
  {
    if pages != [] {
      var k := |pages| - 1;
      var front, edges := pages[..k], ends[..k + 1];
      forall i | 0 <= i < k
        ensures IsSlice(log, edges, front, i)
      {
        assert IsSlice(log, ends, pages, i);
      }
      SlicesJoin(log, edges, front);
      assert IsSlice(log, ends, pages, k);
      var a, b, c := ends[0], ends[k], ends[k + 1];
      assert Flatten(front) == log[a..b] by {
        if k == 0 {
          assert front == [] && log[a..b] == [];
        }
      }
      assert log[a..b] + log[b..c] == log[a..c];
    }
  }

  /** What the logical feed returned to cursor `id` from `start` while the source was at `w`. */
  ghost predicate LogicalPage(c: Codec, h: Hashes, w: Live, id: nat, start: nat, end: nat, page: seq<LogicalRecord>)
    requires Sound(c, h, w)
  {
    && Held(w.state, id, start) && !w.state.cursors[id].kind.Resolved? && start <= end <= w.state.frontier
    && (HeldInReach(c, h, w, id, start); ViewStretch(c, h, w, start);
        page == LogicalStretch(View(w), start, w.state.frontier)[..end - start])
  }

  ghost predicate ResolvedPage(c: Codec, h: Hashes, w: Live, id: nat, start: nat, end: nat, page: seq<OutcomeRecord>)
    requires Sound(c, h, w)
  {
    && Held(w.state, id, start) && start <= end <= w.state.frontier
    && (HeldInReach(c, h, w, id, start); ViewStretch(c, h, w, start);
        page == Stretch(View(w).history, start, w.state.frontier)[..end - start])
  }

  /** Page `i` was read from `ends[i]` to `ends[i + 1]` when the source was at `worlds[where[i]]`. */
  ghost predicate LogicalRead(c: Codec, h: Hashes, worlds: seq<Live>, where: seq<nat>, id: nat, ends: seq<nat>,
      pages: seq<seq<LogicalRecord>>, i: nat)
    requires i < |pages| == |where| && |ends| == |pages| + 1
  {
    && where[i] < |worlds| && Sound(c, h, worlds[where[i]])
    && LogicalPage(c, h, worlds[where[i]], id, ends[i], ends[i + 1], pages[i])
  }

  ghost predicate ResolvedRead(c: Codec, h: Hashes, worlds: seq<Live>, where: seq<nat>, id: nat, ends: seq<nat>,
      pages: seq<seq<OutcomeRecord>>, i: nat)
    requires i < |pages| == |where| && |ends| == |pages| + 1
  {
    && where[i] < |worlds| && Sound(c, h, worlds[where[i]])
    && ResolvedPage(c, h, worlds[where[i]], id, ends[i], ends[i + 1], pages[i])
  }

  /**
   Pages read one after another from a source that moves on in between, its cursor held back
   to each position when it was read from, are together exactly that stretch of the log.
   */
  lemma PagesJoin(c: Codec, h: Hashes, worlds: seq<Live>, where: seq<nat>, id: nat, ends: seq<nat>,
      pages: seq<seq<LogicalRecord>>)
    requires Moving(c, h, worlds) && |where| == |pages| && |ends| == |pages| + 1
    requires forall i :: 0 <= i < |pages| ==> LogicalRead(c, h, worlds, where, id, ends, pages, i)
    ensures var log := worlds[|worlds| - 1].log;
            pages != [] ==> ends[0] <= ends[|pages|] <= |log| && Flatten(pages) == log[ends[0]..ends[|pages|]]
  {
    hide Sound, Moves, Held, LogicalPage;
    var log := worlds[|worlds| - 1].log;
    forall i | 0 <= i < |pages|
      ensures IsSlice(log, ends, pages, i)
    {
      assert LogicalRead(c, h, worlds, where, id, ends, pages, i);
      LogicalSlice(c, h, worlds, where[i], id, ends[i], ends[i + 1], pages[i]);
    }
    SlicesJoin(log, ends, pages);
  }

  lemma LogicalSlice(c: Codec, h: Hashes, worlds: seq<Live>, i: nat, id: nat, start: nat, end: nat,
      page: seq<LogicalRecord>)
    requires Moving(c, h, worlds) && i < |worlds| && Sound(c, h, worlds[i])
    requires LogicalPage(c, h, worlds[i], id, start, end, page)
    ensures var log := worlds[|worlds| - 1].log; start <= end <= |log| && page == log[start..end]
  {
    hide Sound, Moving, LogicalStretch, View;
    MovingSound(c, h, worlds, i, |worlds| - 1);
    HeldInReach(c, h, worlds[i], id, start);
    ViewStretch(c, h, worlds[i], start);
    var own, frontier := worlds[i].log, worlds[i].state.frontier;
    assert own[start..frontier][..end - start] == own[start..end];
    assert own <= worlds[|worlds| - 1].log;
  }

  /** The same for resolved pages: together they are the outcomes of that stretch. */
  lemma ResolvedPagesJoin(c: Codec, h: Hashes, worlds: seq<Live>, where: seq<nat>, id: nat, ends: seq<nat>,
      pages: seq<seq<OutcomeRecord>>)
    requires Moving(c, h, worlds) && |where| == |pages| && |ends| == |pages| + 1
    requires forall i :: 0 <= i < |pages| ==> ResolvedRead(c, h, worlds, where, id, ends, pages, i)
    ensures var outcomes := Outcomes(worlds[|worlds| - 1].log);
            pages != [] ==> ends[0] <= ends[|pages|] <= |outcomes| && Flatten(pages) == outcomes[ends[0]..ends[|pages|]]
  {
    hide Sound, Moves, Held, ResolvedPage;
    var outcomes := Outcomes(worlds[|worlds| - 1].log);
    forall i | 0 <= i < |pages|
      ensures IsSlice(outcomes, ends, pages, i)
    {
      assert ResolvedRead(c, h, worlds, where, id, ends, pages, i);
      ResolvedSlice(c, h, worlds, where[i], id, ends[i], ends[i + 1], pages[i]);
    }
    SlicesJoin(outcomes, ends, pages);
  }

  lemma ResolvedSlice(c: Codec, h: Hashes, worlds: seq<Live>, i: nat, id: nat, start: nat, end: nat,
      page: seq<OutcomeRecord>)
    requires Moving(c, h, worlds) && i < |worlds| && Sound(c, h, worlds[i])
    requires ResolvedPage(c, h, worlds[i], id, start, end, page)
    ensures var outcomes := Outcomes(worlds[|worlds| - 1].log);
            start <= end <= |outcomes| && page == outcomes[start..end]
  {
    hide Sound, Moving, Stretch, View;
    MovingSound(c, h, worlds, i, |worlds| - 1);
    OutcomesPrefix(worlds[i].log, worlds[|worlds| - 1].log);
    HeldInReach(c, h, worlds[i], id, start);
    ViewStretch(c, h, worlds[i], start);
  }

  // ---------------------------------------------------------------- following a source

  /** The reader neither releases its cursor nor acknowledges past `at` while it reads. */
  ghost predicate KeptBack(worlds: seq<Live>, id: nat, at: nat) {
    && worlds != [] && Held(worlds[0].state, id, at)
    && forall i :: 0 <= i < |worlds| ==> id in worlds[i].state.cursors && worlds[i].state.cursors[id].baseline <= at
  }

  lemma {:induction false} HeldThrough(c: Codec, h: Hashes, worlds: seq<Live>, id: nat, at: nat, i: nat)
    requires Moving(c, h, worlds) && KeptBack(worlds, id, at) && i < |worlds|
    ensures Sound(c, h, worlds[i]) && Held(worlds[i].state, id, at)
    ensures worlds[i].state.cursors[id].kind == worlds[0].state.cursors[id].kind
  {
    hide LogSound, Retention.Protected, Retention.Step, RecordSound;
    if i > 0 {
      HeldThrough(c, h, worlds, id, at, i - 1);
      MovingSound(c, h, worlds, i - 1, i);
      assert Moves(c, h, worlds[i - 1], worlds[i - 1 + 1]);
      ReachKept(worlds[i - 1].state, worlds[i].state, id, at);
    }
  }

  /** Each record fits a batch of its own, in either feed. */
  ghost predicate AllFit(c: Codec, log: seq<LogicalRecord>) {
    EachFits(c, log) && forall i :: 0 <= i < |log| ==>
          EMPTY_BATCH_BYTES + OutcomeSize(c, log[i].outcome) <= MAX_BATCH_BYTES
  }

  lemma SliceFits(c: Codec, h: Hashes, w: Live, log: seq<LogicalRecord>, at: nat)
    requires Sound(c, h, w) && w.log <= log && AllFit(c, log) && w.state.manifest.historyFloor <= at <= w.state.frontier
    ensures w.state.frontier <= |w.log| && forall j :: 0 <= j < |w.state.manifest.segments| ==> Within(w, j)
    ensures forall n :: at < n <= w.state.frontier ==> n in View(w).history
    ensures forall n :: n in View(w).history ==>
            EMPTY_BATCH_BYTES + OutcomeSize(c, View(w).history[n]) <= MAX_BATCH_BYTES
    ensures w.state.manifest.logFloor <= at + 1 ==> EachFits(c, LogicalStretch(View(w), at, w.state.frontier))
  {
    hide Retention.Protected, LogSound, LogicalSize, OutcomeSize, LogicalStretch;
    ViewStretch(c, h, w, at);
    forall n | n in View(w).history
      ensures EMPTY_BATCH_BYTES + OutcomeSize(c, View(w).history[n]) <= MAX_BATCH_BYTES
    {
      assert View(w).history[n] == log[n - 1].outcome;
    }
    assert forall i :: 0 <= i < w.state.frontier - at ==> w.log[at..w.state.frontier][i] == log[at + i];
  }

  /**
   Follow a source that moves after every poll: one page from each of its states, and from the
   last one until nothing is left. The reader has then seen the log once and in order.
   */
  method FollowLogical(c: Codec, h: Hashes, worlds: seq<Live>, database: ByteString, id: nat, after: nat,
      start: Limits) returns (r: Result<seq<LogicalRecord>>)
    requires Moving(c, h, worlds) && KeptBack(worlds, id, after) && !worlds[0].state.cursors[id].kind.Resolved?
    requires ValidLimits(start) && start.maxRecords > 0 && AllFit(c, worlds[|worlds| - 1].log)
    ensures var last := worlds[|worlds| - 1];
            after <= last.state.frontier <= |last.log| && r == Ok(last.log[after..last.state.frontier])
  {
    hide Sound, Moving, KeptBack, Retention.Protected, LogicalStretch, EachFits, AllFit, View, HistoryOk, LogsOk,
      InReach;
    var at, limits := after, start;
    var records: seq<LogicalRecord> := [];
    NonEmpty(c, h, worlds);
    ghost var last := worlds[|worlds| - 1];
    Arrive(c, h, worlds, id, after, after, 0);
    var i := 0;
    while i < |worlds|
      invariant i <= |worlds| && after <= at && ValidLimits(limits) && limits.maxRecords > 0
      invariant i == 0 ==> at == after
      invariant i > 0 ==> at <= worlds[i - 1].state.frontier
      invariant at <= |last.log| && records == last.log[after..at]
      invariant i == |worlds| ==> at == last.state.frontier
    {
      Arrive(c, h, worlds, id, after, at, i);
      var s := View(worlds[i]);
      var kind := worlds[i].state.cursors[id].kind;
      var taken: seq<LogicalRecord>;
      if i < |worlds| - 1 {
        var batch, raised := PollLogicalOnce(c, h, s, database, id, kind, at, limits);
        if batch.Err? || batch.value.records.Resolved? {
          return Err(Corrupt);
        }
        limits, taken := raised, batch.value.records.records;
      } else {
        var rest := PollLogical(c, h, s, database, id, kind, at, limits);
        if rest.Err? {
          return rest;
        }
        taken := rest.value;
      }
      SliceExtends(last.log, after, at, worlds[i].state.frontier, |taken|);
      records := records + taken;
      at := at + |taken|;
      i := i + 1;
    }
    r := Ok(records);
  }

  lemma SliceExtends<T>(log: seq<T>, start: nat, at: nat, end: nat, count: nat)
    requires start <= at <= at + count <= end <= |log|
    ensures log[at..end][..count] == log[at..at + count]
    ensures log[start..at] + log[at..at + count] == log[start..at + count]
  {
  }

  lemma NonEmpty(c: Codec, h: Hashes, worlds: seq<Live>)
    requires Moving(c, h, worlds)
    ensures worlds != []
  {
  }

  /** What the next poll may rely on. */
  lemma Arrive(c: Codec, h: Hashes, worlds: seq<Live>, id: nat, after: nat, at: nat, i: nat)
    requires Moving(c, h, worlds) && KeptBack(worlds, id, after) && i < |worlds| && after <= at
    requires i == 0 ==> at == after
    requires i > 0 ==> at <= worlds[i - 1].state.frontier
    requires AllFit(c, worlds[|worlds| - 1].log)
    ensures var w, log := worlds[i], worlds[|worlds| - 1].log;
            && Sound(c, h, w) && w.state.frontier <= |w.log| <= |log| && w.log <= log && at <= w.state.frontier
            && (forall j :: 0 <= j < |w.state.manifest.segments| ==> Within(w, j))
            && id in w.state.cursors && w.state.cursors[id].kind == worlds[0].state.cursors[id].kind
            && InReach(View(w), id, w.state.cursors[id].kind, at) && HistoryOk(c, View(w)) && LogsOk(h, View(w))
            && Retention.Protected(View(w).state) && View(w).state == w.state && Available(View(w), at)
            && |View(w).logs| == |w.state.manifest.segments|
            && (forall n :: at < n <= w.state.frontier ==> n in View(w).history)
            && (forall n :: n in View(w).history ==>
                  EMPTY_BATCH_BYTES + OutcomeSize(c, View(w).history[n]) <= MAX_BATCH_BYTES)
            && Stretch(View(w).history, at, w.state.frontier) == Outcomes(log)[at..w.state.frontier]
            && (!w.state.cursors[id].kind.Resolved? ==>
                  && EachFits(c, LogicalStretch(View(w), at, w.state.frontier))
                  && LogicalStretch(View(w), at, w.state.frontier) == log[at..w.state.frontier])
  {
    hide Moving, LogSound, Retention.Protected, View, LogicalStretch, EachFits, LogsOk, HistoryOk, InReach, Stretch;
    var w, log := worlds[i], worlds[|worlds| - 1].log;
    HeldThrough(c, h, worlds, id, after, i);
    MovingSound(c, h, worlds, i, |worlds| - 1);
    if i > 0 {
      MovingSound(c, h, worlds, i - 1, i);
    }
    HeldInReach(c, h, w, id, at);
    ViewHistory(c, h, w);
    ViewLogs(c, h, w);
    LogsCount(h, View(w));
    ViewStretch(c, h, w, at);
    OutcomesPrefix(w.log, log);
    SliceFits(c, h, w, log, at);
  }

  /** The same for the resolved feed. */
  method FollowResolved(c: Codec, h: Hashes, worlds: seq<Live>, database: ByteString, id: nat, after: nat,
      start: Limits) returns (r: Result<seq<OutcomeRecord>>)
    requires Moving(c, h, worlds) && KeptBack(worlds, id, after) && worlds[0].state.cursors[id].kind.Resolved?
    requires ValidLimits(start) && start.maxRecords > 0 && AllFit(c, worlds[|worlds| - 1].log)
    ensures var last := worlds[|worlds| - 1];
            after <= last.state.frontier <= |last.log| && r == Ok(Outcomes(last.log)[after..last.state.frontier])
  {
    hide Sound, Moving, KeptBack, Retention.Protected, Stretch, AllFit, View, HistoryOk, LogsOk, InReach, Outcomes;
    var at, limits := after, start;
    var records: seq<OutcomeRecord> := [];
    NonEmpty(c, h, worlds);
    ghost var last := worlds[|worlds| - 1];
    Arrive(c, h, worlds, id, after, after, 0);
    var i := 0;
    while i < |worlds|
      invariant i <= |worlds| && after <= at && ValidLimits(limits) && limits.maxRecords > 0
      invariant i == 0 ==> at == after
      invariant i > 0 ==> at <= worlds[i - 1].state.frontier
      invariant at <= |last.log| && records == Outcomes(last.log)[after..at]
      invariant i == |worlds| ==> at == last.state.frontier
    {
      Arrive(c, h, worlds, id, after, at, i);
      var s := View(worlds[i]);
      var taken: seq<OutcomeRecord>;
      if i < |worlds| - 1 {
        var batch, raised := PollOnce(c, s, database, id, at, limits);
        if batch.Err? || batch.value.records.Logical? {
          return Err(Corrupt);
        }
        limits, taken := raised, batch.value.records.outcomes;
      } else {
        var rest := PollAll(c, s, database, id, at, limits);
        if rest.Err? {
          return rest;
        }
        taken := rest.value;
      }
      SliceExtends(Outcomes(last.log), after, at, worlds[i].state.frontier, |taken|);
      records := records + taken;
      at := at + |taken|;
      i := i + 1;
    }
    r := Ok(records);
  }
}
