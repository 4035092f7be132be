/**
 Paging a feed: each poll returns the longest run of complete records after a position
 that fits its limits, so successive polls cover the history without gap or repeat.
 */
module Feed {
  import opened Common
  import opened Bytes
  import opened Records
  import opened Exchange
  import opened Manifests
  import Retention
  import Wal

  datatype Limits = Limits(maxRecords: nat, maxBytes: nat)

  /** The source a feed reads: its claims, its outcomes and the records of its log segments. */
  datatype Source = Source(
    state: Retention.State,
    history: map<nat, OutcomeRecord>,
    logs: seq<seq<ByteString>>)

  /** Outcomes are kept for every record above the history floor, each in its place and encodable. */
  ghost predicate HistoryOk(c: Codec, s: Source) {
    && ValidCodec(c)
    && forall n :: s.state.manifest.historyFloor < n <= s.state.frontier ==>
         n in s.history && s.history[n].sequence == n && c.encode(s.history[n]).Some?
  }

  // ---------------------------------------------------------------- pages

  function Sum(sizes: seq<nat>): nat {
    if sizes == [] then 0 else Sum(sizes[..|sizes| - 1]) + sizes[|sizes| - 1]
  }

  /** A page of `k` records fits the limits. */
  predicate Fits(sizes: seq<nat>, k: nat, limits: Limits) {
    k <= |sizes| && k <= limits.maxRecords && EMPTY_BATCH_BYTES + Sum(sizes[..k]) <= limits.maxBytes
  }

  /** The longest page that fits. */
  predicate IsPage(sizes: seq<nat>, k: nat, limits: Limits) {
    Fits(sizes, k, limits) && !Fits(sizes, k + 1, limits)
  }

  lemma SumNext(sizes: seq<nat>, k: nat)
    requires k < |sizes|
    ensures Sum(sizes[..k + 1]) == Sum(sizes[..k]) + sizes[k]
  {
    assert sizes[..k + 1][..k] == sizes[..k];
  }

  /** The records of a stretch of history. */
  function Stretch(history: map<nat, OutcomeRecord>, after: nat, end: nat): seq<OutcomeRecord>
    requires after <= end && forall n :: after < n <= end ==> n in history
  {
    seq(end - after, i requires 0 <= i < end - after => history[after + 1 + i])
  }

  function OutcomeSize(c: Codec, r: OutcomeRecord): nat {
    match c.encode(r) case Some(bytes) => |bytes| + 4 case None => 0
  }

  function Sizes(c: Codec, records: seq<OutcomeRecord>): (r: seq<nat>)
    ensures |r| == |records|
  {
    seq(|records|, i requires 0 <= i < |records| => OutcomeSize(c, records[i]))
  }

  predicate ValidLimits(limits: Limits) {
    EMPTY_BATCH_BYTES <= limits.maxBytes <= MAX_BATCH_BYTES
  }

  predicate InReach(s: Source, id: nat, kind: Retention.Kind, after: nat) {
    && Retention.Lookup(s.state, id, kind).Ok? && Retention.Lookup(s.state, id, kind).value.Some?
    && Retention.Lookup(s.state, id, kind).value.value.baseline <= after <= s.state.frontier
  }

  /** The history a resolved feed pages through after a position. */
  ghost predicate Available(s: Source, after: nat) {
    s.state.manifest.historyFloor <= after <= s.state.frontier
  }

  // ---------------------------------------------------------------- resolved feed

  /**
   `feed::batch`: the longest page of complete records after a position. When not even the
   first fits, the error says how many bytes it needs.
   */
  method ReadFeed(c: Codec, s: Source, database: ByteString, id: nat, after: nat, limits: Limits)
    returns (r: Result<FeedBatch>)
    requires HistoryOk(c, s) && Retention.Protected(s.state)
    ensures !InReach(s, id, Retention.Resolved, after) || !ValidLimits(limits) ==> r.Err?
    ensures InReach(s, id, Retention.Resolved, after) && ValidLimits(limits) ==>
              && Available(s, after)
              && var all := Stretch(s.history, after, s.state.frontier);
                 match r
                 case Ok(b) =>
                   && b.database == database && b.start == after && b.end == after + Exchange.Count(b.records)
                   && b.records.Resolved? && |b.records.outcomes| <= |all|
                   && b.records.outcomes == all[..|b.records.outcomes|]
                   && IsPage(Sizes(c, all), |b.records.outcomes|, limits)
                   && (b.records.outcomes == [] ==> all == [] || limits.maxRecords == 0)
                 case Err(e) =>
                   && limits.maxRecords > 0 && all != []
                   && e == BatchTooSmall(EMPTY_BATCH_BYTES + Sizes(c, all)[0])
                   && EMPTY_BATCH_BYTES + Sizes(c, all)[0] > limits.maxBytes
  {
    hide Retention.Protected, Sum, IsPage;
    var info :- Retention.Lookup(s.state, id, Retention.Resolved);
    if info.None? {
      return Err(CursorReleased);
    }
    if after < info.value.baseline || after > s.state.frontier {
      return Err(HistoryUnavailable);
    }
    if !ValidLimits(limits) {
      return Err(InvalidInput);
    }
    BaselineProtected(s.state, id, Retention.Resolved);
    ghost var all := Stretch(s.history, after, s.state.frontier);
    ghost var sizes := Sizes(c, all);
    var records: seq<OutcomeRecord> := [];
    var bytes: nat := EMPTY_BATCH_BYTES;
    assert Sum(sizes[..0]) == 0 by { EmptySum(); }
    var sequence := after + 1;
    while sequence <= s.state.frontier
      invariant sequence == after + 1 + |records| && |records| <= |all|
      invariant records == all[..|records|]
      invariant bytes == EMPTY_BATCH_BYTES + Sum(sizes[..|records|]) <= limits.maxBytes
      invariant |records| <= limits.maxRecords
    {
      if |records| >= limits.maxRecords {
        break;
      }
      var record := s.history[sequence];
      var size := OutcomeSize(c, record);
      assert record == all[|records|] && size == sizes[|records|];
      SumNext(sizes, |records|);
      if size > limits.maxBytes - bytes {
        PageEnds(sizes, |records|, limits);
        if records == [] {
          return Err(BatchTooSmall(EMPTY_BATCH_BYTES + size));
        }
        break;
      }
      bytes := bytes + size;
      records := records + [record];
      sequence := sequence + 1;
    }
    PageEnds(sizes, |records|, limits);
    r := Ok(FeedBatch(database, after, after + |records|, Resolved(records)));
  }

  lemma EmptySum()
    ensures Sum([]) == 0
  {
  }

  lemma PageEnds(sizes: seq<nat>, k: nat, limits: Limits)
    requires k <= |sizes| && k <= limits.maxRecords && EMPTY_BATCH_BYTES + Sum(sizes[..k]) <= limits.maxBytes
    requires k == |sizes| || k == limits.maxRecords || EMPTY_BATCH_BYTES + Sum(sizes[..k]) + sizes[k] > limits.maxBytes
    ensures IsPage(sizes, k, limits)
  {
    if k < |sizes| {
      SumNext(sizes, k);
    }
  }

  lemma BaselineProtected(s: Retention.State, id: nat, kind: Retention.Kind)
    requires Retention.Protected(s)
    requires Retention.Lookup(s, id, kind).Ok? && Retention.Lookup(s, id, kind).value.Some?
    ensures s.manifest.historyFloor <= Retention.Lookup(s, id, kind).value.value.baseline
    ensures kind != Retention.Resolved ==> s.manifest.logFloor <= Retention.Lookup(s, id, kind).value.value.baseline + 1
  {
    hide ValidManifest;
  }

  /** A retry with the reported size and room for one record returns it. */
  lemma RetryProgresses(sizes: seq<nat>, limits: Limits, k: nat)
    requires sizes != [] && limits.maxRecords > 0 && limits.maxBytes == EMPTY_BATCH_BYTES + sizes[0]
    requires IsPage(sizes, k, limits)
    ensures k > 0
  {
    SumNext(sizes, 0);
    EmptySum();
  }

  // ---------------------------------------------------------------- accounted bytes

  /** The bytes a page is charged are exactly the bytes its encoding takes. */
  lemma {:induction false} BodyLength(c: Codec, h: Hashes, start: nat, outcomes: seq<OutcomeRecord>, i: nat)
    requires ValidCodec(c) && i <= |outcomes|
    requires forall k :: 0 <= k < |outcomes| ==> outcomes[k].sequence == start + k + 1 && c.encode(outcomes[k]).Some?
    ensures EncodeFrom(c, h, start, Resolved(outcomes), i, None).Ok?
    ensures |EncodeFrom(c, h, start, Resolved(outcomes), i, None).value| + Sum(Sizes(c, outcomes)[..i])
            == Sum(Sizes(c, outcomes))
    ensures |EncodeFrom(c, h, start, Resolved(outcomes), i, None).value| >= 80 * (|outcomes| - i)
    decreases |outcomes| - i
  {
    var sizes := Sizes(c, outcomes);
    if i < |outcomes| {
      BodyLength(c, h, start, outcomes, i + 1);
      SumNext(sizes, i);
    } else {
      assert sizes[..i] == sizes;
    }
  }

  /** A page encodes, within its byte limit, to as many bytes as it was charged. */
  lemma PageEncodes(c: Codec, h: Hashes, b: FeedBatch, limits: Limits)
    requires ValidCodec(c) && ValidLimits(limits) && b.records.Resolved?
    requires |b.database| == 16 && b.database != Wal.Zeros(16) && b.end == b.start + |b.records.outcomes| < U64_MAX
    requires forall k :: 0 <= k < |b.records.outcomes| ==>
               b.records.outcomes[k].sequence == b.start + k + 1 && c.encode(b.records.outcomes[k]).Some?
    requires EMPTY_BATCH_BYTES + Sum(Sizes(c, b.records.outcomes)) <= limits.maxBytes
    ensures Encode(c, h, b).Ok?
    ensures |Encode(c, h, b).value| == EMPTY_BATCH_BYTES + Sum(Sizes(c, b.records.outcomes)) <= limits.maxBytes
  {
    hide EncodeFrom, Sum, ValidCodec;
    BodyLength(c, h, b.start, b.records.outcomes, 0);
    assert Sizes(c, b.records.outcomes)[..0] == [];
    EmptySum();
    HeaderLength(b, |Encode(c, h, b).value|);
  }

  // ---------------------------------------------------------------- polling

  /** One poll of the consumer: when even the first record is too large, ask again with the size reported. */
  method PollOnce(c: Codec, s: Source, database: ByteString, id: nat, at: nat, limits: Limits)
    returns (r: Result<FeedBatch>, raised: Limits)
    requires HistoryOk(c, s) && Retention.Protected(s.state)
    requires ValidLimits(limits) && limits.maxRecords > 0 && InReach(s, id, Retention.Resolved, at)
    requires forall n :: n in s.history ==> EMPTY_BATCH_BYTES + OutcomeSize(c, s.history[n]) <= MAX_BATCH_BYTES
    ensures ValidLimits(raised) && raised.maxRecords > 0
    ensures Available(s, at) && r.Ok? && r.value.records.Resolved?
    ensures var all, taken := Stretch(s.history, at, s.state.frontier), r.value.records.outcomes;
            && |taken| <= |all| && taken == all[..|taken|] && r.value.end == at + |taken|
            && (taken == [] ==> all == [])
  {
    hide Retention.Protected, Retention.Lookup, Sum, IsPage, Fits;
    raised := limits;
    r := ReadFeed(c, s, database, id, at, limits);
    ghost var all := Stretch(s.history, at, s.state.frontier);
    if r.Err? && r.error.BatchTooSmall? {
      assert all[0] == s.history[at + 1] && Sizes(c, all)[0] == OutcomeSize(c, all[0]);
      raised := Limits(1, r.error.required);
      r := ReadFeed(c, s, database, id, at, raised);
    }
  }

  /**
   The consumer's loop: poll from each returned position. It ends, having read all of the
   history after its start once and in order.
   */
  method PollAll(c: Codec, s: Source, database: ByteString, id: nat, after: nat, start: Limits)
    returns (r: Result<seq<OutcomeRecord>>)
    requires HistoryOk(c, s) && Retention.Protected(s.state)
    requires ValidLimits(start) && start.maxRecords > 0
    requires forall n :: n in s.history ==> EMPTY_BATCH_BYTES + OutcomeSize(c, s.history[n]) <= MAX_BATCH_BYTES
    ensures !InReach(s, id, Retention.Resolved, after) ==> r.Err?
    ensures InReach(s, id, Retention.Resolved, after) ==>
              Available(s, after) && r == Ok(Stretch(s.history, after, s.state.frontier))
  {
    hide Retention.Protected, Retention.Lookup;
    var at, limits := after, start;
    var records: seq<OutcomeRecord> := [];
    if !InReach(s, id, Retention.Resolved, after) {
      return Err(HistoryUnavailable);
    }
    BaselineProtected(s.state, id, Retention.Resolved);
    while at < s.state.frontier
      invariant after <= at <= s.state.frontier
      invariant InReach(s, id, Retention.Resolved, at) && ValidLimits(limits) && limits.maxRecords > 0
      invariant Available(s, after) && records == Stretch(s.history, after, at)
      decreases s.state.frontier - at
    {
      var batch, raised := PollOnce(c, s, database, id, at, limits);
      limits := raised;
      if batch.Err? || batch.value.records.Logical? {
        return Err(Corrupt);
      }
      var taken := batch.value.records.outcomes;
      assert records + taken == Stretch(s.history, after, at + |taken|);
      records := records + taken;
      at := batch.value.end;
    }
    r := Ok(records);
  }

  // ---------------------------------------------------------------- logical feed

  /** Where record `n` lies in the log. */
  function LogAt(segments: seq<Descriptor>, logs: seq<seq<ByteString>>, n: nat): ByteString
    requires |segments| == |logs|
  {
    if segments == [] then []
    else if segments[0].first <= n <= segments[0].last && n - segments[0].first < |logs[0]| then
        logs[0][n - segments[0].first]
    else LogAt(segments[1..], logs[1..], n)
  }

  /** An outcome and the log record it resolved. */
  predicate Matches(h: Hashes, log: ByteString, outcome: OutcomeRecord) {
    |log| >= RECORD_OVERHEAD && outcome.digest == h.sha(log) && outcome.kind == log[24]
  }

  /** The segments hold one validated record per sequence, matching the kept outcomes and the checkpoint. */
  ghost predicate LogsOk(h: Hashes, s: Source) {
    var m := s.state.manifest;
    && |s.logs| == |m.segments|
    && (forall j :: 0 <= j < |m.segments| ==> |s.logs[j]| == m.segments[j].last - m.segments[j].first + 1)
    && (forall j, n :: 0 <= j < |m.segments| && m.segments[j].first <= n <= m.segments[j].last ==> RecordOk(h, s, j, n))
  }

  ghost predicate RecordOk(h: Hashes, s: Source, j: nat, n: nat)
    requires j < |s.logs| && j < |s.state.manifest.segments| && s.state.manifest.segments[j].first <= n
  {
    n - s.state.manifest.segments[j].first < |s.logs[j]| &&
    var log := s.logs[j][n - s.state.manifest.segments[j].first];
    && (n == s.state.manifest.checkpoint ==> h.sha(log) == s.state.manifest.checkpointDigest)
    && (s.state.manifest.historyFloor < n <= s.state.frontier && n in s.history ==> Matches(h, log, s.history[n]))
  }

  lemma {:induction false} LogAtSegment(m: Manifest, logs: seq<seq<ByteString>>, from: nat, j: nat, n: nat)
    requires ValidManifest(m) && |logs| == |m.segments| && from <= j < |m.segments|
    requires m.segments[j].first <= n <= m.segments[j].last && n - m.segments[j].first < |logs[j]|
    ensures LogAt(m.segments[from..], logs[from..], n) == logs[j][n - m.segments[j].first]
    decreases j - from
  {
    hide ValidManifest;
    if from < j {
      SegmentsAscend(m, from, j);
      LogAtSegment(m, logs, from + 1, j, n);
      assert m.segments[from..][1..] == m.segments[from + 1..] && logs[from..][1..] == logs[from + 1..];
    }
  }

  function LogicalStretch(s: Source, after: nat, end: nat): seq<LogicalRecord>
    requires |s.logs| == |s.state.manifest.segments|
    requires after <= end && forall n :: after < n <= end ==> n in s.history
  {
    seq(end - after, i requires 0 <= i < end - after =>
      LogicalRecord(LogAt(s.state.manifest.segments, s.logs, after + 1 + i), s.history[after + 1 + i]))
  }

  function LogicalSize(c: Codec, r: LogicalRecord): nat {
    |r.log| + OutcomeSize(c, r.outcome) + 4
  }

  function LogicalSizes(c: Codec, records: seq<LogicalRecord>): (r: seq<nat>)
    ensures |r| == |records|
  {
    seq(|records|, i requires 0 <= i < |records| => LogicalSize(c, records[i]))
  }

  /** The kinds of cursor a logical feed serves. */
  predicate LogKind(kind: Retention.Kind) {
    kind.Logical? || kind.Replica?
  }

  /** How reading one segment into a page ended. */
  datatype Ending = Through | Enough | Full

  ghost predicate Partial(c: Codec, s: Source, after: nat, limits: Limits, records: seq<LogicalRecord>, size: nat)
    requires |s.logs| == |s.state.manifest.segments| && Available(s, after)
    requires forall n :: after < n <= s.state.frontier ==> n in s.history
  {
    var all := LogicalStretch(s, after, s.state.frontier);
    && |records| <= |all| && records == all[..|records|] && |records| <= limits.maxRecords
    && size == EMPTY_BATCH_BYTES + Sum(LogicalSizes(c, all)[..|records|]) <= limits.maxBytes
  }

  /** The next record joins the page, or shows the page is complete. */
  lemma PartialStep(c: Codec, s: Source, after: nat, limits: Limits, records: seq<LogicalRecord>, size: nat, n: nat)
    requires |s.logs| == |s.state.manifest.segments| && Available(s, after)
    requires forall n :: after < n <= s.state.frontier ==> n in s.history
    requires Partial(c, s, after, limits, records, size) && n == after + |records| + 1 <= s.state.frontier
    requires |records| < limits.maxRecords
    ensures var record := LogicalRecord(LogAt(s.state.manifest.segments, s.logs, n), s.history[n]);
            var sizes := LogicalSizes(c, LogicalStretch(s, after, s.state.frontier));
            && sizes[|records|] == LogicalSize(c, record)
            && if LogicalSize(c, record) > limits.maxBytes - size then IsPage(sizes, |records|, limits)
               else Partial(c, s, after, limits, records + [record], size + LogicalSize(c, record))
  {
    hide LogAt, OutcomeSize, Sum;
    var sizes := LogicalSizes(c, LogicalStretch(s, after, s.state.frontier));
    SumNext(sizes, |records|);
    if sizes[|records|] > limits.maxBytes - size {
      PageEnds(sizes, |records|, limits);
    }
  }

  /** Read the records of one segment that the page still wants. */
  method PageSegment(c: Codec, h: Hashes, s: Source, j: nat, after: nat, limits: Limits, start: seq<LogicalRecord>,
      used: nat) returns (r: Result<(seq<LogicalRecord>, nat, Ending)>)
    requires HistoryOk(c, s) && Retention.Protected(s.state) && LogsOk(h, s) && Available(s, after)
    requires j < |s.state.manifest.segments| && Partial(c, s, after, limits, start, used)
    requires s.state.manifest.segments[j].first <= after + |start| + 1
    ensures match r
            case Ok((records, size, ending)) =>
              && Partial(c, s, after, limits, records, size)
              && |start| <= |records|
              && (ending.Through? ==> s.state.manifest.segments[j].last <= after + |records|)
              && (ending.Enough? ==> after + |records| == s.state.frontier || |records| == limits.maxRecords)
              && (ending.Full? ==> records != [])
              && (ending.Full? ==>
                    IsPage(LogicalSizes(c, LogicalStretch(s, after, s.state.frontier)), |records|, limits))
            case Err(e) =>
              && after < s.state.frontier && limits.maxRecords > 0
              && var size := LogicalSizes(c, LogicalStretch(s, after, s.state.frontier))[0];
                 e == BatchTooSmall(EMPTY_BATCH_BYTES + size) && EMPTY_BATCH_BYTES + size > limits.maxBytes
  {
    hide Retention.Protected, IsPage, LogAt, LogsOk, OutcomeSize, LogicalStretch, LogicalSizes, Partial;
    var m, frontier, d := s.state.manifest, s.state.frontier, s.state.manifest.segments[j];
    var records: seq<LogicalRecord>, size: nat := start, used;
    LogsCount(h, s);
    PartialWithin(c, s, after, limits, records, size);
    var n := d.first;
    while n <= d.last
      invariant d.first <= n
      invariant Partial(c, s, after, limits, records, size)
      invariant |start| <= |records| <= limits.maxRecords && after + |records| <= frontier
      invariant after + |records| == if n - 1 > after + |start| then n - 1 else after + |start|
      decreases d.last + 1 - n
    {
      if n > frontier || |records| == limits.maxRecords {
        return Ok((records, size, Enough));
      }
      LogRecord(h, s, j, n);
      var log := s.logs[j][n - d.first];
      var digest := h.sha(log);
      if n == m.checkpoint && digest != m.checkpointDigest {
        return Err(Corrupt);
      }
      if n > after + |start| {
        var outcome := s.history[n];
        if outcome.digest != digest || outcome.kind != log[24] {
          return Err(Corrupt);
        }
        var record := LogicalRecord(log, outcome);
        PartialStep(c, s, after, limits, records, size, n);
        var required := LogicalSize(c, record);
        if required > limits.maxBytes - size {
          if records == [] {
            EmptyUsed(c, s, after, limits, size);
            return Err(BatchTooSmall(EMPTY_BATCH_BYTES + required));
          }
          return Ok((records, size, Full));
        }
        size := size + required;
        records := records + [record];
      }
      n := n + 1;
    }
    r := Ok((records, size, Through));
  }

  lemma PartialWithin(c: Codec, s: Source, after: nat, limits: Limits, records: seq<LogicalRecord>, size: nat)
    requires |s.logs| == |s.state.manifest.segments| && Available(s, after)
    requires forall n :: after < n <= s.state.frontier ==> n in s.history
    requires Partial(c, s, after, limits, records, size)
    ensures after + |records| <= s.state.frontier && |records| <= limits.maxRecords
    ensures |LogicalStretch(s, after, s.state.frontier)| == s.state.frontier - after
  {
  }

  lemma EmptyUsed(c: Codec, s: Source, after: nat, limits: Limits, size: nat)
    requires |s.logs| == |s.state.manifest.segments| && Available(s, after)
    requires forall n :: after < n <= s.state.frontier ==> n in s.history
    requires Partial(c, s, after, limits, [], size)
    ensures size == EMPTY_BATCH_BYTES
  {
    var sizes := LogicalSizes(c, LogicalStretch(s, after, s.state.frontier));
    assert sizes[..0] == [];
  }

  /**
   The logical feed: page through the log segments beside the outcomes. A cursor's claim
   keeps both, so no gap is ever found, and the page is the longest that fits.
   */
  method ReadLogicalFeed(c: Codec, h: Hashes, s: Source, database: ByteString, id: nat, kind: Retention.Kind,
      after: nat, limits: Limits) returns (r: Result<FeedBatch>)
    requires HistoryOk(c, s) && Retention.Protected(s.state) && LogsOk(h, s)
    ensures !InReach(s, id, kind, after) || !ValidLimits(limits) || !LogKind(kind) ==> r.Err?
    ensures InReach(s, id, kind, after) && ValidLimits(limits) && LogKind(kind) ==>
              && Available(s, after)
              && var all := LogicalStretch(s, after, s.state.frontier);
                 match r
                 case Ok(b) =>
                   && b.database == database && b.start == after && b.end == after + Exchange.Count(b.records)
                   && b.records.Logical? && |b.records.records| <= |all|
                   && b.records.records == all[..|b.records.records|]
                   && IsPage(LogicalSizes(c, all), |b.records.records|, limits)
                   && (b.records.records == [] ==> all == [] || limits.maxRecords == 0)
                 case Err(e) =>
                   && limits.maxRecords > 0 && all != []
                   && e == BatchTooSmall(EMPTY_BATCH_BYTES + LogicalSizes(c, all)[0])
                   && EMPTY_BATCH_BYTES + LogicalSizes(c, all)[0] > limits.maxBytes
  {
    hide Retention.Protected, Retention.Lookup, IsPage, LogAt, LogsOk, OutcomeSize, LogicalSizes, Partial;
    var m, frontier := s.state.manifest, s.state.frontier;
    if !LogKind(kind) {
      return Err(InvalidToken);
    }
    var info :- Retention.Lookup(s.state, id, kind);
    if info.None? {
      return Err(CursorReleased);
    }
    if after < info.value.baseline || after > frontier {
      return Err(HistoryUnavailable);
    }
    if !ValidLimits(limits) {
      return Err(InvalidInput);
    }
    BaselineProtected(s.state, id, kind);
    ManifestCovers(s.state);
    assert |s.logs| == |m.segments| by { LogsCount(h, s); }
    var records: seq<LogicalRecord>, size: nat := [], EMPTY_BATCH_BYTES;
    PartialNone(c, s, after, limits);
    var full := false;
    var j := 0;
    while j < |m.segments|
      invariant j <= |m.segments| && !full
      invariant Partial(c, s, after, limits, records, size)
      invariant j > 0 ==> m.segments[j - 1].last <= after + |records|
    {
      var d := m.segments[j];
      SegmentStarts(s.state, j);
      if d.last > after {
        if after + |records| == frontier || |records| == limits.maxRecords {
          break;
        }
        if d.first > after + |records| + 1 {
          return Err(Corrupt);
        }
        var page := PageSegment(c, h, s, j, after, limits, records, size);
        if page.Err? {
          return Err(page.error);
        }
        records, size := page.value.0, page.value.1;
        full := page.value.2.Full?;
        if !page.value.2.Through? {
          break;
        }
      }
      j := j + 1;
    }
    assert full ==> records != [];
    PartialWithin(c, s, after, limits, records, size);
    if after + |records| < frontier && |records| < limits.maxRecords && !full {
      return Err(Corrupt);
    }
    PartialEnds(c, s, after, limits, records, size, full);
    r := Ok(FeedBatch(database, after, after + |records|, Logical(records)));
  }

  lemma LogsCount(h: Hashes, s: Source)
    requires LogsOk(h, s)
    ensures |s.logs| == |s.state.manifest.segments|
  {
  }

  lemma PartialNone(c: Codec, s: Source, after: nat, limits: Limits)
    requires |s.logs| == |s.state.manifest.segments| && Available(s, after) && ValidLimits(limits)
    requires forall n :: after < n <= s.state.frontier ==> n in s.history
    ensures Partial(c, s, after, limits, [], EMPTY_BATCH_BYTES)
  {
    var sizes := LogicalSizes(c, LogicalStretch(s, after, s.state.frontier));
    assert sizes[..0] == [];
  }

  lemma PartialEnds(c: Codec, s: Source, after: nat, limits: Limits, records: seq<LogicalRecord>, size: nat, full: bool)
    requires |s.logs| == |s.state.manifest.segments| && Available(s, after)
    requires forall n :: after < n <= s.state.frontier ==> n in s.history
    requires Partial(c, s, after, limits, records, size)
    requires full || after + |records| == s.state.frontier || |records| == limits.maxRecords
    requires full ==> IsPage(LogicalSizes(c, LogicalStretch(s, after, s.state.frontier)), |records|, limits)
    ensures IsPage(LogicalSizes(c, LogicalStretch(s, after, s.state.frontier)), |records|, limits)
    ensures |records| <= |LogicalStretch(s, after, s.state.frontier)|
    ensures records == LogicalStretch(s, after, s.state.frontier)[..|records|]
    ensures !full && records == [] ==> LogicalStretch(s, after, s.state.frontier) == [] || limits.maxRecords == 0
  {
    hide Sum, LogAt, OutcomeSize;
    if !full {
      PageEnds(LogicalSizes(c, LogicalStretch(s, after, s.state.frontier)), |records|, limits);
    }
  }

  /** The segments reach the durable end, which the frontier never passes. */
  lemma ManifestCovers(s: Retention.State)
    requires Retention.Protected(s)
    ensures s.frontier <= s.manifest.durable
    ensures s.manifest.segments == [] ==> s.manifest.logFloor == s.manifest.durable + 1
    ensures s.manifest.segments != [] ==> s.manifest.segments[|s.manifest.segments| - 1].last == s.manifest.durable
  {
  }

  lemma SegmentStarts(s: Retention.State, j: nat)
    requires Retention.Protected(s) && j < |s.manifest.segments|
    ensures s.manifest.segments[j].first <= s.manifest.segments[j].last
    ensures s.manifest.segments[j].first == if j == 0 then s.manifest.logFloor else s.manifest.segments[j - 1].last + 1
  {
    hide PossibleLength;
    assert Continues(s.manifest, j);
  }

  /** A record of the log that a feed may return. */
  lemma LogRecord(h: Hashes, s: Source, j: nat, n: nat)
    requires Retention.Protected(s.state) && LogsOk(h, s) && j < |s.state.manifest.segments|
    requires s.state.manifest.segments[j].first <= n <= s.state.manifest.segments[j].last
    ensures n - s.state.manifest.segments[j].first < |s.logs[j]|
    ensures var log := s.logs[j][n - s.state.manifest.segments[j].first];
            && LogAt(s.state.manifest.segments, s.logs, n) == log
            && (n == s.state.manifest.checkpoint ==> h.sha(log) == s.state.manifest.checkpointDigest)
            && (s.state.manifest.historyFloor < n <= s.state.frontier && n in s.history ==>
                  |log| >= RECORD_OVERHEAD && s.history[n].digest == h.sha(log) && s.history[n].kind == log[24])
  {
    hide LogAt, ValidManifest;
    assert RecordOk(h, s, j, n);
    LogAtSegment(s.state.manifest, s.logs, 0, j, n);
    assert s.state.manifest.segments[0..] == s.state.manifest.segments && s.logs[0..] == s.logs;
  }

  // ---------------------------------------------------------------- polling the logical feed

  /** Every record of the stretch fits a batch of its own. */
  ghost predicate EachFits(c: Codec, records: seq<LogicalRecord>) {
    forall i :: 0 <= i < |records| ==> EMPTY_BATCH_BYTES + LogicalSize(c, records[i]) <= MAX_BATCH_BYTES
  }

  /** One poll, with the retry that a record too large for the limits calls for. */
  method PollLogicalOnce(c: Codec, h: Hashes, s: Source, database: ByteString, id: nat, kind: Retention.Kind, at: nat,
      limits: Limits) returns (r: Result<FeedBatch>, raised: Limits)
    requires HistoryOk(c, s) && Retention.Protected(s.state) && LogsOk(h, s)
    requires ValidLimits(limits) && limits.maxRecords > 0 && LogKind(kind) && InReach(s, id, kind, at)
             && Available(s, at)
    requires EachFits(c, LogicalStretch(s, at, s.state.frontier))
    ensures ValidLimits(raised) && raised.maxRecords > 0
    ensures r.Ok? && r.value.records.Logical?
    ensures var all, taken := LogicalStretch(s, at, s.state.frontier), r.value.records.records;
            && |taken| <= |all| && taken == all[..|taken|] && r.value.end == at + |taken|
            && (taken == [] ==> all == [])
  {
    hide Retention.Protected, Retention.Lookup, Sum, IsPage, Fits, LogAt, LogicalSize, LogicalStretch;
    raised := limits;
    r := ReadLogicalFeed(c, h, s, database, id, kind, at, limits);
    ghost var all := LogicalStretch(s, at, s.state.frontier);
    if r.Err? && r.error.BatchTooSmall? {
      assert LogicalSizes(c, all)[0] == LogicalSize(c, all[0]);
      raised := Limits(1, r.error.required);
      r := ReadLogicalFeed(c, h, s, database, id, kind, at, raised);
    }
  }

  /** Polling from each returned position reads all of the log after its start once and in order. */
  method PollLogical(c: Codec, h: Hashes, s: Source, database: ByteString, id: nat, kind: Retention.Kind, after: nat,
      start: Limits) returns (r: Result<seq<LogicalRecord>>)
    requires HistoryOk(c, s) && Retention.Protected(s.state) && LogsOk(h, s)
    requires ValidLimits(start) && start.maxRecords > 0 && LogKind(kind)
    requires Available(s, after) ==> EachFits(c, LogicalStretch(s, after, s.state.frontier))
    ensures !InReach(s, id, kind, after) ==> r.Err?
    ensures InReach(s, id, kind, after) ==> Available(s, after) && r == Ok(LogicalStretch(s, after, s.state.frontier))
  {
    hide Retention.Protected, Retention.Lookup, LogicalSize, LogAt;
    var at, limits := after, start;
    var records: seq<LogicalRecord> := [];
    if !InReach(s, id, kind, after) {
      return Err(HistoryUnavailable);
    }
    BaselineProtected(s.state, id, kind);
    while at < s.state.frontier
      invariant after <= at <= s.state.frontier
      invariant InReach(s, id, kind, at) && ValidLimits(limits) && limits.maxRecords > 0
      invariant Available(s, after) && records == LogicalStretch(s, after, at)
      decreases s.state.frontier - at
    {
      RestFits(c, s, after, at);
      var batch, raised := PollLogicalOnce(c, h, s, database, id, kind, at, limits);
      limits := raised;
      if batch.Err? || batch.value.records.Resolved? {
        return Err(Corrupt);
      }
      var taken := batch.value.records.records;
      assert records + taken == LogicalStretch(s, after, at + |taken|);
      records := records + taken;
      at := batch.value.end;
    }
    r := Ok(records);
  }

  lemma RestFits(c: Codec, s: Source, after: nat, at: nat)
    requires |s.logs| == |s.state.manifest.segments| && after <= at <= s.state.frontier
    requires forall n :: after < n <= s.state.frontier ==> n in s.history
    requires EachFits(c, LogicalStretch(s, after, s.state.frontier))
    ensures EachFits(c, LogicalStretch(s, at, s.state.frontier))
  {
    hide LogicalSize, LogAt;
    var all, rest := LogicalStretch(s, after, s.state.frontier), LogicalStretch(s, at, s.state.frontier);
    assert forall i :: 0 <= i < |rest| ==> rest[i] == all[at - after + i];
  }
}
