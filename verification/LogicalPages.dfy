/**
 What a page of the logical feed is worth to its reader: it encodes to the bytes it was
 charged and reads back as the same records.
 */
module LogicalPages {
  import opened Common
  import opened Bytes
  import opened Records
  import opened Exchange
  import opened Feed
  import Retention
  import Wal

  // ---------------------------------------------------------------- linked records

  /** Record `k` is the canonical record after `predecessor` or after the one before it, with its outcome. */
  ghost predicate LinkedAt(c: Codec, h: Hashes, start: nat, records: seq<LogicalRecord>, k: nat,
      predecessor: ByteString)
    requires k < |records|
  {
    var r := records[k];
    && ReadRecord(h, r.log, |r.log|, start + k + 1, if k == 0 then predecessor else h.sha(records[k - 1].log))
       == Ok(r.log)
    && Matches(h, r.log, r.outcome) && r.outcome.sequence == start + k + 1 && c.encode(r.outcome).Some?
  }

  ghost predicate Linked(c: Codec, h: Hashes, start: nat, records: seq<LogicalRecord>, predecessor: ByteString) {
    forall k :: 0 <= k < |records| ==> LinkedAt(c, h, start, records, k, predecessor)
  }

  /** The log holds one canonical record per sequence, each naming the digest of the one before. */
  ghost predicate LogLinked(h: Hashes, s: Source)
    requires |s.logs| == |s.state.manifest.segments|
  {
    forall n :: s.state.manifest.logFloor <= n <= s.state.manifest.durable ==> NamesPrevious(h, s, n)
  }

  function LogOf(s: Source, n: nat): ByteString
    requires |s.logs| == |s.state.manifest.segments|
  {
    LogAt(s.state.manifest.segments, s.logs, n)
  }

  ghost predicate NamesPrevious(h: Hashes, s: Source, n: nat)
    requires |s.logs| == |s.state.manifest.segments|
  {
    exists p :: ReadRecord(h, LogOf(s, n), |LogOf(s, n)|, n, p) == Ok(LogOf(s, n))
                && (n > s.state.manifest.logFloor ==> p == h.sha(LogOf(s, n - 1)))
  }

  /** What the log check of the encoder asks for is what the log reader already established. */
  lemma LoggedIsValid(h: Hashes, log: ByteString, outcome: OutcomeRecord, predecessor: ByteString,
      known: Option<ByteString>)
    requires ReadRecord(h, log, |log|, outcome.sequence, predecessor) == Ok(log) && Matches(h, log, outcome)
    requires known.Some? ==> known.value == predecessor
    ensures ValidateLog(h, log, outcome, known) == Ok(h.sha(log))
    ensures RECORD_OVERHEAD <= |log| <= MAX_RECORD_LENGTH
  {
    var n := |log|;
    assert log[..n] == log;
    var header := log[..64];
    assert header[..4] == log[..4] && header[4..6] == log[4..6] && header[6..8] == log[6..8];
    assert header[16..24] == log[16..24] && header[25..28] == log[25..28];
    assert header[28..60] == log[28..60] && header[60..64] == log[60..64];
  }

  /** The bytes a logical page is charged are exactly the bytes its encoding takes. */
  lemma {:induction false} LogicalBody(c: Codec, h: Hashes, start: nat, records: seq<LogicalRecord>,
      predecessor: ByteString, i: nat, known: Option<ByteString>)
    requires ValidCodec(c) && i <= |records| && Linked(c, h, start, records, predecessor)
    requires known == if i == 0 then None else Some(h.sha(records[i - 1].log))
    ensures var body := EncodeFrom(c, h, start, Logical(records), i, known);
            && body.Ok?
            && |body.value| + Sum(LogicalSizes(c, records)[..i]) == Sum(LogicalSizes(c, records))
            && |body.value| >= 156 * (|records| - i)
    decreases |records| - i
  {
    hide ReadRecord, ValidateLog;
    var sizes := LogicalSizes(c, records);
    if i < |records| {
      assert LinkedAt(c, h, start, records, i, predecessor);
      var before := if i == 0 then predecessor else h.sha(records[i - 1].log);
      LoggedIsValid(h, records[i].log, records[i].outcome, before, known);
      LogicalBody(c, h, start, records, predecessor, i + 1, Some(h.sha(records[i].log)));
      SumNext(sizes, i);
    } else {
      assert sizes[..i] == sizes;
    }
  }

  /** A stretch of a linked log is linked. */
  lemma StretchLinked(c: Codec, h: Hashes, s: Source, after: nat, k: nat) returns (predecessor: ByteString)
    requires HistoryOk(c, s) && Retention.Protected(s.state) && LogsOk(h, s) && LogLinked(h, s)
    requires Available(s, after) && s.state.manifest.logFloor <= after + 1 && k <= s.state.frontier - after
    ensures Linked(c, h, after, LogicalStretch(s, after, s.state.frontier)[..k], predecessor)
  {
    hide ReadRecord, LogAt;
    var records := LogicalStretch(s, after, s.state.frontier)[..k];
    if k == 0 {
      return [];
    }
    ManifestCovers(s.state);
    assert NamesPrevious(h, s, after + 1);
    predecessor :| ReadRecord(h, LogOf(s, after + 1), |LogOf(s, after + 1)|, after + 1, predecessor)
        == Ok(LogOf(s, after + 1));
    forall i | 0 <= i < |records| ensures LinkedAt(c, h, after, records, i, predecessor) {
      StretchRecord(c, h, s, after, i);
      if i > 0 {
        assert records[i - 1].log == LogOf(s, after + i);
        assert NamesPrevious(h, s, after + i + 1);
      }
    }
  }

  /** The record of a stretch and its outcome belong together. */
  lemma StretchRecord(c: Codec, h: Hashes, s: Source, after: nat, i: nat)
    requires HistoryOk(c, s) && Retention.Protected(s.state) && LogsOk(h, s)
    requires Available(s, after) && s.state.manifest.logFloor <= after + 1 && i < s.state.frontier - after
    ensures var r := LogicalStretch(s, after, s.state.frontier)[i];
            && r.log == LogOf(s, after + i + 1) && r.outcome == s.history[after + i + 1]
            && Matches(h, r.log, r.outcome) && r.outcome.sequence == after + i + 1 && c.encode(r.outcome).Some?
  {
    hide LogAt, Manifests.ValidManifest;
    var m, n := s.state.manifest, after + i + 1;
    ManifestCovers(s.state);
    ProtectedManifest(s);
    Manifests.SegmentsPartition(m, n, |m.segments|);
    var j :| 0 <= j < |m.segments| && m.segments[j].first <= n <= m.segments[j].last;
    LogRecord(h, s, j, n);
  }

  lemma ProtectedManifest(s: Source)
    requires Retention.Protected(s.state)
    ensures Manifests.ValidManifest(s.state.manifest)
  {
  }

  /**
   Every page `ReadLogicalFeed` returns can be handed on: it encodes within the byte limit to
   exactly the bytes it was charged, and decodes to the same page.
   */
  lemma LogicalPageEncodes(c: Codec, h: Hashes, s: Source, b: FeedBatch, limits: Limits)
    requires HistoryOk(c, s) && Retention.Protected(s.state) && LogsOk(h, s) && LogLinked(h, s) && ValidHashes(h)
    requires Available(s, b.start) && s.state.manifest.logFloor <= b.start + 1 && ValidLimits(limits)
    requires |b.database| == 16 && b.database != Wal.Zeros(16) && s.state.frontier < U64_MAX
    requires var all := LogicalStretch(s, b.start, s.state.frontier);
             && b.records.Logical? && |b.records.records| <= |all| && b.records.records == all[..|b.records.records|]
             && b.end == b.start + |b.records.records| && IsPage(LogicalSizes(c, all), |b.records.records|, limits)
    ensures Encode(c, h, b).Ok?
    ensures |Encode(c, h, b).value| == EMPTY_BATCH_BYTES + Sum(LogicalSizes(c, b.records.records)) <= limits.maxBytes
    ensures Decode(c, h, Encode(c, h, b).value) == Ok(b)
  {
    hide EncodeFrom, Decode, Sum, ValidCodec, Linked, LogAt, LogsOk, LogLinked, Retention.Protected, LogicalSize;
    var records := b.records.records;
    LogsCount(h, s);
    var all := LogicalStretch(s, b.start, s.state.frontier);
    var predecessor := StretchLinked(c, h, s, b.start, |records|);
    LogicalBody(c, h, b.start, records, predecessor, 0, None);
    assert LogicalSizes(c, records)[..0] == [];
    assert LogicalSizes(c, all)[..|records|] == LogicalSizes(c, records);
    EmptySum();
    HeaderLength(b, |Encode(c, h, b).value|);
    DecodeOfEncode(c, h, b);
  }
}
