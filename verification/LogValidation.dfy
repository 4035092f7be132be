/**
 Reuse of log validation: reading only what a publication added must accept nothing
 that reading the whole log would refuse, and must keep exactly the digests that later
 checkpoints will be checked against.
 */
module LogValidation {
  import opened Common
  import opened Bytes
  import opened Records
  import opened Wal
  import opened Manifests

  const MAX_PENDING_ANCHORS := 4096
  const SEGMENT_MAGIC: ByteString := [0x42, 0x4C, 0x4F, 0x50, 0x4C, 0x47, 0x30, 0x31]

  /** The files of the directory by segment ID. */
  type Directory = map<nat, ByteString>

  // ---------------------------------------------------------------- one segment

  /** `validate_segment_header` and the padding of the first block. */
  predicate ValidSegmentHeader(h: Hashes, file: ByteString, database: ByteString, d: Descriptor)
    requires |file| >= BLOCK_BYTES
  {
    && h.crc(file[..92] + [0, 0, 0, 0]) == FromLittleEndian(file[92..96])
    && file[..8] == SEGMENT_MAGIC
    && FromLittleEndian(file[8..10]) == 1
    && FromLittleEndian(file[10..12]) == SEGMENT_BYTES
    && FromLittleEndian(file[12..16]) == 0
    && file[80..92] == Zeros(12)
    && file[16..32] == database
    && FromLittleEndian(file[32..40]) == d.id
    && FromLittleEndian(file[40..48]) == d.first
    && file[48..80] == d.predecessor
    && file[SEGMENT_BYTES..BLOCK_BYTES] == Zeros(BLOCK_BYTES - SEGMENT_BYTES)
  }

  /** `Records::suffix`: a reader of the committed bytes from `offset`, where record `first` begins. */
  function Suffix(h: Hashes, file: ByteString, database: ByteString, d: Descriptor, offset: nat, first: nat,
      predecessor: ByteString): (r: Result<Reader>)
    ensures r.Ok? ==> Ready(r.value)
  {
    if !ValidDescriptor(d) || |file| < BLOCK_BYTES || !ValidSegmentHeader(h, file, database, d)
       || offset < BLOCK_BYTES || offset > d.committed || first < d.first || first > d.last || offset % BLOCK_BYTES != 0
       || d.committed > |file|
    then Err(Corrupt)
    else
      Ok(Reader(file[offset..d.committed], d.committed - offset, first, predecessor, d.last, d.lastDigest, None))
  }

  function SuffixRecords(h: Hashes, file: ByteString, database: ByteString, d: Descriptor, offset: nat, first: nat,
      predecessor: ByteString): Result<seq<ByteString>>
  {
    var reader :- Suffix(h, file, database, d, offset, first, predecessor);
    Drain(h, reader)
  }

  /** `Records::new`: the whole committed prefix of a segment. */
  function SegmentRecords(h: Hashes, dir: Directory, database: ByteString, d: Descriptor): Result<seq<ByteString>> {
    if d.id !in dir then Err(Corrupt)
    else SuffixRecords(h, dir[d.id], database, d, BLOCK_BYTES, d.first, d.predecessor)
  }

  /** A record at the checkpoint has the checkpoint's digest. */
  predicate AnchorAgrees(h: Hashes, records: seq<ByteString>, first: nat, m: Manifest) {
    first <= m.checkpoint < first + |records| ==> h.sha(records[m.checkpoint - first]) == m.checkpointDigest
  }

  predicate SegmentAccepted(h: Hashes, dir: Directory, m: Manifest, d: Descriptor) {
    && SegmentRecords(h, dir, m.database, d).Ok?
    && AnchorAgrees(h, SegmentRecords(h, dir, m.database, d).value, d.first, m)
  }

  /** `validate_logs`: the full check. */
  ghost predicate LogsValid(h: Hashes, dir: Directory, m: Manifest) {
    && ValidManifest(m)
    && forall j :: 0 <= j < |m.segments| ==> SegmentAccepted(h, dir, m, m.segments[j])
  }

  // ---------------------------------------------------------------- proofs

  /** A live owner's proof: the manifest it validated and the digests above its checkpoint. */
  datatype Proof = Proof(manifest: Manifest, pending: seq<ByteString>)

  /** The digest of record `n` according to the committed bytes. */
  function DigestOf(h: Hashes, dir: Directory, database: ByteString, segments: seq<Descriptor>,
      n: nat): Option<ByteString>
  {
    if segments == [] then None
    else
      var d := segments[|segments| - 1];
      if d.first <= n <= d.last then
        match SegmentRecords(h, dir, database, d)
        case Ok(records) => if n - d.first < |records| then Some(h.sha(records[n - d.first])) else None
        case Err(_) => None
      else DigestOf(h, dir, database, segments[..|segments| - 1], n)
  }

  /** The digests are those of records `after + 1` to `until`. */
  ghost predicate DigestsOf(h: Hashes, dir: Directory, database: ByteString, segments: seq<Descriptor>, after: nat,
      until: nat, digests: seq<ByteString>)
  {
    && after + |digests| == until
    && forall n :: after < n <= until ==> DigestOf(h, dir, database, segments, n) == Some(digests[n - after - 1])
  }

  ghost predicate ProofHolds(h: Hashes, dir: Directory, p: Proof) {
    && LogsValid(h, dir, p.manifest)
    && DigestsOf(h, dir, p.manifest.database, p.manifest.segments, p.manifest.checkpoint, p.manifest.durable, p.pending)
  }

  /** `LogValidation::at_checkpoint`: seed a proof once the full check has passed. */
  method AtCheckpoint(h: Hashes, dir: Directory, m: Manifest) returns (p: Option<Proof>)
    ensures p.Some? ==> p.value.manifest == m
    ensures p.Some? && LogsValid(h, dir, m) ==> ProofHolds(h, dir, p.value)
    ensures LogsValid(h, dir, m) && m.checkpoint == m.durable ==> p.Some?
  {
    if m.checkpoint != m.durable {
      return None;
    }
    var valid := ValidateManifest(m);
    if !valid {
      return None;
    }
    p := Some(Proof(m, []));
  }

  // ---------------------------------------------------------------- extension

  /** Progress over the segments: the next sequence, the digest it must name, the pending digests. */
  datatype State = State(sequence: nat, predecessor: ByteString, pending: seq<ByteString>)

  /** Digests of the records past the checkpoint. */
  function NewDigests(h: Hashes, records: seq<ByteString>, first: nat, checkpoint: nat): seq<ByteString> {
    if records == [] then []
    else (if first > checkpoint then [h.sha(records[0])] else []) + NewDigests(h, records[1..], first + 1, checkpoint)
  }

  /** One segment of the loop in `validate_extension`. */
  function ExtendSegment(h: Hashes, dir: Directory, next: Manifest, prior: Option<Descriptor>, d: Descriptor,
      s: State): Result<State>
  {
    if prior == Some(d) then Ok(s)
    else if prior.None? && (d.first != s.sequence || d.predecessor != s.predecessor) then Err(Corrupt)
    else if d.id !in dir then Err(Corrupt)
    else
      var offset := if prior.Some? then prior.value.committed else BLOCK_BYTES;
      var records :- SuffixRecords(h, dir[d.id], next.database, d, offset, s.sequence, s.predecessor);
      if !AnchorAgrees(h, records, s.sequence, next) then Err(Corrupt)
      else Ok(State(d.last + 1, d.lastDigest, s.pending + NewDigests(h, records, s.sequence, next.checkpoint)))
  }

  function OldSegment(previous: Manifest, index: nat): Option<Descriptor> {
    if index < |previous.segments| then Some(previous.segments[index]) else None
  }

  function ExtendFrom(h: Hashes, dir: Directory, previous: Manifest, next: Manifest, index: nat,
      s: State): Result<State>
    requires index <= |next.segments|
    decreases |next.segments| - index
  {
    if index == |next.segments| then Ok(s)
    else
      var t :- ExtendSegment(h, dir, next, OldSegment(previous, index), next.segments[index], s);
      ExtendFrom(h, dir, previous, next, index + 1, t)
  }

  /** The fields a publication may not change, and those it may only raise. */
  predicate SameLineage(previous: Manifest, next: Manifest) {
    && previous.generation + 1 == next.generation && next.generation <= U64_MAX
    && next.database == previous.database && next.genesis == previous.genesis
    && next.cursorNamespace == previous.cursorNamespace
    && next.pageFile == previous.pageFile && next.nextPageFile == previous.nextPageFile
    && next.checkpoint >= previous.checkpoint && next.durable >= previous.durable
    && next.historyFloor >= previous.historyFloor && next.logFloor == previous.logFloor
    && next.nextCursor >= previous.nextCursor && next.nextSegment >= previous.nextSegment
  }

  /** Old segments stay, the last may have grown, and at most one is new. */
  predicate SegmentsExtend(previous: Manifest, next: Manifest) {
    var count := |previous.segments|;
    && count <= |next.segments| <= count + 1
    && (count > 0 ==>
          && next.segments[..count - 1] == previous.segments[..count - 1]
          && (next.segments[count - 1] == previous.segments[count - 1]
              || Grows(previous.segments[count - 1], next.segments[count - 1])))
    && (|next.segments| > count ==> next.segments[count].id >= previous.nextSegment)
  }

  predicate Grows(prior: Descriptor, tail: Descriptor) {
    && tail.id == prior.id && tail.first == prior.first && tail.predecessor == prior.predecessor
    && tail.last > prior.last && tail.committed > prior.committed
  }

  /** The checkpoint digest that the prior publication dictates, when it covers the new checkpoint. */
  function KnownAnchor(previous: Manifest, pending: seq<ByteString>, checkpoint: nat): ByteString
    requires previous.checkpoint <= checkpoint <= previous.checkpoint + |pending|
  {
    if checkpoint == previous.checkpoint then previous.checkpointDigest
    else pending[checkpoint - previous.checkpoint - 1]
  }

  /** `validate_extension`, its manifest check apart; `None` asks for the full check. */
  function Extension(h: Hashes, dir: Directory, previous: Manifest, next: Manifest, p: Proof): Result<Option<Proof>>
    requires next.checkpoint <= next.durable
    requires p.manifest == previous ==> previous.checkpoint + |p.pending| == previous.durable
  {
    if p.manifest != previous || !SameLineage(previous, next) then Ok(None)
    else if next.durable == previous.durable && next.durableDigest != previous.durableDigest then Err(Corrupt)
    else if next.checkpoint <= previous.durable
            && next.checkpointDigest != KnownAnchor(previous, p.pending, next.checkpoint) then Err(Corrupt)
    else if !SegmentsExtend(previous, next) || next.durable - next.checkpoint > MAX_PENDING_ANCHORS then Ok(None)
    else
      var pruned :=
        (if next.checkpoint < previous.durable then next.checkpoint else previous.durable) - previous.checkpoint;
      var start := State(previous.durable + 1, previous.durableDigest, p.pending[pruned..]);
      var index := if previous.segments == [] then 0 else |previous.segments| - 1;
      var s :- ExtendFrom(h, dir, previous, next, index, start);
      if s.sequence != next.durable + 1 || s.predecessor != next.durableDigest then Err(Corrupt)
      else Ok(Some(Proof(next, s.pending)))
  }

  // ---------------------------------------------------------------- soundness

  /** The bytes a manifest commits are unchanged. */
  ghost predicate KeepsCommitted(before: Directory, after: Directory, m: Manifest) {
    forall j :: 0 <= j < |m.segments| ==> KeepsFile(before, after, m.segments[j])
  }

  ghost predicate KeepsFile(before: Directory, after: Directory, d: Descriptor) {
    d.id in before && |before[d.id]| >= d.committed ==>
      d.id in after && |after[d.id]| >= d.committed && after[d.id][..d.committed] == before[d.id][..d.committed]
  }

  /** A segment reads the same wherever its committed bytes are the same. */
  lemma SegmentUnchanged(h: Hashes, before: Directory, after: Directory, database: ByteString, d: Descriptor)
    requires KeepsFile(before, after, d) && SegmentRecords(h, before, database, d).Ok?
    ensures SegmentRecords(h, after, database, d) == SegmentRecords(h, before, database, d)
  {
    hide Drain, PossibleLength, ValidSegmentHeader;
    var prior, now := before[d.id], after[d.id];
    DescriptorLength(d);
    HeaderUnchanged(h, prior, now, database, d);
    assert now[BLOCK_BYTES..d.committed] == now[..d.committed][BLOCK_BYTES..];
    assert prior[BLOCK_BYTES..d.committed] == prior[..d.committed][BLOCK_BYTES..];
  }

  lemma DescriptorLength(d: Descriptor)
    requires ValidDescriptor(d)
    ensures d.committed >= BLOCK_BYTES && d.committed % BLOCK_BYTES == 0
  {
  }

  lemma HeaderUnchanged(h: Hashes, prior: ByteString, now: ByteString, database: ByteString, d: Descriptor)
    requires BLOCK_BYTES <= d.committed <= |prior| && d.committed <= |now| && now[..d.committed] == prior[..d.committed]
    ensures ValidSegmentHeader(h, now, database, d) == ValidSegmentHeader(h, prior, database, d)
  {
    SliceUnchanged(prior, now, d.committed, 0, 92);
    SliceUnchanged(prior, now, d.committed, 92, 96);
    SliceUnchanged(prior, now, d.committed, 0, 8);
    SliceUnchanged(prior, now, d.committed, 8, 10);
    SliceUnchanged(prior, now, d.committed, 10, 12);
    SliceUnchanged(prior, now, d.committed, 12, 16);
    SliceUnchanged(prior, now, d.committed, 16, 32);
    SliceUnchanged(prior, now, d.committed, 32, 40);
    SliceUnchanged(prior, now, d.committed, 40, 48);
    SliceUnchanged(prior, now, d.committed, 48, 80);
    SliceUnchanged(prior, now, d.committed, 80, 92);
    SliceUnchanged(prior, now, d.committed, SEGMENT_BYTES, BLOCK_BYTES);
    hide FromLittleEndian;
    assert prior[..92] == prior[0..92] && now[..92] == now[0..92];
    assert prior[..8] == prior[0..8] && now[..8] == now[0..8];
  }

  lemma SliceUnchanged(prior: ByteString, now: ByteString, n: nat, i: nat, j: nat)
    requires i <= j <= n <= |prior| && n <= |now| && now[..n] == prior[..n]
    ensures now[i..j] == prior[i..j]
  {
    assert now[i..j] == now[..n][i..j];
    assert prior[i..j] == prior[..n][i..j];
  }

  lemma {:induction false} DigestsUnchanged(h: Hashes, before: Directory, after: Directory, database: ByteString,
      segments: seq<Descriptor>, n: nat)
    requires forall j :: 0 <= j < |segments| ==>
               KeepsFile(before, after, segments[j]) && SegmentRecords(h, before, database, segments[j]).Ok?
    ensures DigestOf(h, after, database, segments, n) == DigestOf(h, before, database, segments, n)
  {
    hide SegmentRecords, KeepsFile;
    if segments != [] {
      SegmentUnchanged(h, before, after, database, segments[|segments| - 1]);
      DigestsUnchanged(h, before, after, database, segments[..|segments| - 1], n);
    }
  }

  /**
   A grown segment reads in full exactly when its new part reads on from the prior end, and then
   gives the old records followed by the new ones.
   */
  lemma GrownSegment(h: Hashes, dir: Directory, database: ByteString, prior: Descriptor, tail: Descriptor)
    requires Grows(prior, tail) && prior.id in dir
    requires SegmentRecords(h, dir, database, prior).Ok?
    ensures var more :=
              SuffixRecords(h, dir[prior.id], database, tail, prior.committed, prior.last + 1, prior.lastDigest);
            && (SegmentRecords(h, dir, database, tail).Ok? <==> more.Ok?)
            && (more.Ok? ==>
                  SegmentRecords(h, dir, database, tail)
                  == Ok(SegmentRecords(h, dir, database, prior).value + more.value))
  {
    hide Drain, PossibleLength, ValidSegmentHeader;
    var file := dir[prior.id];
    DescriptorLength(prior);
    var r := Suffix(h, file, database, prior, BLOCK_BYTES, prior.first, prior.predecessor).value;
    if ValidDescriptor(tail) && tail.committed <= |file| && ValidSegmentHeader(h, file, database, tail) {
      var longer := Suffix(h, file, database, tail, BLOCK_BYTES, tail.first, tail.predecessor).value;
      var extra := file[prior.committed..tail.committed];
      Split(file, BLOCK_BYTES, prior.committed, tail.committed);
      assert Suffix(h, file, database, tail, prior.committed, prior.last + 1, prior.lastDigest)
          == Ok(Resumed(longer, extra, prior.last + 1, prior.lastDigest));
      DrainExtends(h, r, longer, extra);
    }
  }

  /** A segment's records number its range and end at its digest. */
  lemma RecordsFill(h: Hashes, dir: Directory, database: ByteString, d: Descriptor)
    requires SegmentRecords(h, dir, database, d).Ok?
    ensures ValidDescriptor(d)
    ensures var records := SegmentRecords(h, dir, database, d).value;
            |records| == d.last - d.first + 1 && h.sha(records[|records| - 1]) == d.lastDigest
  {
    hide Drain, PossibleLength, ValidSegmentHeader;
    DrainedRecords(h, Suffix(h, dir[d.id], database, d, BLOCK_BYTES, d.first, d.predecessor).value);
  }

  lemma SuffixFill(h: Hashes, file: ByteString, database: ByteString, d: Descriptor, offset: nat, first: nat,
      predecessor: ByteString)
    requires SuffixRecords(h, file, database, d, offset, first, predecessor).Ok?
    ensures d.first <= first <= d.last
    ensures |SuffixRecords(h, file, database, d, offset, first, predecessor).value| == d.last - first + 1
  {
    hide Drain, PossibleLength, ValidSegmentHeader;
    DrainedRecords(h, Suffix(h, file, database, d, offset, first, predecessor).value);
  }

  lemma {:induction false} NewDigestsAre(h: Hashes, records: seq<ByteString>, first: nat, checkpoint: nat)
    ensures var news := NewDigests(h, records, first, checkpoint);
            var skipped := if first > checkpoint then 0 else if checkpoint - first + 1 < |records| then
              checkpoint - first + 1 else |records|;
            && |news| == |records| - skipped
            && forall k :: 0 <= k < |news| ==> news[k] == h.sha(records[skipped + k])
  {
    if records != [] {
      NewDigestsAre(h, records[1..], first + 1, checkpoint);
    }
  }

  /** The pending digests are those of the records between the checkpoint and the next sequence. */
  ghost predicate PendingUpTo(h: Hashes, dir: Directory, m: Manifest, segments: seq<Descriptor>, s: State) {
    && s.sequence > 0
    && if m.checkpoint >= s.sequence - 1 then s.pending == []
       else DigestsOf(h, dir, m.database, segments, m.checkpoint, s.sequence - 1, s.pending)
  }

  /** What the loop knows before segment `index`: every segment before it passes the full check. */
  ghost predicate Covered(h: Hashes, dir: Directory, m: Manifest, index: nat, s: State)
    requires index <= |m.segments|
  {
    && (forall j :: 0 <= j < index ==> SegmentAccepted(h, dir, m, m.segments[j]))
    && PendingUpTo(h, dir, m, m.segments[..index], s)
  }

  lemma DigestInFront(h: Hashes, dir: Directory, database: ByteString, segments: seq<Descriptor>, d: Descriptor, n: nat)
    requires n < d.first
    ensures DigestOf(h, dir, database, segments + [d], n) == DigestOf(h, dir, database, segments, n)
  {
    assert (segments + [d])[..|segments|] == segments;
  }

  lemma DigestInLast(h: Hashes, dir: Directory, database: ByteString, segments: seq<Descriptor>, d: Descriptor, n: nat)
    requires d.first <= n <= d.last && SegmentRecords(h, dir, database, d).Ok?
    ensures |SegmentRecords(h, dir, database, d).value| == d.last - d.first + 1
    ensures DigestOf(h, dir, database, segments + [d], n)
         == Some(h.sha(SegmentRecords(h, dir, database, d).value[n - d.first]))
  {
    hide SegmentRecords;
    RecordsFill(h, dir, database, d);
  }

  /** A segment that starts at the next sequence leaves the pending digests as they were. */
  lemma PendingFront(h: Hashes, dir: Directory, m: Manifest, segments: seq<Descriptor>, d: Descriptor, s: State)
    requires PendingUpTo(h, dir, m, segments, s) && d.first >= s.sequence
    ensures PendingUpTo(h, dir, m, segments + [d], s)
  {
    hide DigestOf;
    if m.checkpoint < s.sequence - 1 {
      forall n | m.checkpoint < n <= s.sequence - 1
        ensures DigestOf(h, dir, m.database, segments + [d], n) == Some(s.pending[n - m.checkpoint - 1])
      {
        DigestInFront(h, dir, m.database, segments, d, n);
      }
    }
  }

  /** The pending digests after the rest of segment `d`, whose records from `s.sequence` on were read. */
  lemma PendingStep(h: Hashes, dir: Directory, m: Manifest, segments: seq<Descriptor>, d: Descriptor, s: State,
      records: seq<ByteString>)
    requires PendingUpTo(h, dir, m, segments + [d], s)
    requires SegmentRecords(h, dir, m.database, d).Ok? && d.first <= s.sequence <= d.last
    requires |SegmentRecords(h, dir, m.database, d).value| == d.last - d.first + 1
    requires records == SegmentRecords(h, dir, m.database, d).value[s.sequence - d.first..]
    ensures PendingUpTo(h, dir, m, segments + [d],
                        State(d.last + 1, d.lastDigest, s.pending + NewDigests(h, records, s.sequence, m.checkpoint)))
  {
    hide SegmentRecords, DigestOf, NewDigests;
    NewDigestsAre(h, records, s.sequence, m.checkpoint);
    var all, pending := segments + [d], s.pending + NewDigests(h, records, s.sequence, m.checkpoint);
    if m.checkpoint < d.last {
      forall n | m.checkpoint < n <= d.last
        ensures DigestOf(h, dir, m.database, all, n) == Some(pending[n - m.checkpoint - 1])
      {
        if n >= s.sequence {
          DigestInLast(h, dir, m.database, segments, d, n);
        }
      }
    }
  }

  /** A wholly new segment is checked as the full check checks it. */
  lemma NewSegmentCovers(h: Hashes, dir: Directory, m: Manifest, index: nat, s: State)
    requires index < |m.segments| && Covered(h, dir, m, index, s)
    requires ExtendSegment(h, dir, m, None, m.segments[index], s).Ok?
    ensures Covered(h, dir, m, index + 1, ExtendSegment(h, dir, m, None, m.segments[index], s).value)
  {
    hide SuffixRecords, PendingUpTo, NewDigests;
    var d := m.segments[index];
    var records := SuffixRecords(h, dir[d.id], m.database, d, BLOCK_BYTES, d.first, d.predecessor).value;
    assert SegmentRecords(h, dir, m.database, d) == Ok(records);
    SuffixFill(h, dir[d.id], m.database, d, BLOCK_BYTES, d.first, d.predecessor);
    PendingFront(h, dir, m, m.segments[..index], d, s);
    assert records[0..] == records;
    PendingStep(h, dir, m, m.segments[..index], d, s, records);
    assert m.segments[..index + 1] == m.segments[..index] + [d];
  }

  /** A grown segment passes the full check when its new part reads on from its accepted part. */
  lemma GrownSegmentCovers(h: Hashes, dir: Directory, m: Manifest, prior: Descriptor, index: nat, s: State)
    requires index < |m.segments| && Grows(prior, m.segments[index])
    requires forall j :: 0 <= j < index ==> SegmentAccepted(h, dir, m, m.segments[j])
    requires SegmentAccepted(h, dir, m, prior)
    requires s.sequence == prior.last + 1 && s.predecessor == prior.lastDigest
    requires PendingUpTo(h, dir, m, m.segments[..index] + [prior], s)
    requires ExtendSegment(h, dir, m, Some(prior), m.segments[index], s).Ok?
    ensures Covered(h, dir, m, index + 1, ExtendSegment(h, dir, m, Some(prior), m.segments[index], s).value)
  {
    hide SuffixRecords, PendingUpTo, NewDigests, SegmentRecords;
    var d, front := m.segments[index], m.segments[..index];
    assert prior.id in dir by { RecordsFile(h, dir, m.database, prior); }
    var before := SegmentRecords(h, dir, m.database, prior).value;
    var records := SuffixRecords(h, dir[d.id], m.database, d, prior.committed, s.sequence, s.predecessor).value;
    GrownSegment(h, dir, m.database, prior, d);
    RecordsFill(h, dir, m.database, prior);
    SuffixFill(h, dir[d.id], m.database, d, prior.committed, s.sequence, s.predecessor);
    var all := before + records;
    assert SegmentRecords(h, dir, m.database, d) == Ok(all);
    assert all[s.sequence - d.first..] == records;
    GrownAnchor(h, before, records, d.first, m);
    GrownPending(h, dir, m, front, prior, d, s);
    PendingStep(h, dir, m, front, d, s, records);
    assert m.segments[..index + 1] == front + [d];
  }

  lemma RecordsFile(h: Hashes, dir: Directory, database: ByteString, d: Descriptor)
    requires SegmentRecords(h, dir, database, d).Ok?
    ensures d.id in dir
  {
  }

  lemma GrownAnchor(h: Hashes, before: seq<ByteString>, records: seq<ByteString>, first: nat, m: Manifest)
    requires AnchorAgrees(h, before, first, m) && AnchorAgrees(h, records, first + |before|, m)
    ensures AnchorAgrees(h, before + records, first, m)
  {
  }

  /** Growing the last segment does not change the digests before its growth. */
  lemma GrownPending(h: Hashes, dir: Directory, m: Manifest, front: seq<Descriptor>, prior: Descriptor, d: Descriptor,
      s: State)
    requires Grows(prior, d) && s.sequence == prior.last + 1 && PendingUpTo(h, dir, m, front + [prior], s)
    requires SegmentRecords(h, dir, m.database, prior).Ok? && SegmentRecords(h, dir, m.database, d).Ok?
    requires SegmentRecords(h, dir, m.database, prior).value <= SegmentRecords(h, dir, m.database, d).value
    ensures PendingUpTo(h, dir, m, front + [d], s)
  {
    hide SegmentRecords, DigestOf;
    if m.checkpoint < s.sequence - 1 {
      forall n | m.checkpoint < n <= s.sequence - 1
        ensures DigestOf(h, dir, m.database, front + [d], n) == Some(s.pending[n - m.checkpoint - 1])
      {
        if n >= d.first {
          DigestInLast(h, dir, m.database, front, prior, n);
          DigestInLast(h, dir, m.database, front, d, n);
        } else {
          DigestInFront(h, dir, m.database, front, prior, n);
          DigestInFront(h, dir, m.database, front, d, n);
        }
      }
    }
  }

  // ---------------------------------------------------------------- the old publication

  /** The new checkpoint agrees with every record the old publication validated. */
  lemma KnownAnchorAgrees(h: Hashes, dir: Directory, previous: Manifest, next: Manifest, p: Proof, j: nat)
    requires ProofHolds(h, dir, p) && p.manifest == previous && j < |previous.segments|
    requires previous.checkpoint <= next.checkpoint && next.database == previous.database
    requires next.checkpoint <= previous.durable ==>
             next.checkpointDigest == KnownAnchor(previous, p.pending, next.checkpoint)
    ensures SegmentAccepted(h, dir, next, previous.segments[j])
  {
    hide SegmentRecords, DigestOf;
    var d, c := previous.segments[j], next.checkpoint;
    assert SegmentAccepted(h, dir, previous, d);
    RecordsFill(h, dir, previous.database, d);
    LastWithin(previous, j);
    if d.first <= c <= d.last && c > previous.checkpoint {
      DigestLocated(h, dir, previous, j, c);
    }
  }

  lemma {:induction false} LastWithin(m: Manifest, j: nat)
    requires ValidManifest(m) && j < |m.segments|
    ensures m.segments[j].last <= m.durable
  {
    if j < |m.segments| - 1 {
      SegmentsAscend(m, j, |m.segments| - 1);
      assert Continues(m, |m.segments| - 1);
    }
  }

  /** A record of segment `j` is found there. */
  lemma DigestLocated(h: Hashes, dir: Directory, m: Manifest, j: nat, n: nat)
    requires LogsValid(h, dir, m) && j < |m.segments| && m.segments[j].first <= n <= m.segments[j].last
    requires SegmentRecords(h, dir, m.database, m.segments[j]).Ok?
    ensures |SegmentRecords(h, dir, m.database, m.segments[j]).value| == m.segments[j].last - m.segments[j].first + 1
    ensures DigestOf(h, dir, m.database, m.segments, n)
         == Some(h.sha(SegmentRecords(h, dir, m.database, m.segments[j]).value[n - m.segments[j].first]))
  {
    RecordsFill(h, dir, m.database, m.segments[j]);
    DigestLocatedIn(h, dir, m, j, n, |m.segments|);
    assert m.segments[..|m.segments|] == m.segments;
  }

  lemma {:induction false} DigestLocatedIn(h: Hashes, dir: Directory, m: Manifest, j: nat, n: nat, k: nat)
    requires ValidManifest(m) && j < k <= |m.segments| && m.segments[j].first <= n <= m.segments[j].last
    requires SegmentRecords(h, dir, m.database, m.segments[j]).Ok?
    requires |SegmentRecords(h, dir, m.database, m.segments[j]).value| == m.segments[j].last - m.segments[j].first + 1
    ensures DigestOf(h, dir, m.database, m.segments[..k], n)
         == Some(h.sha(SegmentRecords(h, dir, m.database, m.segments[j]).value[n - m.segments[j].first]))
    decreases k
  {
    hide SegmentRecords, ValidManifest;
    assert m.segments[..k][..k - 1] == m.segments[..k - 1];
    if j < k - 1 {
      SegmentsAscend(m, j, k - 1);
      DigestLocatedIn(h, dir, m, j, n, k - 1);
    }
  }

  /** Dropping the digests at or below the new checkpoint. */
  lemma PrunedPending(h: Hashes, dir: Directory, previous: Manifest, next: Manifest, p: Proof)
    requires ProofHolds(h, dir, p) && p.manifest == previous && next.database == previous.database
    requires previous.checkpoint <= next.checkpoint
    ensures previous.checkpoint + |p.pending| == previous.durable
    ensures var pruned :=
            (if next.checkpoint < previous.durable then next.checkpoint else previous.durable) - previous.checkpoint;
            PendingUpTo(h, dir, next, previous.segments,
                State(previous.durable + 1, previous.durableDigest, p.pending[pruned..]))
  {
    hide DigestOf, SegmentAccepted;
  }

  // ---------------------------------------------------------------- the theorem

  /** The same proof in a directory that kept the committed bytes. */
  lemma ProofKept(h: Hashes, before: Directory, after: Directory, p: Proof)
    requires ProofHolds(h, before, p) && KeepsCommitted(before, after, p.manifest)
    ensures ProofHolds(h, after, p)
  {
    hide SegmentRecords, KeepsFile, DigestOf, ValidManifest;
    var m := p.manifest;
    forall j | 0 <= j < |m.segments|
      ensures SegmentRecords(h, before, m.database, m.segments[j]).Ok?
      ensures SegmentAccepted(h, after, m, m.segments[j])
    {
      assert SegmentAccepted(h, before, m, m.segments[j]);
      SegmentUnchanged(h, before, after, m.database, m.segments[j]);
    }
    forall n | m.checkpoint < n <= m.durable
      ensures DigestOf(h, after, m.database, m.segments, n) == Some(p.pending[n - m.checkpoint - 1])
    {
      DigestsUnchanged(h, before, after, m.database, m.segments, n);
    }
  }

  /** Every new segment from `index` on is covered by the loop. */
  lemma {:induction false} LoopCovers(h: Hashes, dir: Directory, previous: Manifest, next: Manifest, index: nat,
      s: State)
    requires |previous.segments| <= index <= |next.segments| && Covered(h, dir, next, index, s)
    requires ExtendFrom(h, dir, previous, next, index, s).Ok?
    ensures Covered(h, dir, next, |next.segments|, ExtendFrom(h, dir, previous, next, index, s).value)
    decreases |next.segments| - index
  {
    hide Covered, ExtendSegment;
    if index < |next.segments| {
      NewSegmentCovers(h, dir, next, index, s);
      LoopCovers(h, dir, previous, next, index + 1, ExtendSegment(h, dir, next, None, next.segments[index], s).value);
    }
  }

  /** The loop starts with the old segments covered, its first step perhaps growing the last of them. */
  lemma ExtensionCovers(h: Hashes, dir: Directory, previous: Manifest, next: Manifest, p: Proof)
    requires ProofHolds(h, dir, p) && p.manifest == previous && next.checkpoint <= next.durable
    requires previous.checkpoint + |p.pending| == previous.durable
    requires Extension(h, dir, previous, next, p).Ok? && Extension(h, dir, previous, next, p).value.Some?
    ensures var q := Extension(h, dir, previous, next, p).value.value;
            && q.manifest == next
            && Covered(h, dir, next, |next.segments|, State(next.durable + 1, next.durableDigest, q.pending))
  {
    hide Covered, ExtendSegment, PendingUpTo, ProofHolds, Grows, KnownAnchor, SegmentAccepted;
    var pruned :=
      (if next.checkpoint < previous.durable then next.checkpoint else previous.durable) - previous.checkpoint;
    var start := State(previous.durable + 1, previous.durableDigest, p.pending[pruned..]);
    var count := |previous.segments|;
    PrunedPending(h, dir, previous, next, p);
    forall j | 0 <= j < count
      ensures SegmentAccepted(h, dir, next, previous.segments[j])
    {
      KnownAnchorAgrees(h, dir, previous, next, p, j);
    }
    if count == 0 {
      CoverOld(h, dir, previous, next, start);
      LoopCovers(h, dir, previous, next, 0, start);
    } else {
      TailCovers(h, dir, previous, next, start, p);
      var t := ExtendSegment(h, dir, next, Some(previous.segments[count - 1]), next.segments[count - 1], start).value;
      LoopCovers(h, dir, previous, next, count, t);
    }
  }

  lemma CoverOld(h: Hashes, dir: Directory, previous: Manifest, next: Manifest, s: State)
    requires |previous.segments| <= |next.segments| && next.segments[..|previous.segments|] == previous.segments
    requires forall j :: 0 <= j < |previous.segments| ==> SegmentAccepted(h, dir, next, previous.segments[j])
    requires PendingUpTo(h, dir, next, previous.segments, s)
    ensures Covered(h, dir, next, |previous.segments|, s)
  {
    forall j | 0 <= j < |previous.segments|
      ensures SegmentAccepted(h, dir, next, next.segments[j])
    {
      assert next.segments[j] == next.segments[..|previous.segments|][j];
    }
  }

  /** The first step of the loop, over the old tail. */
  lemma TailCovers(h: Hashes, dir: Directory, previous: Manifest, next: Manifest, s: State, p: Proof)
    requires ProofHolds(h, dir, p) && p.manifest == previous
    requires previous.segments != [] && SegmentsExtend(previous, next)
    requires forall j :: 0 <= j < |previous.segments| ==> SegmentAccepted(h, dir, next, previous.segments[j])
    requires PendingUpTo(h, dir, next, previous.segments, s)
    requires s.sequence == previous.durable + 1 && s.predecessor == previous.durableDigest
    requires ExtendSegment(h, dir, next, Some(previous.segments[|previous.segments| - 1]),
                           next.segments[|previous.segments| - 1], s).Ok?
    ensures Covered(h, dir, next, |previous.segments|,
                    ExtendSegment(h, dir, next, Some(previous.segments[|previous.segments| - 1]),
                                  next.segments[|previous.segments| - 1], s).value)
  {
    hide Covered, PendingUpTo, SegmentAccepted, Grows, SuffixRecords;
    var count := |previous.segments|;
    var prior, tail := previous.segments[count - 1], next.segments[count - 1];
    var front := previous.segments[..count - 1];
    assert next.segments[..count - 1] == front;
    assert previous.segments == front + [prior];
    forall j | 0 <= j < count - 1
      ensures SegmentAccepted(h, dir, next, next.segments[j])
    {
      assert next.segments[j] == next.segments[..count - 1][j] == previous.segments[j];
    }
    TailEnds(h, dir, previous, p);
    if tail == prior {
      assert next.segments[..count] == front + [tail];
      CoverOld(h, dir, previous, next, s);
    } else {
      GrownSegmentCovers(h, dir, next, prior, count - 1, s);
    }
  }

  lemma TailEnds(h: Hashes, dir: Directory, m: Manifest, p: Proof)
    requires ProofHolds(h, dir, p) && p.manifest == m && m.segments != []
    ensures m.segments[|m.segments| - 1].last == m.durable && m.segments[|m.segments| - 1].lastDigest == m.durableDigest
  {
  }

  /**
   Incremental validation refines full validation: if the old proof held and the bytes
   it covered are unchanged, a returned proof holds. The full check accepts the new
   manifest, and the pending digests are exactly those above its checkpoint.
   */
  lemma ExtensionSound(h: Hashes, before: Directory, after: Directory, previous: Manifest, next: Manifest, p: Proof)
    requires ProofHolds(h, before, p) && p.manifest == previous && KeepsCommitted(before, after, previous)
    requires ValidManifest(next)
    ensures previous.checkpoint + |p.pending| == previous.durable
    ensures var r := Extension(h, after, previous, next, p);
            r.Ok? && r.value.Some? ==> r.value.value.manifest == next && ProofHolds(h, after, r.value.value)
  {
    hide SegmentAccepted, Extension, DigestOf, KeepsCommitted;
    ProofKept(h, before, after, p);
    var r := Extension(h, after, previous, next, p);
    if r.Ok? && r.value.Some? {
      ExtensionCovers(h, after, previous, next, p);
      assert next.segments[..|next.segments|] == next.segments;
    }
  }
}
