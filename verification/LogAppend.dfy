/**
 Appending a commit group to the active segment, and the live owner's validation of
 what it appended or published, as the loops run.
 */
module LogAppend {
  import opened Common
  import opened Bytes
  import opened Records
  import opened Wal
  import opened Manifests
  import opened LogValidation

  // ---------------------------------------------------------------- segment header

  function SegmentFields(database: ByteString, d: Descriptor): ByteString {
    (SEGMENT_MAGIC + LittleEndian(1, 2) + LittleEndian(SEGMENT_BYTES, 2) + [0, 0, 0, 0])
    + (database + LittleEndian(d.id, 8) + LittleEndian(d.first, 8))
    + (d.predecessor + Zeros(12))
  }

  /** `segment_header`: the first block of a segment file. */
  function SegmentHeader(h: Hashes, database: ByteString, d: Descriptor): ByteString {
    var fields := SegmentFields(database, d);
    fields + LittleEndian(h.crc(fields + [0, 0, 0, 0]), 4) + Zeros(BLOCK_BYTES - SEGMENT_BYTES)
  }

  lemma HeaderParts(bytes: ByteString, front: ByteString, middle: ByteString, last: ByteString, crc: ByteString,
      rest: ByteString)
    requires |front| == 16 && |middle| == 32 && |last| == 44 && |crc| == 4 && |rest| >= 4000
    requires bytes == front + middle + last + crc + rest
    ensures bytes[..92] == front + middle + last && bytes[92..96] == crc && bytes[96..4096] == rest[..4000]
    ensures bytes[..16] == front && bytes[16..48] == middle && bytes[48..92] == last
  {
  }

  lemma FrontParts(front: ByteString)
    requires front == SEGMENT_MAGIC + LittleEndian(1, 2) + LittleEndian(SEGMENT_BYTES, 2) + [0, 0, 0, 0]
    ensures |front| == 16 && front[..8] == SEGMENT_MAGIC && front[8..10] == LittleEndian(1, 2)
    ensures front[10..12] == LittleEndian(SEGMENT_BYTES, 2) && front[12..16] == [0, 0, 0, 0]
  {
  }

  lemma MiddleParts(middle: ByteString, a: ByteString, b: ByteString, c: ByteString)
    requires |a| == 16 && |b| == 8 && |c| == 8 && middle == a + b + c
    ensures |middle| == 32 && middle[..16] == a && middle[16..24] == b && middle[24..] == c
  {
  }

  lemma ZeroWord()
    ensures FromLittleEndian([0, 0, 0, 0]) == 0
    ensures 1 < Base(2) && SEGMENT_BYTES < Base(2)
  {
    Base8();
    LittleEndianRoundTrip(0, 4);
    assert LittleEndian(0, 4) == [0, 0, 0, 0];
  }

  /** A written segment header is accepted in front of any records. */
  lemma WrittenHeader(h: Hashes, database: ByteString, d: Descriptor, groups: ByteString)
    requires ValidHashes(h) && |database| == 16 && |d.predecessor| == DIGEST_LENGTH
    requires d.id <= U64_MAX && d.first <= U64_MAX
    ensures |SegmentHeader(h, database, d)| == BLOCK_BYTES
    ensures ValidSegmentHeader(h, SegmentHeader(h, database, d) + groups, database, d)
  {
    hide LittleEndian, FromLittleEndian;
    Base8();
    ZeroWord();
    var fields, file := SegmentFields(database, d), SegmentHeader(h, database, d) + groups;
    var front := SEGMENT_MAGIC + LittleEndian(1, 2) + LittleEndian(SEGMENT_BYTES, 2) + [0, 0, 0, 0];
    var middle := database + LittleEndian(d.id, 8) + LittleEndian(d.first, 8);
    var last := d.predecessor + Zeros(12);
    var crc, zeros := LittleEndian(h.crc(fields + [0, 0, 0, 0]), 4), Zeros(BLOCK_BYTES - SEGMENT_BYTES);
    FrontParts(front);
    MiddleParts(middle, database, LittleEndian(d.id, 8), LittleEndian(d.first, 8));
    assert fields == front + middle + last;
    Reassociate(fields + crc, zeros, groups);
    HeaderParts(file, front, middle, last, crc, zeros + groups);
    LittleEndianRoundTrip(h.crc(fields + [0, 0, 0, 0]), 4);
    LittleEndianRoundTrip(1, 2);
    LittleEndianRoundTrip(SEGMENT_BYTES, 2);
    LittleEndianRoundTrip(d.id, 8);
    LittleEndianRoundTrip(d.first, 8);
    assert file[..8] == front[..8] && file[8..10] == front[8..10] && file[10..12] == front[10..12]
        && file[12..16] == front[12..16];
    assert file[16..32] == middle[..16] && file[32..40] == middle[16..24] && file[40..48] == middle[24..];
    assert file[48..80] == last[..32] && file[80..92] == last[32..];
  }

  // ---------------------------------------------------------------- appending

  datatype Appended = Appended(dir: Directory, manifest: Manifest, digests: seq<ByteString>)

  function Digests(h: Hashes, records: seq<ByteString>): (r: seq<ByteString>)
    ensures |r| == |records|
  {
    seq(|records|, i requires 0 <= i < |records| => h.sha(records[i]))
  }

  /**
   `append_group`: validate the records, then start a segment or extend the active one.
   `id` is the file allocated for a new segment.
   */
  ghost function AppendGroup(h: Hashes, dir: Directory, m: Manifest, records: seq<ByteString>, rotate: bool,
      id: nat): Result<Appended>
  {
    var first := m.durable + 1;
    if !(1 <= |records| <= MAX_GROUP_RECORDS) || m.durable + |records| >= U64_MAX
       || !LinkedRecords(h, records, first, m.durableDigest) then Err(InvalidInput)
    else
      var group :- Framed(h, records, first, m.durableDigest);
      var next := Extended(m, |records|, |group|, LastDigest(h, records, m.durableDigest), rotate, id);
      if rotate || m.segments == [] then
        if id < m.nextSegment || id in dir || !ValidId(id) then Err(Exhausted)
        else if !ValidManifest(next) then Err(InvalidInput)
        else
          var header := SegmentHeader(h, m.database, next.segments[|m.segments|]);
          Ok(Appended(dir[id := header + group], next, Digests(h, records)))
      else
        var prior := m.segments[|m.segments| - 1];
        if prior.id !in dir || |dir[prior.id]| != prior.committed then Err(Corrupt)
        else if !ValidManifest(next) then Err(InvalidInput)
        else Ok(Appended(dir[prior.id := dir[prior.id] + group], next, Digests(h, records)))
  }

  /** What the caller and the directory must provide; the manifest the writer builds is not among it. */
  ghost predicate CanAppend(h: Hashes, dir: Directory, m: Manifest, records: seq<ByteString>, rotate: bool, id: nat) {
    && 1 <= |records| <= MAX_GROUP_RECORDS && m.durable + |records| < U64_MAX
    && LinkedRecords(h, records, m.durable + 1, m.durableDigest)
    && if rotate || m.segments == []
       then id >= m.nextSegment && id !in dir && ValidId(id) && |m.segments| < MAX_SEGMENTS
       else
         var prior := m.segments[|m.segments| - 1];
         prior.id in dir && |dir[prior.id]| == prior.committed
  }

  /** The length of a framed group is a group's length, and linked records can always be framed. */
  lemma FramedSize(h: Hashes, records: seq<ByteString>, first: nat, predecessor: ByteString) returns (bytes: nat)
    requires ValidHashes(h) && |predecessor| == DIGEST_LENGTH && first > 0
    requires 1 <= |records| <= MAX_GROUP_RECORDS && first + |records| <= U64_MAX
             && LinkedRecords(h, records, first, predecessor)
    ensures GroupSize(|records|, bytes) && Framed(h, records, first, predecessor).Ok?
    ensures |Framed(h, records, first, predecessor).value| == GroupBytes(bytes)
  {
    hide GroupBytes, LinkedRecords, GroupFields, Drain, LastDigest, Concat, Trailing;
    bytes := GROUP_OVERHEAD + |Concat(records)|;
    ConcatBounds(h, records, first, predecessor);
    assert ValidGroup(Wal.HeaderOf(h, records, first, predecessor));
    DrainOfFramed(h, records, first, predecessor);
  }

  /** An append succeeds exactly when its inputs allow it: the guard on the new manifest rejects nothing. */
  lemma AppendAccepted(h: Hashes, dir: Directory, m: Manifest, records: seq<ByteString>, rotate: bool, id: nat)
    requires ValidHashes(h) && ValidManifest(m) && |m.durableDigest| == DIGEST_LENGTH
    ensures AppendGroup(h, dir, m, records, rotate, id).Ok? <==> CanAppend(h, dir, m, records, rotate, id)
    ensures CanAppend(h, dir, m, records, rotate, id) ==>
              ValidManifest(AppendGroup(h, dir, m, records, rotate, id).value.manifest)
  {
    hide ValidManifest, Framed, LinkedRecords, LastDigest, SegmentHeader, GroupBytes, GroupSize;
    if 1 <= |records| <= MAX_GROUP_RECORDS && m.durable + |records| < U64_MAX
       && LinkedRecords(h, records, m.durable + 1, m.durableDigest) {
      var bytes := FramedSize(h, records, m.durable + 1, m.durableDigest);
      var digest := LastDigest(h, records, m.durableDigest);
      if rotate || m.segments == [] {
        if id >= m.nextSegment && ValidId(id) {
          ExtendedValid(m, |records|, bytes, digest, rotate, id);
          SegmentRoom(m);
        }
      } else {
        ExtendedValid(m, |records|, bytes, digest, rotate, id);
      }
    }
  }

  lemma SegmentRoom(m: Manifest)
    ensures m.segments == [] ==> |m.segments| < MAX_SEGMENTS
  {
  }

  /** `committed`: extend the owner's proof by what it has just appended. */
  function Committed(p: Proof, previous: Manifest, next: Manifest, digests: seq<ByteString>): Option<Proof> {
    if p.manifest != previous || next.durable - next.checkpoint > MAX_PENDING_ANCHORS then None
    else Some(Proof(next, p.pending + digests))
  }

  /** Digests of wholly new records are all pending. */
  lemma {:induction false} AllNew(h: Hashes, records: seq<ByteString>, first: nat, checkpoint: nat)
    requires first > checkpoint
    ensures NewDigests(h, records, first, checkpoint) == Digests(h, records)
  {
    if records != [] {
      AllNew(h, records[1..], first + 1, checkpoint);
      assert Digests(h, records) == [h.sha(records[0])] + Digests(h, records[1..]);
    }
  }

  /** The group reads back from where it was written. */
  lemma GroupReads(h: Hashes, file: ByteString, database: ByteString, d: Descriptor, records: seq<ByteString>,
      predecessor: ByteString, offset: nat, group: ByteString)
    requires ValidHashes(h) && |predecessor| == DIGEST_LENGTH && records != []
    requires d.first <= d.last - |records| + 1 && d.last >= |records|
    requires LinkedRecords(h, records, d.last - |records| + 1, predecessor)
    requires Framed(h, records, d.last - |records| + 1, predecessor) == Ok(group)
    requires ValidDescriptor(d) && d.lastDigest == LastDigest(h, records, predecessor)
    requires |file| >= BLOCK_BYTES && ValidSegmentHeader(h, file, database, d)
    requires BLOCK_BYTES <= offset <= |file| && offset % BLOCK_BYTES == 0 && file[offset..] == group
             && d.committed == |file|
    ensures SuffixRecords(h, file, database, d, offset, d.last - |records| + 1, predecessor) == Ok(records)
  {
    hide ReadRecord, ValidSegmentHeader, PossibleLength, Framed, Drain;
    DrainOfFramed(h, records, d.last - |records| + 1, predecessor);
    assert file[offset..d.committed] == group;
  }

  /** A group in a new segment is accepted, and its digests are pending. */
  lemma NewFileSound(h: Hashes, dir: Directory, p: Proof, records: seq<ByteString>, rotate: bool, id: nat)
    requires ValidHashes(h) && ProofHolds(h, dir, p)
    requires |p.manifest.database| == 16 && |p.manifest.durableDigest| == DIGEST_LENGTH
    requires AppendGroup(h, dir, p.manifest, records, rotate, id).Ok?
    requires rotate || p.manifest.segments == []
    ensures var r := AppendGroup(h, dir, p.manifest, records, rotate, id).value;
            && KeepsCommitted(dir, r.dir, p.manifest)
            && Covered(h, r.dir, r.manifest, |r.manifest.segments|,
                       State(r.manifest.durable + 1, r.manifest.durableDigest, p.pending + r.digests))
  {
    hide ReadRecord, SegmentRecords, DigestOf, Framed, PossibleLength, LinkedRecords, SegmentHeader, Covered,
      PendingUpTo, SegmentAccepted, ProofHolds, KeepsCommitted, SuffixRecords, LastDigest, ValidHead;
    var m := p.manifest;
    var r := AppendGroup(h, dir, m, records, rotate, id).value;
    var group := Framed(h, records, m.durable + 1, m.durableDigest).value;
    var start := State(m.durable + 1, m.durableDigest, p.pending);
    var count := |m.segments|;
    var d := r.manifest.segments[count];
    assert Continues(r.manifest, count);
    AllNew(h, records, m.durable + 1, m.checkpoint) by { CheckpointWithin(h, dir, p); }
    WrittenHeader(h, m.database, d, group);
    var file := SegmentHeader(h, m.database, d) + group;
    assert file[BLOCK_BYTES..] == group;
    NewFileKeeps(dir, m, id, file);
    ProofKept(h, dir, r.dir, p);
    GroupReads(h, file, m.database, d, records, m.durableDigest, BLOCK_BYTES, group);
    StillAccepted(h, r.dir, p, r.manifest);
    StillPending(h, r.dir, p, r.manifest);
    assert r.manifest.segments[..count] == m.segments;
    CoverOld(h, r.dir, m, r.manifest, start);
    NewAnchor(h, records, m.durable + 1, r.manifest) by { CheckpointWithin(h, dir, p); }
    NewSegmentCovers(h, r.dir, r.manifest, count, start);
  }

  lemma CheckpointWithin(h: Hashes, dir: Directory, p: Proof)
    requires ProofHolds(h, dir, p)
    ensures p.manifest.checkpoint <= p.manifest.durable
  {
  }

  lemma NewAnchor(h: Hashes, records: seq<ByteString>, first: nat, m: Manifest)
    requires m.checkpoint < first
    ensures AnchorAgrees(h, records, first, m)
  {
  }

  /** A group at the end of the active segment is accepted, and its digests are pending. */
  lemma GrownFileSound(h: Hashes, dir: Directory, p: Proof, records: seq<ByteString>, rotate: bool, id: nat)
    requires ValidHashes(h) && ProofHolds(h, dir, p)
    requires |p.manifest.database| == 16 && |p.manifest.durableDigest| == DIGEST_LENGTH
    requires AppendGroup(h, dir, p.manifest, records, rotate, id).Ok?
    requires !rotate && p.manifest.segments != []
    ensures var r := AppendGroup(h, dir, p.manifest, records, rotate, id).value;
            && KeepsCommitted(dir, r.dir, p.manifest)
            && Covered(h, r.dir, r.manifest, |r.manifest.segments|,
                       State(r.manifest.durable + 1, r.manifest.durableDigest, p.pending + r.digests))
  {
    hide ReadRecord, SegmentRecords, DigestOf, Framed, PossibleLength, LinkedRecords, SegmentHeader, Covered,
      PendingUpTo, SegmentAccepted, ProofHolds, KeepsCommitted, SuffixRecords, LastDigest, ValidHead;
    var m := p.manifest;
    var r := AppendGroup(h, dir, m, records, rotate, id).value;
    var group := Framed(h, records, m.durable + 1, m.durableDigest).value;
    var start := State(m.durable + 1, m.durableDigest, p.pending);
    var count := |m.segments|;
    var prior, d := m.segments[count - 1], r.manifest.segments[count - 1];
    ProofManifest(h, dir, p);
    assert Continues(m, count - 1) && Continues(r.manifest, count - 1);
    AllNew(h, records, m.durable + 1, m.checkpoint);
    var file := dir[prior.id] + group;
    assert file[prior.committed..] == group;
    GrownFileKeeps(dir, m, file);
    ProofKept(h, dir, r.dir, p);
    StillAccepted(h, r.dir, p, r.manifest);
    StillPending(h, r.dir, p, r.manifest);
    AcceptedRecords(h, r.dir, r.manifest, prior);
    HeaderOfRecords(h, r.dir, m.database, prior, d);
    GroupReads(h, file, m.database, d, records, m.durableDigest, prior.committed, group);
    var front := m.segments[..count - 1];
    assert m.segments == front + [prior];
    assert r.manifest.segments[..count - 1] == front;
    FramedLength(h, records, m.durable + 1, m.durableDigest);
    NewAnchor(h, records, m.durable + 1, r.manifest);
    GrownSegmentCovers(h, r.dir, r.manifest, prior, count - 1, start);
  }

  lemma ProofManifest(h: Hashes, dir: Directory, p: Proof)
    requires ProofHolds(h, dir, p)
    ensures ValidManifest(p.manifest)
  {
  }

  lemma AcceptedRecords(h: Hashes, dir: Directory, m: Manifest, d: Descriptor)
    requires SegmentAccepted(h, dir, m, d)
    ensures d.id in dir && SegmentRecords(h, dir, m.database, d).Ok?
  {
  }

  /**
   Extending a proof by an appended group is sound: what was appended passes the full
   check, and the proof still holds the digests above the checkpoint.
   */
  lemma CommittedSound(h: Hashes, dir: Directory, p: Proof, records: seq<ByteString>, rotate: bool, id: nat)
    requires ValidHashes(h) && ProofHolds(h, dir, p)
    requires |p.manifest.database| == 16 && |p.manifest.durableDigest| == DIGEST_LENGTH
    requires AppendGroup(h, dir, p.manifest, records, rotate, id).Ok?
    ensures var r := AppendGroup(h, dir, p.manifest, records, rotate, id).value;
            && KeepsCommitted(dir, r.dir, p.manifest)
            && (Committed(p, p.manifest, r.manifest, r.digests).Some? <==>
                  p.manifest.durable + |records| - p.manifest.checkpoint <= 4096)
            && (Committed(p, p.manifest, r.manifest, r.digests).Some? ==>
                  ProofHolds(h, r.dir, Committed(p, p.manifest, r.manifest, r.digests).value))
  {
    hide SegmentAccepted, DigestOf, Framed, LinkedRecords, SegmentHeader, ProofHolds, KeepsCommitted, LastDigest,
      ValidManifest;
    var r := AppendGroup(h, dir, p.manifest, records, rotate, id).value;
    if rotate || p.manifest.segments == [] {
      NewFileSound(h, dir, p, records, rotate, id);
    } else {
      GrownFileSound(h, dir, p, records, rotate, id);
    }
    CoveredProof(h, r.dir, r.manifest, p.pending + r.digests);
  }

  lemma CoveredProof(h: Hashes, dir: Directory, m: Manifest, pending: seq<ByteString>)
    requires ValidManifest(m) && Covered(h, dir, m, |m.segments|, State(m.durable + 1, m.durableDigest, pending))
    ensures ProofHolds(h, dir, Proof(m, pending))
  {
    hide SegmentAccepted, DigestOf;
    assert m.segments[..|m.segments|] == m.segments;
  }

  lemma FramedLength(h: Hashes, records: seq<ByteString>, first: nat, predecessor: ByteString)
    requires Framed(h, records, first, predecessor).Ok?
    ensures |Framed(h, records, first, predecessor).value| > 0
  {
    hide Trailing, Concat;
    assert |LittleEndian(h.crc(GroupFields(Wal.HeaderOf(h, records, first, predecessor))), 4)| == 4;
  }

  /** A new file leaves every committed segment alone. */
  lemma NewFileKeeps(dir: Directory, m: Manifest, id: nat, file: ByteString)
    requires id !in dir
    ensures KeepsCommitted(dir, dir[id := file], m)
  {
  }

  lemma GrownFileKeeps(dir: Directory, m: Manifest, file: ByteString)
    requires ValidManifest(m) && m.segments != []
    requires var prior := m.segments[|m.segments| - 1];
             prior.id in dir && |dir[prior.id]| == prior.committed && dir[prior.id] <= file
    ensures KeepsCommitted(dir, dir[m.segments[|m.segments| - 1].id := file], m)
  {
    hide ValidManifest;
    var k := |m.segments| - 1;
    var prior := m.segments[k];
    forall j | 0 <= j < |m.segments|
      ensures KeepsFile(dir, dir[prior.id := file], m.segments[j])
    {
      if j < k {
        SegmentsAscend(m, j, k);
      }
    }
  }

  /** Old segments stay accepted when the checkpoint stays where it is. */
  lemma StillAccepted(h: Hashes, dir: Directory, p: Proof, next: Manifest)
    requires ProofHolds(h, dir, p)
    requires var m := p.manifest;
             next.database == m.database && next.checkpoint == m.checkpoint
                 && next.checkpointDigest == m.checkpointDigest
    ensures forall j :: 0 <= j < |p.manifest.segments| ==> SegmentAccepted(h, dir, next, p.manifest.segments[j])
  {
    hide SegmentRecords, ValidManifest, DigestOf;
    var m := p.manifest;
    forall j | 0 <= j < |m.segments|
      ensures SegmentAccepted(h, dir, next, m.segments[j])
    {
      assert SegmentAccepted(h, dir, m, m.segments[j]);
    }
  }

  lemma StillPending(h: Hashes, dir: Directory, p: Proof, next: Manifest)
    requires ProofHolds(h, dir, p) && next.database == p.manifest.database && next.checkpoint == p.manifest.checkpoint
    ensures PendingUpTo(h, dir, next, p.manifest.segments,
            State(p.manifest.durable + 1, p.manifest.durableDigest, p.pending))
  {
    hide DigestOf;
  }

  /** A grown descriptor has the header of the segment it grows. */
  lemma HeaderOfRecords(h: Hashes, dir: Directory, database: ByteString, prior: Descriptor, d: Descriptor)
    requires SegmentRecords(h, dir, database, prior).Ok? && prior.id in dir
    requires d.id == prior.id && d.first == prior.first && d.predecessor == prior.predecessor
    ensures |dir[prior.id]| >= BLOCK_BYTES && ValidSegmentHeader(h, dir[prior.id], database, d)
    ensures prior.committed % BLOCK_BYTES == 0 && prior.committed >= BLOCK_BYTES
  {
    hide Drain;
    DescriptorLength(prior);
  }

  // ---------------------------------------------------------------- the loops

  /** `validate_segment_extension`: check each new record against the checkpoint and keep the digests above it. */
  method ValidateSegmentExtension(h: Hashes, file: ByteString, m: Manifest, d: Descriptor, offset: nat, first: nat,
      predecessor: ByteString, pending: seq<ByteString>) returns (r: Result<seq<ByteString>>)
    ensures var records := SuffixRecords(h, file, m.database, d, offset, first, predecessor);
            && (r.Ok? <==> records.Ok? && AnchorAgrees(h, records.value, first, m))
            && (r.Ok? ==> r.value == pending + NewDigests(h, records.value, first, m.checkpoint))
  {
    hide Drain;
    var reader := Suffix(h, file, m.database, d, offset, first, predecessor);
    if reader.Err? {
      return Err(Corrupt);
    }
    var records := ReadPrefix(h, reader.value);
    if records.Err? {
      return Err(Corrupt);
    }
    var all := records.value;
    var digests := pending;
    assert pending == pending + [];
    for i := 0 to |all|
      invariant m.checkpoint - first >= i || m.checkpoint < first
                || h.sha(all[m.checkpoint - first]) == m.checkpointDigest
      invariant digests == pending + NewDigests(h, all[..i], first, m.checkpoint)
    {
      if first + i == m.checkpoint && h.sha(all[i]) != m.checkpointDigest {
        return Err(Corrupt);
      }
      NewDigestsSnoc(h, all[..i], all[i], first, m.checkpoint);
      assert all[..i + 1] == all[..i] + [all[i]];
      if first + i > m.checkpoint {
        Reassociate(pending, NewDigests(h, all[..i], first, m.checkpoint), [h.sha(all[i])]);
        digests := digests + [h.sha(all[i])];
      }
    }
    assert all[..|all|] == all;
    r := Ok(digests);
  }

  lemma {:induction false} NewDigestsSnoc(h: Hashes, records: seq<ByteString>, last: ByteString, first: nat,
      checkpoint: nat)
    ensures NewDigests(h, records + [last], first, checkpoint)
         == NewDigests(h, records, first, checkpoint) + if first + |records| > checkpoint then [h.sha(last)] else []
  {
    if records == [] {
      assert records + [last] == [last] && [last][1..] == [];
    } else {
      NewDigestsSnoc(h, records[1..], last, first + 1, checkpoint);
      assert (records + [last])[1..] == records[1..] + [last];
    }
  }

  /** `validate_extension`: the checks, then the loop over the segments that may have changed. */
  method ValidateExtension(h: Hashes, dir: Directory, previous: Manifest, next: Manifest, p: Proof)
    returns (r: Result<Option<Proof>>)
    requires p.manifest == previous ==> previous.checkpoint + |p.pending| == previous.durable
    ensures !ValidManifest(next) ==> r.Err?
    ensures ValidManifest(next) ==>
              var spec := Extension(h, dir, previous, next, p); (r.Ok? <==> spec.Ok?) && (r.Ok? ==> r == spec)
  {
    hide SameLineage, KnownAnchor, SegmentsExtend, ExtendSegment, ValidDescriptor;
    var valid := ValidateManifest(next);
    if !valid {
      return Err(Corrupt);
    }
    if p.manifest != previous || !SameLineage(previous, next) {
      return Ok(None);
    }
    assert next.checkpoint >= previous.checkpoint && next.checkpoint <= next.durable by { Lineage(previous, next); }
    if next.durable == previous.durable && next.durableDigest != previous.durableDigest {
      return Err(Corrupt);
    }
    if next.checkpoint <= previous.durable
        && next.checkpointDigest != KnownAnchor(previous, p.pending, next.checkpoint) {
      return Err(Corrupt);
    }
    if !SegmentsExtend(previous, next) || next.durable - next.checkpoint > MAX_PENDING_ANCHORS {
      return Ok(None);
    }
    var pruned :=
      (if next.checkpoint < previous.durable then next.checkpoint else previous.durable) - previous.checkpoint;
    var s := State(previous.durable + 1, previous.durableDigest, p.pending[pruned..]);
    var index: nat := if previous.segments == [] then 0 else |previous.segments| - 1;
    assert index <= |next.segments| by { ExtendCount(previous, next); }
    ghost var goal := ExtendFrom(h, dir, previous, next, index, s);
    while index < |next.segments|
      invariant index <= |next.segments|
      invariant goal == ExtendFrom(h, dir, previous, next, index, s)
    {
      var step := ExtendOne(h, dir, next, OldSegment(previous, index), next.segments[index], s);
      if step.Err? {
        return Err(Corrupt);
      }
      s := step.value;
      index := index + 1;
    }
    if s.sequence != next.durable + 1 || s.predecessor != next.durableDigest {
      return Err(Corrupt);
    }
    r := Ok(Some(Proof(next, s.pending)));
  }

  lemma Lineage(previous: Manifest, next: Manifest)
    requires SameLineage(previous, next) && ValidManifest(next)
    ensures next.checkpoint >= previous.checkpoint && next.checkpoint <= next.durable
  {
  }

  lemma ExtendCount(previous: Manifest, next: Manifest)
    requires SegmentsExtend(previous, next)
    ensures |previous.segments| <= |next.segments|
  {
  }

  /** One pass of that loop. */
  method ExtendOne(h: Hashes, dir: Directory, next: Manifest, prior: Option<Descriptor>, d: Descriptor, s: State)
    returns (r: Result<State>)
    ensures r.Ok? <==> ExtendSegment(h, dir, next, prior, d, s).Ok?
    ensures r.Ok? ==> r == ExtendSegment(h, dir, next, prior, d, s)
  {
    hide SuffixRecords;
    if prior == Some(d) {
      return Ok(s);
    }
    if prior.None? && (d.first != s.sequence || d.predecessor != s.predecessor) {
      return Err(Corrupt);
    }
    if d.id !in dir {
      return Err(Corrupt);
    }
    var offset := if prior.Some? then prior.value.committed else BLOCK_BYTES;
    var pending := ValidateSegmentExtension(h, dir[d.id], next, d, offset, s.sequence, s.predecessor, s.pending);
    if pending.Err? {
      return Err(Corrupt);
    }
    r := Ok(State(d.last + 1, d.lastDigest, pending.value));
  }

  /** `validate_logs`: the full check, over every segment. */
  method ValidateLogs(h: Hashes, dir: Directory, m: Manifest) returns (ok: bool)
    ensures ok <==> LogsValid(h, dir, m)
  {
    hide SegmentAccepted, SuffixRecords, AnchorAgrees, NewDigests, ValidManifest, ValidDescriptor;
    ok := ValidateManifest(m);
    if !ok {
      return;
    }
    for j := 0 to |m.segments|
      invariant forall k :: 0 <= k < j ==> SegmentAccepted(h, dir, m, m.segments[k])
    {
      var d := m.segments[j];
      AcceptedIf(h, dir, m, d);
      if d.id !in dir {
        return false;
      }
      var digests := ValidateSegmentExtension(h, dir[d.id], m, d, BLOCK_BYTES, d.first, d.predecessor, []);
      if digests.Err? {
        return false;
      }
    }
  }

  lemma AcceptedIf(h: Hashes, dir: Directory, m: Manifest, d: Descriptor)
    ensures SegmentAccepted(h, dir, m, d) <==>
            d.id in dir
            && SuffixRecords(h, dir[d.id], m.database, d, BLOCK_BYTES, d.first, d.predecessor).Ok?
            && AnchorAgrees(h, SuffixRecords(h, dir[d.id], m.database, d, BLOCK_BYTES, d.first, d.predecessor).value,
               d.first, m)
  {
  }
}
