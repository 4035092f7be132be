/**
 The other half of incremental log validation: it turns away nothing the full check would
 accept, except where the new publication contradicts the old one, and it asks for the full
 check only where the two are not one step apart.
 */
module LogCompleteness {
  import opened Common
  import opened Bytes
  import opened Records
  import opened Manifests
  import opened LogValidation

  // ---------------------------------------------------------------- agreement with the old publication

  /** The new checkpoint has the digest of that record in the old log, or of the old checkpoint itself. */
  ghost predicate AnchorStays(h: Hashes, dir: Directory, previous: Manifest, next: Manifest) {
    if next.checkpoint == previous.checkpoint then next.checkpointDigest == previous.checkpointDigest
    else DigestOf(h, dir, previous.database, previous.segments, next.checkpoint) == Some(next.checkpointDigest)
  }

  /** At most one new segment, and at most 4096 digests to keep. */
  predicate OneStep(previous: Manifest, next: Manifest) {
    SegmentsExtend(previous, next) && next.durable - next.checkpoint <= 4096
  }

  /** Nothing the old publication fixed is different in the new one. */
  ghost predicate Agrees(h: Hashes, dir: Directory, previous: Manifest, next: Manifest) {
    && (next.durable == previous.durable ==> next.durableDigest == previous.durableDigest)
    && (next.checkpoint <= previous.durable ==> AnchorStays(h, dir, previous, next))
    && (OneStep(previous, next) && previous.segments == [] && next.segments != [] ==>
          next.segments[0].predecessor == previous.durableDigest)
  }

  /** An empty log is carried on from its durable digest. */
  predicate CarriesOn(previous: Manifest, next: Manifest) {
    previous.segments == [] ==>
      if next.segments == [] then next.durableDigest == previous.durableDigest
      else next.segments[0].predecessor == previous.durableDigest
  }

  /** The anchor the proof knows is the digest of that record in the old log. */
  lemma KnownIsStays(h: Hashes, dir: Directory, previous: Manifest, next: Manifest, p: Proof)
    requires ProofHolds(h, dir, p) && p.manifest == previous
    requires previous.checkpoint <= next.checkpoint <= previous.durable
    ensures previous.checkpoint + |p.pending| == previous.durable
    ensures next.checkpointDigest == KnownAnchor(previous, p.pending, next.checkpoint) <==>
            AnchorStays(h, dir, previous, next)
  {
    hide LogsValid, DigestOf;
  }

  // ---------------------------------------------------------------- what reads in full reads on

  /** A new segment that the full check accepts is accepted as an extension. */
  lemma NewSegmentReads(h: Hashes, dir: Directory, next: Manifest, d: Descriptor, s: State)
    requires SegmentAccepted(h, dir, next, d) && d.first == s.sequence && d.predecessor == s.predecessor
    ensures var r := ExtendSegment(h, dir, next, None, d, s);
            r.Ok? && r.value.sequence == d.last + 1 && r.value.predecessor == d.lastDigest
  {
    hide SuffixRecords, NewDigests;
  }

  /** A grown segment that the full check accepts is accepted from its old end on. */
  lemma GrownSegmentReads(h: Hashes, dir: Directory, previous: Manifest, next: Manifest, prior: Descriptor,
      d: Descriptor, s: State)
    requires SegmentAccepted(h, dir, previous, prior) && SegmentAccepted(h, dir, next, d) && Grows(prior, d)
    requires next.database == previous.database && s.sequence == prior.last + 1 && s.predecessor == prior.lastDigest
    ensures var r := ExtendSegment(h, dir, next, Some(prior), d, s);
            r.Ok? && r.value.sequence == d.last + 1 && r.value.predecessor == d.lastDigest
  {
    hide SuffixRecords, NewDigests, SegmentRecords;
    RecordsFile(h, dir, next.database, prior);
    GrownSegment(h, dir, next.database, prior, d);
    RecordsFill(h, dir, next.database, prior);
    var before := SegmentRecords(h, dir, next.database, prior).value;
    var more := SuffixRecords(h, dir[d.id], next.database, d, prior.committed, s.sequence, s.predecessor).value;
    BackAnchor(h, before, more, d.first, next);
  }

  lemma BackAnchor(h: Hashes, before: seq<ByteString>, more: seq<ByteString>, first: nat, m: Manifest)
    requires AnchorAgrees(h, before + more, first, m)
    ensures AnchorAgrees(h, before, first, m) && AnchorAgrees(h, more, first + |before|, m)
  {
    if first + |before| <= m.checkpoint < first + |before| + |more| {
      assert (before + more)[m.checkpoint - first] == more[m.checkpoint - first - |before|];
    }
    if first <= m.checkpoint < first + |before| {
      assert (before + more)[m.checkpoint - first] == before[m.checkpoint - first];
    }
  }

  /** From the end of the old segments the loop reaches the end of the new ones. */
  lemma LastSegmentReads(h: Hashes, dir: Directory, previous: Manifest, next: Manifest, s: State)
    requires LogsValid(h, dir, next) && |previous.segments| <= |next.segments| <= |previous.segments| + 1
    requires var count := |previous.segments|;
             if count == |next.segments| then s.sequence == next.durable + 1 && s.predecessor == next.durableDigest
             else next.segments[count].first == s.sequence && next.segments[count].predecessor == s.predecessor
    ensures var r := ExtendFrom(h, dir, previous, next, |previous.segments|, s);
            r.Ok? && r.value.sequence == next.durable + 1 && r.value.predecessor == next.durableDigest
  {
    hide ExtendSegment, SegmentAccepted;
    var count := |previous.segments|;
    if count < |next.segments| {
      assert SegmentAccepted(h, dir, next, next.segments[count]);
      NewSegmentReads(h, dir, next, next.segments[count], s);
    }
  }

  lemma LoopReads(h: Hashes, dir: Directory, previous: Manifest, next: Manifest, pending: seq<ByteString>)
    requires LogsValid(h, dir, previous) && LogsValid(h, dir, next)
    requires SameLineage(previous, next) && SegmentsExtend(previous, next)
    requires next.durable == previous.durable ==> next.durableDigest == previous.durableDigest
    ensures var start := State(previous.durable + 1, previous.durableDigest, pending);
            var r := ExtendFrom(h, dir, previous, next, if previous.segments == [] then 0 else |previous.segments| - 1,
                                start);
            if previous.segments == [] && next.segments != [] && next.segments[0].predecessor != previous.durableDigest
            then r.Err?
            else r.Ok? && r.value.sequence == next.durable + 1 && r.value.predecessor == next.durableDigest
  {
    hide ExtendSegment, SegmentAccepted, ValidDescriptor, ValidHead;
    var start := State(previous.durable + 1, previous.durableDigest, pending);
    var count := |previous.segments|;
    if count == 0 {
      EmptyLog(previous, next);
      if next.segments != [] && next.segments[0].predecessor != previous.durableDigest {
        Misplaced(h, dir, next, next.segments[0], start);
      } else {
        LastSegmentReads(h, dir, previous, next, start);
      }
    } else {
      var prior, tail := previous.segments[count - 1], next.segments[count - 1];
      assert SegmentAccepted(h, dir, previous, prior) && SegmentAccepted(h, dir, next, tail);
      if tail == prior {
        Unchanged(h, dir, next, prior, start);
        TailFollows(previous, next, start);
        LastSegmentReads(h, dir, previous, next, start);
      } else {
        GrownSegmentReads(h, dir, previous, next, prior, tail, start);
        var t := ExtendSegment(h, dir, next, Some(prior), tail, start).value;
        TailFollows(previous, next, t);
        LastSegmentReads(h, dir, previous, next, t);
      }
    }
  }

  lemma Unchanged(h: Hashes, dir: Directory, next: Manifest, d: Descriptor, s: State)
    ensures ExtendSegment(h, dir, next, Some(d), d, s) == Ok(s)
  {
  }

  lemma Misplaced(h: Hashes, dir: Directory, next: Manifest, d: Descriptor, s: State)
    requires d.predecessor != s.predecessor
    ensures ExtendSegment(h, dir, next, None, d, s).Err?
  {
  }

  /** After an empty log the first segment starts at the next sequence. */
  lemma EmptyLog(previous: Manifest, next: Manifest)
    requires ValidManifest(previous) && ValidManifest(next) && previous.segments == []
    requires next.logFloor == previous.logFloor && |next.segments| <= 1
    ensures next.segments == [] ==> next.durable == previous.durable
    ensures next.segments != [] ==> next.segments[0].first == previous.durable + 1
  {
    hide ValidDescriptor, ValidHead;
    if next.segments != [] {
      assert Continues(next, 0);
    }
  }

  /** Past the old tail the new manifest ends, or its one new segment follows. */
  lemma TailFollows(previous: Manifest, next: Manifest, s: State)
    requires ValidManifest(previous) && ValidManifest(next) && previous.segments != []
    requires |previous.segments| <= |next.segments| <= |previous.segments| + 1
    requires s.sequence == next.segments[|previous.segments| - 1].last + 1
    requires s.predecessor == next.segments[|previous.segments| - 1].lastDigest
    ensures var count := |previous.segments|;
            if count == |next.segments| then s.sequence == next.durable + 1 && s.predecessor == next.durableDigest
            else next.segments[count].first == s.sequence && next.segments[count].predecessor == s.predecessor
  {
    hide ValidDescriptor, ValidHead;
    var count := |previous.segments|;
    if count < |next.segments| {
      assert Continues(next, count);
    }
  }

  // ---------------------------------------------------------------- the theorem

  /**
   Every answer of incremental validation, for a publication the full check accepts: an error
   exactly when it contradicts the old publication, a proof exactly when it agrees with it and
   is one step away, and otherwise a request for the full check.
   */
  lemma ExtensionExact(h: Hashes, before: Directory, after: Directory, previous: Manifest, next: Manifest, p: Proof)
    requires ProofHolds(h, before, p) && p.manifest == previous && KeepsCommitted(before, after, previous)
    requires LogsValid(h, after, next)
    ensures previous.checkpoint + |p.pending| == previous.durable && next.checkpoint <= next.durable
    ensures var r := Extension(h, after, previous, next, p);
            && (r.Err? <==> SameLineage(previous, next) && !Agrees(h, after, previous, next))
            && (r.Ok? && r.value.Some? <==>
                  SameLineage(previous, next) && Agrees(h, after, previous, next) && OneStep(previous, next))
  {
    hide ExtendFrom, SegmentsExtend, ValidDescriptor, SegmentAccepted, KeepsCommitted, DigestOf, KnownAnchor, ValidHead;
    ProofKept(h, before, after, p);
    if SameLineage(previous, next) {
      if next.checkpoint <= previous.durable {
        KnownIsStays(h, after, previous, next, p);
      }
      if Agrees(h, after, previous, next) || (next.durable == previous.durable ==>
           next.durableDigest == previous.durableDigest) {
        if OneStep(previous, next) {
          var pruned :=
            (if next.checkpoint < previous.durable then next.checkpoint else previous.durable) - previous.checkpoint;
          LoopReads(h, after, previous, next, p.pending[pruned..]);
        }
      }
    }
  }

  // ---------------------------------------------------------------- one step away, nothing contradicts

  /** Where the old log has the record, the new log has it too. */
  lemma SameRecord(h: Hashes, dir: Directory, previous: Manifest, next: Manifest, j: nat, n: nat)
    requires LogsValid(h, dir, previous) && LogsValid(h, dir, next)
    requires next.database == previous.database && SegmentsExtend(previous, next) && j < |previous.segments|
    requires previous.segments[j].first <= n <= previous.segments[j].last
    ensures n <= next.segments[j].last && next.segments[j].first == previous.segments[j].first
    ensures var prior, now, i := SegmentRecords(h, dir, previous.database, previous.segments[j]),
                                 SegmentRecords(h, dir, next.database, next.segments[j]),
                                 n - previous.segments[j].first;
            prior.Ok? && now.Ok? && i < |prior.value| <= |now.value| && now.value[i] == prior.value[i]
  {
    hide SegmentRecords, ValidManifest, SuffixRecords;
    var prior, d := previous.segments[j], next.segments[j];
    assert SegmentAccepted(h, dir, previous, prior) && SegmentAccepted(h, dir, next, d);
    RecordsFill(h, dir, previous.database, prior);
    if j < |previous.segments| - 1 {
      assert next.segments[..|previous.segments| - 1][j] == previous.segments[..|previous.segments| - 1][j];
    } else if d != prior {
      RecordsFile(h, dir, previous.database, prior);
      GrownSegment(h, dir, previous.database, prior, d);
    }
  }

  /** A checkpoint that both logs hold has one digest. */
  lemma SameAnchor(h: Hashes, dir: Directory, previous: Manifest, next: Manifest)
    requires LogsValid(h, dir, previous) && LogsValid(h, dir, next)
    requires SameLineage(previous, next) && SegmentsExtend(previous, next) && CarriesOn(previous, next)
    requires next.checkpoint <= previous.durable
    ensures AnchorStays(h, dir, previous, next)
  {
    hide SegmentRecords, ValidDescriptor, ValidHead, DigestOf;
    var c := next.checkpoint;
    if previous.segments == [] {
      EmptyLog(previous, next);
      if next.segments != [] {
        assert Continues(next, 0);
      }
    } else if c >= previous.logFloor {
      var j := SegmentOf(previous, c);
      SameRecord(h, dir, previous, next, j, c);
      assert SegmentAccepted(h, dir, previous, previous.segments[j]) && SegmentAccepted(h, dir, next, next.segments[j]);
      DigestLocated(h, dir, previous, j, c);
    } else {
      FirstAnchor(previous, next);
    }
  }

  lemma SegmentOf(m: Manifest, n: nat) returns (j: nat)
    requires ValidManifest(m) && m.logFloor <= n <= m.durable
    ensures j < |m.segments| && m.segments[j].first <= n <= m.segments[j].last
  {
    SegmentsPartition(m, n, |m.segments|);
    j :| j < |m.segments| && m.segments[j].first <= n <= m.segments[j].last;
  }

  /** A checkpoint just below the log is the predecessor of its first segment. */
  lemma FirstAnchor(previous: Manifest, next: Manifest)
    requires ValidManifest(previous) && ValidManifest(next)
    requires SameLineage(previous, next) && SegmentsExtend(previous, next) && previous.segments != []
    requires next.checkpoint < previous.logFloor
    ensures next.checkpoint == previous.checkpoint && next.checkpointDigest == previous.checkpointDigest
  {
    hide ValidDescriptor, ValidHead;
    assert Continues(previous, 0) && Continues(next, 0);
    if |previous.segments| > 1 {
      assert next.segments[..|previous.segments| - 1][0] == previous.segments[..|previous.segments| - 1][0];
    }
  }

  /** Segments that extend the old ones without moving the durable end leave its digest alone. */
  lemma SameEnd(previous: Manifest, next: Manifest)
    requires ValidManifest(previous) && ValidManifest(next)
    requires SameLineage(previous, next) && SegmentsExtend(previous, next) && CarriesOn(previous, next)
    requires next.durable == previous.durable
    ensures next.durableDigest == previous.durableDigest
  {
    hide ValidDescriptor, ValidHead;
    var count := |previous.segments|;
    if count == 0 {
      EmptyLog(previous, next);
      if next.segments != [] {
        SegmentOrdered(next, 0);
      }
    } else {
      SegmentOrdered(next, count - 1);
      if |next.segments| > count {
        assert Continues(next, count);
        SegmentOrdered(next, count);
      }
    }
  }

  lemma SegmentOrdered(m: Manifest, j: nat)
    requires ValidManifest(m) && j < |m.segments|
    ensures m.segments[j].first <= m.segments[j].last <= m.durable
  {
    hide PossibleLength, ValidHead;
    assert Continues(m, j);
    LastWithin(m, j);
  }

  /**
   A publication one step on from the old one, in a log the full check accepts, is never refused
   and never sent to the full check.
   */
  lemma ExtensionComplete(h: Hashes, before: Directory, after: Directory, previous: Manifest, next: Manifest, p: Proof)
    requires ProofHolds(h, before, p) && p.manifest == previous && KeepsCommitted(before, after, previous)
    requires LogsValid(h, after, next)
    requires SameLineage(previous, next) && SegmentsExtend(previous, next) && CarriesOn(previous, next)
    ensures previous.checkpoint + |p.pending| == previous.durable && next.checkpoint <= next.durable
    ensures var r := Extension(h, after, previous, next, p);
            && r.Ok? && (r.value.Some? <==> next.durable - next.checkpoint <= 4096)
            && (r.value.Some? ==> r.value.value.manifest == next && ProofHolds(h, after, r.value.value))
  {
    hide SegmentsExtend, SameLineage, Extension, KeepsCommitted, SegmentAccepted, ValidManifest, DigestOf;
    ExtensionExact(h, before, after, previous, next, p);
    ExtensionSound(h, before, after, previous, next, p);
    ProofKept(h, before, after, p);
    if next.durable == previous.durable {
      SameEnd(previous, next);
    }
    if next.checkpoint <= previous.durable {
      SameAnchor(h, after, previous, next);
    }
  }

  // ---------------------------------------------------------------- ordinary publications

  /** The same log published with checkpoint `c`: only the checkpoint, floors and IDs move. */
  predicate Republishes(previous: Manifest, next: Manifest) {
    && next.segments == previous.segments
    && next.durable == previous.durable && next.durableDigest == previous.durableDigest
    && next.database == previous.database && next.genesis == previous.genesis
    && next.cursorNamespace == previous.cursorNamespace
    && next.pageFile == previous.pageFile && next.nextPageFile == previous.nextPageFile
    && next.generation == previous.generation + 1 && next.logFloor == previous.logFloor
    && next.nextSegment == previous.nextSegment && next.nextCursor >= previous.nextCursor
    && previous.checkpoint <= next.checkpoint <= previous.durable
    && previous.historyFloor <= next.historyFloor <= next.checkpoint
  }

  /** Any visible record can be the next checkpoint: the manifest stays valid and every segment accepted. */
  lemma RepublishedValid(h: Hashes, dir: Directory, previous: Manifest, next: Manifest, p: Proof)
    requires ProofHolds(h, dir, p) && p.manifest == previous && Republishes(previous, next) && ValidHead(next)
    requires AnchorStays(h, dir, previous, next)
    ensures LogsValid(h, dir, next)
  {
    hide SegmentRecords, ValidDescriptor, ValidHead, DigestOf, KnownAnchor;
    KnownIsStays(h, dir, previous, next, p);
    forall j | 0 <= j < |next.segments|
      ensures SegmentAccepted(h, dir, next, next.segments[j])
    {
      KnownAnchorAgrees(h, dir, previous, next, p, j);
    }
    forall j | 0 <= j < |next.segments|
      ensures Continues(next, j)
    {
      assert Continues(previous, j);
      EdgesStay(h, dir, previous, next, j);
    }
    if next.checkpoint == next.durable && next.checkpoint != previous.checkpoint {
      var k := |previous.segments| - 1;
      LastIsDigest(h, dir, previous, k);
    }
  }

  /** The last record of a segment has the segment's last digest. */
  lemma LastIsDigest(h: Hashes, dir: Directory, m: Manifest, j: nat)
    requires LogsValid(h, dir, m) && j < |m.segments|
    ensures m.segments[j].first <= m.segments[j].last
    ensures DigestOf(h, dir, m.database, m.segments, m.segments[j].last) == Some(m.segments[j].lastDigest)
  {
    hide SegmentRecords, DigestOf, ValidHead;
    assert SegmentAccepted(h, dir, m, m.segments[j]);
    SegmentOrdered(m, j);
    RecordsFill(h, dir, m.database, m.segments[j]);
    DigestLocated(h, dir, m, j, m.segments[j].last);
  }

  lemma EdgesStay(h: Hashes, dir: Directory, previous: Manifest, next: Manifest, j: nat)
    requires LogsValid(h, dir, previous) && Republishes(previous, next) && AnchorStays(h, dir, previous, next)
    requires j < |previous.segments|
    ensures EdgesAgree(next, next.segments[j])
  {
    hide SegmentRecords, ValidDescriptor, ValidHead, DigestOf;
    var d, c := previous.segments[j], next.checkpoint;
    assert Continues(previous, j);
    if d.last == c && c != previous.checkpoint {
      LastIsDigest(h, dir, previous, j);
    }
    if d.first == c + 1 && c != previous.checkpoint && j > 0 {
      LastIsDigest(h, dir, previous, j - 1);
    }
  }

  /**
   Publishing any checkpoint of the same log, from the old one up to the durable end, is
   accepted without reading a byte: the proof keeps exactly the digests above the new
   checkpoint, and only more than 4096 of them ask for the full check.
   */
  lemma PublicationExtends(h: Hashes, before: Directory, after: Directory, previous: Manifest, next: Manifest, p: Proof)
    requires ProofHolds(h, before, p) && p.manifest == previous && KeepsCommitted(before, after, previous)
    requires Republishes(previous, next) && ValidHead(next) && AnchorStays(h, after, previous, next)
    ensures previous.checkpoint + |p.pending| == previous.durable && ValidManifest(next)
    ensures Extension(h, after, previous, next, p)
         == Ok(if next.durable - next.checkpoint <= 4096
               then Some(Proof(next, p.pending[next.checkpoint - previous.checkpoint..])) else None)
  {
    hide SegmentAccepted, KeepsCommitted, DigestOf, KnownAnchor, ValidHead, ExtendFrom, SegmentsExtend, ProofHolds,
      LogsValid, ValidManifest, AnchorStays;
    ProofKept(h, before, after, p);
    RepublishedValid(h, after, previous, next, p);
    assert ValidManifest(next) by { ValidOf(h, after, next); }
    KnownIsStays(h, after, previous, next, p);
    GenerationBelow(next);
    LoopSkips(h, after, previous, next,
              State(previous.durable + 1, previous.durableDigest, p.pending[next.checkpoint - previous.checkpoint..]));
  }

  /** Without a new record the loop leaves everything as it was. */
  lemma LoopSkips(h: Hashes, dir: Directory, previous: Manifest, next: Manifest, s: State)
    requires next.segments == previous.segments
    ensures SegmentsExtend(previous, next)
    ensures ExtendFrom(h, dir, previous, next, if previous.segments == [] then 0 else |previous.segments| - 1, s)
         == Ok(s)
  {
    hide SuffixRecords;
  }

  lemma ValidOf(h: Hashes, dir: Directory, m: Manifest)
    requires LogsValid(h, dir, m)
    ensures ValidManifest(m)
  {
  }

  lemma GenerationBelow(m: Manifest)
    requires ValidHead(m)
    ensures m.generation <= U64_MAX
  {
  }
}
