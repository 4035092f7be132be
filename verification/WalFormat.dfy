/**
 What the log reader accepts is what the writer writes: committed bytes that read in full are
 exactly some records of one linked sequence, framed in groups and padded to blocks.
 */
module WalFormat {
  import opened Common
  import opened Bytes
  import opened Records
  import opened Wal
  import opened Manifests
  import opened LogValidation
  import opened LogAppend

  /** The bytes of consecutive groups. */
  function FramedAll(h: Hashes, groups: seq<seq<ByteString>>, first: nat, predecessor: ByteString): Result<ByteString> {
    if groups == [] then Ok([])
    else
      var front :- Framed(h, groups[0], first, predecessor);
      var rest :- FramedAll(h, groups[1..], first + |groups[0]|, LastDigest(h, groups[0], predecessor));
      Ok(front + rest)
  }

  function Flat(groups: seq<seq<ByteString>>): seq<ByteString> {
    if groups == [] then [] else groups[0] + Flat(groups[1..])
  }

  /** A record read off the front of longer input is a record by itself. */
  lemma RecordAlone(h: Hashes, input: ByteString, remaining: nat, sequence: nat, predecessor: ByteString)
    requires ReadRecord(h, input, remaining, sequence, predecessor).Ok?
    ensures var bytes := ReadRecord(h, input, remaining, sequence, predecessor).value;
            && |bytes| <= |input| && bytes == input[..|bytes|] && RECORD_OVERHEAD <= |bytes| <= remaining
            && ReadRecord(h, bytes, |bytes|, sequence, predecessor) == Ok(bytes)
  {
    hide ValidHeader, FromLittleEndian;
    var bytes := ReadRecord(h, input, remaining, sequence, predecessor).value;
    assert bytes[8..12] == input[8..12];
    assert bytes[..|bytes|] == bytes;
  }

  /** A group that closes ends with its trailer and padding. */
  lemma ClosedBytes(h: Hashes, r: Reader)
    requires ValidHashes(h) && r.group.Some? && CloseGroup(h, r).Ok? && |r.input| == r.remaining
    ensures var closed := CloseGroup(h, r).value;
            && r.input == Trailing(h, r.group.value.header, r.group.value.hashed) + closed.input
            && |closed.input| == closed.remaining && closed.group.None? && r.group.value.remaining == 0
            && r.predecessor == r.group.value.header.lastDigest
            && closed == r.(input := closed.input, remaining := closed.remaining, group := None)
  {
    hide Trailer, GroupBytes;
    var g := r.group.value;
    var padding := GroupBytes(g.header.bytes) - g.header.bytes;
    TrailingLength(h, g.header, g.hashed);
    assert r.input == r.input[..TRAILER_BYTES] + r.input[TRAILER_BYTES..TRAILER_BYTES + padding]
                      + r.input[TRAILER_BYTES + padding..];
  }

  /** The step from one record to the next inside a group. */
  lemma TakenBytes(h: Hashes, r: Reader)
    requires r.group.Some? && r.group.value.records > 0 && TakeRecord(h, r).Ok? && |r.input| == r.remaining
    ensures var (bytes, taken) := TakeRecord(h, r).value;
            && r.input == bytes + taken.input && |taken.input| == taken.remaining
            && ReadRecord(h, bytes, |bytes|, r.sequence, r.predecessor) == Ok(bytes)
            && taken.sequence == r.sequence + 1 && taken.predecessor == h.sha(bytes)
            && taken.last == r.last && taken.lastDigest == r.lastDigest
            && |bytes| <= r.group.value.remaining
            && taken.group == Some(r.group.value.(remaining := r.group.value.remaining - |bytes|,
                                                  records := r.group.value.records - 1,
                                                  hashed := r.group.value.hashed + bytes))
  {
    hide ReadRecord;
    RecordAlone(h, r.input, r.group.value.remaining, r.sequence, r.predecessor);
  }

  /** The rest of an open group: its records, its trailer and padding, and the reader behind it. */
  lemma {:induction false} RestOfGroup(h: Hashes, r: Reader) returns (batch: seq<ByteString>, next: Reader)
    requires ValidHashes(h) && Ready(r) && r.group.Some? && |r.input| == r.remaining && Drain(h, r).Ok?
    ensures var g := r.group.value;
            && |batch| == g.records && |Concat(batch)| == g.remaining
            && LastDigest(h, batch, r.predecessor) == g.header.lastDigest
            && LinkedRecords(h, batch, r.sequence, r.predecessor)
            && r.input == Concat(batch) + Trailing(h, g.header, g.hashed + Concat(batch)) + next.input
    ensures next.group.None? && |next.input| == next.remaining
    ensures next.sequence == r.sequence + |batch| && next.last == r.last && next.lastDigest == r.lastDigest
    ensures next.predecessor == LastDigest(h, batch, r.predecessor)
    ensures if next.sequence > next.last then next.input == [] && Drain(h, r) == Ok(batch)
            else Drain(h, next).Ok? && Drain(h, r) == Ok(batch + Drain(h, next).value)
    decreases r.group.value.records
  {
    hide ReadRecord, TakeRecord, CloseGroup, Trailing, OpenGroup;
    NextReady(h, r);
    var (bytes, taken) := TakeRecord(h, r).value;
    TakenBytes(h, r);
    var g := r.group.value;
    Reassociate(g.hashed, bytes, []);
    assert Concat([bytes]) == bytes by { assert [bytes][1..] == []; assert bytes + [] == bytes; }
    if g.records == 1 {
      ClosedBytes(h, taken);
      next, batch := CloseGroup(h, taken).value, [bytes];
      Reassociate(bytes, Trailing(h, g.header, g.hashed + bytes), next.input);
    } else {
      var rest: seq<ByteString>;
      rest, next := RestOfGroup(h, taken);
      batch := [bytes] + rest;
      assert batch[1..] == rest && batch[|batch| - 1] == rest[|rest| - 1];
      Reassociate(g.hashed, bytes, Concat(rest));
      var tail := Trailing(h, g.header, g.hashed + Concat(batch));
      Reassociate(bytes, Concat(rest), tail);
      Reassociate(bytes, Concat(rest) + tail, next.input);
      if next.sequence <= next.last {
        Reassociate([bytes], rest, Drain(h, next).value);
      }
    }
  }

  /** A group header that opens is the writer's header of these fields. */
  lemma OpenedBytes(h: Hashes, r: Reader)
    requires r.group.None? && OpenGroup(h, r).Ok? && |r.input| == r.remaining
    ensures var begun := OpenGroup(h, r).value;
            && begun.group.Some? && |begun.input| == begun.remaining
            && var g := begun.group.value;
               && r.input == g.hashed + begun.input && EncodeGroup(h, g.header) == Ok(g.hashed)
               && g.records == g.header.count > 0 && g.remaining + GROUP_OVERHEAD == g.header.bytes
               && g.header.first == r.sequence && g.header.predecessor == r.predecessor
               && begun == r.(input := begun.input, remaining := begun.remaining, group := begun.group)
  {
    hide DecodeGroup, GroupBytes, EncodeGroup;
    AcceptedGroup(h, r.input[..HEADER_BYTES]);
    DecodedValid(h, r.input[..HEADER_BYTES]);
    assert r.input == r.input[..HEADER_BYTES] + r.input[HEADER_BYTES..];
  }

  lemma LinkedAppend(h: Hashes, a: seq<ByteString>, b: seq<ByteString>, first: nat, predecessor: ByteString)
    requires LinkedRecords(h, a, first, predecessor)
    requires LinkedRecords(h, b, first + |a|, LastDigest(h, a, predecessor))
    ensures LinkedRecords(h, a + b, first, predecessor)
    decreases |a|
  {
    hide ReadRecord;
    if a == [] {
      assert a + b == b;
    } else {
      assert LastDigest(h, a[1..], h.sha(a[0])) == LastDigest(h, a, predecessor);
      LinkedAppend(h, a[1..], b, first + 1, h.sha(a[0]));
      assert (a + b)[1..] == a[1..] + b;
    }
  }

  /**
   Bytes that read in full are exactly their records, linked in one sequence and framed in
   groups: nothing else is accepted, and no byte is free.
   */
  lemma {:induction false} AcceptedBytes(h: Hashes, r: Reader) returns (groups: seq<seq<ByteString>>)
    requires ValidHashes(h) && Ready(r) && r.group.None? && |r.input| == r.remaining && Drain(h, r).Ok?
    ensures FramedAll(h, groups, r.sequence, r.predecessor) == Ok(r.input)
    ensures Flat(groups) == Drain(h, r).value
    ensures forall i :: 0 <= i < |groups| ==> 1 <= |groups[i]| <= MAX_GROUP_RECORDS
    ensures LinkedRecords(h, Drain(h, r).value, r.sequence, r.predecessor)
    decreases r.last - r.sequence
  {
    hide ReadRecord, OpenGroup, Trailing, EncodeGroup, NextRecord, LinkedRecords, GroupBytes;
    OpensFirst(h, r);
    OpenedBytes(h, r);
    var begun := OpenGroup(h, r).value;
    DrainOpened(h, r);
    var batch, next := RestOfGroup(h, begun);
    var header := begun.group.value.hashed;
    assert Wal.HeaderOf(h, batch, r.sequence, r.predecessor) == begun.group.value.header;
    HeaderCount(h, begun.group.value.header);
    var tail := Trailing(h, begun.group.value.header, header + Concat(batch));
    Reassociate(header, Concat(batch), tail);
    Reassociate(header, Concat(batch) + tail, next.input);
    assert Framed(h, batch, r.sequence, r.predecessor) == Ok(header + Concat(batch) + tail);
    if next.sequence > next.last {
      groups := [batch];
      assert groups[1..] == [];
      assert header + Concat(batch) + tail + [] == r.input;
      assert Flat(groups) == batch + [] == batch;
    } else {
      var rest := AcceptedBytes(h, next);
      groups := [batch] + rest;
      assert groups[1..] == rest;
      LinkedAppend(h, batch, Drain(h, next).value, r.sequence, r.predecessor);
    }
  }

  lemma OpensFirst(h: Hashes, r: Reader)
    requires Ready(r) && r.group.None? && Drain(h, r).Ok?
    ensures OpenGroup(h, r).Ok?
  {
    hide OpenGroup, TakeRecord, CloseGroup;
  }

  lemma HeaderCount(h: Hashes, g: GroupHeader)
    requires EncodeGroup(h, g).Ok?
    ensures 1 <= g.count <= MAX_GROUP_RECORDS
  {
  }

  // ---------------------------------------------------------------- whole segments

  /** An accepted first block is the one the writer makes for the descriptor. */
  lemma AcceptedHeader(h: Hashes, file: ByteString, database: ByteString, d: Descriptor)
    requires |file| >= BLOCK_BYTES && ValidSegmentHeader(h, file, database, d)
    ensures file[..BLOCK_BYTES] == SegmentHeader(h, database, d)
  {
    hide LittleEndian, FromLittleEndian;
    FromLittleEndianRoundTrip(file[92..96]);
    FromLittleEndianRoundTrip(file[8..10]);
    FromLittleEndianRoundTrip(file[10..12]);
    FromLittleEndianRoundTrip(file[12..16]);
    FromLittleEndianRoundTrip(file[32..40]);
    FromLittleEndianRoundTrip(file[40..48]);
    ZeroBytes();
    HeaderFront(file);
    HeaderMiddle(file);
    HeaderLast(file);
    var fields := SegmentFields(database, d);
    assert fields == file[..92];
    assert file[..BLOCK_BYTES] == file[..92] + file[92..96] + file[96..BLOCK_BYTES];
  }

  lemma ZeroBytes()
    ensures LittleEndian(0, 4) == [0, 0, 0, 0]
  {
  }

  lemma HeaderFront(file: ByteString)
    requires |file| >= BLOCK_BYTES
    ensures file[..16] == file[..8] + file[8..10] + file[10..12] + file[12..16]
  {
  }

  lemma HeaderMiddle(file: ByteString)
    requires |file| >= BLOCK_BYTES
    ensures file[16..48] == file[16..32] + file[32..40] + file[40..48]
  {
  }

  lemma HeaderLast(file: ByteString)
    requires |file| >= BLOCK_BYTES
    ensures file[48..92] == file[48..80] + file[80..92]
    ensures file[..92] == file[..16] + file[16..48] + file[48..92]
  {
  }

  /**
   A committed segment the reader accepts is the writer's header followed by the frames of its
   records: every committed byte is determined by the descriptor, the records and their grouping.
   */
  lemma AcceptedSegment(h: Hashes, dir: Directory, database: ByteString, d: Descriptor)
    returns (groups: seq<seq<ByteString>>)
    requires ValidHashes(h) && SegmentRecords(h, dir, database, d).Ok?
    ensures d.id in dir && BLOCK_BYTES <= d.committed <= |dir[d.id]|
    ensures FramedAll(h, groups, d.first, d.predecessor).Ok?
    ensures dir[d.id][..d.committed]
         == SegmentHeader(h, database, d) + FramedAll(h, groups, d.first, d.predecessor).value
    ensures Flat(groups) == SegmentRecords(h, dir, database, d).value
    ensures LinkedRecords(h, Flat(groups), d.first, d.predecessor)
  {
    hide Drain, PossibleLength, ValidSegmentHeader, LinkedRecords;
    var file := dir[d.id];
    DescriptorLength(d);
    var r := Suffix(h, file, database, d, BLOCK_BYTES, d.first, d.predecessor).value;
    groups := AcceptedBytes(h, r);
    AcceptedHeader(h, file, database, d);
    assert file[..d.committed] == file[..BLOCK_BYTES] + file[BLOCK_BYTES..d.committed];
  }
}
