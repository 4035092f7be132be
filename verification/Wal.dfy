/**
 Write-ahead log segments: commit groups of canonical records, padded to blocks, and the
 reader that accepts exactly the groups of one linked record sequence.
 */
module Wal {
  import opened Common
  import opened Bytes
  import opened Records

  const BLOCK_BYTES := 4096
  const SEGMENT_BYTES := 96
  const HEADER_BYTES := 112
  const TRAILER_BYTES := 56
  const GROUP_OVERHEAD := 168
  const MAX_GROUP_RECORDS := 64
  const GROUP_MAGIC: ByteString := [0x42, 0x4C, 0x4F, 0x50, 0x57, 0x47, 0x30, 0x31]
  const TRAILER_MAGIC: ByteString := [0x42, 0x4C, 0x4F, 0x50, 0x47, 0x45, 0x30, 0x31]

  /** `group_bytes`: the length rounded up to a block. */
  function GroupBytes(bytes: nat): (r: nat)
    ensures bytes <= r < bytes + BLOCK_BYTES && r % BLOCK_BYTES == 0
  {
    (bytes + BLOCK_BYTES - 1) / BLOCK_BYTES * BLOCK_BYTES
  }

  function Zeros(n: nat): (z: ByteString)
    ensures |z| == n
  {
    seq(n, i => 0)
  }

  // ---------------------------------------------------------------- group header

  datatype GroupHeader = GroupHeader(bytes: nat, first: nat, count: nat, predecessor: ByteString,
      lastDigest: ByteString)

  predicate ValidGroup(g: GroupHeader) {
    && 1 <= g.count <= MAX_GROUP_RECORDS
    && g.first != 0
    && g.first + g.count <= U64_MAX
    && GROUP_OVERHEAD + g.count * RECORD_OVERHEAD <= g.bytes <= GROUP_OVERHEAD + g.count * MAX_RECORD_LENGTH
  }

  function GroupFields(g: GroupHeader): ByteString {
    (GROUP_MAGIC + LittleEndian(1, 2) + [0, 0] + LittleEndian(HEADER_BYTES, 4))
    + (LittleEndian(g.bytes, 8) + LittleEndian(g.first, 8) + LittleEndian(g.count, 4) + [0, 0, 0, 0])
    + (g.predecessor + g.lastDigest + [0, 0, 0, 0])
  }

  function EncodeGroup(h: Hashes, g: GroupHeader): Result<ByteString> {
    if !ValidGroup(g) then Err(InvalidInput) else Ok(GroupFields(g) + LittleEndian(h.crc(GroupFields(g)), 4))
  }

  function DecodeGroup(h: Hashes, bytes: ByteString): Result<GroupHeader>
    requires |bytes| == HEADER_BYTES
  {
    if h.crc(bytes[..108]) != FromLittleEndian(bytes[108..]) || bytes[..8] != GROUP_MAGIC then Err(Corrupt)
    else if FromLittleEndian(bytes[8..10]) != 1 then Err(Unsupported)
    else if bytes[10..12] != [0, 0] || FromLittleEndian(bytes[12..16]) != HEADER_BYTES
            || bytes[36..40] != [0, 0, 0, 0] || bytes[104..108] != [0, 0, 0, 0] then Err(Corrupt)
    else
      var g := GroupHeader(FromLittleEndian(bytes[16..24]), FromLittleEndian(bytes[24..32]),
        FromLittleEndian(bytes[32..36]),
                           bytes[40..72], bytes[72..104]);
      if ValidGroup(g) then Ok(g) else Err(Corrupt)
  }

  lemma GroupThirds(front: ByteString, middle: ByteString, last: ByteString, crc: ByteString, bytes: ByteString)
    requires |front| == 16 && |middle| == 24 && |last| == 68 && |crc| == 4
    requires bytes == front + middle + last + crc
    ensures |bytes| == 112 && bytes[..16] == front && bytes[16..40] == middle && bytes[40..108] == last
    ensures bytes[108..] == crc && bytes[..108] == front + middle + last
  {
  }

  lemma FrontOf(front: ByteString)
    requires front == GROUP_MAGIC + LittleEndian(1, 2) + [0, 0] + LittleEndian(HEADER_BYTES, 4)
    ensures |front| == 16 && front[..8] == GROUP_MAGIC && front[8..10] == LittleEndian(1, 2)
    ensures front[10..12] == [0, 0] && front[12..16] == LittleEndian(HEADER_BYTES, 4)
  {
  }

  lemma MiddleOf(middle: ByteString, a: ByteString, b: ByteString, c: ByteString)
    requires |a| == 8 && |b| == 8 && |c| == 4 && middle == a + b + c + [0, 0, 0, 0]
    ensures |middle| == 24 && middle[..8] == a && middle[8..16] == b && middle[16..20] == c
            && middle[20..] == [0, 0, 0, 0]
  {
  }

  lemma LastOf(last: ByteString, a: ByteString, b: ByteString)
    requires |a| == 32 && |b| == 32 && last == a + b + [0, 0, 0, 0]
    ensures |last| == 68 && last[..32] == a && last[32..64] == b && last[64..] == [0, 0, 0, 0]
  {
  }

  lemma Widths(g: GroupHeader)
    requires ValidGroup(g)
    ensures g.bytes < Base(8) && g.first < Base(8) && g.count < Base(4)
  {
    Base8();
  }

  /** A group header reads back as written. */
  lemma DecodeOfEncodeGroup(h: Hashes, g: GroupHeader)
    requires ValidHashes(h) && ValidGroup(g) && |g.predecessor| == DIGEST_LENGTH && |g.lastDigest| == DIGEST_LENGTH
    ensures var bytes := EncodeGroup(h, g).value; |bytes| == HEADER_BYTES && DecodeGroup(h, bytes) == Ok(g)
  {
    hide LittleEndian, FromLittleEndian, ValidGroup;
    assert EncodeGroup(h, g).Ok? by { assert ValidGroup(g); }
    var bytes := EncodeGroup(h, g).value;
    var front := GROUP_MAGIC + LittleEndian(1, 2) + [0, 0] + LittleEndian(HEADER_BYTES, 4);
    var a, b, c := LittleEndian(g.bytes, 8), LittleEndian(g.first, 8), LittleEndian(g.count, 4);
    var middle := a + b + c + [0, 0, 0, 0];
    var last := g.predecessor + g.lastDigest + [0, 0, 0, 0];
    Widths(g);
    FrontOf(front);
    MiddleOf(middle, a, b, c);
    LastOf(last, g.predecessor, g.lastDigest);
    GroupThirds(front, middle, last, LittleEndian(h.crc(GroupFields(g)), 4), bytes);
    CrcWidth(h, GroupFields(g));
    LittleEndianRoundTrip(h.crc(GroupFields(g)), 4);
    LittleEndianRoundTrip(1, 2);
    LittleEndianRoundTrip(HEADER_BYTES, 4);
    LittleEndianRoundTrip(g.bytes, 8);
    LittleEndianRoundTrip(g.first, 8);
    LittleEndianRoundTrip(g.count, 4);
    assert bytes[..8] == front[..8] && bytes[8..10] == front[8..10] && bytes[10..12] == front[10..12]
        && bytes[12..16] == front[12..16];
    assert bytes[16..24] == middle[..8] && bytes[24..32] == middle[8..16] && bytes[32..36] == middle[16..20]
        && bytes[36..40] == middle[20..];
    assert bytes[40..72] == last[..32] && bytes[72..104] == last[32..64] && bytes[104..108] == last[64..];
  }

  lemma CrcWidth(h: Hashes, bytes: ByteString)
    requires ValidHashes(h)
    ensures h.crc(bytes) < Base(4) && 1 < Base(2) && HEADER_BYTES < Base(4)
  {
    Base8();
  }

  /** A group header is accepted only in the form the writer gives it. */
  lemma AcceptedGroup(h: Hashes, bytes: ByteString)
    requires |bytes| == HEADER_BYTES && DecodeGroup(h, bytes).Ok?
    ensures EncodeGroup(h, DecodeGroup(h, bytes).value) == Ok(bytes)
    ensures |DecodeGroup(h, bytes).value.predecessor| == |DecodeGroup(h, bytes).value.lastDigest| == DIGEST_LENGTH
  {
    hide LittleEndian, FromLittleEndian, ValidGroup;
    FromLittleEndianRoundTrip(bytes[8..10]);
    FromLittleEndianRoundTrip(bytes[12..16]);
    FromLittleEndianRoundTrip(bytes[16..24]);
    FromLittleEndianRoundTrip(bytes[24..32]);
    FromLittleEndianRoundTrip(bytes[32..36]);
    FromLittleEndianRoundTrip(bytes[108..]);
    AcceptedFront(bytes);
    AcceptedMiddle(bytes);
    AcceptedLast(bytes);
    Split(bytes, 0, 16, 40);
    Split(bytes, 0, 40, 108);
    Split(bytes, 0, 108, 112);
    assert bytes[0..16] == bytes[..16] && bytes[0..40] == bytes[..40] && bytes[0..108] == bytes[..108];
    assert bytes[0..112] == bytes && bytes[108..112] == bytes[108..];
    var g := DecodeGroup(h, bytes).value;
    assert GroupFields(g) == bytes[..108];
    assert ValidGroup(g) by { DecodedValid(h, bytes); }
  }

  lemma DecodedValid(h: Hashes, bytes: ByteString)
    requires |bytes| == HEADER_BYTES && DecodeGroup(h, bytes).Ok?
    ensures ValidGroup(DecodeGroup(h, bytes).value)
  {
  }

  lemma AcceptedFront(bytes: ByteString)
    requires |bytes| == HEADER_BYTES
    ensures bytes[..16] == bytes[..8] + bytes[8..10] + bytes[10..12] + bytes[12..16]
  {
  }

  lemma AcceptedMiddle(bytes: ByteString)
    requires |bytes| == HEADER_BYTES
    ensures bytes[16..40] == bytes[16..24] + bytes[24..32] + bytes[32..36] + bytes[36..40]
  {
  }

  lemma AcceptedLast(bytes: ByteString)
    requires |bytes| == HEADER_BYTES
    ensures bytes[40..108] == bytes[40..72] + bytes[72..104] + bytes[104..108]
  {
  }

  /** The trailer commits to the header and records of its group. */
  function Trailer(h: Hashes, length: nat, digest: ByteString): ByteString {
    var fields := TRAILER_MAGIC + LittleEndian(length, 8) + digest + [0, 0, 0, 0];
    fields + LittleEndian(h.crc(fields), 4)
  }

  // ---------------------------------------------------------------- reading

  /** The group being read: records left, bytes left for them, and what its digest covers so far. */
  datatype Group = Group(header: GroupHeader, remaining: nat, records: nat, hashed: ByteString)

  datatype Reader = Reader(
    input: ByteString,
    remaining: nat,
    sequence: nat,
    predecessor: ByteString,
    last: nat,
    lastDigest: ByteString,
    group: Option<Group>)

  /** Read and check a group header. */
  function OpenGroup(h: Hashes, r: Reader): Result<Reader> {
    if r.remaining < GROUP_OVERHEAD || |r.input| < HEADER_BYTES then Err(Corrupt)
    else
      var g :- DecodeGroup(h, r.input[..HEADER_BYTES]);
      if GroupBytes(g.bytes) > r.remaining || g.first != r.sequence || g.predecessor != r.predecessor
         || g.first + g.count - 1 > r.last then Err(Corrupt)
      else
        Ok(r.(input := r.input[HEADER_BYTES..], remaining := r.remaining - HEADER_BYTES,
              group := Some(Group(g, g.bytes - GROUP_OVERHEAD, g.count, r.input[..HEADER_BYTES]))))
  }

  /** Check the end of a group: its byte count, last digest, trailer and padding. */
  function CloseGroup(h: Hashes, r: Reader): Result<Reader>
    requires r.group.Some?
  {
    var group := r.group.value;
    var padding := GroupBytes(group.header.bytes) - group.header.bytes;
    if group.remaining != 0 || r.predecessor != group.header.lastDigest then Err(Corrupt)
    else if |r.input| < TRAILER_BYTES + padding || r.remaining < TRAILER_BYTES + padding then Err(Corrupt)
    else if r.input[..TRAILER_BYTES] != Trailer(h, group.header.bytes, h.sha(group.hashed))
            || r.input[TRAILER_BYTES..TRAILER_BYTES + padding] != Zeros(padding) then Err(Corrupt)
    else
      Ok(r.(input := r.input[TRAILER_BYTES + padding..], remaining := r.remaining - TRAILER_BYTES - padding, group :=
          None))
  }

  /** Take the next record of the open group. */
  function TakeRecord(h: Hashes, r: Reader): Result<(ByteString, Reader)>
    requires r.group.Some? && r.group.value.records > 0
  {
    var group := r.group.value;
    var bytes :- ReadRecord(h, r.input, group.remaining, r.sequence, r.predecessor);
    if |bytes| > |r.input| || |bytes| > r.remaining || |bytes| > group.remaining then Err(Corrupt)
    else
      Ok((bytes,
          r.(input := r.input[|bytes|..], remaining := r.remaining - |bytes|, sequence := r.sequence + 1,
             predecessor := h.sha(bytes),
             group := Some(group.(remaining := group.remaining - |bytes|, records := group.records - 1,
                                  hashed := group.hashed + bytes)))))
  }

  /** The checks once the last record of the prefix is read. */
  predicate Ended(r: Reader) {
    r.sequence > r.last ==> r.remaining == 0 && r.group.None? && r.predecessor == r.lastDigest
  }

  /** `next_record`. */
  function NextRecord(h: Hashes, r: Reader): Result<(ByteString, Reader)>
    requires r.group.Some? ==> r.group.value.records > 0
  {
    var begun :- if r.group.None? then OpenGroup(h, r) else Ok(r);
    var (bytes, taken) :- TakeRecord(h, begun);
    var closed :- if taken.group.value.records == 0 then CloseGroup(h, taken) else Ok(taken);
    if Ended(closed) then Ok((bytes, closed)) else Err(Corrupt)
  }

  predicate Ready(r: Reader) {
    && r.sequence <= r.last
    && (r.group.Some? ==> r.group.value.records > 0)
  }

  lemma NextReady(h: Hashes, r: Reader)
    requires Ready(r) && NextRecord(h, r).Ok?
    ensures var next := NextRecord(h, r).value.1;
            && next.sequence == r.sequence + 1 && next.last == r.last && next.lastDigest == r.lastDigest
            && next.predecessor == h.sha(NextRecord(h, r).value.0)
            && (next.sequence <= next.last ==> Ready(next))
            && (next.sequence > next.last ==>
                  next.remaining == 0 && next.group.None? && next.predecessor == next.lastDigest)
  {
    hide ReadRecord, DecodeGroup, Trailer, GroupBytes;
  }

  /** All records from the reader's position to the end of its prefix. */
  function Drain(h: Hashes, r: Reader): Result<seq<ByteString>>
    requires Ready(r)
    decreases r.last - r.sequence
  {
    var (bytes, next) :- NextRecord(h, r);
    NextReady(h, r);
    if next.sequence > next.last then Ok([bytes])
    else
      var rest :- Drain(h, next);
      Ok([bytes] + rest)
  }

  /** A drained prefix holds one record per sequence and ends at its digest. */
  lemma {:induction false} DrainedRecords(h: Hashes, r: Reader)
    requires Ready(r) && Drain(h, r).Ok?
    ensures var records := Drain(h, r).value;
            |records| == r.last - r.sequence + 1 && h.sha(records[|records| - 1]) == r.lastDigest
    decreases r.last - r.sequence
  {
    hide NextRecord;
    var (bytes, next) := NextRecord(h, r).value;
    NextReady(h, r);
    if next.sequence <= next.last {
      DrainedRecords(h, next);
    }
  }

  // ---------------------------------------------------------------- longer prefixes

  /** The same position in a longer prefix: more bytes follow and the end lies further on. */
  ghost predicate Longer(r: Reader, longer: Reader, extra: ByteString) {
    && longer.input == r.input + extra && longer.remaining == r.remaining + |extra|
    && longer.sequence == r.sequence && longer.predecessor == r.predecessor && longer.group == r.group
    && longer.last > r.last
  }

  lemma OpenLonger(h: Hashes, r: Reader, longer: Reader, extra: ByteString)
    requires Longer(r, longer, extra) && OpenGroup(h, r).Ok?
    ensures OpenGroup(h, longer).Ok? && Longer(OpenGroup(h, r).value, OpenGroup(h, longer).value, extra)
    ensures OpenGroup(h, longer).value.last == longer.last && OpenGroup(h, longer).value.lastDigest == longer.lastDigest
    ensures OpenGroup(h, r).value.last == r.last && OpenGroup(h, r).value.lastDigest == r.lastDigest
  {
    hide DecodeGroup, GroupBytes;
    assert longer.input[..HEADER_BYTES] == r.input[..HEADER_BYTES];
    assert longer.input[HEADER_BYTES..] == r.input[HEADER_BYTES..] + extra;
  }

  lemma RecordLonger(h: Hashes, input: ByteString, extra: ByteString, remaining: nat, sequence: nat,
      predecessor: ByteString)
    requires ReadRecord(h, input, remaining, sequence, predecessor).Ok?
    ensures ReadRecord(h, input + extra, remaining, sequence, predecessor)
         == ReadRecord(h, input, remaining, sequence, predecessor)
    ensures |ReadRecord(h, input, remaining, sequence, predecessor).value| <= |input|
  {
    hide ValidHeader, FromLittleEndian;
    var longer := input + extra;
    assert longer[8..12] == input[8..12];
    assert longer[..FromLittleEndian(input[8..12])] == input[..FromLittleEndian(input[8..12])];
  }

  lemma TakeLonger(h: Hashes, r: Reader, longer: Reader, extra: ByteString)
    requires Longer(r, longer, extra) && r.group.Some? && r.group.value.records > 0 && TakeRecord(h, r).Ok?
    ensures TakeRecord(h, longer).Ok? && TakeRecord(h, longer).value.0 == TakeRecord(h, r).value.0
    ensures Longer(TakeRecord(h, r).value.1, TakeRecord(h, longer).value.1, extra)
    ensures TakeRecord(h, longer).value.1.last == longer.last
            && TakeRecord(h, longer).value.1.lastDigest == longer.lastDigest
    ensures TakeRecord(h, r).value.1.last == r.last && TakeRecord(h, r).value.1.lastDigest == r.lastDigest
  {
    hide ReadRecord;
    RecordLonger(h, r.input, extra, r.group.value.remaining, r.sequence, r.predecessor);
    var n := |TakeRecord(h, r).value.0|;
    assert longer.input[n..] == r.input[n..] + extra;
  }

  lemma CloseLonger(h: Hashes, r: Reader, longer: Reader, extra: ByteString)
    requires Longer(r, longer, extra) && r.group.Some? && CloseGroup(h, r).Ok?
    ensures CloseGroup(h, longer).Ok? && Longer(CloseGroup(h, r).value, CloseGroup(h, longer).value, extra)
    ensures CloseGroup(h, longer).value.last == longer.last
            && CloseGroup(h, longer).value.lastDigest == longer.lastDigest
    ensures CloseGroup(h, r).value.last == r.last && CloseGroup(h, r).value.lastDigest == r.lastDigest
  {
    hide Trailer, GroupBytes;
    var n := TRAILER_BYTES + GroupBytes(r.group.value.header.bytes) - r.group.value.header.bytes;
    assert longer.input[..TRAILER_BYTES] == r.input[..TRAILER_BYTES];
    assert longer.input[TRAILER_BYTES..n] == r.input[TRAILER_BYTES..n];
    assert longer.input[n..] == r.input[n..] + extra;
  }

  lemma NextLonger(h: Hashes, r: Reader, longer: Reader, extra: ByteString)
    requires Ready(r) && Longer(r, longer, extra) && NextRecord(h, r).Ok?
    ensures NextRecord(h, longer).Ok? && NextRecord(h, longer).value.0 == NextRecord(h, r).value.0
    ensures Longer(NextRecord(h, r).value.1, NextRecord(h, longer).value.1, extra)
    ensures NextRecord(h, longer).value.1.last == longer.last
            && NextRecord(h, longer).value.1.lastDigest == longer.lastDigest
  {
    hide OpenGroup, TakeRecord, CloseGroup;
    if r.group.None? {
      OpenLonger(h, r, longer, extra);
    }
    var begun := if r.group.None? then OpenGroup(h, r).value else r;
    var begunLonger := if r.group.None? then OpenGroup(h, longer).value else longer;
    OpenedCount(h, r);
    TakeLonger(h, begun, begunLonger, extra);
    var taken, takenLonger := TakeRecord(h, begun).value.1, TakeRecord(h, begunLonger).value.1;
    TakenGroup(h, begun);
    if taken.group.value.records == 0 {
      CloseLonger(h, taken, takenLonger, extra);
      ClosedSequence(h, taken);
    }
  }

  lemma OpenedCount(h: Hashes, r: Reader)
    requires Ready(r) && (r.group.None? ==> OpenGroup(h, r).Ok?)
    ensures r.group.None? ==> OpenGroup(h, r).value.group.Some? && OpenGroup(h, r).value.group.value.records > 0
                              && OpenGroup(h, r).value.sequence == r.sequence
  {
    if r.group.None? {
      DecodedValid(h, r.input[..HEADER_BYTES]);
    }
  }

  lemma TakenGroup(h: Hashes, r: Reader)
    requires r.group.Some? && r.group.value.records > 0 && TakeRecord(h, r).Ok?
    ensures TakeRecord(h, r).value.1.group.Some? && TakeRecord(h, r).value.1.sequence == r.sequence + 1
  {
    hide ReadRecord;
  }

  lemma ClosedSequence(h: Hashes, r: Reader)
    requires r.group.Some? && CloseGroup(h, r).Ok?
    ensures CloseGroup(h, r).value.sequence == r.sequence
  {
    hide Trailer, GroupBytes;
  }

  /** The reader at the end of a prefix, where an extension of it begins. */
  function Resumed(longer: Reader, extra: ByteString, sequence: nat, predecessor: ByteString): Reader {
    Reader(extra, |extra|, sequence, predecessor, longer.last, longer.lastDigest, None)
  }

  /**
   An accepted prefix with an extension behind it reads in full exactly when the extension reads
   on from its end, and gives its records, then those of the extension.
   */
  lemma {:induction false} DrainExtends(h: Hashes, r: Reader, longer: Reader, extra: ByteString)
    requires Ready(r) && Longer(r, longer, extra) && |r.input| == r.remaining && Drain(h, r).Ok?
    ensures Ready(longer)
    ensures var rest := Drain(h, Resumed(longer, extra, r.last + 1, r.lastDigest));
            && (Drain(h, longer).Ok? <==> rest.Ok?)
            && (rest.Ok? ==> Drain(h, longer) == Ok(Drain(h, r).value + rest.value))
    decreases r.last - r.sequence
  {
    hide NextRecord, OpenGroup, TakeRecord, CloseGroup;
    NextLonger(h, r, longer, extra);
    NextReady(h, r);
    NextReady(h, longer);
    NextLength(h, r);
    var (bytes, next) := NextRecord(h, r).value;
    var nextLonger := NextRecord(h, longer).value.1;
    var rest := Drain(h, Resumed(longer, extra, r.last + 1, r.lastDigest));
    if next.sequence > next.last {
      assert next.input == [];
      assert nextLonger == Resumed(longer, extra, r.last + 1, r.lastDigest);
    } else {
      DrainExtends(h, next, nextLonger, extra);
      if rest.Ok? {
        Reassociate([bytes], Drain(h, next).value, rest.value);
      }
    }
  }

  /** Bytes and the remaining count stay in step. */
  lemma NextLength(h: Hashes, r: Reader)
    requires Ready(r) && |r.input| == r.remaining && NextRecord(h, r).Ok?
    ensures |NextRecord(h, r).value.1.input| == NextRecord(h, r).value.1.remaining
  {
    hide ReadRecord, DecodeGroup, Trailer, GroupBytes;
  }

  // ---------------------------------------------------------------- the iterator

  class RecordReader {
    const hashes: Hashes
    const last: nat
    const lastDigest: ByteString
    var input: ByteString
    var remaining: nat
    var sequence: nat
    var predecessor: ByteString
    var group: Option<Group>
    var done: bool

    function Value(): Reader
      reads this
    {
      Reader(input, remaining, sequence, predecessor, last, lastDigest, group)
    }

    ghost predicate Valid()
      reads this
    {
      !done ==> Ready(Value())
    }

    constructor (hashes: Hashes, r: Reader)
      requires Ready(r)
      ensures this.hashes == hashes && Value() == r && !done
    {
      this.hashes, last, lastDigest := hashes, r.last, r.lastDigest;
      input, remaining, sequence, predecessor, group := r.input, r.remaining, r.sequence, r.predecessor, r.group;
      done := false;
    }

    /** Consume the next bytes of the prefix. */
    method Consume(count: nat)
      requires count <= |input| && count <= remaining
      modifies `input, `remaining
      ensures input == old(input)[count..] && remaining == old(remaining) - count
    {
      input, remaining := input[count..], remaining - count;
    }

    /** Check the group's end and leave it. */
    method Close() returns (ok: bool)
      requires group.Some?
      modifies `input, `remaining, `group
      ensures ok <==> CloseGroup(hashes, old(Value())).Ok?
      ensures ok ==> Value() == CloseGroup(hashes, old(Value())).value
    {
      hide Trailer, GroupBytes;
      var g := group.value;
      if g.remaining != 0 || predecessor != g.header.lastDigest {
        return false;
      }
      var padding := GroupBytes(g.header.bytes) - g.header.bytes;
      if |input| < TRAILER_BYTES + padding || remaining < TRAILER_BYTES + padding {
        return false;
      }
      var trailer := input[..TRAILER_BYTES];
      if trailer != Trailer(hashes, g.header.bytes, hashes.sha(g.hashed))
         || input[TRAILER_BYTES..TRAILER_BYTES + padding] != Zeros(padding) {
        return false;
      }
      Consume(TRAILER_BYTES + padding);
      group := None;
      ok := true;
    }

    /** Read and check the next group header. */
    method Open() returns (ok: bool)
      requires group.None? && Ready(Value())
      modifies `input, `remaining, `group
      ensures ok <==> OpenGroup(hashes, old(Value())).Ok?
      ensures ok ==> Value() == OpenGroup(hashes, old(Value())).value && group.Some? && group.value.records > 0
    {
      hide DecodeGroup, GroupBytes;
      if remaining < GROUP_OVERHEAD || |input| < HEADER_BYTES {
        return false;
      }
      OpenedGroup(hashes, Value());
      var header := input[..HEADER_BYTES];
      var decoded := DecodeGroup(hashes, header);
      if decoded.Err? {
        return false;
      }
      var g := decoded.value;
      DecodedValid(hashes, header);
      if GroupBytes(g.bytes) > remaining || g.first != sequence || g.predecessor != predecessor
         || g.first + g.count - 1 > last {
        return false;
      }
      Consume(HEADER_BYTES);
      group := Some(Group(g, g.bytes - GROUP_OVERHEAD, g.count, header));
      ok := true;
    }

    /** Take one record of the open group. */
    method Take() returns (r: Option<ByteString>)
      requires group.Some? && group.value.records > 0
      modifies `input, `remaining, `sequence, `predecessor, `group
      ensures match TakeRecord(hashes, old(Value()))
              case Err(_) => r.None?
              case Ok((bytes, next)) => r == Some(bytes) && Value() == next
    {
      hide ReadRecord;
      var open := group.value;
      var record := ReadRecord(hashes, input, open.remaining, sequence, predecessor);
      if record.Err? || |record.value| > |input| || |record.value| > remaining || |record.value| > open.remaining {
        return None;
      }
      var bytes := record.value;
      Consume(|bytes|);
      sequence, predecessor := sequence + 1, hashes.sha(bytes);
      group := Some(open.(remaining := open.remaining - |bytes|, records := open.records - 1, hashed := open.hashed
          + bytes));
      r := Some(bytes);
    }

    /** Each call gives the next record; an error or the last record ends the iteration. */
    method Next() returns (r: Option<Result<ByteString>>)
      requires Valid()
      modifies this
      ensures Valid()
      ensures if old(done) then r == None
              else match NextRecord(hashes, old(Value()))
                   case Err(e) => r.Some? && r.value.Err? && done
                   case Ok((bytes, next)) =>
                       r == Some(Ok(bytes)) && Value() == next && done == (next.sequence > next.last)
    {
      hide OpenGroup, TakeRecord, CloseGroup;
      if done {
        return None;
      }
      ghost var start := Value();
      if NextRecord(hashes, start).Ok? {
        NextReady(hashes, start);
      }
      done := true;
      if group.None? {
        var ok := Open();
        if !ok {
          return Some(Err(Corrupt));
        }
      }
      TakenGroup2(hashes, Value());
      var bytes := Take();
      if bytes.None? {
        return Some(Err(Corrupt));
      }
      if group.value.records == 0 {
        var ok := Close();
        if !ok {
          return Some(Err(Corrupt));
        }
      }
      if !Ended(Value()) {
        return Some(Err(Corrupt));
      }
      done := sequence > last;
      r := Some(Ok(bytes.value));
    }
  }

  lemma TakenGroup2(h: Hashes, r: Reader)
    requires r.group.Some? && r.group.value.records > 0
    ensures TakeRecord(h, r).Ok? ==> TakeRecord(h, r).value.1.group.Some?
  {
    hide ReadRecord;
  }

  lemma OpenedGroup(h: Hashes, r: Reader)
    requires Ready(r)
    ensures r.group.None? && OpenGroup(h, r).Ok? ==>
              var g := OpenGroup(h, r).value.group;
              g.Some? && g.value.records > 0 && g.value.header.bytes >= GROUP_OVERHEAD && g.value.header.count > 0
  {
    if r.group.None? && OpenGroup(h, r).Ok? {
      DecodedValid(h, r.input[..HEADER_BYTES]);
    }
  }

  /** Read a whole prefix, as validation and recovery do. */
  method ReadPrefix(h: Hashes, r: Reader) returns (result: Result<seq<ByteString>>)
    requires Ready(r)
    ensures result.Ok? <==> Drain(h, r).Ok?
    ensures result.Ok? ==> result == Drain(h, r)
  {
    hide NextRecord;
    var reader := new RecordReader(h, r);
    var records: seq<ByteString> := [];
    PrependNone(Drain(h, r));
    while true
      invariant reader.Valid() && !reader.done && reader.hashes == h
      invariant Drain(h, r) == Prepend(records, Drain(h, reader.Value()))
      decreases reader.last - reader.sequence
    {
      ghost var before := reader.Value();
      if NextRecord(h, before).Ok? {
        NextReady(h, before);
      }
      var next := reader.Next();
      if next.None? || next.value.Err? {
        return Err(Corrupt);
      }
      PrependStep(h, before, records);
      records := records + [next.value.value];
      if reader.done {
        return Ok(records);
      }
    }
  }

  function Prepend(front: seq<ByteString>, r: Result<seq<ByteString>>): Result<seq<ByteString>> {
    var back :- r;
    Ok(front + back)
  }

  lemma PrependNone(r: Result<seq<ByteString>>)
    ensures Prepend([], r) == r
  {
    if r.Ok? {
      assert [] + r.value == r.value;
    }
  }

  lemma PrependStep(h: Hashes, r: Reader, records: seq<ByteString>)
    requires Ready(r)
    ensures NextRecord(h, r).Err? ==> Drain(h, r).Err?
    ensures NextRecord(h, r).Ok? ==>
              var (bytes, next) := NextRecord(h, r).value;
              if next.sequence > next.last then Prepend(records, Drain(h, r)) == Ok(records + [bytes])
              else Ready(next) && Prepend(records, Drain(h, r)) == Prepend(records + [bytes], Drain(h, next))
  {
    hide NextRecord;
    if NextRecord(h, r).Ok? {
      NextReady(h, r);
      var (bytes, next) := NextRecord(h, r).value;
      if next.sequence <= next.last && Drain(h, next).Ok? {
        Reassociate(records, [bytes], Drain(h, next).value);
      }
    }
  }

  // ---------------------------------------------------------------- writing

  function Concat(records: seq<ByteString>): ByteString {
    if records == [] then [] else records[0] + Concat(records[1..])
  }

  /** The digest the next record must name after these. */
  function LastDigest(h: Hashes, records: seq<ByteString>, predecessor: ByteString): ByteString {
    if records == [] then predecessor else h.sha(records[|records| - 1])
  }

  /** Canonical records with consecutive sequences, each naming the digest before it. */
  ghost predicate LinkedRecords(h: Hashes, records: seq<ByteString>, first: nat, predecessor: ByteString)
    decreases |records|
  {
    records != [] ==>
      && ReadRecord(h, records[0], |records[0]|, first, predecessor) == Ok(records[0])
      && LinkedRecords(h, records[1..], first + 1, h.sha(records[0]))
  }

  function HeaderOf(h: Hashes, records: seq<ByteString>, first: nat, predecessor: ByteString): GroupHeader {
    GroupHeader(GROUP_OVERHEAD + |Concat(records)|, first, |records|, predecessor, LastDigest(h, records, predecessor))
  }

  /** The bytes `append_group` writes: header, records, trailer and padding to a block. */
  function Framed(h: Hashes, records: seq<ByteString>, first: nat, predecessor: ByteString): Result<ByteString> {
    var g := HeaderOf(h, records, first, predecessor);
    var header :- EncodeGroup(h, g);
    Ok(header + Concat(records) + Trailing(h, g, header + Concat(records)))
  }

  function Trailing(h: Hashes, g: GroupHeader, hashed: ByteString): ByteString {
    Trailer(h, g.bytes, h.sha(hashed)) + Zeros(GroupBytes(g.bytes) - g.bytes)
  }

  lemma RecordWithin(h: Hashes, bytes: ByteString, rest: ByteString, remaining: nat, sequence: nat,
      predecessor: ByteString)
    requires ReadRecord(h, bytes, |bytes|, sequence, predecessor) == Ok(bytes) && remaining >= |bytes|
    ensures ReadRecord(h, bytes + rest, remaining, sequence, predecessor) == Ok(bytes)
    ensures RECORD_OVERHEAD <= |bytes| <= MAX_RECORD_LENGTH
  {
    hide ValidHeader, FromLittleEndian;
    RecordLonger(h, bytes, rest, |bytes|, sequence, predecessor);
  }

  lemma {:induction false} ConcatBounds(h: Hashes, records: seq<ByteString>, first: nat, predecessor: ByteString)
    requires LinkedRecords(h, records, first, predecessor)
    ensures |records| * RECORD_OVERHEAD <= |Concat(records)| <= |records| * MAX_RECORD_LENGTH
  {
    hide ReadRecord;
    if records != [] {
      RecordWithin(h, records[0], [], |records[0]|, first, predecessor);
      ConcatBounds(h, records[1..], first + 1, h.sha(records[0]));
    }
  }

  lemma TrailingLength(h: Hashes, g: GroupHeader, hashed: ByteString)
    requires ValidHashes(h)
    ensures |Trailing(h, g, hashed)| == TRAILER_BYTES + GroupBytes(g.bytes) - g.bytes
    ensures Trailing(h, g, hashed)[..TRAILER_BYTES] == Trailer(h, g.bytes, h.sha(hashed))
    ensures Trailing(h, g, hashed)[TRAILER_BYTES..] == Zeros(GroupBytes(g.bytes) - g.bytes)
  {
    var fields := TRAILER_MAGIC + LittleEndian(g.bytes, 8) + h.sha(hashed) + [0, 0, 0, 0];
    assert |fields| == 52;
  }

  /** Inside a group that was written, the reader takes the records in order and closes it. */
  lemma {:induction false} DrainWritten(h: Hashes, r: Reader, records: seq<ByteString>)
    requires ValidHashes(h) && records != [] && r.group.Some?
    requires LinkedRecords(h, records, r.sequence, r.predecessor)
    requires r.last == r.sequence + |records| - 1 && r.lastDigest == h.sha(records[|records| - 1])
    requires var g := r.group.value;
             && g.records == |records| && g.remaining == |Concat(records)|
             && g.header.lastDigest == r.lastDigest
             && r.input == Concat(records) + Trailing(h, g.header, g.hashed + Concat(records))
             && r.remaining == |r.input|
    ensures Drain(h, r) == Ok(records)
    decreases |records|
  {
    hide ReadRecord, OpenGroup, Trailing, TakeRecord, CloseGroup;
    var g, bytes, rest := r.group.value, records[0], records[1..];
    var tail := Trailing(h, g.header, g.hashed + Concat(records));
    Reassociate(bytes, Concat(rest), tail);
    TakeWritten(h, r, records);
    var taken := TakeRecord(h, r).value.1;
    Reassociate(g.hashed, bytes, Concat(rest));
    if rest == [] {
      assert records == [bytes];
      CloseWritten(h, taken);
    } else {
      assert rest[|rest| - 1] == records[|records| - 1];
      DrainWritten(h, taken, rest);
      assert records == [bytes] + rest;
    }
  }

  lemma TakeWritten(h: Hashes, r: Reader, records: seq<ByteString>)
    requires records != [] && r.group.Some? && r.group.value.records == |records|
    requires ReadRecord(h, records[0], |records[0]|, r.sequence, r.predecessor) == Ok(records[0])
    requires r.group.value.remaining == |Concat(records)| && Concat(records) <= r.input && r.remaining == |r.input|
    ensures TakeRecord(h, r) ==
            Ok((records[0],
                r.(input := r.input[|records[0]|..], remaining := r.remaining - |records[0]|, sequence := r.sequence
                    + 1,
                   predecessor := h.sha(records[0]),
                   group := Some(r.group.value.(remaining := |Concat(records[1..])|, records := |records| - 1,
                                                hashed := r.group.value.hashed + records[0])))))
  {
    hide ReadRecord;
    var bytes := records[0];
    assert bytes <= Concat(records) <= r.input;
    assert r.input == bytes + r.input[|bytes|..];
    RecordWithin(h, bytes, r.input[|bytes|..], r.group.value.remaining, r.sequence, r.predecessor);
  }

  lemma CloseWritten(h: Hashes, r: Reader)
    requires ValidHashes(h) && r.group.Some? && r.group.value.remaining == 0
    requires r.predecessor == r.group.value.header.lastDigest
    requires r.input == Trailing(h, r.group.value.header, r.group.value.hashed) && r.remaining == |r.input|
    ensures CloseGroup(h, r) == Ok(r.(input := [], remaining := 0, group := None))
  {
    hide Trailing, Trailer, GroupBytes;
    TrailingLength(h, r.group.value.header, r.group.value.hashed);
    assert r.input[|r.input|..] == [];
  }

  /** A group that was written is read back as exactly its records. */
  lemma DrainOfFramed(h: Hashes, records: seq<ByteString>, first: nat, predecessor: ByteString)
    requires ValidHashes(h) && |predecessor| == DIGEST_LENGTH && records != [] && first > 0
    requires LinkedRecords(h, records, first, predecessor) && Framed(h, records, first, predecessor).Ok?
    ensures var bytes := Framed(h, records, first, predecessor).value;
            && |bytes| == GroupBytes(HeaderOf(h, records, first, predecessor).bytes)
            && Drain(h, Reader(bytes, |bytes|, first, predecessor, first + |records| - 1,
                               LastDigest(h, records, predecessor), None)) == Ok(records)
  {
    hide ReadRecord, Trailing, TakeRecord, CloseGroup, DecodeGroup, GroupBytes, GroupFields;
    var g := HeaderOf(h, records, first, predecessor);
    var bytes := Framed(h, records, first, predecessor).value;
    var header := EncodeGroup(h, g).value;
    var body := Concat(records);
    DecodeOfEncodeGroup(h, g);
    TrailingLength(h, g, header + body);
    Reassociate(header, body, Trailing(h, g, header + body));
    var r := Reader(bytes, |bytes|, first, predecessor, first
      + |records| - 1, LastDigest(h, records, predecessor), None);
    assert bytes[..HEADER_BYTES] == header && bytes[HEADER_BYTES..] == body + Trailing(h, g, header + body);
    var begun := OpenGroup(h, r).value;
    DrainWritten(h, begun, records);
    DrainOpened(h, r);
  }

  /** Opening the group first changes nothing about what follows. */
  lemma DrainOpened(h: Hashes, r: Reader)
    requires Ready(r) && r.group.None? && OpenGroup(h, r).Ok?
    ensures Ready(OpenGroup(h, r).value) && Drain(h, r) == Drain(h, OpenGroup(h, r).value)
  {
    hide OpenGroup, TakeRecord, CloseGroup;
    OpenedCount(h, r);
    OpenedEnd(h, r);
    assert NextRecord(h, r) == NextRecord(h, OpenGroup(h, r).value);
  }

  lemma OpenedEnd(h: Hashes, r: Reader)
    requires OpenGroup(h, r).Ok?
    ensures OpenGroup(h, r).value.last == r.last
  {
    hide DecodeGroup, GroupBytes;
  }
}
