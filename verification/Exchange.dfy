/**
 Feed batches as bytes: complete consecutive records framed as length-prefixed blobs
 under one checksum. The decoder accepts exactly what the encoder writes.
 */
module Exchange {
  import opened Common
  import opened Bytes
  import opened Records
  import Serial
  import Wal

  const MAX_BATCH_BYTES := 256 * 1024 * 1024
  const EMPTY_BATCH_BYTES := 60
  const MIN_OUTCOME_BYTES := 76
  const FEED_MAGIC: ByteString := [0x42, 0x4C, 0x4F, 0x50, 0x46, 0x45, 0x30, 0x31]

  datatype OutcomeRecord = OutcomeRecord(sequence: nat, digest: ByteString, kind: nat, outcome: Serial.Outcome)

  datatype LogicalRecord = LogicalRecord(log: ByteString, outcome: OutcomeRecord)

  datatype FeedRecords = Resolved(outcomes: seq<OutcomeRecord>) | Logical(records: seq<LogicalRecord>)

  datatype FeedBatch = FeedBatch(database: ByteString, start: nat, end: nat, records: FeedRecords)

  /** The outcome codec, left abstract: canonical, and never shorter than its fixed fields. */
  datatype Codec = Codec(encode: OutcomeRecord -> Option<ByteString>, decode: ByteString -> Option<OutcomeRecord>)

  ghost predicate ValidCodec(c: Codec) {
    && (forall r :: c.encode(r).Some? ==>
          c.decode(c.encode(r).value) == Some(r) && |c.encode(r).value| >= MIN_OUTCOME_BYTES)
    && (forall b :: c.decode(b).Some? ==> c.encode(c.decode(b).value) == Some(b))
  }

  // ---------------------------------------------------------------- blobs

  function Blob(bytes: ByteString): ByteString {
    LittleEndian(|bytes|, 4) + bytes
  }

  /** `append_blob`: refuse what could not fit in any batch. */
  function AppendBlob(output: ByteString, bytes: ByteString): Result<ByteString> {
    if |bytes| > MAX_BATCH_BYTES - 8 || |output| > MAX_BATCH_BYTES - 8 - |bytes| then Err(InvalidFormat)
    else Ok(output + Blob(bytes))
  }

  function ReadBlob(input: ByteString): Result<(ByteString, ByteString)> {
    if |input| < 4 then Err(InvalidFormat)
    else
      var length := FromLittleEndian(input[..4]);
      if length > |input| - 4 then Err(InvalidFormat) else Ok((input[4..4 + length], input[4 + length..]))
  }

  lemma ReadOfBlob(bytes: ByteString, rest: ByteString)
    requires |bytes| <= MAX_BATCH_BYTES
    ensures ReadBlob(Blob(bytes) + rest) == Ok((bytes, rest))
  {
    Base8();
    LittleEndianRoundTrip(|bytes|, 4);
    var input := Blob(bytes) + rest;
    assert input[..4] == LittleEndian(|bytes|, 4);
    assert input[4..4 + |bytes|] == bytes && input[4 + |bytes|..] == rest;
  }

  lemma AcceptedBlob(input: ByteString)
    requires ReadBlob(input).Ok?
    ensures var (bytes, rest) := ReadBlob(input).value; input == Blob(bytes) + rest && |input| == 4 + |bytes| + |rest|
  {
    FromLittleEndianRoundTrip(input[..4]);
    var length := FromLittleEndian(input[..4]);
    assert input == input[..4] + input[4..4 + length] + input[4 + length..];
  }

  // ---------------------------------------------------------------- records

  /** `validate_log`: the log record is the canonical record its outcome names, linked to the one before. */
  function ValidateLog(h: Hashes, bytes: ByteString, outcome: OutcomeRecord,
      predecessor: Option<ByteString>): Result<ByteString>
  {
    if !(RECORD_OVERHEAD <= |bytes| <= MAX_RECORD_LENGTH) then Err(InvalidFormat)
    else
      var n := |bytes|;
      if h.crc(bytes[..n - 8]) != FromLittleEndian(bytes[n - 8..n - 4])
         || bytes[..4] != MAGIC || FromLittleEndian(bytes[4..6]) != 64 || FromLittleEndian(bytes[6..8]) != 1
         || FromLittleEndian(bytes[8..12]) != n || FromLittleEndian(bytes[n - 4..]) != n
         || FromLittleEndian(bytes[12..16]) != n - RECORD_OVERHEAD
         || FromLittleEndian(bytes[16..24]) != outcome.sequence || bytes[24] != outcome.kind || !(1 <= bytes[24] <= 3)
         || bytes[25..28] != [0, 0, 0] || bytes[60..64] != [0, 0, 0, 0]
         || (predecessor.Some? && bytes[28..60] != predecessor.value)
         || h.sha(bytes) != outcome.digest
      then Err(InvalidFormat)
      else Ok(h.sha(bytes))
  }

  function Count(records: FeedRecords): nat {
    match records case Resolved(outcomes) => |outcomes| case Logical(all) => |all|
  }

  function OutcomeAt(records: FeedRecords, i: nat): OutcomeRecord
    requires i < Count(records)
  {
    match records case Resolved(outcomes) => outcomes[i] case Logical(all) => all[i].outcome
  }

  predicate ValidInterval(database: ByteString, start: nat, end: nat, count: nat) {
    && |database| == 16 && database != Wal.Zeros(16) && end < U64_MAX && end == start + count
    && count <= (MAX_BATCH_BYTES - EMPTY_BATCH_BYTES) / 80
  }

  /** The bytes of record `i`, and the digest the next logical record must name. */
  function EncodeRecord(c: Codec, h: Hashes, records: FeedRecords, i: nat,
      predecessor: Option<ByteString>): Result<(ByteString, Option<ByteString>)>
    requires i < Count(records)
  {
    var outcome := OutcomeAt(records, i);
    match c.encode(outcome)
    case None => Err(InvalidFormat)
    case Some(bytes) =>
      if records.Resolved? then Ok((Blob(bytes), None))
      else
        var digest :- ValidateLog(h, records.records[i].log, outcome, predecessor);
        Ok((Blob(records.records[i].log) + Blob(bytes), Some(digest)))
  }

  /** The records from `i` on; every outcome carries the sequence of its place. */
  function EncodeFrom(c: Codec, h: Hashes, start: nat, records: FeedRecords, i: nat,
      predecessor: Option<ByteString>): Result<ByteString>
    requires i <= Count(records)
    decreases Count(records) - i
  {
    if i == Count(records) then Ok([])
    else if OutcomeAt(records, i).sequence != start + i + 1 then Err(InvalidFormat)
    else
      var (bytes, next) :- EncodeRecord(c, h, records, i, predecessor);
      var rest :- EncodeFrom(c, h, start, records, i + 1, next);
      Ok(bytes + rest)
  }

  function BatchHeader(b: FeedBatch, length: nat): ByteString {
    (FEED_MAGIC + LittleEndian(1, 2) + [if b.records.Resolved? then 1 else 2, 0] + LittleEndian(length, 4))
    + (b.database + LittleEndian(b.start, 8) + LittleEndian(b.end, 8))
    + (LittleEndian(Count(b.records), 4) + [0, 0, 0, 0])
  }

  /** `FeedBatch::encode`. */
  function Encode(c: Codec, h: Hashes, b: FeedBatch): Result<ByteString> {
    if !ValidInterval(b.database, b.start, b.end, Count(b.records)) then Err(InvalidFormat)
    else
      var body :- EncodeFrom(c, h, b.start, b.records, 0, None);
      if |body| > MAX_BATCH_BYTES - EMPTY_BATCH_BYTES then Err(InvalidFormat)
      else
        var sealed := BatchHeader(b, EMPTY_BATCH_BYTES + |body|) + body;
        Ok(sealed + LittleEndian(h.crc(sealed), 4))
  }

  /** The records of the body from place `i` to `count`. */
  function DecodeFrom(c: Codec, h: Hashes, start: nat, resolved: bool, i: nat, count: nat,
      predecessor: Option<ByteString>, input: ByteString): Result<FeedRecords>
    requires i <= count
    decreases count - i
  {
    if i == count then
      if input != [] then Err(InvalidFormat) else Ok(if resolved then Resolved([]) else Logical([]))
    else if resolved then
      var (bytes, rest) :- ReadBlob(input);
      match c.decode(bytes)
      case None => Err(InvalidFormat)
      case Some(outcome) =>
        if outcome.sequence != start + i + 1 then Err(InvalidFormat)
        else
          var more :- DecodeFrom(c, h, start, resolved, i + 1, count, None, rest);
          if more.Resolved? then Ok(Resolved([outcome] + more.outcomes)) else Err(InvalidFormat)
    else
      var (log, middle) :- ReadBlob(input);
      var (bytes, rest) :- ReadBlob(middle);
      match c.decode(bytes)
      case None => Err(InvalidFormat)
      case Some(outcome) =>
        if outcome.sequence != start + i + 1 then Err(InvalidFormat)
        else
          var digest :- ValidateLog(h, log, outcome, predecessor);
          var more :- DecodeFrom(c, h, start, resolved, i + 1, count, Some(digest), rest);
          if more.Logical? then Ok(Logical([LogicalRecord(log, outcome)] + more.records)) else Err(InvalidFormat)
  }

  predicate ValidFrame(h: Hashes, bytes: ByteString) {
    && EMPTY_BATCH_BYTES <= |bytes| <= MAX_BATCH_BYTES
    && h.crc(bytes[..|bytes| - 4]) == FromLittleEndian(bytes[|bytes| - 4..])
    && bytes[..8] == FEED_MAGIC && FromLittleEndian(bytes[8..10]) == 1
  }

  /** `FeedBatch::decode`. */
  function Decode(c: Codec, h: Hashes, bytes: ByteString): Result<FeedBatch> {
    if !ValidFrame(h, bytes) then Err(InvalidFormat)
    else if !(1 <= bytes[10] <= 2) || bytes[11] != 0 || bytes[52..56] != [0, 0, 0, 0]
            || FromLittleEndian(bytes[12..16]) != |bytes| then Err(InvalidFormat)
    else
      var database, start, end := bytes[16..32], FromLittleEndian(bytes[32..40]), FromLittleEndian(bytes[40..48]);
      var count, resolved := FromLittleEndian(bytes[48..52]), bytes[10] == 1;
      var input := bytes[56..|bytes| - 4];
      if !ValidInterval(database, start, end, count) || count > |input| / (if resolved then 80 else 156) then
          Err(InvalidFormat)
      else
        var records :- DecodeFrom(c, h, start, resolved, 0, count, None, input);
        Ok(FeedBatch(database, start, end, records))
  }

  // ---------------------------------------------------------------- what encodes

  /**
   The exchange check of a log record is the log reader's own check, on the sequence, kind and
   digest of its outcome; only the fixed length of a policy record is left to the log reader.
   */
  lemma ValidatedLog(h: Hashes, bytes: ByteString, outcome: OutcomeRecord, predecessor: Option<ByteString>)
    ensures ValidateLog(h, bytes, outcome, predecessor).Ok?
            && (outcome.kind == 3 ==> |bytes| == RECORD_OVERHEAD + POLICY_LENGTH) <==>
            && RECORD_OVERHEAD <= |bytes| && bytes[24] == outcome.kind && h.sha(bytes) == outcome.digest
            && (predecessor.Some? ==> bytes[28..60] == predecessor.value)
            && ReadRecord(h, bytes, |bytes|, outcome.sequence, bytes[28..60]) == Ok(bytes)
    ensures ValidateLog(h, bytes, outcome, predecessor).Ok? ==>
              ValidateLog(h, bytes, outcome, predecessor).value == h.sha(bytes)
  {
    hide FromLittleEndian;
    if RECORD_OVERHEAD <= |bytes| {
      var header := bytes[..64];
      assert bytes[..|bytes|] == bytes;
      assert header[..4] == bytes[..4] && header[4..6] == bytes[4..6] && header[6..8] == bytes[6..8]
          && header[16..24] == bytes[16..24] && header[25..28] == bytes[25..28] && header[28..60] == bytes[28..60]
          && header[60..64] == bytes[60..64] && header[24] == bytes[24];
    }
  }

  /** Record `j` can be exchanged behind a record with this digest. */
  ghost predicate Encodable(c: Codec, h: Hashes, start: nat, records: FeedRecords, j: nat,
      predecessor: Option<ByteString>)
    requires j < Count(records)
  {
    && OutcomeAt(records, j).sequence == start + j + 1 && c.encode(OutcomeAt(records, j)).Some?
    && (records.Logical? ==> ValidateLog(h, records.records[j].log, OutcomeAt(records, j), predecessor).Ok?)
  }

  /** The digest record `j` must name: that of the log record before it, if there is one. */
  function Named(h: Hashes, records: FeedRecords, j: nat): Option<ByteString>
    requires j < Count(records)
  {
    if j == 0 || records.Resolved? then None else Some(h.sha(records.records[j - 1].log))
  }

  /** The bytes of the records from `i` on, each blob with its length. */
  function SizeFrom(c: Codec, records: FeedRecords, i: nat): nat
    requires i <= Count(records)
    decreases Count(records) - i
  {
    if i == Count(records) then 0
    else
      (match c.encode(OutcomeAt(records, i)) case Some(bytes) => 4 + |bytes| case None => 0)
      + (if records.Logical? then 4 + |records.records[i].log| else 0)
      + SizeFrom(c, records, i + 1)
  }

  lemma {:induction false} EncodeFromExact(c: Codec, h: Hashes, start: nat, records: FeedRecords, i: nat,
      predecessor: Option<ByteString>)
    requires i <= Count(records) && (i < Count(records) ==> predecessor == Named(h, records, i))
    ensures var r := EncodeFrom(c, h, start, records, i, predecessor);
            && (r.Ok? <==>
                  forall j :: i <= j < Count(records) ==> Encodable(c, h, start, records, j, Named(h, records, j)))
            && (r.Ok? ==> |r.value| == SizeFrom(c, records, i))
    decreases Count(records) - i
  {
    hide ValidateLog;
    if i < Count(records) {
      if EncodeRecord(c, h, records, i, predecessor).Ok? {
        if records.Logical? {
          ValidatedDigest(h, records.records[i].log, OutcomeAt(records, i), predecessor);
        }
        EncodeFromExact(c, h, start, records, i + 1, EncodeRecord(c, h, records, i, predecessor).value.1);
      }
      assert EncodeRecord(c, h, records, i, predecessor).Err? ==>
          !Encodable(c, h, start, records, i, Named(h, records, i));
    }
  }

  lemma ValidatedDigest(h: Hashes, bytes: ByteString, outcome: OutcomeRecord, predecessor: Option<ByteString>)
    requires ValidateLog(h, bytes, outcome, predecessor).Ok?
    ensures ValidateLog(h, bytes, outcome, predecessor) == Ok(h.sha(bytes))
  {
  }

  /**
   A batch encodes exactly when its interval matches its count, every record is in its place,
   encodes and names the record before it, and all of it fits the limit.
   */
  lemma EncodeAccepts(c: Codec, h: Hashes, b: FeedBatch)
    ensures var r := Encode(c, h, b);
            && (r.Ok? <==>
                  && ValidInterval(b.database, b.start, b.end, Count(b.records))
                  && (forall j :: 0 <= j < Count(b.records) ==>
                        Encodable(c, h, b.start, b.records, j, Named(h, b.records, j)))
                  && 60 + SizeFrom(c, b.records, 0) <= 256 * 1024 * 1024)
            && (r.Ok? ==> |r.value| == 60 + SizeFrom(c, b.records, 0))
  {
    hide EncodeFrom, Encodable, SizeFrom, LittleEndian;
    EncodeFromExact(c, h, b.start, b.records, 0, None);
  }

  // ---------------------------------------------------------------- round trips

  /** What the records from `i` on look like once decoded. */
  function Tail(records: FeedRecords, i: nat): FeedRecords
    requires i <= Count(records)
  {
    match records case Resolved(outcomes) => Resolved(outcomes[i..]) case Logical(all) => Logical(all[i..])
  }

  lemma TailStep(records: FeedRecords, i: nat)
    requires i < Count(records)
    ensures match records
            case Resolved(outcomes) => Tail(records, i) == Resolved([outcomes[i]] + Tail(records, i + 1).outcomes)
            case Logical(all) => Tail(records, i) == Logical([all[i]] + Tail(records, i + 1).records)
  {
  }

  lemma EmptyTail(records: FeedRecords)
    ensures Tail(records, Count(records)) == if records.Resolved? then Resolved([]) else Logical([])
  {
  }

  lemma EncodedBlobs(c: Codec, h: Hashes, records: FeedRecords, i: nat, predecessor: Option<ByteString>,
      rest: ByteString)
    requires ValidCodec(c) && i < Count(records) && EncodeRecord(c, h, records, i, predecessor).Ok?
    requires |EncodeRecord(c, h, records, i, predecessor).value.0| <= MAX_BATCH_BYTES
    ensures c.encode(OutcomeAt(records, i)).Some?
    ensures var input := EncodeRecord(c, h, records, i, predecessor).value.0 + rest;
            var bytes := c.encode(OutcomeAt(records, i)).value;
            && c.decode(bytes) == Some(OutcomeAt(records, i))
            && |EncodeRecord(c, h, records, i, predecessor).value.0| >= (if records.Resolved? then 80 else 156)
            && if records.Resolved? then ReadBlob(input) == Ok((bytes, rest))
               else ReadBlob(input) == Ok((records.records[i].log, Blob(bytes) + rest))
                    && ReadBlob(Blob(bytes) + rest) == Ok((bytes, rest))
                    && ValidateLog(h, records.records[i].log, OutcomeAt(records, i), predecessor).Ok?
  {
    hide ReadBlob, ValidateLog;
    var bytes := c.encode(OutcomeAt(records, i)).value;
    ReadOfBlob(bytes, rest);
    if records.Logical? {
      ReadOfBlob(records.records[i].log, Blob(bytes) + rest);
      Reassociate(Blob(records.records[i].log), Blob(bytes), rest);
      LogLength(h, records.records[i].log, OutcomeAt(records, i), predecessor);
    }
  }

  lemma LogLength(h: Hashes, bytes: ByteString, outcome: OutcomeRecord, predecessor: Option<ByteString>)
    requires ValidateLog(h, bytes, outcome, predecessor).Ok?
    ensures |bytes| >= RECORD_OVERHEAD
  {
  }

  /** The body read back is the records written. */
  lemma {:induction false} DecodeOfEncodeFrom(c: Codec, h: Hashes, start: nat, records: FeedRecords, i: nat,
      predecessor: Option<ByteString>)
    requires ValidCodec(c) && i <= Count(records) && EncodeFrom(c, h, start, records, i, predecessor).Ok?
    requires |EncodeFrom(c, h, start, records, i, predecessor).value| <= MAX_BATCH_BYTES
    requires records.Resolved? ==> predecessor == None
    ensures var body := EncodeFrom(c, h, start, records, i, predecessor).value;
            && DecodeFrom(c, h, start, records.Resolved?, i, Count(records), predecessor, body) == Ok(Tail(records, i))
            && |body| >= (Count(records) - i) * (if records.Resolved? then 80 else 156)
    decreases Count(records) - i
  {
    hide ReadBlob, ValidateLog, Blob;
    if i < Count(records) {
      var (bytes, next) := EncodeRecord(c, h, records, i, predecessor).value;
      var rest := EncodeFrom(c, h, start, records, i + 1, next).value;
      EncodedBlobs(c, h, records, i, predecessor, rest);
      DecodeOfEncodeFrom(c, h, start, records, i + 1, next);
      TailStep(records, i);
    } else {
      EmptyTail(records);
    }
  }

  lemma HeaderThirds(bytes: ByteString, front: ByteString, middle: ByteString, last: ByteString, body: ByteString,
      crc: ByteString)
    requires |front| == 16 && |middle| == 32 && |last| == 8 && |crc| == 4
    requires bytes == front + middle + last + body + crc
    ensures bytes[..16] == front && bytes[16..48] == middle && bytes[48..56] == last && bytes[56..|bytes| - 4] == body
    ensures bytes[|bytes| - 4..] == crc && bytes[..|bytes| - 4] == front + middle + last + body
  {
  }

  lemma FrontFields(front: ByteString, kind: Byte, length: ByteString)
    requires |length| == 4 && front == FEED_MAGIC + LittleEndian(1, 2) + [kind, 0] + length
    ensures |front| == 16 && front[..8] == FEED_MAGIC && front[8..10] == LittleEndian(1, 2)
    ensures front[10] == kind && front[11] == 0 && front[12..16] == length
  {
  }

  lemma MiddleFields(middle: ByteString, a: ByteString, b: ByteString, c: ByteString)
    requires |a| == 16 && |b| == 8 && |c| == 8 && middle == a + b + c
    ensures |middle| == 32 && middle[..16] == a && middle[16..24] == b && middle[24..] == c
  {
  }

  /** A batch survives the exchange. */
  lemma DecodeOfEncode(c: Codec, h: Hashes, b: FeedBatch)
    requires ValidCodec(c) && ValidHashes(h) && Encode(c, h, b).Ok?
    ensures Decode(c, h, Encode(c, h, b).value) == Ok(b)
    ensures EMPTY_BATCH_BYTES <= |Encode(c, h, b).value| <= MAX_BATCH_BYTES
  {
    hide LittleEndian, FromLittleEndian, DecodeFrom, EncodeFrom, ValidCodec;
    Base8();
    var body := EncodeFrom(c, h, b.start, b.records, 0, None).value;
    var length, count := EMPTY_BATCH_BYTES + |body|, Count(b.records);
    var bytes, kind := Encode(c, h, b).value, if b.records.Resolved? then 1 else 2;
    var front := FEED_MAGIC + LittleEndian(1, 2) + [kind, 0] + LittleEndian(length, 4);
    var middle := b.database + LittleEndian(b.start, 8) + LittleEndian(b.end, 8);
    var last := LittleEndian(count, 4) + [0, 0, 0, 0];
    var sealed := BatchHeader(b, length) + body;
    FrontFields(front, kind, LittleEndian(length, 4));
    MiddleFields(middle, b.database, LittleEndian(b.start, 8), LittleEndian(b.end, 8));
    HeaderThirds(bytes, front, middle, last, body, LittleEndian(h.crc(sealed), 4));
    assert last[..4] == LittleEndian(count, 4) && last[4..] == [0, 0, 0, 0];
    LittleEndianRoundTrip(1, 2);
    LittleEndianRoundTrip(length, 4);
    LittleEndianRoundTrip(b.start, 8);
    LittleEndianRoundTrip(b.end, 8);
    LittleEndianRoundTrip(count, 4);
    LittleEndianRoundTrip(h.crc(sealed), 4);
    assert bytes[..8] == front[..8] && bytes[8..10] == front[8..10] && bytes[10] == front[10] && bytes[11] == front[11]
        && bytes[12..16] == front[12..16];
    assert bytes[16..32] == middle[..16] && bytes[32..40] == middle[16..24] && bytes[40..48] == middle[24..];
    assert bytes[48..52] == last[..4] && bytes[52..56] == last[4..];
    DecodeOfEncodeFrom(c, h, b.start, b.records, 0, None);
    WholeTail(b.records);
  }

  lemma WholeTail(records: FeedRecords)
    ensures Tail(records, 0) == records
  {
  }

  /** The body that was accepted is the body the encoder writes. */
  lemma {:induction false} AcceptedFrom(c: Codec, h: Hashes, start: nat, resolved: bool, i: nat, count: nat,
      predecessor: Option<ByteString>, input: ByteString, front: FeedRecords)
    requires ValidCodec(c) && i <= count && front.Resolved? == resolved && Count(front) == i
    requires DecodeFrom(c, h, start, resolved, i, count, predecessor, input).Ok?
    ensures var all := Join(front, DecodeFrom(c, h, start, resolved, i, count, predecessor, input).value);
            && Count(all) == count && all.Resolved? == resolved
            && DecodeFrom(c, h, start, resolved, i, count, predecessor, input).value.Resolved? == resolved
            && EncodeFrom(c, h, start, all, i, if resolved then None else predecessor) == Ok(input)
    decreases count - i
  {
    hide ReadBlob, ValidateLog, Blob;
    var decoded := DecodeFrom(c, h, start, resolved, i, count, predecessor, input).value;
    var all := Join(front, decoded);
    if i < count {
      AcceptedBlob(input);
      if resolved {
        var (bytes, rest) := ReadBlob(input).value;
        var outcome := c.decode(bytes).value;
        var longer := Resolved(front.outcomes + [outcome]);
        AcceptedFrom(c, h, start, resolved, i + 1, count, None, rest, longer);
        var more := DecodeFrom(c, h, start, resolved, i + 1, count, None, rest).value;
        Reassociate(front.outcomes, [outcome], more.outcomes);
        assert Join(longer, more) == all;
      } else {
        var (log, middle) := ReadBlob(input).value;
        AcceptedBlob(middle);
        var (bytes, rest) := ReadBlob(middle).value;
        var outcome := c.decode(bytes).value;
        var digest := ValidateLog(h, log, outcome, predecessor).value;
        var longer := Logical(front.records + [LogicalRecord(log, outcome)]);
        AcceptedFrom(c, h, start, resolved, i + 1, count, Some(digest), rest, longer);
        var more := DecodeFrom(c, h, start, resolved, i + 1, count, Some(digest), rest).value;
        Reassociate(front.records, [LogicalRecord(log, outcome)], more.records);
        assert Join(longer, more) == all;
        Reassociate(Blob(log), Blob(bytes), rest);
      }
    }
  }

  function Join(a: FeedRecords, b: FeedRecords): FeedRecords {
    if a.Resolved? && b.Resolved? then Resolved(a.outcomes + b.outcomes)
    else if a.Logical? && b.Logical? then Logical(a.records + b.records)
    else a
  }

  /** Only encodings are accepted: what decodes encodes back to the same bytes. */
  lemma EncodeOfDecode(c: Codec, h: Hashes, bytes: ByteString)
    requires ValidCodec(c) && Decode(c, h, bytes).Ok?
    ensures Encode(c, h, Decode(c, h, bytes).value) == Ok(bytes)
  {
    hide LittleEndian, FromLittleEndian, DecodeFrom, EncodeFrom, ValidCodec;
    var b := Decode(c, h, bytes).value;
    var count, input := FromLittleEndian(bytes[48..52]), bytes[56..|bytes| - 4];
    var none := if bytes[10] == 1 then Resolved([]) else Logical([]);
    AcceptedFrom(c, h, b.start, bytes[10] == 1, 0, count, None, input, none);
    JoinNone(none, b.records);
    FromLittleEndianRoundTrip(bytes[8..10]);
    FromLittleEndianRoundTrip(bytes[12..16]);
    FromLittleEndianRoundTrip(bytes[32..40]);
    FromLittleEndianRoundTrip(bytes[40..48]);
    FromLittleEndianRoundTrip(bytes[48..52]);
    FromLittleEndianRoundTrip(bytes[|bytes| - 4..]);
    HeaderParts(bytes, bytes[10]);
    assert BatchHeader(b, |bytes|) == bytes[..56];
    assert bytes[..56] + input == bytes[..|bytes| - 4];
    assert bytes == bytes[..|bytes| - 4] + bytes[|bytes| - 4..];
  }

  lemma JoinNone(none: FeedRecords, records: FeedRecords)
    requires none == (if records.Resolved? then Resolved([]) else Logical([]))
    ensures Join(none, records) == records
  {
  }

  lemma HeaderParts(bytes: ByteString, kind: Byte)
    requires |bytes| >= 60 && bytes[..8] == FEED_MAGIC && bytes[10] == kind && bytes[11] == 0
             && bytes[52..56] == [0, 0, 0, 0]
    ensures bytes[..56] == (FEED_MAGIC + bytes[8..10] + [kind, 0] + bytes[12..16])
                           + (bytes[16..32] + bytes[32..40] + bytes[40..48]) + (bytes[48..52] + [0, 0, 0, 0])
  {
    assert bytes[10..12] == [kind, 0];
  }

  // ---------------------------------------------------------------- the loops

  function Onto(front: ByteString, r: Result<ByteString>): Result<ByteString> {
    var rest :- r;
    Ok(front + rest)
  }

  lemma OntoStep(c: Codec, h: Hashes, start: nat, records: FeedRecords, i: nat, predecessor: Option<ByteString>,
      front: ByteString)
    requires i < Count(records)
    ensures Onto(front, EncodeFrom(c, h, start, records, i, predecessor)) ==
            if OutcomeAt(records, i).sequence != start + i + 1 then Err(InvalidFormat)
            else
              match EncodeRecord(c, h, records, i, predecessor)
              case Err(e) => Err(e)
              case Ok((bytes, next)) => Onto(front + bytes, EncodeFrom(c, h, start, records, i + 1, next))
  {
    hide EncodeRecord;
    if EncodeRecord(c, h, records, i, predecessor).Ok? {
      var (bytes, next) := EncodeRecord(c, h, records, i, predecessor).value;
      var rest := EncodeFrom(c, h, start, records, i + 1, next);
      if rest.Ok? {
        Reassociate(front, bytes, rest.value);
      }
    }
  }

  lemma OntoNone(r: Result<ByteString>)
    ensures Onto([], r) == r
  {
    if r.Ok? {
      assert [] + r.value == r.value;
    }
  }

  /** The blobs of one record, appended if they can still fit. */
  method AppendRecord(c: Codec, h: Hashes, records: FeedRecords, i: nat, predecessor: Option<ByteString>,
      output: ByteString) returns (r: Result<(ByteString, Option<ByteString>)>)
    requires i < Count(records) && |output| <= MAX_BATCH_BYTES - 4
    ensures match EncodeRecord(c, h, records, i, predecessor)
            case Err(_) => r == Err(InvalidFormat)
            case Ok((bytes, next)) =>
              r == if |output| + |bytes| <= MAX_BATCH_BYTES - 4 then Ok((output + bytes, next)) else Err(InvalidFormat)
  {
    hide ValidateLog;
    var outcome := OutcomeAt(records, i);
    var next: Option<ByteString> := None;
    var extended := output;
    if records.Logical? {
      var digest := ValidateLog(h, records.records[i].log, outcome, predecessor);
      if digest.Err? {
        return Err(InvalidFormat);
      }
      next := Some(digest.value);
      var appended := AppendBlob(output, records.records[i].log);
      if appended.Err? {
        return Err(InvalidFormat);
      }
      extended := appended.value;
    }
    var encoded := c.encode(outcome);
    if encoded.None? {
      return Err(InvalidFormat);
    }
    var appended := AppendBlob(extended, encoded.value);
    if appended.Err? {
      return Err(InvalidFormat);
    }
    if records.Logical? {
      Reassociate(output, Blob(records.records[i].log), Blob(encoded.value));
    }
    r := Ok((appended.value, next));
  }

  /** The loop of `FeedBatch::encode`: a header, then each record in its place, then the length and checksum. */
  method EncodeBatch(c: Codec, h: Hashes, b: FeedBatch) returns (r: Result<ByteString>)
    ensures r.Ok? <==> Encode(c, h, b).Ok?
    ensures r.Ok? ==> r == Encode(c, h, b)
  {
    hide EncodeRecord, EncodeFrom;
    var count := Count(b.records);
    if !ValidInterval(b.database, b.start, b.end, count) {
      return Err(InvalidFormat);
    }
    var header := BatchHeader(b, 0);
    HeaderLength(b, 0);
    var bytes := header;
    var predecessor: Option<ByteString> := None;
    ghost var body: ByteString := [];
    OntoNone(EncodeFrom(c, h, b.start, b.records, 0, None));
    for i := 0 to count
      invariant bytes == header + body && |bytes| <= MAX_BATCH_BYTES - 4
      invariant EncodeFrom(c, h, b.start, b.records, 0, None)
             == Onto(body, EncodeFrom(c, h, b.start, b.records, i, predecessor))
    {
      OntoStep(c, h, b.start, b.records, i, predecessor, body);
      if OutcomeAt(b.records, i).sequence != b.start + i + 1 {
        return Err(InvalidFormat);
      }
      var step := AppendRecord(c, h, b.records, i, predecessor, bytes);
      if step.Err? {
        return Err(InvalidFormat);
      }
      ghost var more := EncodeRecord(c, h, b.records, i, predecessor).value.0;
      Reassociate(header, body, more);
      body := body + more;
      bytes, predecessor := step.value.0, step.value.1;
    }
    EncodedEnd(c, h, b.start, b.records, predecessor, body);
    var length := |bytes| + 4;
    HeaderPatched(b, length, body);
    bytes := bytes[..12] + LittleEndian(length, 4) + bytes[16..];
    r := Ok(bytes + LittleEndian(h.crc(bytes), 4));
  }

  lemma EncodedEnd(c: Codec, h: Hashes, start: nat, records: FeedRecords, predecessor: Option<ByteString>,
      body: ByteString)
    ensures Onto(body, EncodeFrom(c, h, start, records, Count(records), predecessor)) == Ok(body)
  {
    assert body + [] == body;
  }

  lemma HeaderLength(b: FeedBatch, length: nat)
    requires |b.database| == 16
    ensures |BatchHeader(b, length)| == 56
  {
  }

  /** Filling in the length afterwards gives the header with that length. */
  lemma HeaderPatched(b: FeedBatch, length: nat, body: ByteString)
    requires |b.database| == 16
    ensures var bytes := BatchHeader(b, 0) + body;
            |bytes| >= 56 && bytes[..12] + LittleEndian(length, 4) + bytes[16..] == BatchHeader(b, length) + body
  {
    var front := FEED_MAGIC + LittleEndian(1, 2) + [if b.records.Resolved? then 1 else 2, 0];
    var back := (b.database + LittleEndian(b.start, 8) + LittleEndian(b.end, 8))
      + (LittleEndian(Count(b.records), 4) + [0, 0, 0, 0]);
    Around(front, LittleEndian(0, 4), LittleEndian(length, 4), back + body);
    assert BatchHeader(b, 0) + body == front + LittleEndian(0, 4) + (back + body);
    assert BatchHeader(b, length) + body == front + LittleEndian(length, 4) + (back + body);
  }

  lemma Around(front: ByteString, a: ByteString, b: ByteString, back: ByteString)
    requires |front| == 12 && |a| == 4
    ensures (front + a + back)[..12] + b + (front + a + back)[16..] == front + b + back
  {
  }

  function Beyond(front: FeedRecords, r: Result<FeedRecords>): Result<FeedRecords> {
    var rest :- r;
    Ok(Join(front, rest))
  }

  /** The loop of `FeedBatch::decode`, taking blobs off the front of the input. */
  method DecodeBatch(c: Codec, h: Hashes, bytes: ByteString) returns (r: Result<FeedBatch>)
    requires ValidCodec(c)
    ensures r.Ok? <==> Decode(c, h, bytes).Ok?
    ensures r.Ok? ==> r == Decode(c, h, bytes)
  {
    hide DecodeFrom, ValidateLog, ReadBlob, ValidCodec, FromLittleEndian;
    if !ValidFrame(h, bytes) {
      return Err(InvalidFormat);
    }
    if !(1 <= bytes[10] <= 2) || bytes[11] != 0 || bytes[52..56] != [0, 0, 0, 0]
       || FromLittleEndian(bytes[12..16]) != |bytes| {
      return Err(InvalidFormat);
    }
    var database, start, end := bytes[16..32], FromLittleEndian(bytes[32..40]), FromLittleEndian(bytes[40..48]);
    var count, resolved := FromLittleEndian(bytes[48..52]), bytes[10] == 1;
    var input := bytes[56..|bytes| - 4];
    if !ValidInterval(database, start, end, count) || count > |input| / (if resolved then 80 else 156) {
      return Err(InvalidFormat);
    }
    var records := if resolved then Resolved([]) else Logical([]);
    var predecessor: Option<ByteString> := None;
    ghost var whole := DecodeFrom(c, h, start, resolved, 0, count, None, input);
    BeyondNone(c, h, start, resolved, count, input);
    for i := 0 to count
      invariant records.Resolved? == resolved && (resolved ==> predecessor == None)
      invariant whole == Beyond(records, DecodeFrom(c, h, start, resolved, i, count, predecessor, input))
    {
      var log: ByteString := [];
      BeyondStep(c, h, start, resolved, i, count, predecessor, input, records);
      if !resolved {
        var taken := ReadBlob(input);
        if taken.Err? {
          return Err(InvalidFormat);
        }
        log, input := taken.value.0, taken.value.1;
      }
      var taken := ReadBlob(input);
      if taken.Err? {
        return Err(InvalidFormat);
      }
      input := taken.value.1;
      var outcome := c.decode(taken.value.0);
      if outcome.None? || outcome.value.sequence != start + i + 1 {
        return Err(InvalidFormat);
      }
      if resolved {
        records := Resolved(records.outcomes + [outcome.value]);
      } else {
        var digest := ValidateLog(h, log, outcome.value, predecessor);
        if digest.Err? {
          return Err(InvalidFormat);
        }
        predecessor := Some(digest.value);
        records := Logical(records.records + [LogicalRecord(log, outcome.value)]);
      }
    }
    BeyondEnd(c, h, start, resolved, count, predecessor, input, records);
    if input != [] {
      return Err(InvalidFormat);
    }
    r := Ok(FeedBatch(database, start, end, records));
  }

  lemma BeyondNone(c: Codec, h: Hashes, start: nat, resolved: bool, count: nat, input: ByteString)
    requires ValidCodec(c)
    ensures DecodeFrom(c, h, start, resolved, 0, count, None, input)
         == Beyond(if resolved then Resolved([]) else Logical([]),
                   DecodeFrom(c, h, start, resolved, 0, count, None, input))
  {
    hide DecodeFrom, ValidCodec;
    var none := if resolved then Resolved([]) else Logical([]);
    var decoded := DecodeFrom(c, h, start, resolved, 0, count, None, input);
    if decoded.Ok? {
      AcceptedFrom(c, h, start, resolved, 0, count, None, input, none);
      JoinNone(none, decoded.value);
    }
  }

  lemma BeyondEnd(c: Codec, h: Hashes, start: nat, resolved: bool, count: nat, predecessor: Option<ByteString>,
      input: ByteString, records: FeedRecords)
    requires records.Resolved? == resolved
    ensures Beyond(records, DecodeFrom(c, h, start, resolved, count, count, predecessor, input))
         == if input != [] then Err(InvalidFormat) else Ok(records)
  {
    match records
    case Resolved(outcomes) => assert outcomes + [] == outcomes;
    case Logical(all) => assert all + [] == all;
  }

  lemma BeyondStep(c: Codec, h: Hashes, start: nat, resolved: bool, i: nat, count: nat,
      predecessor: Option<ByteString>, input: ByteString, records: FeedRecords)
    requires ValidCodec(c) && i < count && records.Resolved? == resolved && (resolved ==> predecessor == None)
    ensures Beyond(records, DecodeFrom(c, h, start, resolved, i, count, predecessor, input)) ==
            if resolved then
              match ReadBlob(input)
              case Err(e) => Err(e)
              case Ok((bytes, rest)) =>
                match c.decode(bytes)
                case None => Err(InvalidFormat)
                case Some(outcome) =>
                  if outcome.sequence != start + i + 1 then Err(InvalidFormat)
                  else Beyond(Resolved(records.outcomes + [outcome]),
                              DecodeFrom(c, h, start, resolved, i + 1, count, None, rest))
            else
              match ReadBlob(input)
              case Err(e) => Err(e)
              case Ok((log, middle)) =>
                match ReadBlob(middle)
                case Err(e) => Err(e)
                case Ok((bytes, rest)) =>
                  match c.decode(bytes)
                  case None => Err(InvalidFormat)
                  case Some(outcome) =>
                    if outcome.sequence != start + i + 1 then Err(InvalidFormat)
                    else
                      match ValidateLog(h, log, outcome, predecessor)
                      case Err(e) => Err(e)
                      case Ok(digest) =>
                        Beyond(Logical(records.records + [LogicalRecord(log, outcome)]),
                               DecodeFrom(c, h, start, resolved, i + 1, count, Some(digest), rest))
  {
    hide ReadBlob, ValidateLog, ValidCodec;
    if resolved {
      if ReadBlob(input).Ok? && c.decode(ReadBlob(input).value.0).Some? {
        var (bytes, rest) := ReadBlob(input).value;
        BeyondResolved(c, h, start, i + 1, count, rest, records.outcomes, c.decode(bytes).value);
      }
    } else if ReadBlob(input).Ok? && ReadBlob(ReadBlob(input).value.1).Ok? {
      var (log, middle) := ReadBlob(input).value;
      var (bytes, rest) := ReadBlob(middle).value;
      if c.decode(bytes).Some? && ValidateLog(h, log, c.decode(bytes).value, predecessor).Ok? {
        var outcome := c.decode(bytes).value;
        var digest := ValidateLog(h, log, outcome, predecessor).value;
        BeyondLogical(c, h, start, i + 1, count, Some(digest), rest, records.records, LogicalRecord(log, outcome));
      }
    }
  }

  lemma BeyondResolved(c: Codec, h: Hashes, start: nat, i: nat, count: nat, rest: ByteString,
      front: seq<OutcomeRecord>, outcome: OutcomeRecord)
    requires ValidCodec(c) && 0 < i <= count
    ensures var more := DecodeFrom(c, h, start, true, i, count, None, rest);
            && (more.Ok? ==> more.value.Resolved?)
            && (more.Ok? ==> Join(Resolved(front), Resolved([outcome] + more.value.outcomes))
                             == Join(Resolved(front + [outcome]), more.value))
  {
    hide DecodeFrom;
    var more := DecodeFrom(c, h, start, true, i, count, None, rest);
    if more.Ok? {
      DecodedKind(c, h, start, true, i, count, None, rest);
      Reassociate(front, [outcome], more.value.outcomes);
    }
  }

  lemma BeyondLogical(c: Codec, h: Hashes, start: nat, i: nat, count: nat, predecessor: Option<ByteString>,
      rest: ByteString, front: seq<LogicalRecord>, record: LogicalRecord)
    requires ValidCodec(c) && 0 < i <= count
    ensures var more := DecodeFrom(c, h, start, false, i, count, predecessor, rest);
            && (more.Ok? ==> more.value.Logical?)
            && (more.Ok? ==> Join(Logical(front), Logical([record] + more.value.records))
                             == Join(Logical(front + [record]), more.value))
  {
    hide DecodeFrom;
    var more := DecodeFrom(c, h, start, false, i, count, predecessor, rest);
    if more.Ok? {
      DecodedKind(c, h, start, false, i, count, predecessor, rest);
      Reassociate(front, [record], more.value.records);
    }
  }

  lemma DecodedKind(c: Codec, h: Hashes, start: nat, resolved: bool, i: nat, count: nat,
      predecessor: Option<ByteString>, input: ByteString)
    requires i <= count && DecodeFrom(c, h, start, resolved, i, count, predecessor, input).Ok?
    ensures DecodeFrom(c, h, start, resolved, i, count, predecessor, input).value.Resolved? == resolved
  {
    hide ValidateLog, ReadBlob;
  }
}
