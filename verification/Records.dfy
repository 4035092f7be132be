/** The canonical log record: its envelope and the check every reader applies. */
module Records {
  import opened Common
  import opened Bytes

  const RECORD_OVERHEAD := 72
  const MAX_RECORD_LENGTH := 64 * 1024 * 1024
  const POLICY_LENGTH := 140
  const MAGIC: ByteString := [0x42, 0x4C, 0x52, 0x31]
  const DIGEST_LENGTH := 32

  /** The two hashes of the format, uninterpreted: SHA-256 and CRC-32C. */
  datatype Hashes = Hashes(sha: ByteString -> ByteString, crc: ByteString -> nat)

  ghost predicate ValidHashes(h: Hashes) {
    && (forall b :: |h.sha(b)| == DIGEST_LENGTH)
    && (forall b :: h.crc(b) <= U32_MAX)
  }

  predicate ValidSequence(n: nat) {
    0 < n < U64_MAX
  }

  function Header(length: nat, sequence: nat, predecessor: ByteString, kind: Byte): ByteString
    requires length >= RECORD_OVERHEAD
  {
    (MAGIC + LittleEndian(64, 2) + LittleEndian(1, 2))
    + (LittleEndian(length, 4) + LittleEndian(length - RECORD_OVERHEAD, 4) + LittleEndian(sequence, 8))
    + ([kind, 0, 0, 0] + predecessor + [0, 0, 0, 0])
  }

  /** `envelope`: the canonical bytes of one record. */
  function Envelope(h: Hashes, sequence: nat, predecessor: ByteString, kind: nat,
      body: ByteString): Result<ByteString>
  {
    var length := |body| + RECORD_OVERHEAD;
    if length > MAX_RECORD_LENGTH || !ValidSequence(sequence) || !(1 <= kind <= 3) then Err(InvalidInput)
    else
      var sealed := Header(length, sequence, predecessor, kind) + body;
      Ok(sealed + LittleEndian(h.crc(sealed), 4) + LittleEndian(length, 4))
  }

  /** An envelope adds 72 bytes to its body. */
  lemma EnvelopeLength(h: Hashes, sequence: nat, predecessor: ByteString, kind: nat, body: ByteString)
    requires |predecessor| == DIGEST_LENGTH && Envelope(h, sequence, predecessor, kind, body).Ok?
    ensures |Envelope(h, sequence, predecessor, kind, body).value| == |body| + RECORD_OVERHEAD
  {
  }

  predicate ValidHeader(header: ByteString, sequence: nat, predecessor: ByteString)
    requires |header| == 64
  {
    && header[..4] == MAGIC
    && FromLittleEndian(header[4..6]) == 64
    && FromLittleEndian(header[6..8]) == 1
    && 1 <= header[24] <= 3
    && header[25..28] == [0, 0, 0]
    && header[60..64] == [0, 0, 0, 0]
    && FromLittleEndian(header[16..24]) == sequence
    && header[28..60] == predecessor
  }

  /**
   `read_canonical` with `validate_record`: take one record off the input, which
   may hold at most `remaining` bytes of record data.
   */
  function ReadRecord(h: Hashes, input: ByteString, remaining: nat, sequence: nat,
      predecessor: ByteString): Result<ByteString>
  {
    if remaining < RECORD_OVERHEAD || |input| < 64 then Err(Corrupt)
    else
      var length := FromLittleEndian(input[8..12]);
      if !(RECORD_OVERHEAD <= length <= MAX_RECORD_LENGTH) || length > remaining || length > |input| then Err(Corrupt)
      else
        var bytes := input[..length];
        if length != RECORD_OVERHEAD + FromLittleEndian(bytes[12..16])
           || h.crc(bytes[..length - 8]) != FromLittleEndian(bytes[length - 8..length - 4])
           || FromLittleEndian(bytes[length - 4..]) != length
           || !ValidHeader(bytes[..64], sequence, predecessor)
           || (bytes[24] == 3 && length != RECORD_OVERHEAD + POLICY_LENGTH)
        then Err(Corrupt)
        else Ok(bytes)
  }

  lemma HeaderFields(length: nat, sequence: nat, predecessor: ByteString, kind: Byte)
    requires RECORD_OVERHEAD <= length <= MAX_RECORD_LENGTH && ValidSequence(sequence) && 1 <= kind <= 3
    requires |predecessor| == DIGEST_LENGTH
    ensures var header := Header(length, sequence, predecessor, kind);
            && |header| == 64
            && header[24] == kind
            && header[8..12] == LittleEndian(length, 4)
            && header[12..16] == LittleEndian(length - RECORD_OVERHEAD, 4)
            && ValidHeader(header, sequence, predecessor)
  {
    hide LittleEndian, FromLittleEndian;
    Base8();
    LittleEndianRoundTrip(64, 2);
    LittleEndianRoundTrip(1, 2);
    LittleEndianRoundTrip(sequence, 8);
    var front := MAGIC + LittleEndian(64, 2) + LittleEndian(1, 2);
    var middle := LittleEndian(length, 4) + LittleEndian(length - RECORD_OVERHEAD, 4) + LittleEndian(sequence, 8);
    var last := [kind, 0, 0, 0] + predecessor + [0, 0, 0, 0];
    var header := Header(length, sequence, predecessor, kind);
    assert header == front + middle + last;
    Thirds(front, middle, last);
    FrontFields(front);
    MiddleFields(middle, LittleEndian(length, 4), LittleEndian(length - RECORD_OVERHEAD, 4), LittleEndian(sequence, 8));
    LastFields(last, kind, predecessor);
    assert header[4..6] == front[4..6] && header[6..8] == front[6..8] && header[..4] == front[..4];
    assert header[8..12] == middle[..4] && header[12..16] == middle[4..8] && header[16..24] == middle[8..];
    assert header[25..28] == last[1..4] && header[28..60] == last[4..36] && header[60..64] == last[36..];
  }

  lemma Thirds(front: ByteString, middle: ByteString, last: ByteString)
    requires |front| == 8 && |middle| == 16 && |last| == 40
    ensures var header := front + middle + last;
            header[..8] == front && header[8..24] == middle && header[24..] == last
  {
  }

  lemma FrontFields(front: ByteString)
    requires front == MAGIC + LittleEndian(64, 2) + LittleEndian(1, 2)
    ensures |front| == 8 && front[..4] == MAGIC && front[4..6] == LittleEndian(64, 2)
            && front[6..8] == LittleEndian(1, 2)
  {
  }

  lemma MiddleFields(middle: ByteString, a: ByteString, b: ByteString, c: ByteString)
    requires |a| == 4 && |b| == 4 && |c| == 8 && middle == a + b + c
    ensures |middle| == 16 && middle[..4] == a && middle[4..8] == b && middle[8..] == c
  {
  }

  lemma LastFields(last: ByteString, kind: Byte, predecessor: ByteString)
    requires |predecessor| == DIGEST_LENGTH
    requires last == [kind, 0, 0, 0] + predecessor + [0, 0, 0, 0]
    ensures |last| == 40 && last[0] == kind && last[1..4] == [0, 0, 0]
    ensures last[4..36] == predecessor && last[36..] == [0, 0, 0, 0]
  {
  }

  lemma TailFields(bytes: ByteString, sealed: ByteString, crc: ByteString, length: ByteString)
    requires |crc| == 4 && |length| == 4 && bytes == sealed + crc + length
    ensures |bytes| == |sealed| + 8
    ensures bytes[..|bytes| - 8] == sealed
    ensures bytes[|bytes| - 8..|bytes| - 4] == crc
    ensures bytes[|bytes| - 4..] == length
  {
  }

  /** Every reader accepts an envelope exactly where the writer put it. */
  lemma ReadOfEnvelope(h: Hashes, sequence: nat, predecessor: ByteString, kind: nat, body: ByteString,
      suffix: ByteString, remaining: nat)
    requires ValidHashes(h) && |predecessor| == DIGEST_LENGTH
    requires Envelope(h, sequence, predecessor, kind, body).Ok?
    requires kind == 3 ==> |body| == POLICY_LENGTH
    requires remaining >= |Envelope(h, sequence, predecessor, kind, body).value|
    ensures ReadRecord(h, Envelope(h, sequence, predecessor, kind, body).value + suffix, remaining, sequence,
                       predecessor)
         == Envelope(h, sequence, predecessor, kind, body)
    ensures |Envelope(h, sequence, predecessor, kind, body).value| == |body| + RECORD_OVERHEAD
  {
    Base8();
    var length := |body| + RECORD_OVERHEAD;
    var header := Header(length, sequence, predecessor, kind);
    var sealed := header + body;
    var bytes := Envelope(h, sequence, predecessor, kind, body).value;
    var input := bytes + suffix;
    HeaderFields(length, sequence, predecessor, kind);
    LittleEndianRoundTrip(length, 4);
    LittleEndianRoundTrip(length - RECORD_OVERHEAD, 4);
    LittleEndianRoundTrip(h.crc(sealed), 4);
    TailFields(bytes, sealed, LittleEndian(h.crc(sealed), 4), LittleEndian(length, 4));
    assert input[..length] == bytes;
    assert bytes[..64] == header;
    assert input[8..12] == header[8..12] && bytes[12..16] == header[12..16] && bytes[24] == header[24];
  }

  /** The body of an accepted record. */
  function Body(bytes: ByteString): ByteString
    requires |bytes| >= RECORD_OVERHEAD
  {
    bytes[64..|bytes| - 8]
  }

  lemma HeaderOf(header: ByteString, length: nat, sequence: nat, predecessor: ByteString)
    requires |header| == 64 && RECORD_OVERHEAD <= length <= MAX_RECORD_LENGTH
    requires ValidHeader(header, sequence, predecessor)
    requires header[8..12] == LittleEndian(length, 4)
    requires header[12..16] == LittleEndian(length - RECORD_OVERHEAD, 4)
    ensures header == Header(length, sequence, predecessor, header[24])
  {
    Base8();
    FromLittleEndianRoundTrip(header[4..6]);
    FromLittleEndianRoundTrip(header[6..8]);
    FromLittleEndianRoundTrip(header[16..24]);
    FirstThird(header);
    Split(header, 8, 12, 16);
    Split(header, 8, 16, 24);
    LastThird(header, predecessor);
    Split(header, 0, 8, 24);
    Split(header, 0, 24, 64);
    assert header[0..64] == header && header[0..8] == header[..8] && header[24..64] == header[24..];
  }

  lemma FirstThird(header: ByteString)
    requires |header| == 64 && header[..4] == MAGIC
    requires header[4..6] == LittleEndian(64, 2) && header[6..8] == LittleEndian(1, 2)
    ensures header[..8] == MAGIC + LittleEndian(64, 2) + LittleEndian(1, 2)
  {
    Split(header, 0, 4, 6);
    Split(header, 0, 6, 8);
  }

  lemma LastThird(header: ByteString, predecessor: ByteString)
    requires |header| == 64 && header[25..28] == [0, 0, 0]
    requires header[28..60] == predecessor && header[60..64] == [0, 0, 0, 0]
    ensures header[24..] == [header[24], 0, 0, 0] + predecessor + [0, 0, 0, 0]
  {
    Split(header, 24, 25, 28);
    assert header[24..25] == [header[24]];
    assert header[24..28] == [header[24], 0, 0, 0];
    Split(header, 24, 28, 60);
    Split(header, 24, 60, 64);
  }

  lemma HeaderKind(header: ByteString, sequence: nat, predecessor: ByteString)
    requires |header| == 64 && ValidHeader(header, sequence, predecessor)
    ensures 1 <= header[24] <= 3
  {
  }

  /** Readers accept nothing but envelopes, so one sequence and predecessor fix every field. */
  lemma AcceptedRecord(h: Hashes, input: ByteString, remaining: nat, sequence: nat, predecessor: ByteString)
    requires ValidSequence(sequence)
    requires ReadRecord(h, input, remaining, sequence, predecessor).Ok?
    ensures var bytes := ReadRecord(h, input, remaining, sequence, predecessor).value;
            && RECORD_OVERHEAD <= |bytes| <= remaining
            && bytes <= input
            && Envelope(h, sequence, predecessor, bytes[24], Body(bytes)) == Ok(bytes)
  {
    hide LittleEndian, FromLittleEndian, ValidHeader, Header;
    Base8();
    var bytes := ReadRecord(h, input, remaining, sequence, predecessor).value;
    var length := |bytes|;
    FromLittleEndianRoundTrip(bytes[8..12]);
    FromLittleEndianRoundTrip(bytes[12..16]);
    FromLittleEndianRoundTrip(bytes[length - 8..length - 4]);
    FromLittleEndianRoundTrip(bytes[length - 4..]);
    var header := bytes[..64];
    assert bytes[8..12] == input[8..12] == header[8..12] && bytes[12..16] == header[12..16];
    HeaderOf(header, length, sequence, predecessor);
    HeaderKind(header, sequence, predecessor);
    var sealed := header + Body(bytes);
    assert sealed == bytes[..length - 8];
    assert bytes == sealed + bytes[length - 8..length - 4] + bytes[length - 4..];
  }
}
