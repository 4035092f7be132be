/**
 The published manifest and its log segments: which descriptors and which sequences of
 segments are valid, and why every segment the writer grows stays valid.
 */
module Manifests {
  import opened Common
  import opened Bytes
  import opened Records
  import opened Wal

  const MAX_SEGMENTS := (16 * 1024 * 1024 - 272) / 96
  const MAX_PAGES := 0x1_0000_0000_0000

  datatype Descriptor = Descriptor(
    id: nat,
    first: nat,
    last: nat,
    committed: nat,
    predecessor: ByteString,
    lastDigest: ByteString)

  datatype Manifest = Manifest(
    database: ByteString,
    genesis: ByteString,
    cursorNamespace: ByteString,
    generation: nat,
    pageFile: nat,
    pageCount: nat,
    checkpoint: nat,
    checkpointDigest: ByteString,
    durable: nat,
    durableDigest: ByteString,
    historyFloor: nat,
    logFloor: nat,
    nextCursor: nat,
    nextSegment: nat,
    nextPageFile: nat,
    roots: seq<nat>,
    segments: seq<Descriptor>)

  function DivCeil(n: nat, d: nat): nat
    requires d > 0
  {
    (n + d - 1) / d
  }

  predicate ValidId(n: nat) {
    0 < n < U64_MAX
  }

  /** The committed lengths that some grouping of `count` records could have. */
  predicate PossibleLength(count: nat, committed: nat) {
    var groups := DivCeil(count, MAX_GROUP_RECORDS);
    var minimum := DivCeil(count * RECORD_OVERHEAD + groups * GROUP_OVERHEAD, BLOCK_BYTES) * BLOCK_BYTES;
    var maximum := count * DivCeil(MAX_RECORD_LENGTH + GROUP_OVERHEAD, BLOCK_BYTES) * BLOCK_BYTES;
    committed % BLOCK_BYTES == 0 && BLOCK_BYTES + minimum <= committed <= BLOCK_BYTES + maximum
  }

  predicate ValidDescriptor(d: Descriptor) {
    && ValidId(d.id) && ValidId(d.first) && ValidId(d.last) && d.first <= d.last
    && PossibleLength(d.last - d.first + 1, d.committed)
  }

  // ---------------------------------------------------------------- length bounds

  /** The record lengths of one group, and of a segment as its groups. */
  function Sum(lengths: seq<nat>): nat {
    if lengths == [] then 0 else lengths[0] + Sum(lengths[1..])
  }

  predicate ValidLengths(lengths: seq<nat>) {
    forall i :: 0 <= i < |lengths| ==> RECORD_OVERHEAD <= lengths[i] <= MAX_RECORD_LENGTH
  }

  predicate ValidGrouping(groups: seq<seq<nat>>) {
    forall i :: 0 <= i < |groups| ==> 1 <= |groups[i]| <= MAX_GROUP_RECORDS && ValidLengths(groups[i])
  }

  function Count(groups: seq<seq<nat>>): nat {
    if groups == [] then 0 else |groups[0]| + Count(groups[1..])
  }

  /** The bytes the groups take, each padded to a block. */
  function Padded(groups: seq<seq<nat>>): nat {
    if groups == [] then 0 else GroupBytes(GROUP_OVERHEAD + Sum(groups[0])) + Padded(groups[1..])
  }

  lemma {:induction false} SumBounds(lengths: seq<nat>)
    requires ValidLengths(lengths)
    ensures |lengths| * RECORD_OVERHEAD <= Sum(lengths) <= |lengths| * MAX_RECORD_LENGTH
  {
    if lengths != [] {
      SumBounds(lengths[1..]);
    }
  }

  lemma {:induction false} PaddedBounds(groups: seq<seq<nat>>)
    requires ValidGrouping(groups)
    ensures Padded(groups) % BLOCK_BYTES == 0
    ensures Padded(groups) >= Count(groups) * RECORD_OVERHEAD + |groups| * GROUP_OVERHEAD
    ensures Padded(groups) <= Count(groups) * (MAX_RECORD_LENGTH + BLOCK_BYTES)
    ensures Count(groups) <= |groups| * MAX_GROUP_RECORDS
  {
    if groups != [] {
      SumBounds(groups[0]);
      PaddedBounds(groups[1..]);
      GroupCeiling(|groups[0]|, GROUP_OVERHEAD + Sum(groups[0]));
    }
  }

  /** A padded group of `count` records stays within `count` padded maximal records. */
  lemma GroupCeiling(count: nat, bytes: nat)
    requires count > 0 && bytes <= GROUP_OVERHEAD + count * MAX_RECORD_LENGTH
    ensures GroupBytes(bytes) <= count * (MAX_RECORD_LENGTH + BLOCK_BYTES)
  {
    var blocks := count * (MAX_RECORD_LENGTH / BLOCK_BYTES);
    assert count * MAX_RECORD_LENGTH == blocks * BLOCK_BYTES;
    assert (bytes + BLOCK_BYTES - 1) / BLOCK_BYTES <= blocks + 1;
  }

  lemma CeilingLeast(n: nat, m: nat)
    requires n <= m && m % BLOCK_BYTES == 0
    ensures DivCeil(n, BLOCK_BYTES) * BLOCK_BYTES <= m
  {
    var k := m / BLOCK_BYTES;
    assert m == k * BLOCK_BYTES;
    assert n + BLOCK_BYTES - 1 < (k + 1) * BLOCK_BYTES;
    assert (n + BLOCK_BYTES - 1) / BLOCK_BYTES <= k;
  }

  /** However records are grouped, the committed length is one the descriptor check accepts. */
  lemma GroupingPossible(groups: seq<seq<nat>>)
    requires ValidGrouping(groups)
    ensures PossibleLength(Count(groups), BLOCK_BYTES + Padded(groups))
  {
    PaddedBounds(groups);
    var count := Count(groups);
    var least := DivCeil(count, MAX_GROUP_RECORDS);
    assert least <= |groups|;
    assert least * GROUP_OVERHEAD <= |groups| * GROUP_OVERHEAD;
    CeilingLeast(count * RECORD_OVERHEAD + least * GROUP_OVERHEAD, Padded(groups));
    assert DivCeil(MAX_RECORD_LENGTH + GROUP_OVERHEAD, BLOCK_BYTES) * BLOCK_BYTES == MAX_RECORD_LENGTH + BLOCK_BYTES;
    var blocks := DivCeil(MAX_RECORD_LENGTH + GROUP_OVERHEAD, BLOCK_BYTES);
    assert count * blocks * BLOCK_BYTES == count * (blocks * BLOCK_BYTES);
  }

  // ---------------------------------------------------------------- manifests

  predicate ValidHead(m: Manifest) {
    && |m.segments| <= MAX_SEGMENTS
    && m.database != Zeros(16) && m.cursorNamespace != Zeros(16)
    && ValidId(m.generation) && ValidId(m.pageFile)
    && m.nextCursor != 0 && m.nextSegment != 0 && m.nextPageFile > m.pageFile
    && 0 < m.pageCount <= MAX_PAGES
    && |m.roots| == 5 && m.roots[2] != 0
    && (forall i :: 0 <= i < 5 ==> m.roots[i] < m.pageCount)
    && (forall i, j :: 0 <= i < j < 5 && m.roots[j] != 0 ==> m.roots[i] != m.roots[j])
  }

  predicate ValidFrontiers(m: Manifest) {
    && m.durable != U64_MAX
    && m.historyFloor <= m.checkpoint <= m.durable
    && 0 < m.logFloor <= m.checkpoint + 1
    && (m.checkpoint == 0 ==> m.checkpointDigest == m.genesis)
    && (m.durable == 0 ==> m.durableDigest == m.genesis)
    && (m.checkpoint == m.durable ==> m.checkpointDigest == m.durableDigest)
  }

  /** Agreement of a segment's edges with the checkpoint anchor. */
  predicate EdgesAgree(m: Manifest, d: Descriptor) {
    && (d.first == m.checkpoint + 1 ==> d.predecessor == m.checkpointDigest)
    && (d.last == m.checkpoint ==> d.lastDigest == m.checkpointDigest)
  }

  function FirstPredecessor(m: Manifest): Option<ByteString> {
    if m.logFloor == 1 then Some(m.genesis)
    else if m.logFloor == m.checkpoint + 1 then Some(m.checkpointDigest)
    else None
  }

  /** Segment `j` continues the one before it, or starts at the log floor. */
  predicate Continues(m: Manifest, j: nat)
    requires j < |m.segments|
  {
    var d := m.segments[j];
    && ValidDescriptor(d) && d.id < m.nextSegment && EdgesAgree(m, d)
    && if j == 0
       then d.first == m.logFloor && (FirstPredecessor(m).Some? ==> d.predecessor == FirstPredecessor(m).value)
       else
         var p := m.segments[j - 1];
         d.id > p.id && d.first == p.last + 1 && d.predecessor == p.lastDigest
  }

  /** What `validate_manifest` accepts: the segments partition the records from the log floor to the durable end. */
  ghost predicate ValidManifest(m: Manifest) {
    && ValidHead(m) && ValidFrontiers(m)
    && (forall j :: 0 <= j < |m.segments| ==> Continues(m, j))
    && if m.segments == []
       then m.durable == m.checkpoint && m.logFloor == m.durable + 1
       else m.segments[|m.segments| - 1].last == m.durable && m.segments[|m.segments| - 1].lastDigest == m.durableDigest
  }

  // ---------------------------------------------------------------- appending

  /** A group of `count` records whose frames take `bytes` before padding. */
  predicate GroupSize(count: nat, bytes: nat) {
    && 1 <= count <= MAX_GROUP_RECORDS
    && GROUP_OVERHEAD + count * RECORD_OVERHEAD <= bytes <= GROUP_OVERHEAD + count * MAX_RECORD_LENGTH
  }

  /** `append_group` as it changes the manifest: segment `id` is started, or the last one grows. */
  function Extended(m: Manifest, count: nat, bytes: nat, digest: ByteString, rotate: bool, id: nat): Manifest {
    var last := m.durable + count;
    var next := m.(durable := last, durableDigest := digest);
    if rotate || m.segments == [] then
      next.(segments := m.segments
          + [Descriptor(id, m.durable + 1, last, BLOCK_BYTES + bytes, m.durableDigest, digest)],
            nextSegment := id + 1)
    else
      var tail := m.segments[|m.segments| - 1];
      next.(segments := m.segments[..|m.segments| - 1]
                        + [tail.(last := last, committed := tail.committed + bytes, lastDigest := digest)])
  }

  /** One padded group alone is a possible segment. */
  lemma GroupPossible(count: nat, bytes: nat)
    requires GroupSize(count, bytes)
    ensures PossibleLength(count, BLOCK_BYTES + GroupBytes(bytes))
  {
    var lengths := Spread(count, bytes - GROUP_OVERHEAD);
    GroupingPossible([lengths]);
    assert Count([lengths]) == count && Padded([lengths]) == GroupBytes(bytes);
  }

  /** Some records of legal lengths add up to any total within the bounds. */
  lemma {:induction false} Spread(count: nat, total: nat) returns (lengths: seq<nat>)
    requires count * RECORD_OVERHEAD <= total <= count * MAX_RECORD_LENGTH
    ensures |lengths| == count && Sum(lengths) == total && ValidLengths(lengths)
  {
    if count == 0 {
      lengths := [];
    } else {
      var rest := total - (count - 1) * RECORD_OVERHEAD;
      var first := if rest <= MAX_RECORD_LENGTH then rest else MAX_RECORD_LENGTH;
      var more := Spread(count - 1, total - first);
      lengths := [first] + more;
    }
  }

  lemma CeilingSum(a: nat, b: nat, d: nat)
    requires d > 0
    ensures DivCeil(a + b, d) <= DivCeil(a, d) + DivCeil(b, d)
  {
    CeilingCovers(a, d);
    CeilingCovers(b, d);
    var k := DivCeil(a, d) + DivCeil(b, d);
    CeilingBelow(a + b, k, d);
  }

  lemma CeilingBelow(n: nat, k: nat, d: nat)
    requires d > 0 && n <= k * d
    ensures DivCeil(n, d) <= k
  {
    hide DivCeil;
    CeilingCovers(n, d);
    assert (k + 1) * d == k * d + d;
    Multiples(DivCeil(n, d), k + 1, d);
  }

  lemma Multiples(a: nat, b: nat, d: nat)
    requires a * d < b * d
    ensures a < b
  {
  }

  lemma CeilingCovers(n: nat, d: nat)
    requires d > 0
    ensures n <= DivCeil(n, d) * d < n + d
  {
  }

  /** The least length of `n` records, before its header block. */
  function Least(n: nat): nat {
    DivCeil(n * RECORD_OVERHEAD + DivCeil(n, MAX_GROUP_RECORDS) * GROUP_OVERHEAD, BLOCK_BYTES) * BLOCK_BYTES
  }

  lemma LeastSum(n: nat, k: nat)
    ensures Least(n + k) <= Least(n) + Least(k)
  {
    hide DivCeil;
    var a, b, c := DivCeil(n, MAX_GROUP_RECORDS), DivCeil(k, MAX_GROUP_RECORDS), DivCeil(n + k, MAX_GROUP_RECORDS);
    CeilingSum(n, k, MAX_GROUP_RECORDS);
    var x, y := n * RECORD_OVERHEAD + a * GROUP_OVERHEAD, k * RECORD_OVERHEAD + b * GROUP_OVERHEAD;
    var z := (n + k) * RECORD_OVERHEAD + c * GROUP_OVERHEAD;
    assert z <= x + y;
    CeilingSum(x, y, BLOCK_BYTES);
    CeilingMonotone(z, x + y, BLOCK_BYTES);
  }

  lemma CeilingMonotone(a: nat, b: nat, d: nat)
    requires d > 0 && a <= b
    ensures DivCeil(a, d) <= DivCeil(b, d)
  {
    CeilingCovers(b, d);
    CeilingBelow(a, DivCeil(b, d), d);
  }

  /** A possible segment with a possible group behind it is a possible segment. */
  lemma PossibleSum(n: nat, committed: nat, k: nat, bytes: nat)
    requires PossibleLength(n, committed) && PossibleLength(k, BLOCK_BYTES + bytes)
    ensures PossibleLength(n + k, committed + bytes)
  {
    hide PossibleLength, Least;
    LengthIs(n, committed);
    LengthIs(k, BLOCK_BYTES + bytes);
    LengthIs(n + k, committed + bytes);
    LeastSum(n, k);
    WholeBlocks(committed, bytes);
    assert (n + k) * (MAX_RECORD_LENGTH + BLOCK_BYTES)
        == n * (MAX_RECORD_LENGTH + BLOCK_BYTES) + k * (MAX_RECORD_LENGTH + BLOCK_BYTES);
  }

  lemma WholeBlocks(committed: nat, bytes: nat)
    requires committed % BLOCK_BYTES == 0 && (BLOCK_BYTES + bytes) % BLOCK_BYTES == 0
    ensures (committed + bytes) % BLOCK_BYTES == 0
  {
  }

  lemma LengthIs(n: nat, committed: nat)
    ensures PossibleLength(n, committed) <==>
            && committed % BLOCK_BYTES == 0
            && BLOCK_BYTES + Least(n) <= committed <= BLOCK_BYTES + n * (MAX_RECORD_LENGTH + BLOCK_BYTES)
  {
    var unit := DivCeil(MAX_RECORD_LENGTH + GROUP_OVERHEAD, BLOCK_BYTES);
    assert unit * BLOCK_BYTES == MAX_RECORD_LENGTH + BLOCK_BYTES;
    assert n * unit * BLOCK_BYTES == n * (unit * BLOCK_BYTES);
  }

  /**
   Appending a group to a valid manifest gives a valid manifest, whether it grows the tail or
   starts a segment; only a full table of segments stands in the way.
   */
  lemma ExtendedValid(m: Manifest, count: nat, bytes: nat, digest: ByteString, rotate: bool, id: nat)
    requires ValidManifest(m) && GroupSize(count, bytes) && m.durable + count < U64_MAX
    requires rotate || m.segments == [] ==> ValidId(id) && m.nextSegment <= id
    ensures ValidManifest(Extended(m, count, GroupBytes(bytes), digest, rotate, id)) <==>
            (rotate ==> |m.segments| < MAX_SEGMENTS)
  {
    if rotate || m.segments == [] {
      StartedValid(m, count, bytes, digest, rotate, id);
    } else {
      GrownValid(m, count, bytes, digest, id);
    }
  }

  lemma StartedValid(m: Manifest, count: nat, bytes: nat, digest: ByteString, rotate: bool, id: nat)
    requires ValidManifest(m) && GroupSize(count, bytes) && m.durable + count < U64_MAX
    requires (rotate || m.segments == []) && ValidId(id) && m.nextSegment <= id
    ensures ValidManifest(Extended(m, count, GroupBytes(bytes), digest, rotate, id)) <==> |m.segments| < MAX_SEGMENTS
  {
    hide PossibleLength, GroupBytes, GroupSize;
    var next := Extended(m, count, GroupBytes(bytes), digest, rotate, id);
    GroupPossible(count, bytes);
    GroupCount(count, bytes);
    forall j | 0 <= j < |next.segments|
      ensures Continues(next, j)
    {
      if j < |m.segments| {
        assert Continues(m, j);
      } else if j > 0 {
        assert Continues(m, j - 1);
      }
    }
  }

  lemma GrownValid(m: Manifest, count: nat, bytes: nat, digest: ByteString, id: nat)
    requires ValidManifest(m) && GroupSize(count, bytes) && m.durable + count < U64_MAX && m.segments != []
    ensures ValidManifest(Extended(m, count, GroupBytes(bytes), digest, false, id))
  {
    hide PossibleLength, GroupBytes, GroupSize;
    var next := Extended(m, count, GroupBytes(bytes), digest, false, id);
    var last := |m.segments| - 1;
    var tail := m.segments[last];
    GroupPossible(count, bytes);
    GroupCount(count, bytes);
    assert Continues(m, last);
    PossibleSum(tail.last - tail.first + 1, tail.committed, count, GroupBytes(bytes));
    forall j | 0 <= j < |next.segments|
      ensures Continues(next, j)
    {
      assert Continues(m, j);
    }
  }

  lemma GroupCount(count: nat, bytes: nat)
    requires GroupSize(count, bytes)
    ensures count > 0
  {
  }

  // ---------------------------------------------------------------- partition

  /** Every record from the log floor to the durable end lies in exactly one segment. */
  lemma {:induction false} SegmentsPartition(m: Manifest, n: nat, k: nat)
    requires ValidManifest(m) && k <= |m.segments|
    requires m.logFloor <= n && (k < |m.segments| ==> n < m.segments[k].first) && (k == |m.segments| ==> n <= m.durable)
    ensures exists j :: 0 <= j < k && m.segments[j].first <= n <= m.segments[j].last
    decreases k
  {
    assert m.segments != [] ==> Continues(m, 0);
    if k > 0 {
      var d := m.segments[k - 1];
      assert Continues(m, k - 1);
      assert k < |m.segments| ==> Continues(m, k);
      if n < d.first {
        SegmentsPartition(m, n, k - 1);
      }
    }
  }

  lemma {:induction false} SegmentsAscend(m: Manifest, i: nat, j: nat)
    requires ValidManifest(m) && i < j < |m.segments|
    ensures m.segments[i].last < m.segments[j].first && m.segments[i].id < m.segments[j].id
    decreases j
  {
    assert Continues(m, j) && Continues(m, j - 1);
    if i < j - 1 {
      SegmentsAscend(m, i, j - 1);
    }
  }

  /** The loop of `validate_manifest`. */
  method ValidateManifest(m: Manifest) returns (ok: bool)
    ensures ok <==> ValidManifest(m)
  {
    if !ValidHead(m) || !ValidFrontiers(m) {
      return false;
    }
    if m.segments == [] {
      return m.durable == m.checkpoint && m.logFloor == m.durable + 1;
    }
    var next, previous := m.logFloor, 0;
    var predecessor := FirstPredecessor(m);
    for j := 0 to |m.segments|
      invariant forall k :: 0 <= k < j ==> Continues(m, k)
      invariant j == 0 ==> next == m.logFloor && previous == 0 && predecessor == FirstPredecessor(m)
      invariant j > 0 ==> next == m.segments[j - 1].last + 1 && previous == m.segments[j - 1].id
                          && predecessor == Some(m.segments[j - 1].lastDigest)
    {
      var d := m.segments[j];
      if !ValidDescriptor(d) || d.id <= previous || d.id >= m.nextSegment || d.first != next
         || (predecessor.Some? && predecessor.value != d.predecessor) || !EdgesAgree(m, d) {
        assert !Continues(m, j);
        return false;
      }
      previous, next, predecessor := d.id, d.last + 1, Some(d.lastDigest);
    }
    ok := next == m.durable + 1 && predecessor == Some(m.durableDigest);
  }
}
