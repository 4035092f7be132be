/**
 Whole pages: the header every page carries, and the node codec over it. Encoding a
 legal node and decoding an accepted page are inverse to each other.
 */
module PageNode {
  import opened Common
  import opened Bytes
  import opened Page
  import Records
  import Wal

  // ---------------------------------------------------------------- header

  datatype Head = Head(kind: nat, level: nat, id: nat, tree: nat, cells: nat, lower: nat, upper: nat, link: nat,
      payload: nat)

  predicate Fits(head: Head) {
    && head.kind < 256 && head.level < 256 && head.id < Base(8) && head.tree < Base(4) && head.cells < Base(2)
    && head.lower < Base(2) && head.upper < Base(2) && head.link < Base(8) && head.payload < Base(4)
  }

  function HeaderBytes(head: Head, crc: nat): (r: ByteString)
    requires head.kind < 256 && head.level < 256
    ensures |r| == 64
  {
    (PAGE_MAGIC + LittleEndian(1, 2) + [head.kind, head.level])
    + LittleEndian(head.id, 8)
    + (LittleEndian(head.tree, 4) + LittleEndian(head.cells, 2) + [0, 0])
    + (LittleEndian(head.lower, 2) + LittleEndian(head.upper, 2) + [0, 0, 0, 0])
    + LittleEndian(head.link, 8)
    + (LittleEndian(head.payload, 4) + Wal.Zeros(16))
    + LittleEndian(crc, 4)
  }

  function ReadHead(page: ByteString): Head
    requires |page| == PAGE_SIZE
  {
    Head(page[6], page[7], FromLittleEndian(page[8..16]), FromLittleEndian(page[16..20]),
        FromLittleEndian(page[20..22]),
      FromLittleEndian(page[24..26]), FromLittleEndian(page[26..28]), FromLittleEndian(page[32..40]),
          FromLittleEndian(page[40..44]))
  }

  /** The fixed and reserved bytes of every header. */
  predicate Framed(page: ByteString)
    requires |page| == PAGE_SIZE
  {
    && page[..4] == PAGE_MAGIC && FromLittleEndian(page[4..6]) == 1
    && page[22..24] == [0, 0] && page[28..32] == [0, 0, 0, 0] && page[44..60] == Wal.Zeros(16)
  }

  /** `checksum`: the whole page with a zero checksum field. */
  function Seal(h: Records.Hashes, head: Head, body: ByteString): ByteString
    requires head.kind < 256 && head.level < 256
  {
    HeaderBytes(head, h.crc(HeaderBytes(head, 0) + body)) + body
  }

  predicate CrcValid(h: Records.Hashes, page: ByteString)
    requires |page| == PAGE_SIZE
  {
    h.crc(page[..60] + [0, 0, 0, 0] + page[64..]) == FromLittleEndian(page[60..64])
  }

  lemma SevenParts(r: ByteString, a: ByteString, b: ByteString, c: ByteString, d: ByteString, e: ByteString,
      f: ByteString, g: ByteString)
    requires |a| == 8 && |b| == 8 && |c| == 8 && |d| == 8 && |e| == 8 && |f| == 20 && |g| == 4
    requires r == a + b + c + d + e + f + g
    ensures |r| == 64 && r[..8] == a && r[8..16] == b && r[16..24] == c && r[24..32] == d && r[32..40] == e
    ensures r[40..60] == f && r[60..64] == g && r[..60] == a + b + c + d + e + f
  {
  }

  lemma FirstPart(a: ByteString, kind: Byte, level: Byte)
    requires a == PAGE_MAGIC + LittleEndian(1, 2) + [kind, level]
    ensures |a| == 8 && a[..4] == PAGE_MAGIC && a[4..6] == LittleEndian(1, 2) && a[6] == kind && a[7] == level
  {
  }

  lemma CountPart(c: ByteString, tree: ByteString, cells: ByteString)
    requires |tree| == 4 && |cells| == 2 && c == tree + cells + [0, 0]
    ensures |c| == 8 && c[..4] == tree && c[4..6] == cells && c[6..] == [0, 0]
  {
  }

  lemma BoundsPart(d: ByteString, lower: ByteString, upper: ByteString)
    requires |lower| == 2 && |upper| == 2 && d == lower + upper + [0, 0, 0, 0]
    ensures |d| == 8 && d[..2] == lower && d[2..4] == upper && d[4..] == [0, 0, 0, 0]
  {
  }

  /** What a written header reads back as. */
  lemma HeadOfHeader(head: Head, crc: nat, body: ByteString)
    requires Fits(head) && crc < Base(4) && |body| == PAGE_SIZE - 64
    ensures var page := HeaderBytes(head, crc) + body;
            && |page| == PAGE_SIZE && Framed(page) && ReadHead(page) == head && FromLittleEndian(page[60..64]) == crc
            && page[..60] == HeaderBytes(head, 0)[..60] && page[64..] == body && page[..64] == HeaderBytes(head, crc)
  {
    hide LittleEndian, FromLittleEndian, Base;
    var page := HeaderBytes(head, crc) + body;
    var a := PAGE_MAGIC + LittleEndian(1, 2) + [head.kind, head.level];
    var c := LittleEndian(head.tree, 4) + LittleEndian(head.cells, 2) + [0, 0];
    var d := LittleEndian(head.lower, 2) + LittleEndian(head.upper, 2) + [0, 0, 0, 0];
    var f := LittleEndian(head.payload, 4) + Wal.Zeros(16);
    FirstPart(a, head.kind, head.level);
    CountPart(c, LittleEndian(head.tree, 4), LittleEndian(head.cells, 2));
    BoundsPart(d, LittleEndian(head.lower, 2), LittleEndian(head.upper, 2));
    SevenParts(HeaderBytes(head, crc), a, LittleEndian(head.id, 8), c, d, LittleEndian(head.link, 8), f,
        LittleEndian(crc, 4));
    SevenParts(HeaderBytes(head, 0), a, LittleEndian(head.id, 8), c, d, LittleEndian(head.link, 8), f,
        LittleEndian(0, 4));
    OneFits();
    LittleEndianRoundTrip(1, 2);
    LittleEndianRoundTrip(head.id, 8);
    LittleEndianRoundTrip(head.tree, 4);
    LittleEndianRoundTrip(head.cells, 2);
    LittleEndianRoundTrip(head.lower, 2);
    LittleEndianRoundTrip(head.upper, 2);
    LittleEndianRoundTrip(head.link, 8);
    LittleEndianRoundTrip(head.payload, 4);
    LittleEndianRoundTrip(crc, 4);
    PageOfHeader(page, HeaderBytes(head, crc), body);
    assert page[..4] == a[..4] && page[4..6] == a[4..6] && page[6] == a[6] && page[7] == a[7];
    assert page[16..20] == c[..4] && page[20..22] == c[4..6] && page[22..24] == c[6..];
    assert page[24..26] == d[..2] && page[26..28] == d[2..4] && page[28..32] == d[4..];
    assert page[40..44] == f[..4] && page[44..60] == f[4..];
  }

  lemma OneFits()
    ensures 1 < Base(2)
  {
    Base8();
  }

  lemma PageOfHeader(page: ByteString, header: ByteString, body: ByteString)
    requires |header| == 64 && page == header + body
    ensures page[..64] == header && page[64..] == body && page[..60] == header[..60] && page[60..64] == header[60..64]
    ensures page[..8] == header[..8] && page[8..16] == header[8..16] && page[16..24] == header[16..24]
    ensures page[24..32] == header[24..32] && page[32..40] == header[32..40] && page[40..60] == header[40..60]
  {
  }

  /** A framed page with a good checksum is the sealed form of its own header and body. */
  lemma HeaderOfHead(h: Records.Hashes, page: ByteString)
    requires |page| == PAGE_SIZE && Framed(page) && CrcValid(h, page)
    ensures page == Seal(h, ReadHead(page), page[64..])
  {
    hide LittleEndian, FromLittleEndian;
    var head := ReadHead(page);
    FromLittleEndianRoundTrip(page[4..6]);
    FromLittleEndianRoundTrip(page[8..16]);
    FromLittleEndianRoundTrip(page[16..20]);
    FromLittleEndianRoundTrip(page[20..22]);
    FromLittleEndianRoundTrip(page[24..26]);
    FromLittleEndianRoundTrip(page[26..28]);
    FromLittleEndianRoundTrip(page[32..40]);
    FromLittleEndianRoundTrip(page[40..44]);
    FromLittleEndianRoundTrip(page[60..64]);
    ZeroWord();
    HeadWhole(page);
    var front := page[..60];
    assert HeaderBytes(head, 0) == front + [0, 0, 0, 0];
    assert page == front + page[60..64] + page[64..];
  }

  lemma ZeroWord()
    ensures LittleEndian(0, 4) == [0, 0, 0, 0]
  {
    assert LittleEndian(0, 4) == [0, 0, 0, 0];
  }

  lemma HeadWhole(page: ByteString)
    requires |page| == PAGE_SIZE
    ensures page[..60] == (page[..4] + page[4..6] + [page[6], page[7]]) + page[8..16]
                          + (page[16..20] + page[20..22] + page[22..24]) + (page[24..26] + page[26..28] + page[28..32])
                          + page[32..40] + (page[40..44] + page[44..60])
  {
    var r := (page[..4] + page[4..6] + [page[6], page[7]]) + page[8..16]
             + (page[16..20] + page[20..22] + page[22..24]) + (page[24..26] + page[26..28] + page[28..32])
             + page[32..40] + (page[40..44] + page[44..60]);
    assert page[..4] + page[4..6] + [page[6], page[7]] == page[..8];
    assert page[16..20] + page[20..22] + page[22..24] == page[16..24];
    assert page[24..26] + page[26..28] + page[28..32] == page[24..32];
    assert page[40..44] + page[44..60] == page[40..60];
  }

  /** `validate_header`; tree zero stands for the file header's page. */
  predicate ValidPage(h: Records.Hashes, page: ByteString, id: nat, tree: nat, count: nat)
    requires |page| == PAGE_SIZE
  {
    var head := ReadHead(page);
    && Framed(page) && CrcValid(h, page) && head.id == id && head.tree == tree
    && match head.kind
       case 0 =>
         id == 0 && head == Head(0, 0, 0, tree, 0, 64, PAGE_SIZE, 0, 32)
         && page[96..] == Wal.Zeros(PAGE_SIZE - 96)
       case 1 => id != 0 && NodeBounds(page, head) && head.level == 0 && head.link == 0
       case 2 => id != 0 && NodeBounds(page, head) && head.level != 0 && ValidRef(head.link, count)
       case 3 =>
         && id != 0 && head.level == 0 && head.cells == 0 && head.lower == 64 && head.upper == PAGE_SIZE
         && 1 <= head.payload <= PAYLOAD_SIZE && (head.link != 0 ==> ValidRef(head.link, count))
         && page[64 + head.payload..] == Wal.Zeros(PAYLOAD_SIZE - head.payload)
       case _ => false
  }

  predicate NodeBounds(page: ByteString, head: Head)
    requires |page| == PAGE_SIZE
  {
    && head.cells > 0 && head.lower == 64 + 4 * head.cells && head.lower <= head.upper <= PAGE_SIZE && head.payload == 0
    && page[head.lower..head.upper] == Wal.Zeros(head.upper - head.lower)
  }

  // ---------------------------------------------------------------- nodes

  function NodeCells(node: Node): seq<Cell>
    requires node.Internal? ==> |node.children| == |node.keys| + 1
  {
    match node
    case Leaf(cells) => seq(|cells|, i requires 0 <= i < |cells| => Cell(cells[i].key, Stored(cells[i].value)))
    case Internal(_, keys, children) => seq(|keys|, i requires 0 <= i < |keys| => Cell(keys[i], Child(children[i + 1])))
  }

  function EncodeAll(cells: seq<Cell>): (r: seq<ByteString>)
    ensures |r| == |cells|
  {
    seq(|cells|, i requires 0 <= i < |cells| => EncodeCell(cells[i]))
  }

  function NodeOf(head: Head, cells: seq<Cell>): Result<Node> {
    if head.kind == 1 then
      if forall i :: 0 <= i < |cells| ==> cells[i].payload.Stored? then
        Ok(Leaf(seq(|cells|, i requires 0 <= i < |cells| && cells[i].payload.Stored? =>
                  LeafCell(cells[i].key, cells[i].payload.value))))
      else Err(Corrupt)
    else if forall i :: 0 <= i < |cells| ==> cells[i].payload.Child? then
      Ok(Internal(head.level,
           seq(|cells|, i requires 0 <= i < |cells| => cells[i].key),
           [head.link] + seq(|cells|, i requires 0 <= i < |cells| && cells[i].payload.Child? => cells[i].payload.id)))
    else Err(Corrupt)
  }

  /** `encode_node` and `append`: the sealed page of a node at a page ID. */
  function NodePage(h: Records.Hashes, tree: nat, node: Node, id: nat): Result<ByteString> {
    if node.Internal?
        && (node.level == 0 || node.level > 255 || |node.children| != |node.keys| + 1 || 0 in node.children)
    then Err(InvalidInput)
    else
      var cells := NodeCells(node);
      var encoded := EncodeAll(cells);
      if |cells| == 0 || 64 + 4 * |cells| > Start(encoded, |encoded|)
          || !(forall i :: 0 <= i < |cells| ==> |cells[i].key| <= MAX_KEY)
      then Err(InvalidInput)
      else
        var upper := Start(encoded, |encoded|);
        var head := Head(if node.Leaf? then 1 else 2, node.Level(), id, tree, |cells|, 64 + 4 * |cells|, upper,
                         if node.Leaf? then 0 else node.children[0], 0);
        Ok(Seal(h, head, Body(encoded)))
  }

  /** The slot loop of `decode_node`, from slot `i` with the previous cell starting at `end`. */
  function DecodeSlots(page: ByteString, leaf: bool, pageCount: nat, i: nat, count: nat, end: nat, upper: nat,
      previous: Option<ByteString>): Result<(seq<Cell>, nat)>
    requires |page| == PAGE_SIZE && i <= count && 64 + 4 * count <= PAGE_SIZE && end <= PAGE_SIZE
    decreases count - i
  {
    if i == count then Ok(([], end))
    else
      var offset, length :=
        FromLittleEndian(page[64 + 4 * i..66 + 4 * i]), FromLittleEndian(page[66 + 4 * i..68 + 4 * i]);
      if offset < upper || offset + length != end || length < Fixed(leaf) then Err(Corrupt)
      else
        var cell :- DecodeCell(leaf, page[offset..end], pageCount);
        if previous.Some? && !Less(previous.value, cell.key) then Err(Corrupt)
        else
          var (rest, final) :- DecodeSlots(page, leaf, pageCount, i + 1, count, offset, upper, Some(cell.key));
          Ok(([cell] + rest, final))
  }

  /** `decode_node` on a page whose header is valid. */
  function DecodeNode(page: ByteString, pageCount: nat): Result<Node>
    requires |page| == PAGE_SIZE && 64 + 4 * ReadHead(page).cells <= PAGE_SIZE
  {
    var head := ReadHead(page);
    if !(1 <= head.kind <= 2) then Err(Corrupt)
    else
      var (cells, end) :- DecodeSlots(page, head.kind == 1, pageCount, 0, head.cells, PAGE_SIZE, head.upper, None);
      if end != head.upper then Err(Corrupt) else NodeOf(head, cells)
  }

  ghost predicate Sorted(cells: seq<Cell>) {
    forall i :: 0 <= i < |cells| - 1 ==> Less(cells[i].key, cells[i + 1].key)
  }

  /** Nodes the tree writes: ordered keys, values stored by the inline rule, children within the file. */
  ghost predicate LegalNode(node: Node, pageCount: nat) {
    && (node.Internal? ==>
          0 < node.level < 256 && |node.children| == |node.keys| + 1 && ValidRef(node.children[0], pageCount))
    && Sorted(NodeCells(node))
    && (forall i :: 0 <= i < |NodeCells(node)| ==> LegalCell(node.Leaf?, NodeCells(node)[i], pageCount))
  }

  // ---------------------------------------------------------------- which nodes fit

  /** The bytes of a cell: its fixed part, its key and, in a leaf, a short value. */
  function CellBytes(c: Cell): nat {
    match c.payload
    case Stored(Inline(bytes)) => 16 + |c.key| + |bytes|
    case Stored(Overflow(_, _)) => 16 + |c.key|
    case Child(_) => 12 + |c.key|
  }

  /** The slots and bytes of the first `n` cells. */
  function Occupied(cells: seq<Cell>, n: nat): nat
    requires n <= |cells|
  {
    if n == 0 then 0 else Occupied(cells, n - 1) + 4 + CellBytes(cells[n - 1])
  }

  lemma {:induction false} StartOccupied(cells: seq<Cell>, n: nat)
    requires n <= |cells|
    ensures Start(EncodeAll(cells), n) == PAGE_SIZE - Occupied(cells, n) + 4 * n
  {
    if n > 0 {
      StartOccupied(cells, n - 1);
    }
  }

  /** A legal node fits a page exactly when it has a cell and header, slots and cells take at most the page. */
  lemma NodeFits(h: Records.Hashes, tree: nat, node: Node, id: nat, count: nat)
    requires LegalNode(node, count)
    ensures var cells := NodeCells(node);
            NodePage(h, tree, node, id).Ok? <==> |cells| > 0 && 64 + Occupied(cells, |cells|) <= 16384
  {
    hide Seal, Body, EncodeCell, Occupied, Start;
    var cells := NodeCells(node);
    StartOccupied(cells, |cells|);
    forall i | 0 <= i < |cells|
      ensures |cells[i].key| <= MAX_KEY
    {
      assert LegalCell(node.Leaf?, cells[i], count);
    }
    if node.Internal? {
      forall i | 0 <= i < |node.children|
        ensures node.children[i] != 0
      {
        if i > 0 {
          assert LegalCell(false, cells[i - 1], count);
        }
      }
    }
  }

  // ---------------------------------------------------------------- decode after encode

  lemma {:induction false} DecodePlaced(page: ByteString, leaf: bool, pageCount: nat, cells: seq<Cell>, i: nat,
      upper: nat)
    requires |page| == PAGE_SIZE && i <= |cells| && 64 + 4 * |cells| <= PAGE_SIZE && pageCount <= MAX_PAGES
    requires AllPlaced(page, EncodeAll(cells)) && Sorted(cells)
    requires forall k :: 0 <= k < |cells| ==> LegalCell(leaf, cells[k], pageCount)
    requires 0 <= Start(EncodeAll(cells), |cells|) && upper <= Start(EncodeAll(cells), |cells|)
    ensures 0 <= Start(EncodeAll(cells), i)
    ensures DecodeSlots(page, leaf, pageCount, i, |cells|, Start(EncodeAll(cells), i), upper,
                        if i == 0 then None else Some(cells[i - 1].key))
         == Ok((cells[i..], Start(EncodeAll(cells), |cells|) as nat))
    decreases |cells| - i
  {
    hide EncodeCell, DecodeCell, LegalCell, LittleEndian, FromLittleEndian, Less, AllPlaced, EncodeAll, Start;
    var encoded := EncodeAll(cells);
    StartFalls(encoded, i, |cells|);
    if i < |cells| {
      StartFalls(encoded, i + 1, |cells|);
      PlacedSlot(page, leaf, pageCount, cells, i);
      DecodePlaced(page, leaf, pageCount, cells, i + 1, upper);
      assert cells[i..] == [cells[i]] + cells[i + 1..];
    } else {
      assert cells[i..] == [];
    }
  }

  /** What the decoder reads at slot `i` of a placed page. */
  lemma PlacedSlot(page: ByteString, leaf: bool, pageCount: nat, cells: seq<Cell>, i: nat)
    requires |page| == PAGE_SIZE && i < |cells| && 64 + 4 * |cells| <= PAGE_SIZE && pageCount <= MAX_PAGES
    requires AllPlaced(page, EncodeAll(cells)) && LegalCell(leaf, cells[i], pageCount)
    requires 0 <= Start(EncodeAll(cells), i + 1)
    ensures var encoded := EncodeAll(cells);
            && Start(encoded, i + 1) <= Start(encoded, i) <= PAGE_SIZE
            && FromLittleEndian(page[64 + 4 * i..66 + 4 * i]) == Start(encoded, i + 1)
            && FromLittleEndian(page[66 + 4 * i..68 + 4 * i])
               == Start(encoded, i) - Start(encoded, i + 1) >= Fixed(leaf)
            && DecodeCell(leaf, page[Start(encoded, i + 1)..Start(encoded, i)], pageCount) == Ok(cells[i])
  {
    hide EncodeCell, DecodeCell, LegalCell, LittleEndian, FromLittleEndian;
    var encoded := EncodeAll(cells);
    assert PlacedAt(page, encoded, i);
    DecodeOfEncodeCell(leaf, cells[i], pageCount);
    SmallFits(Start(encoded, i + 1));
    SmallFits(|encoded[i]|);
    LittleEndianRoundTrip(Start(encoded, i + 1), 2);
    LittleEndianRoundTrip(|encoded[i]|, 2);
  }

  lemma SmallFits(n: nat)
    requires n <= PAGE_SIZE
    ensures n < Base(2)
  {
    Base8();
  }

  lemma NodeOfCells(node: Node, head: Head)
    requires node.Internal? ==> |node.children| == |node.keys| + 1
    requires head.kind == (if node.Leaf? then 1 else 2) && head.level == node.Level()
    requires node.Internal? ==> head.link == node.children[0]
    ensures NodeOf(head, NodeCells(node)) == Ok(node)
  {
    var cells := NodeCells(node);
    match node
    case Leaf(leaves) =>
      assert NodeOf(head, cells).value.cells == leaves;
    case Internal(_, keys, children) =>
      assert NodeOf(head, cells).value.keys == keys;
      assert NodeOf(head, cells).value.children == children;
  }

  /** A written node page is valid where it was written, and reads back as the node. */
  lemma DecodeOfEncode(h: Records.Hashes, tree: nat, node: Node, id: nat, pageCount: nat)
    requires Records.ValidHashes(h) && LegalNode(node, pageCount) && pageCount <= MAX_PAGES
    requires 0 < id <= MAX_PAGES && tree < Base(4)
    requires NodePage(h, tree, node, id).Ok?
    ensures var page := NodePage(h, tree, node, id).value;
            && |page| == PAGE_SIZE && ValidPage(h, page, id, tree, pageCount)
            && 64 + 4 * ReadHead(page).cells <= PAGE_SIZE
            && DecodeNode(page, pageCount) == Ok(node)
  {
    hide HeaderBytes, Body, Start, EncodeAll, DecodeSlots, NodeOf, LegalCell, Less, LittleEndian, FromLittleEndian,
      ReadHead;
    var page := NodePage(h, tree, node, id).value;
    var cells := NodeCells(node);
    var encoded := EncodeAll(cells);
    var upper := Start(encoded, |encoded|);
    var head := Head(if node.Leaf? then 1 else 2, node.Level(), id, tree, |cells|, 64 + 4 * |cells|, upper,
                     if node.Leaf? then 0 else node.children[0], 0);
    HeadFits(head);
    var crc := h.crc(HeaderBytes(head, 0) + Body(encoded));
    BodyPlaced(HeaderBytes(head, crc), encoded);
    CrcFits(h, HeaderBytes(head, 0) + Body(encoded));
    HeadOfHeader(head, crc, Body(encoded));
    SealedCrc(h, head, Body(encoded));
    DecodePlaced(page, node.Leaf?, pageCount, cells, 0, upper);
    StartZero(encoded);
    assert cells[0..] == cells;
    NodeOfCells(node, head);
  }

  lemma StartZero(cells: seq<ByteString>)
    ensures Start(cells, 0) == PAGE_SIZE
  {
  }

  lemma HeadFits(head: Head)
    requires head.kind < 256 && head.level < 256 && head.id <= MAX_PAGES && head.tree < Base(4)
             && 64 + 4 * head.cells <= PAGE_SIZE
    requires head.lower <= PAGE_SIZE && head.upper <= PAGE_SIZE && head.link <= MAX_PAGES && head.payload <= PAGE_SIZE
    ensures Fits(head)
  {
    Base8();
  }

  lemma CrcFits(h: Records.Hashes, bytes: ByteString)
    requires Records.ValidHashes(h)
    ensures h.crc(bytes) < Base(4)
  {
    Base8();
  }

  lemma SealedCrc(h: Records.Hashes, head: Head, body: ByteString)
    requires Records.ValidHashes(h) && Fits(head) && |body| == PAGE_SIZE - 64
    ensures |Seal(h, head, body)| == PAGE_SIZE && CrcValid(h, Seal(h, head, body))
  {
    hide LittleEndian, FromLittleEndian, ReadHead, Framed;
    CrcFits(h, HeaderBytes(head, 0) + body);
    HeadOfHeader(head, h.crc(HeaderBytes(head, 0) + body), body);
    ZeroWord();
    HeaderZero(head);
    assert HeaderBytes(head, 0)[..60] + [0, 0, 0, 0] == HeaderBytes(head, 0);
  }

  lemma HeaderZero(head: Head)
    requires head.kind < 256 && head.level < 256
    ensures HeaderBytes(head, 0)[60..64] == [0, 0, 0, 0]
  {
    ZeroWord();
  }

  // ---------------------------------------------------------------- encode after decode

  lemma {:induction false} StartPrefix(cells: seq<ByteString>, longer: seq<ByteString>, i: nat)
    requires i <= |cells| <= |longer| && longer[..|cells|] == cells
    ensures Start(longer, i) == Start(cells, i)
  {
    if i > 0 {
      StartPrefix(cells, longer, i - 1);
      assert longer[i - 1] == longer[..|cells|][i - 1];
    }
  }

  lemma PlacedSnoc(page: ByteString, cells: seq<ByteString>, last: ByteString)
    requires |page| == PAGE_SIZE && AllPlaced(page, cells) && PlacedAt(page, cells + [last], |cells|)
    ensures AllPlaced(page, cells + [last])
  {
    hide Start, LittleEndian;
    var longer := cells + [last];
    forall i | 0 <= i < |longer|
      ensures PlacedAt(page, longer, i)
    {
      if i < |cells| {
        assert PlacedAt(page, cells, i);
        StartPrefix(cells, longer, i);
        StartPrefix(cells, longer, i + 1);
      }
    }
  }

  /** The slots the decoder accepts are exactly where the encoder would put those cells. */
  lemma {:induction false} AcceptedSlots(page: ByteString, leaf: bool, pageCount: nat, front: seq<Cell>, count: nat,
      end: nat, upper: nat)
    requires |page| == PAGE_SIZE && |front| <= count && 64 + 4 * count <= PAGE_SIZE && end <= PAGE_SIZE
    requires AllPlaced(page, EncodeAll(front)) && end == Start(EncodeAll(front), |front|) && Sorted(front)
    requires forall i :: 0 <= i < |front| ==> LegalCell(leaf, front[i], pageCount)
    requires DecodeSlots(page, leaf, pageCount, |front|, count, end, upper,
                         if front == [] then None else Some(front[|front| - 1].key)).Ok?
    ensures var (rest, final) := DecodeSlots(page, leaf, pageCount, |front|, count, end, upper,
                                             if front == [] then None else Some(front[|front| - 1].key)).value;
            var all := front + rest;
            && |all| == count && AllPlaced(page, EncodeAll(all)) && Sorted(all)
            && (forall i :: 0 <= i < |all| ==> LegalCell(leaf, all[i], pageCount))
            && final == Start(EncodeAll(all), |all|)
    decreases count - |front|
  {
    hide EncodeCell, DecodeCell, LegalCell, LittleEndian, FromLittleEndian, Less, AllPlaced, Start;
    var previous := if front == [] then None else Some(front[|front| - 1].key);
    if |front| == count {
      assert front + [] == front;
    } else {
      var i := |front|;
      var offset, length :=
        FromLittleEndian(page[64 + 4 * i..66 + 4 * i]), FromLittleEndian(page[66 + 4 * i..68 + 4 * i]);
      var cell := DecodeCell(leaf, page[offset..end], pageCount).value;
      AcceptedCell(leaf, page[offset..end], pageCount);
      var longer := front + [cell];
      assert EncodeAll(longer) == EncodeAll(front) + [EncodeCell(cell)];
      AcceptedPlace(page, EncodeAll(front), EncodeCell(cell), offset, end);
      PlacedSnoc(page, EncodeAll(front), EncodeCell(cell));
      var (rest, final) := DecodeSlots(page, leaf, pageCount, i + 1, count, offset, upper, Some(cell.key)).value;
      AcceptedSlots(page, leaf, pageCount, longer, count, offset, upper);
      Reassociate(front, [cell], rest);
    }
  }

  lemma AcceptedPlace(page: ByteString, cells: seq<ByteString>, last: ByteString, offset: nat, end: nat)
    requires |page| == PAGE_SIZE && 64 + 4 * |cells| + 4 <= PAGE_SIZE && offset <= end <= PAGE_SIZE
    requires end == Start(cells, |cells|) && page[offset..end] == last
    requires var i := |cells|; FromLittleEndian(page[64 + 4 * i..66 + 4 * i]) == offset
    requires var i := |cells|; FromLittleEndian(page[66 + 4 * i..68 + 4 * i]) == |last|
    ensures PlacedAt(page, cells + [last], |cells|) && Start(cells + [last], |cells| + 1) == offset
  {
    hide LittleEndian, FromLittleEndian;
    var i := |cells|;
    StartPrefix(cells, cells + [last], i);
    FromLittleEndianRoundTrip(page[64 + 4 * i..66 + 4 * i]);
    FromLittleEndianRoundTrip(page[66 + 4 * i..68 + 4 * i]);
  }

  lemma CellsOfNode(head: Head, cells: seq<Cell>)
    requires 1 <= head.kind <= 2 && NodeOf(head, cells).Ok?
    ensures var node := NodeOf(head, cells).value;
            && node.Leaf? == (head.kind == 1)
            && (node.Internal? ==>
                  |node.children| == |node.keys| + 1 && node.level == head.level && node.children[0] == head.link)
            && NodeCells(node) == cells
  {
    assert NodeCells(NodeOf(head, cells).value) == cells;
  }

  /** An accepted page is the one page of the node it decodes to; nodes have no other form. */
  lemma EncodeOfDecode(h: Records.Hashes, page: ByteString, id: nat, tree: nat, pageCount: nat)
    requires |page| == PAGE_SIZE && ValidPage(h, page, id, tree, pageCount) && 1 <= ReadHead(page).kind <= 2
    requires 64 + 4 * ReadHead(page).cells <= PAGE_SIZE && DecodeNode(page, pageCount).Ok?
    ensures var node := DecodeNode(page, pageCount).value;
            LegalNode(node, pageCount) && NodePage(h, tree, node, id) == Ok(page)
  {
    hide HeaderBytes, Body, Start, EncodeAll, DecodeSlots, NodeOf, LegalCell, Less, LittleEndian, FromLittleEndian,
      ReadHead, Framed, CrcValid, AllPlaced, Seal;
    var head := ReadHead(page);
    var (cells, end) := DecodeSlots(page, head.kind == 1, pageCount, 0, head.cells, PAGE_SIZE, head.upper, None).value;
    StartZero(EncodeAll([]));
    NonePlaced(page);
    AcceptedSlots(page, head.kind == 1, pageCount, [], head.cells, PAGE_SIZE, head.upper);
    assert [] + cells == cells;
    var node := DecodeNode(page, pageCount).value;
    CellsOfNode(head, cells);
    KeysBounded(head.kind == 1, cells, pageCount);
    if node.Internal? {
      ChildrenValid(head, cells, pageCount);
    }
    PlacedIsBody(page, EncodeAll(cells));
    BodyAfter(page, EncodeAll(cells));
    HeaderOfHead(h, page);
    HeadByte(page);
    assert head == Head(if node.Leaf? then 1 else 2, node.Level(), id, tree, |cells|, 64 + 4 * |cells|, head.upper,
                        if node.Leaf? then 0 else node.children[0], 0);
  }

  lemma NonePlaced(page: ByteString)
    requires |page| == PAGE_SIZE
    ensures EncodeAll([]) == [] && AllPlaced(page, [])
  {
  }

  lemma HeadByte(page: ByteString)
    requires |page| == PAGE_SIZE
    ensures ReadHead(page).level < 256 && ReadHead(page).kind < 256
  {
  }

  lemma BodyAfter(page: ByteString, cells: seq<ByteString>)
    requires |page| == PAGE_SIZE && 64 + 4 * |cells| <= Start(cells, |cells|) && page == page[..64] + Body(cells)
    ensures page[64..] == Body(cells)
  {
    hide Body;
  }

  lemma KeysBounded(leaf: bool, cells: seq<Cell>, pageCount: nat)
    requires forall i :: 0 <= i < |cells| ==> LegalCell(leaf, cells[i], pageCount)
    ensures forall i :: 0 <= i < |cells| ==> |cells[i].key| <= MAX_KEY
  {
  }

  lemma ChildrenValid(head: Head, cells: seq<Cell>, pageCount: nat)
    requires head.kind == 2 && NodeOf(head, cells).Ok? && ValidRef(head.link, pageCount)
    requires forall i :: 0 <= i < |cells| ==> LegalCell(false, cells[i], pageCount)
    ensures 0 !in NodeOf(head, cells).value.children
  {
    var node := NodeOf(head, cells).value;
    forall i | 0 <= i < |node.children|
      ensures node.children[i] != 0
    {
      if i > 0 {
        assert LegalCell(false, cells[i - 1], pageCount);
      }
    }
  }
}
