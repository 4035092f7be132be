/**
 Slotted pages of the tree file: nodes packed from the end of a page behind a slot
 directory. Each legal node has one page form and each accepted page is that form.
 */
module Page {
  import opened Common
  import opened Bytes
  import Wal

  const PAGE_SIZE := 16384
  const PAYLOAD_SIZE := 16320
  const MAX_KEY := 2066
  const INLINE_LIMIT := 1024
  const MAX_VALUE := 128 * 1024 * 1024
  const MAX_PAGES := 0x1_0000_0000_0000
  const PAGE_MAGIC: ByteString := [0x42, 0x4C, 0x50, 0x31]

  datatype Value = Inline(bytes: ByteString) | Overflow(length: nat, head: nat)

  datatype LeafCell = LeafCell(key: ByteString, value: Value)

  datatype Node =
    | Leaf(cells: seq<LeafCell>)
    | Internal(level: nat, keys: seq<ByteString>, children: seq<nat>)
  {
    function Level(): nat {
      if Leaf? then 0 else level
    }
  }

  /** A cell of either kind of node, as the slots see it. */
  datatype Cell = Cell(key: ByteString, payload: Payload)

  datatype Payload = Stored(value: Value) | Child(id: nat)

  predicate ValidRef(id: nat, count: nat) {
    0 < id < count
  }

  // ---------------------------------------------------------------- cells

  function EncodeCell(c: Cell): ByteString {
    match c.payload
    case Stored(Inline(bytes)) =>
        LittleEndian(|c.key|, 2) + [0, 0] + LittleEndian(|bytes|, 4) + LittleEndian(0, 8) + c.key + bytes
    case Stored(Overflow(length, head)) =>
        LittleEndian(|c.key|, 2) + [1, 0] + LittleEndian(length, 4) + LittleEndian(head, 8) + c.key
    case Child(id) => LittleEndian(|c.key|, 2) + [0, 0] + LittleEndian(id, 8) + c.key
  }

  predicate LegalCell(leaf: bool, c: Cell, pageCount: nat) {
    && |c.key| <= MAX_KEY
    && match c.payload
       case Stored(Inline(bytes)) => leaf && |bytes| <= INLINE_LIMIT
       case Stored(Overflow(length, head)) => leaf && INLINE_LIMIT < length <= MAX_VALUE && ValidRef(head, pageCount)
       case Child(id) => !leaf && ValidRef(id, pageCount)
  }

  function Fixed(leaf: bool): nat {
    if leaf then 16 else 12
  }

  function DecodeCell(leaf: bool, cell: ByteString, pageCount: nat): Result<Cell>
    requires |cell| >= Fixed(leaf)
  {
    var keyLength, fixed := FromLittleEndian(cell[..2]), Fixed(leaf);
    if keyLength > MAX_KEY || fixed + keyLength > |cell| then Err(Corrupt)
    else
      var key, rest := cell[fixed..fixed + keyLength], cell[fixed + keyLength..];
      if leaf then
        var length, head := FromLittleEndian(cell[4..8]), FromLittleEndian(cell[8..16]);
        if cell[3] != 0 || length > MAX_VALUE then Err(Corrupt)
        else if cell[2] == 0 && length <= INLINE_LIMIT && head == 0 && |rest| == length then
            Ok(Cell(key, Stored(Inline(rest))))
        else if cell[2] == 1 && length > INLINE_LIMIT && ValidRef(head, pageCount) && rest == [] then
          Ok(Cell(key, Stored(Overflow(length, head))))
        else Err(Corrupt)
      else
        var child := FromLittleEndian(cell[4..12]);
        if FromLittleEndian(cell[2..4]) != 0 || rest != [] || !ValidRef(child, pageCount) then Err(Corrupt)
        else Ok(Cell(key, Child(child)))
  }

  lemma LeafParts(cell: ByteString, a: ByteString, kind: Byte, length: ByteString, head: ByteString, key: ByteString,
      rest: ByteString)
    requires |a| == 2 && |length| == 4 && |head| == 8
    requires cell == a + [kind, 0] + length + head + key + rest
    ensures cell[..2] == a && cell[2] == kind && cell[3] == 0 && cell[4..8] == length && cell[8..16] == head
    ensures cell[16..16 + |key|] == key && cell[16 + |key|..] == rest && |cell| == 16 + |key| + |rest|
  {
  }

  lemma BranchParts(cell: ByteString, a: ByteString, id: ByteString, key: ByteString)
    requires |a| == 2 && |id| == 8 && cell == a + [0, 0] + id + key
    ensures cell[..2] == a && cell[2..4] == [0, 0] && cell[4..12] == id
    ensures cell[12..12 + |key|] == key && cell[12 + |key|..] == [] && |cell| == 12 + |key|
  {
  }

  lemma ZeroPair()
    ensures FromLittleEndian([0, 0]) == 0 && LittleEndian(0, 2) == [0, 0]
  {
    Base8();
    LittleEndianRoundTrip(0, 2);
    assert LittleEndian(0, 2) == [0, 0];
  }

  lemma DecodeOfEncodeCell(leaf: bool, c: Cell, pageCount: nat)
    requires LegalCell(leaf, c, pageCount) && pageCount <= MAX_PAGES
    ensures |EncodeCell(c)| >= Fixed(leaf) && DecodeCell(leaf, EncodeCell(c), pageCount) == Ok(c)
  {
    hide LittleEndian, FromLittleEndian;
    Base8();
    ZeroPair();
    LittleEndianRoundTrip(|c.key|, 2);
    var cell := EncodeCell(c);
    match c.payload
    case Stored(Inline(bytes)) =>
      LeafParts(cell, LittleEndian(|c.key|, 2), 0, LittleEndian(|bytes|, 4), LittleEndian(0, 8), c.key, bytes);
      LittleEndianRoundTrip(|bytes|, 4);
      LittleEndianRoundTrip(0, 8);
    case Stored(Overflow(length, head)) =>
      assert cell + [] == cell;
      LeafParts(cell, LittleEndian(|c.key|, 2), 1, LittleEndian(length, 4), LittleEndian(head, 8), c.key, []);
      LittleEndianRoundTrip(length, 4);
      LittleEndianRoundTrip(head, 8);
    case Child(id) =>
      BranchParts(cell, LittleEndian(|c.key|, 2), LittleEndian(id, 8), c.key);
      LittleEndianRoundTrip(id, 8);
  }

  lemma LeafWhole(cell: ByteString, n: nat)
    requires |cell| >= 16 + n
    ensures cell == cell[..2] + [cell[2], cell[3]] + cell[4..8] + cell[8..16] + cell[16..16 + n] + cell[16 + n..]
  {
  }

  lemma BranchWhole(cell: ByteString)
    requires |cell| >= 12
    ensures cell == cell[..2] + cell[2..4] + cell[4..12] + cell[12..]
  {
  }

  lemma AcceptedCell(leaf: bool, cell: ByteString, pageCount: nat)
    requires |cell| >= Fixed(leaf) && DecodeCell(leaf, cell, pageCount).Ok?
    ensures var c := DecodeCell(leaf, cell, pageCount).value; LegalCell(leaf, c, pageCount) && EncodeCell(c) == cell
  {
    hide LittleEndian, FromLittleEndian;
    var n := FromLittleEndian(cell[..2]);
    FromLittleEndianRoundTrip(cell[..2]);
    if leaf {
      FromLittleEndianRoundTrip(cell[4..8]);
      FromLittleEndianRoundTrip(cell[8..16]);
      LeafWhole(cell, n);
    } else {
      FromLittleEndianRoundTrip(cell[2..4]);
      FromLittleEndianRoundTrip(cell[4..12]);
      ZeroPair();
      BranchWhole(cell);
    }
  }

  // ---------------------------------------------------------------- packing

  /** The bytes before cell `i`, counting from the end of the page. */
  function Start(cells: seq<ByteString>, i: nat): (start: int)
    requires i <= |cells|
    ensures start <= PAGE_SIZE
  {
    if i == 0 then PAGE_SIZE else Start(cells, i - 1) - |cells[i - 1]|
  }

  /** The slots of the first `n` cells: where each begins and how long it is. */
  function Slots(cells: seq<ByteString>, n: nat): ByteString
    requires n <= |cells| && Start(cells, n) >= 0
    decreases n
  {
    if n == 0 then []
    else
      StartFalls(cells, n - 1, n);
      Slots(cells, n - 1) + LittleEndian(Start(cells, n), 2) + LittleEndian(|cells[n - 1]|, 2)
  }

  /** The first `n` cells, packed from the end of the page. */
  function Packed(cells: seq<ByteString>, n: nat): ByteString
    requires n <= |cells|
  {
    if n == 0 then [] else cells[n - 1] + Packed(cells, n - 1)
  }

  lemma {:induction false} StartFalls(cells: seq<ByteString>, i: nat, j: nat)
    requires i <= j <= |cells|
    ensures Start(cells, j) <= Start(cells, i) <= PAGE_SIZE
    decreases j
  {
    if i < j {
      StartFalls(cells, i, j - 1);
    } else if i > 0 {
      StartFalls(cells, i - 1, i - 1);
    }
  }

  lemma {:induction false} PackedLength(cells: seq<ByteString>, n: nat)
    requires n <= |cells|
    ensures |Packed(cells, n)| == PAGE_SIZE - Start(cells, n)
  {
    if n > 0 {
      PackedLength(cells, n - 1);
    }
  }

  lemma {:induction false} SlotsLength(cells: seq<ByteString>, n: nat)
    requires n <= |cells| && Start(cells, n) >= 0
    ensures |Slots(cells, n)| == 4 * n
  {
    if n > 0 {
      StartFalls(cells, n - 1, n);
      SlotsLength(cells, n - 1);
    }
  }

  /** Slot `i` and cell `i` are where the directory says. */
  ghost predicate PlacedAt(page: ByteString, cells: seq<ByteString>, i: nat)
    requires |page| == PAGE_SIZE && i < |cells|
  {
    && 0 <= Start(cells, i + 1) <= Start(cells, i) <= PAGE_SIZE
    && 64 + 4 * i + 4 <= PAGE_SIZE
    && page[64 + 4 * i..66 + 4 * i] == LittleEndian(Start(cells, i + 1), 2)
    && page[66 + 4 * i..68 + 4 * i] == LittleEndian(|cells[i]|, 2)
    && page[Start(cells, i + 1)..Start(cells, i)] == cells[i]
  }

  ghost predicate AllPlaced(page: ByteString, cells: seq<ByteString>)
    requires |page| == PAGE_SIZE
  {
    forall i :: 0 <= i < |cells| ==> PlacedAt(page, cells, i)
  }

  lemma {:induction false} SlotsHold(cells: seq<ByteString>, n: nat, i: nat)
    requires i < n <= |cells| && Start(cells, n) >= 0
    ensures 0 <= Start(cells, i + 1) && |Slots(cells, n)| == 4 * n
    ensures Slots(cells, n)[4 * i..4 * i + 2] == LittleEndian(Start(cells, i + 1), 2)
    ensures Slots(cells, n)[4 * i + 2..4 * i + 4] == LittleEndian(|cells[i]|, 2)
    decreases n
  {
    hide LittleEndian;
    StartFalls(cells, n - 1, n);
    StartFalls(cells, i + 1, n);
    SlotsLength(cells, n);
    SlotsLength(cells, n - 1);
    var front := Slots(cells, n - 1);
    if i < n - 1 {
      SlotsHold(cells, n - 1, i);
      assert Slots(cells, n)[4 * i..4 * i + 2] == front[4 * i..4 * i + 2];
      assert Slots(cells, n)[4 * i + 2..4 * i + 4] == front[4 * i + 2..4 * i + 4];
    }
  }

  lemma {:induction false} PackedHolds(cells: seq<ByteString>, n: nat, i: nat)
    requires i < n <= |cells|
    ensures Start(cells, n) <= Start(cells, i + 1) <= Start(cells, i) <= PAGE_SIZE
    ensures |Packed(cells, n)| == PAGE_SIZE - Start(cells, n)
    ensures Packed(cells, n)[Start(cells, i + 1) - Start(cells, n)..Start(cells, i) - Start(cells, n)] == cells[i]
    decreases n
  {
    StartFalls(cells, i, i + 1);
    StartFalls(cells, i + 1, n);
    StartFalls(cells, i, n - 1);
    PackedLength(cells, n);
    PackedLength(cells, n - 1);
    if i < n - 1 {
      PackedHolds(cells, n - 1, i);
      StartFalls(cells, i + 1, n - 1);
      var back, shift := Packed(cells, n - 1), |cells[n - 1]|;
      var a, b := Start(cells, i + 1) - Start(cells, n - 1), Start(cells, i) - Start(cells, n - 1);
      SliceAfter(cells[n - 1], back, a, b);
    }
  }

  lemma SliceAfter(front: ByteString, back: ByteString, a: nat, b: nat)
    requires a <= b <= |back|
    ensures (front + back)[|front| + a..|front| + b] == back[a..b]
  {
  }

  /** The body of a node page: slots, a gap of zeros, then the cells. */
  function Body(cells: seq<ByteString>): ByteString
    requires 64 + 4 * |cells| <= Start(cells, |cells|)
  {
    Slots(cells, |cells|) + Wal.Zeros(Start(cells, |cells|) - 64 - 4 * |cells|) + Packed(cells, |cells|)
  }

  lemma BodyParts(body: ByteString, slots: ByteString, gap: ByteString, packed: ByteString)
    requires body == slots + gap + packed
    ensures body[..|slots|] == slots && body[|slots|..|slots| + |gap|] == gap && body[|slots| + |gap|..] == packed
  {
  }

  lemma BodyPlaced(header: ByteString, cells: seq<ByteString>)
    requires |header| == 64 && 64 + 4 * |cells| <= Start(cells, |cells|)
    ensures |header + Body(cells)| == PAGE_SIZE && AllPlaced(header + Body(cells), cells)
    ensures var page := header + Body(cells);
            page[64 + 4 * |cells|..Start(cells, |cells|)] == Wal.Zeros(Start(cells, |cells|) - 64 - 4 * |cells|)
  {
    hide LittleEndian, Slots, Packed;
    var n, page := |cells|, header + Body(cells);
    var gap := Wal.Zeros(Start(cells, n) - 64 - 4 * n);
    PackedLength(cells, n);
    SlotsLength(cells, n);
    BodyParts(Body(cells), Slots(cells, n), gap, Packed(cells, n));
    SliceAfter(header, Body(cells), 4 * n, 4 * n + |gap|);
    forall i | 0 <= i < n
      ensures PlacedAt(page, cells, i)
    {
      SlotsHold(cells, n, i);
      PackedHolds(cells, n, i);
      SlotPlaced(header, cells, i);
      CellPlaced(header, cells, i);
    }
  }

  lemma SlotPlaced(header: ByteString, cells: seq<ByteString>, i: nat)
    requires |header| == 64 && i < |cells| && 64 + 4 * |cells| <= Start(cells, |cells|)
    requires |Slots(cells, |cells|)| == 4 * |cells|
    ensures |header + Body(cells)| >= 68 + 4 * i
    ensures (header + Body(cells))[64 + 4 * i..66 + 4 * i] == Slots(cells, |cells|)[4 * i..4 * i + 2]
    ensures (header + Body(cells))[66 + 4 * i..68 + 4 * i] == Slots(cells, |cells|)[4 * i + 2..4 * i + 4]
  {
    hide Slots, Packed;
    SliceAfter(header, Body(cells), 4 * i, 4 * i + 2);
    SliceAfter(header, Body(cells), 4 * i + 2, 4 * i + 4);
    var slots := Slots(cells, |cells|);
    assert Body(cells)[4 * i..4 * i + 2] == slots[4 * i..4 * i + 2];
    assert Body(cells)[4 * i + 2..4 * i + 4] == slots[4 * i + 2..4 * i + 4];
  }

  lemma CellPlaced(header: ByteString, cells: seq<ByteString>, i: nat)
    requires |header| == 64 && i < |cells| && 64 + 4 * |cells| <= Start(cells, |cells|)
    requires |Slots(cells, |cells|)| == 4 * |cells| && |Packed(cells, |cells|)| == PAGE_SIZE - Start(cells, |cells|)
    requires Start(cells, |cells|) <= Start(cells, i + 1) <= Start(cells, i) <= PAGE_SIZE
    ensures |header + Body(cells)| == PAGE_SIZE
    ensures (header + Body(cells))[Start(cells, i + 1)..Start(cells, i)]
         == Packed(cells, |cells|)[Start(cells, i + 1) - Start(cells, |cells|)..Start(cells, i) - Start(cells, |cells|)]
  {
    hide Slots, Packed, Start;
    var n := |cells|;
    var front := header + (Slots(cells, n) + Wal.Zeros(Start(cells, n) - 64 - 4 * n));
    assert header + Body(cells) == front + Packed(cells, n);
    SliceAfter(front, Packed(cells, n), Start(cells, i + 1) - Start(cells, n), Start(cells, i) - Start(cells, n));
  }

  /** A page whose slots and cells are all in place is its header and that body. */
  lemma PlacedIsBody(page: ByteString, cells: seq<ByteString>)
    requires |page| == PAGE_SIZE && AllPlaced(page, cells) && 64 + 4 * |cells| <= Start(cells, |cells|)
    requires page[64 + 4 * |cells|..Start(cells, |cells|)] == Wal.Zeros(Start(cells, |cells|) - 64 - 4 * |cells|)
    ensures page == page[..64] + Body(cells)
  {
    hide *;
    var n, start := |cells|, Start(cells, |cells|);
    PlacedSlots(page, cells, n);
    PlacedPacked(page, cells, n);
    assert page[64 + 4 * n..start] == Wal.Zeros(start - 64 - 4 * n);
    FourParts(page, 64, 64 + 4 * n, start);
    BodyIs(cells);
  }

  lemma FourParts(page: ByteString, a: nat, b: nat, c: nat)
    requires a <= b <= c <= |page|
    ensures page == page[..a] + (page[a..b] + page[b..c] + page[c..])
  {
  }

  lemma BodyIs(cells: seq<ByteString>)
    requires 64 + 4 * |cells| <= Start(cells, |cells|)
    ensures Body(cells) == Slots(cells, |cells|) + Wal.Zeros(Start(cells, |cells|) - 64 - 4 * |cells|)
            + Packed(cells, |cells|)
  {
    hide Slots, Packed, Start;
  }

  lemma {:induction false} PlacedSlots(page: ByteString, cells: seq<ByteString>, n: nat)
    requires |page| == PAGE_SIZE && AllPlaced(page, cells) && n <= |cells| && 0 <= Start(cells, n)
             && 64 + 4 * n <= PAGE_SIZE
    ensures page[64..64 + 4 * n] == Slots(cells, n)
    decreases n
  {
    hide LittleEndian;
    if n > 0 {
      StartFalls(cells, n - 1, n);
      PlacedSlots(page, cells, n - 1);
      assert PlacedAt(page, cells, n - 1);
      Split(page, 64, 64 + 4 * (n - 1), 64 + 4 * n);
      Split(page, 64 + 4 * (n - 1), 66 + 4 * (n - 1), 68 + 4 * (n - 1));
      Reassociate(Slots(cells, n - 1), page[64 + 4 * (n - 1)..66 + 4 * (n - 1)],
          page[66 + 4 * (n - 1)..68 + 4 * (n - 1)]);
    }
  }

  lemma {:induction false} PlacedPacked(page: ByteString, cells: seq<ByteString>, n: nat)
    requires |page| == PAGE_SIZE && AllPlaced(page, cells) && n <= |cells| && 0 <= Start(cells, n)
    ensures Start(cells, n) <= PAGE_SIZE && page[Start(cells, n)..] == Packed(cells, n)
    decreases n
  {
    StartFalls(cells, 0, n);
    if n > 0 {
      StartFalls(cells, n - 1, n);
      PlacedPacked(page, cells, n - 1);
      assert PlacedAt(page, cells, n - 1);
      Split(page, Start(cells, n), Start(cells, n - 1), PAGE_SIZE);
      assert page[Start(cells, n)..] == page[Start(cells, n)..PAGE_SIZE];
      assert page[Start(cells, n - 1)..] == page[Start(cells, n - 1)..PAGE_SIZE];
    } else {
      assert page[PAGE_SIZE..] == [];
    }
  }
}
