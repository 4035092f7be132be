/**
 The append-only page file: values too long for a leaf become chains of overflow pages,
 and compaction copies a tree node by node. Pages already written never change.
 */
module PageFiles {
  import opened Common
  import opened Bytes
  import opened Page
  import opened PageNode
  import Records
  import Wal

  type Pages = seq<ByteString>

  // ---------------------------------------------------------------- reading

  /** `PageReader::read`: a page within the pinned prefix whose header is valid. */
  function ReadPage(h: Records.Hashes, pages: Pages, id: nat, tree: nat): Result<ByteString> {
    if id >= |pages| || id == 0 || |pages[id]| != PAGE_SIZE || !ValidPage(h, pages[id], id, tree, |pages|) then
        Err(Corrupt)
    else Ok(pages[id])
  }

  function ReadNode(h: Records.Hashes, pages: Pages, tree: nat, id: nat): Result<Node> {
    var page :- ReadPage(h, pages, id, tree);
    if ReadHead(page).kind == 3 || 64 + 4 * ReadHead(page).cells > PAGE_SIZE then Err(Corrupt)
    else DecodeNode(page, |pages|)
  }

  function Min(a: nat, b: nat): nat {
    if a < b then a else b
  }

  /** `walk_overflow` after its length check: the bytes of the chain and the pages it owns. */
  function Walk(h: Records.Hashes, pages: Pages, tree: nat, id: nat, remaining: nat,
      owned: set<nat>): Result<(ByteString, set<nat>)>
    decreases remaining
  {
    if remaining == 0 then Ok(([], owned))
    else if id in owned then Err(Corrupt)
    else
      var page :- ReadPage(h, pages, id, tree);
      var length, head := Min(remaining, PAYLOAD_SIZE), ReadHead(page);
      if head.kind != 3 || head.payload != length || (head.link == 0) != (remaining == length) then Err(Corrupt)
      else
        var (rest, all) :- Walk(h, pages, tree, head.link, remaining - length, owned + {id});
        Ok((page[64..64 + length] + rest, all))
  }

  function ReadStored(h: Records.Hashes, pages: Pages, tree: nat, v: Value): Result<ByteString> {
    match v
    case Inline(bytes) => Ok(bytes)
    case Overflow(length, head) =>
      if !(INLINE_LIMIT < length <= MAX_VALUE) then Err(Corrupt)
      else
        var (bytes, owned) :- Walk(h, pages, tree, head, length, {});
        Ok(bytes)
  }

  // ---------------------------------------------------------------- later appends change nothing

  lemma PageKept(h: Records.Hashes, pages: Pages, more: Pages, id: nat, tree: nat)
    requires ReadPage(h, pages, id, tree).Ok?
    ensures ReadPage(h, pages + more, id, tree) == ReadPage(h, pages, id, tree)
  {
    hide Framed, CrcValid, ReadHead, NodeBounds;
    assert (pages + more)[id] == pages[id];
  }

  lemma {:induction false} WalkKept(h: Records.Hashes, pages: Pages, more: Pages, tree: nat, id: nat, remaining: nat,
      owned: set<nat>)
    requires Walk(h, pages, tree, id, remaining, owned).Ok?
    ensures Walk(h, pages + more, tree, id, remaining, owned) == Walk(h, pages, tree, id, remaining, owned)
    decreases remaining
  {
    hide ReadPage, ReadHead;
    if remaining != 0 {
      PageKept(h, pages, more, id, tree);
      ReadIs(h, pages, id, tree);
      var head := ReadHead(pages[id]);
      WalkKept(h, pages, more, tree, head.link, remaining - Min(remaining, PAYLOAD_SIZE), owned + {id});
    }
  }

  lemma ReadIs(h: Records.Hashes, pages: Pages, id: nat, tree: nat)
    requires ReadPage(h, pages, id, tree).Ok?
    ensures 0 < id < |pages| && |pages[id]| == PAGE_SIZE && ReadPage(h, pages, id, tree) == Ok(pages[id])
  {
    hide ValidPage;
  }

  ghost predicate Small(pages: Pages, tree: nat) {
    |pages| <= MAX_PAGES && tree < Base(4)
  }

  lemma LegalLater(node: Node, count: nat, later: nat)
    requires LegalNode(node, count) && count <= later
    ensures LegalNode(node, later)
  {
    hide Sorted, NodeCells;
    forall i | 0 <= i < |NodeCells(node)|
      ensures LegalCell(node.Leaf?, NodeCells(node)[i], later)
    {
      assert LegalCell(node.Leaf?, NodeCells(node)[i], count);
    }
  }

  /** A node reads the same from any longer file. */
  lemma NodeKept(h: Records.Hashes, pages: Pages, more: Pages, tree: nat, id: nat)
    requires Records.ValidHashes(h) && Small(pages + more, tree) && ReadNode(h, pages, tree, id).Ok?
    ensures ReadNode(h, pages + more, tree, id) == ReadNode(h, pages, tree, id)
    ensures 0 < id < |pages|
  {
    hide ReadPage, DecodeNode, NodePage, LegalNode, Records.ValidHashes;
    PageKept(h, pages, more, id, tree);
    ReadIs(h, pages, id, tree);
    NodePageValid(h, pages, tree, id);
    var page, node := pages[id], ReadNode(h, pages, tree, id).value;
    EncodeOfDecode(h, page, id, tree, |pages|);
    LegalLater(node, |pages|, |pages + more|);
    DecodeOfEncode(h, tree, node, id, |pages + more|);
  }

  lemma NodePageValid(h: Records.Hashes, pages: Pages, tree: nat, id: nat)
    requires ReadNode(h, pages, tree, id).Ok?
    ensures 0 < id < |pages| && |pages[id]| == PAGE_SIZE && ValidPage(h, pages[id], id, tree, |pages|)
    ensures 1 <= ReadHead(pages[id]).kind <= 2 && 64 + 4 * ReadHead(pages[id]).cells <= PAGE_SIZE
    ensures DecodeNode(pages[id], |pages|) == ReadNode(h, pages, tree, id)
  {
    hide ValidPage, DecodeSlots, NodeOf;
  }

  // ---------------------------------------------------------------- overflow chains

  function OverflowHead(id: nat, tree: nat, link: nat, length: nat): Head {
    Head(3, 0, id, tree, 0, 64, PAGE_SIZE, link, length)
  }

  /** An overflow page as it is written. */
  function OverflowPage(h: Records.Hashes, id: nat, tree: nat, link: nat, chunk: ByteString): ByteString
    requires |chunk| <= PAYLOAD_SIZE
  {
    Seal(h, OverflowHead(id, tree, link, |chunk|), chunk + Wal.Zeros(PAYLOAD_SIZE - |chunk|))
  }

  lemma OverflowReads(h: Records.Hashes, id: nat, tree: nat, link: nat, chunk: ByteString, count: nat)
    requires Records.ValidHashes(h) && 0 < id < MAX_PAGES && tree < Base(4) && 1 <= |chunk| <= PAYLOAD_SIZE
    requires link != 0 ==> ValidRef(link, count)
    requires count <= MAX_PAGES
    ensures var page := OverflowPage(h, id, tree, link, chunk);
            && |page| == PAGE_SIZE && ValidPage(h, page, id, tree, count)
            && ReadHead(page) == OverflowHead(id, tree, link, |chunk|)
            && page[64..64 + |chunk|] == chunk
  {
    hide HeaderBytes, ReadHead, Framed, CrcValid, Fits;
    var head, body := OverflowHead(id, tree, link, |chunk|), chunk + Wal.Zeros(PAYLOAD_SIZE - |chunk|);
    HeadFits(head);
    CrcFits(h, HeaderBytes(head, 0) + body);
    HeadOfHeader(head, h.crc(HeaderBytes(head, 0) + body), body);
    SealedCrc(h, head, body);
    var page := OverflowPage(h, id, tree, link, chunk);
    assert page[64..64 + |chunk|] == page[64..][..|chunk|];
    assert page[64 + |chunk|..] == page[64..][|chunk|..];
  }

  /** A walk does not mind owning other pages. */
  lemma {:induction false} WalkOwning(h: Records.Hashes, pages: Pages, tree: nat, id: nat, remaining: nat,
      owned: set<nat>, extra: set<nat>)
    requires Walk(h, pages, tree, id, remaining, owned).Ok?
    requires Walk(h, pages, tree, id, remaining, owned).value.1 * extra == {}
    ensures owned <= Walk(h, pages, tree, id, remaining, owned).value.1
    ensures Walk(h, pages, tree, id, remaining, owned + extra)
         == Ok((Walk(h, pages, tree, id, remaining, owned).value.0, Walk(h, pages, tree, id, remaining, owned).value.1
             + extra))
    decreases remaining
  {
    hide ReadPage, ReadHead;
    if remaining != 0 {
      ReadIs(h, pages, id, tree);
      var head := ReadHead(pages[id]);
      WalkOwning(h, pages, tree, head.link, remaining - Min(remaining, PAYLOAD_SIZE), owned + {id}, extra);
      assert owned + extra + {id} == owned + {id} + extra;
    }
  }

  /** The pages from `first` up to `until`. */
  ghost predicate Between(p: nat, first: nat, until: nat) {
    first <= p < until
  }

  ghost function Range(first: nat, until: nat): set<nat> {
    set p: nat | 0 <= p < until && Between(p, first, until)
  }

  lemma RangeGrows(first: nat, until: nat)
    requires first <= until
    ensures Range(first, until + 1) == Range(first, until) + {until}
  {
    forall p: nat
      ensures p in Range(first, until + 1) <==> p in Range(first, until) + {until}
    {
      if p <= until {
        assert Between(p, first, until + 1) == (first <= p);
        assert Between(p, first, until) == (first <= p < until);
      }
    }
  }

  /** Writing a page in front of a chain makes a longer chain. */
  lemma ChainGrows(h: Records.Hashes, pages: Pages, tree: nat, first: nat, head: nat, chunk: ByteString,
      rest: ByteString)
    requires Records.ValidHashes(h) && |pages| < MAX_PAGES && tree < Base(4) && 0 < first <= |pages|
    requires 1 <= |chunk| <= PAYLOAD_SIZE && (rest != [] ==> |chunk| == PAYLOAD_SIZE)
    requires (head == 0) == (rest == []) && (head != 0 ==> head < |pages|)
    requires Walk(h, pages, tree, head, |rest|, {}) == Ok((rest, Range(first, |pages|)))
    ensures var longer := pages + [OverflowPage(h, |pages|, tree, head, chunk)];
            Walk(h, longer, tree, |pages|, |chunk| + |rest|, {}) == Ok((chunk + rest, Range(first, |longer|)))
  {
    hide OverflowPage, ReadHead, ValidPage, Records.ValidHashes;
    var id := |pages|;
    var page := OverflowPage(h, id, tree, head, chunk);
    var longer := pages + [page];
    OverflowReads(h, id, tree, head, chunk, |longer|);
    assert longer[id] == page;
    assert ReadPage(h, longer, id, tree) == Ok(page);
    WalkKept(h, pages, [page], tree, head, |rest|, {});
    NewPage(first, id);
    WalkOwning(h, longer, tree, head, |rest|, {}, {id});
    RangeGrows(first, id);
    assert {} + {id} == {id};
  }

  lemma NewPage(first: nat, until: nat)
    ensures Range(first, until) * {until} == {}
  {
  }

  // ---------------------------------------------------------------- the file

  /** A healthy file takes `need` more pages when writes succeed and there is room; none need nothing. */
  predicate Takes(poisoned: bool, count: nat, need: nat, written: bool) {
    need == 0 || (!poisoned && written && count + need <= MAX_PAGES)
  }

  /** The overflow pages a value of this length occupies. */
  function PagesFor(length: nat): nat {
    if length <= INLINE_LIMIT then 0 else (length + PAYLOAD_SIZE - 1) / PAYLOAD_SIZE
  }

  class PageFile {
    const hashes: Records.Hashes
    var pages: Pages
    var nextPage: nat
    var poisoned: bool

    /** After a failed write the file takes no more pages; until then every reserved page is written. */
    predicate Valid()
      reads this
    {
      0 < |pages| <= MAX_PAGES && (!poisoned ==> nextPage == |pages|)
    }

    constructor (hashes: Records.Hashes, first: ByteString)
      ensures this.hashes == hashes && pages == [first] && !poisoned && Valid()
    {
      this.hashes, pages, nextPage, poisoned := hashes, [first], 1, false;
    }

    /**
     `append`: reserve an ID, seal the page with it and write it. `written` says whether
     the write succeeds; an uncertain write poisons the file and its ID is never reused.
     */
    method Append(head: Head, body: ByteString, written: bool) returns (r: Result<nat>)
      requires Valid() && head.kind < 256 && head.level < 256
      modifies `pages, `nextPage, `poisoned
      ensures Valid()
      ensures r.Ok? <==> !old(poisoned) && |old(pages)| < MAX_PAGES && written
      ensures r.Ok? ==> r.value == |old(pages)| && !poisoned
                        && pages == old(pages) + [Seal(hashes, head.(id := |old(pages)|), body)]
      ensures r.Err? ==> pages == old(pages)
      ensures poisoned <==> old(poisoned) || (|old(pages)| < MAX_PAGES && !written)
    {
      if poisoned {
        return Err(NeedsRecovery);
      }
      if nextPage >= MAX_PAGES {
        return Err(Exhausted);
      }
      var id := nextPage;
      nextPage := nextPage + 1;
      if !written {
        poisoned := true;
        return Err(NeedsRecovery);
      }
      pages := pages + [Seal(hashes, head.(id := id), body)];
      r := Ok(id);
    }

    /**
     `store_value`: short values stay inline; a longer one is written backwards as a chain
     of full pages, so every link names a page already written. Reading it back gives the
     value, through exactly the new pages.
     */
    method StoreValue(tree: nat, value: ByteString, written: bool) returns (r: Result<Value>)
      requires Valid() && Records.ValidHashes(hashes) && tree < Base(4)
      modifies `pages, `nextPage, `poisoned
      ensures Valid() && old(pages) <= pages
      ensures r.Ok? ==> ReadStored(hashes, pages, tree, r.value) == Ok(value)
      ensures r.Ok? && |value| <= INLINE_LIMIT ==> r.value == Inline(value) && pages == old(pages)
      ensures r.Ok? && |value| > INLINE_LIMIT ==>
                && r.value.Overflow? && r.value.length == |value| <= MAX_VALUE && ValidRef(r.value.head, |pages|)
                && |pages| == |old(pages)| + (|value| + PAYLOAD_SIZE - 1) / PAYLOAD_SIZE
                && Walk(hashes, pages, tree, r.value.head, |value|, {}) == Ok((value, Range(|old(pages)|, |pages|)))
      ensures r.Ok? <==>
                |value| <= MAX_VALUE && Takes(old(poisoned), |old(pages)|, PagesFor(|value|), written)
      ensures r.Ok? ==> poisoned == old(poisoned) && |pages| == |old(pages)| + PagesFor(|value|)
    {
      hide OverflowPage, Seal, Walk, Records.ValidHashes;
      if |value| > MAX_VALUE {
        return Err(InvalidInput);
      }
      if |value| <= INLINE_LIMIT {
        return Ok(Inline(value));
      }
      ghost var first := |pages|;
      var count := (|value| + PAYLOAD_SIZE - 1) / PAYLOAD_SIZE;
      var i, head := count, 0;
      var end := |value|;
      EmptyWalk(hashes, pages, tree, first);
      assert value[end..] == [];
      while i > 0
        invariant 0 <= i <= count && Valid() && old(pages) <= pages && |pages| == first + count - i
        invariant poisoned == old(poisoned) && (i < count ==> !poisoned && written)
        invariant end == Min(i * PAYLOAD_SIZE, |value|)
        invariant (head == 0) == (end == |value|) && (head != 0 ==> ValidRef(head, |pages|))
        invariant Walk(hashes, pages, tree, head, |value| - end, {}) == Ok((value[end..], Range(first, |pages|)))
      {
        var start := (i - 1) * PAYLOAD_SIZE;
        var chunk := value[start..end];
        ghost var before := pages;
        var id := Append(OverflowHead(0, tree, head, |chunk|), chunk + Wal.Zeros(PAYLOAD_SIZE - |chunk|), written);
        if id.Err? {
          return Err(id.error);
        }
        assert pages == before + [OverflowPage(hashes, |before|, tree, head, chunk)] by {
          SealedOverflow(hashes, |before|, tree, head, chunk);
        }
        ChainGrows(hashes, before, tree, first, head, chunk, value[end..]);
        assert value[start..] == chunk + value[end..];
        head, i, end := id.value, i - 1, start;
      }
      assert value[0..] == value;
      r := Ok(Overflow(|value|, head));
    }

    /** `append_node`: the node reads back from its new page, and every older page as before. */
    method AppendNode(tree: nat, node: Node, written: bool) returns (r: Result<nat>)
      requires Valid() && Records.ValidHashes(hashes) && tree < Base(4) && LegalNode(node, |pages|)
      modifies `pages, `nextPage, `poisoned
      ensures Valid() && old(pages) <= pages
      ensures r.Ok? <==>
                NodePage(hashes, tree, node, |old(pages)|).Ok? && Takes(old(poisoned), |old(pages)|, 1, written)
      ensures r.Ok? ==> |pages| == |old(pages)| + 1 && r.value == |old(pages)| > 0 && !poisoned
      ensures r.Ok? ==> ReadNode(hashes, pages, tree, r.value) == Ok(node)
    {
      hide Seal, Records.ValidHashes, LegalNode, NodeCells, Body, Start, EncodeAll, DecodeNode;
      LegalShape(node, |pages|);
      if node.Internal?
          && (node.level == 0 || node.level > 255 || |node.children| != |node.keys| + 1 || 0 in node.children) {
        return Err(InvalidInput);
      }
      var cells := NodeCells(node);
      var encoded := EncodeAll(cells);
      if |cells| == 0 || 64 + 4 * |cells| > Start(encoded, |encoded|) || !KeysFit(cells) {
        return Err(InvalidInput);
      }
      var head :=
        Head(if node.Leaf? then 1 else 2, node.Level(), 0, tree, |cells|, 64 + 4 * |cells|, Start(encoded, |encoded|),
                       if node.Leaf? then 0 else node.children[0], 0);
      ghost var before := pages;
      r := Append(head, Body(encoded), written);
      if r.Ok? {
        NodePageIs(hashes, tree, node, r.value);
        LegalLater(node, |before|, |pages|);
        DecodeOfEncode(hashes, tree, node, r.value, |pages|);
        AppendedNode(hashes, before, tree, node, pages);
      }
    }
  }

  predicate KeysFit(cells: seq<Cell>) {
    forall i :: 0 <= i < |cells| ==> |cells[i].key| <= MAX_KEY
  }

  lemma LegalShape(node: Node, count: nat)
    requires LegalNode(node, count)
    ensures node.Internal? ==> 0 < node.level < 256 && |node.children| == |node.keys| + 1
  {
  }

  lemma NodePageIs(h: Records.Hashes, tree: nat, node: Node, id: nat)
    requires node.Internal? ==> 0 < node.level < 256 && |node.children| == |node.keys| + 1 && 0 !in node.children
    requires var cells := NodeCells(node);
             |cells| > 0 && 64 + 4 * |cells| <= Start(EncodeAll(cells), |cells|) && KeysFit(cells)
    ensures var cells := NodeCells(node);
            var encoded := EncodeAll(cells);
            NodePage(h, tree, node, id) ==
            Ok(Seal(h, Head(if node.Leaf? then 1 else 2, node.Level(), id, tree, |cells|, 64 + 4 * |cells|,
                            Start(encoded, |encoded|), if node.Leaf? then 0 else node.children[0], 0), Body(encoded)))
  {
    hide Seal, NodeCells, Body, Start, EncodeAll;
  }

  lemma AppendedNode(h: Records.Hashes, before: Pages, tree: nat, node: Node, after: Pages)
    requires NodePage(h, tree, node, |before|).Ok? && |before| > 0
    requires after == before + [NodePage(h, tree, node, |before|).value]
    requires var page := NodePage(h, tree, node, |before|).value;
             && |page| == PAGE_SIZE && ValidPage(h, page, |before|, tree, |after|)
             && 64 + 4 * ReadHead(page).cells <= PAGE_SIZE && DecodeNode(page, |after|) == Ok(node)
    ensures ReadNode(h, after, tree, |before|) == Ok(node)
  {
    hide NodePage, ValidPage, DecodeSlots, NodeOf, ReadHead;
    assert after[|before|] == NodePage(h, tree, node, |before|).value;
  }

  lemma EmptyWalk(h: Records.Hashes, pages: Pages, tree: nat, first: nat)
    requires |pages| == first
    ensures Walk(h, pages, tree, 0, 0, {}) == Ok(([], Range(first, |pages|)))
  {
    forall p: nat
      ensures p !in Range(first, first)
    {
      assert !Between(p, first, first);
    }
    assert Range(first, first) == {};
  }

  lemma SealedOverflow(h: Records.Hashes, id: nat, tree: nat, link: nat, chunk: ByteString)
    requires |chunk| <= PAYLOAD_SIZE
    ensures OverflowPage(h, id, tree, link, chunk)
         == Seal(h, OverflowHead(0, tree, link, |chunk|).(id := id), chunk + Wal.Zeros(PAYLOAD_SIZE - |chunk|))
  {
  }
}
