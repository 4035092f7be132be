/**
 Compaction copies the reachable nodes of a tree into a new file. The copy has the same
 entries in the same order, and the recursion ends because levels fall.
 */
module Compaction {
  import opened Common
  import opened Bytes
  import opened Page
  import opened PageNode
  import opened PageFiles
  import Records

  type Row = (ByteString, ByteString)

  /** The entries of a leaf with their values read. */
  function LeafRows(h: Records.Hashes, pages: Pages, tree: nat, cells: seq<LeafCell>): Result<seq<Row>> {
    if cells == [] then Ok([])
    else
      var front :- LeafRows(h, pages, tree, cells[..|cells| - 1]);
      var value :- ReadStored(h, pages, tree, cells[|cells| - 1].value);
      Ok(front + [(cells[|cells| - 1].key, value)])
  }

  /** The entries below a node of a given level, in key order as the tree holds them. */
  function Rows(h: Records.Hashes, pages: Pages, tree: nat, id: nat, level: nat): Result<seq<Row>>
    decreases level, 1, 0
  {
    var node :- ReadNode(h, pages, tree, id);
    if node.Level() != level then Err(Corrupt)
    else if node.Leaf? then LeafRows(h, pages, tree, node.cells)
    else if level == 0 then Err(Corrupt)
    else ChildRows(h, pages, tree, node.children, level - 1)
  }

  function ChildRows(h: Records.Hashes, pages: Pages, tree: nat, children: seq<nat>, level: nat): Result<seq<Row>>
    decreases level, 2, |children|
  {
    if children == [] then Ok([])
    else
      var front :- ChildRows(h, pages, tree, children[..|children| - 1], level);
      var last :- Rows(h, pages, tree, children[|children| - 1], level);
      Ok(front + last)
  }

  // ---------------------------------------------------------------- later pages change nothing

  lemma StoredKept(h: Records.Hashes, pages: Pages, more: Pages, tree: nat, v: Value)
    requires ReadStored(h, pages, tree, v).Ok?
    ensures ReadStored(h, pages + more, tree, v) == ReadStored(h, pages, tree, v)
  {
    hide Walk;
    if v.Overflow? {
      WalkKept(h, pages, more, tree, v.head, v.length, {});
    }
  }

  lemma {:induction false} LeafKept(h: Records.Hashes, pages: Pages, more: Pages, tree: nat, cells: seq<LeafCell>)
    requires LeafRows(h, pages, tree, cells).Ok?
    ensures LeafRows(h, pages + more, tree, cells) == LeafRows(h, pages, tree, cells)
  {
    hide ReadStored;
    if cells != [] {
      LeafKept(h, pages, more, tree, cells[..|cells| - 1]);
      StoredKept(h, pages, more, tree, cells[|cells| - 1].value);
    }
  }

  lemma {:induction false} RowsKept(h: Records.Hashes, pages: Pages, more: Pages, tree: nat, id: nat, level: nat)
    requires Records.ValidHashes(h) && Small(pages + more, tree) && Rows(h, pages, tree, id, level).Ok?
    ensures Rows(h, pages + more, tree, id, level) == Rows(h, pages, tree, id, level)
    ensures 0 < id < |pages|
    decreases level, 1, 0
  {
    hide ReadNode, ReadStored, Records.ValidHashes;
    NodeKept(h, pages, more, tree, id);
    var node := ReadNode(h, pages, tree, id).value;
    if node.Leaf? {
      LeafKept(h, pages, more, tree, node.cells);
    } else {
      ChildrenKept(h, pages, more, tree, node.children, level - 1);
    }
  }

  lemma {:induction false} ChildrenKept(h: Records.Hashes, pages: Pages, more: Pages, tree: nat, children: seq<nat>,
      level: nat)
    requires Records.ValidHashes(h) && Small(pages + more, tree) && ChildRows(h, pages, tree, children, level).Ok?
    ensures ChildRows(h, pages + more, tree, children, level) == ChildRows(h, pages, tree, children, level)
    decreases level, 2, |children|
  {
    hide ReadNode, ReadStored, Records.ValidHashes;
    if children != [] {
      ChildrenKept(h, pages, more, tree, children[..|children| - 1], level);
      RowsKept(h, pages, more, tree, children[|children| - 1], level);
    }
  }

  /** The same rows from a file that a later one extends. */
  lemma RowsLater(h: Records.Hashes, pages: Pages, later: Pages, tree: nat, id: nat, level: nat)
    requires Records.ValidHashes(h) && Small(later, tree) && pages <= later && Rows(h, pages, tree, id, level).Ok?
    ensures Rows(h, later, tree, id, level) == Rows(h, pages, tree, id, level)
    ensures 0 < id < |pages|
  {
    assert later == pages + later[|pages|..];
    RowsKept(h, pages, later[|pages|..], tree, id, level);
  }

  lemma ChildrenLater(h: Records.Hashes, pages: Pages, later: Pages, tree: nat, children: seq<nat>, level: nat)
    requires Records.ValidHashes(h) && Small(later, tree) && pages <= later
             && ChildRows(h, pages, tree, children, level).Ok?
    ensures ChildRows(h, later, tree, children, level) == ChildRows(h, pages, tree, children, level)
  {
    assert later == pages + later[|pages|..];
    ChildrenKept(h, pages, later[|pages|..], tree, children, level);
  }

  lemma LeafLater(h: Records.Hashes, pages: Pages, later: Pages, tree: nat, cells: seq<LeafCell>)
    requires pages <= later && LeafRows(h, pages, tree, cells).Ok?
    ensures LeafRows(h, later, tree, cells) == LeafRows(h, pages, tree, cells)
  {
    assert later == pages + later[|pages|..];
    LeafKept(h, pages, later[|pages|..], tree, cells);
  }

  // ---------------------------------------------------------------- prefixes

  lemma {:induction false} ChildPrefix(h: Records.Hashes, pages: Pages, tree: nat, children: seq<nat>, level: nat,
      i: nat)
    requires ChildRows(h, pages, tree, children, level).Ok? && i <= |children|
    ensures ChildRows(h, pages, tree, children[..i], level).Ok?
    ensures i < |children| ==> Rows(h, pages, tree, children[i], level).Ok?
                               && ChildRows(h, pages, tree, children[..i + 1], level)
                                  == Ok(ChildRows(h, pages, tree, children[..i], level).value
                                      + Rows(h, pages, tree, children[i], level).value)
    decreases |children|
  {
    hide ReadNode, Rows;
    var n := |children|;
    if i == n {
      assert children[..i] == children;
    } else if i == n - 1 {
      assert children[..i + 1] == children;
    } else {
      ChildPrefix(h, pages, tree, children[..n - 1], level, i);
      assert children[..n - 1][..i] == children[..i] && children[..n - 1][..i + 1] == children[..i + 1];
    }
  }

  lemma {:induction false} LeafPrefix(h: Records.Hashes, pages: Pages, tree: nat, cells: seq<LeafCell>, i: nat)
    requires LeafRows(h, pages, tree, cells).Ok? && i <= |cells|
    ensures LeafRows(h, pages, tree, cells[..i]).Ok?
    ensures i < |cells| ==> ReadStored(h, pages, tree, cells[i].value).Ok?
                            && LeafRows(h, pages, tree, cells[..i + 1])
                               == Ok(LeafRows(h, pages, tree, cells[..i]).value
                                     + [(cells[i].key, ReadStored(h, pages, tree, cells[i].value).value)])
    decreases |cells|
  {
    hide ReadStored;
    var n := |cells|;
    if i == n {
      assert cells[..i] == cells;
    } else if i == n - 1 {
      assert cells[..i + 1] == cells;
    } else {
      LeafPrefix(h, pages, tree, cells[..n - 1], i);
      assert cells[..n - 1][..i] == cells[..i] && cells[..n - 1][..i + 1] == cells[..i + 1];
    }
  }

  lemma LeafSnoc(h: Records.Hashes, pages: Pages, tree: nat, cells: seq<LeafCell>, last: LeafCell)
    requires LeafRows(h, pages, tree, cells).Ok? && ReadStored(h, pages, tree, last.value).Ok?
    ensures LeafRows(h, pages, tree, cells + [last])
         == Ok(LeafRows(h, pages, tree, cells).value + [(last.key, ReadStored(h, pages, tree, last.value).value)])
  {
    assert (cells + [last])[..|cells|] == cells;
  }

  lemma ChildSnoc(h: Records.Hashes, pages: Pages, tree: nat, children: seq<nat>, last: nat, level: nat)
    requires ChildRows(h, pages, tree, children, level).Ok? && Rows(h, pages, tree, last, level).Ok?
    ensures ChildRows(h, pages, tree, children + [last], level)
         == Ok(ChildRows(h, pages, tree, children, level).value + Rows(h, pages, tree, last, level).value)
  {
    assert (children + [last])[..|children|] == children;
  }

  // ---------------------------------------------------------------- copying

  /** A copied value is stored by the same rule as the original. */
  ghost predicate SameStorage(a: Value, b: Value, count: nat) {
    match a
    case Inline(bytes) => b == a && |bytes| <= INLINE_LIMIT
    case Overflow(length, _) =>
        b.Overflow? && b.length == length && INLINE_LIMIT < length <= MAX_VALUE && ValidRef(b.head, count)
  }

  lemma {:induction false} WalkLength(h: Records.Hashes, pages: Pages, tree: nat, id: nat, remaining: nat,
      owned: set<nat>)
    requires Walk(h, pages, tree, id, remaining, owned).Ok?
    ensures |Walk(h, pages, tree, id, remaining, owned).value.0| == remaining
    decreases remaining
  {
    hide ReadPage, ReadHead;
    if remaining != 0 {
      ReadIs(h, pages, id, tree);
      WalkLength(h, pages, tree, ReadHead(pages[id]).link, remaining - Min(remaining, PAYLOAD_SIZE), owned + {id});
    }
  }

  lemma StoredLength(h: Records.Hashes, pages: Pages, tree: nat, v: Value)
    requires ReadStored(h, pages, tree, v).Ok?
    ensures |ReadStored(h, pages, tree, v).value| == if v.Inline? then |v.bytes| else v.length
    ensures v.Overflow? ==> INLINE_LIMIT < v.length <= MAX_VALUE
  {
    hide Walk;
    if v.Overflow? {
      WalkLength(h, pages, tree, v.head, v.length, {});
    }
  }

  /** A leaf whose values were copied is legal in the new file. */
  lemma CopiedLeafLegal(cells: seq<LeafCell>, copied: seq<LeafCell>, count: nat, later: nat)
    requires LegalNode(Leaf(cells), count) && |copied| == |cells|
    requires forall i :: 0 <= i < |cells| ==>
             copied[i].key == cells[i].key && SameStorage(cells[i].value, copied[i].value, later)
    ensures LegalNode(Leaf(copied), later)
  {
    hide Less;
    var a, b := NodeCells(Leaf(cells)), NodeCells(Leaf(copied));
    forall i | 0 <= i < |b|
      ensures LegalCell(true, b[i], later)
    {
      assert LegalCell(true, a[i], count);
      assert copied[i].key == cells[i].key && SameStorage(cells[i].value, copied[i].value, later);
    }
    forall i | 0 <= i < |b| - 1
      ensures Less(b[i].key, b[i + 1].key)
    {
      assert Less(a[i].key, a[i + 1].key);
    }
  }

  lemma CopiedInternalLegal(node: Node, children: seq<nat>, count: nat, later: nat)
    requires node.Internal? && LegalNode(node, count) && |children| == |node.children|
    requires forall i :: 0 <= i < |children| ==> ValidRef(children[i], later)
    ensures LegalNode(node.(children := children), later)
  {
    hide Less;
    var a, b := NodeCells(node), NodeCells(node.(children := children));
    forall i | 0 <= i < |b|
      ensures LegalCell(false, b[i], later)
    {
      assert LegalCell(false, a[i], count);
      assert ValidRef(children[i + 1], later);
    }
    forall i | 0 <= i < |b| - 1
      ensures Less(b[i].key, b[i + 1].key)
    {
      assert Less(a[i].key, a[i + 1].key);
    }
  }

  /** The overflow pages of a leaf's values. */
  function LeafPages(cells: seq<LeafCell>): nat {
    if cells == [] then 0
    else
      var value := cells[|cells| - 1].value;
      LeafPages(cells[..|cells| - 1]) + if value.Overflow? then PagesFor(value.length) else 0
  }

  /** The pages reachable from a node: itself, its overflow pages and everything below it. */
  function TreePages(h: Records.Hashes, pages: Pages, tree: nat, id: nat, level: nat): nat
    decreases level, 1, 0
  {
    match ReadNode(h, pages, tree, id)
    case Err(_) => 0
    case Ok(Leaf(cells)) => 1 + LeafPages(cells)
    case Ok(Internal(_, _, children)) => 1 + if level == 0 then 0 else ChildPages(h, pages, tree, children, level - 1)
  }

  function ChildPages(h: Records.Hashes, pages: Pages, tree: nat, children: seq<nat>, level: nat): nat
    decreases level, 2, |children|
  {
    if children == [] then 0
    else
      ChildPages(h, pages, tree, children[..|children| - 1], level)
      + TreePages(h, pages, tree, children[|children| - 1], level)
  }

  lemma TreeHasPages(h: Records.Hashes, pages: Pages, tree: nat, id: nat, level: nat)
    requires Rows(h, pages, tree, id, level).Ok?
    ensures TreePages(h, pages, tree, id, level) > 0
  {
    hide ReadNode, ChildRows, ChildPages, LeafRows, LeafPages;
  }

  lemma PrefixPages(cells: seq<LeafCell>, i: nat)
    requires i < |cells|
    ensures LeafPages(cells[..i + 1])
         == LeafPages(cells[..i]) + if cells[i].value.Overflow? then PagesFor(cells[i].value.length) else 0
  {
    assert cells[..i + 1][..i] == cells[..i];
  }

  lemma {:induction false} LeafPagesGrow(cells: seq<LeafCell>, i: nat)
    requires i <= |cells|
    ensures LeafPages(cells[..i]) <= LeafPages(cells)
    decreases |cells|
  {
    if i == |cells| {
      assert cells[..i] == cells;
    } else {
      LeafPagesGrow(cells[..|cells| - 1], i);
      assert cells[..|cells| - 1][..i] == cells[..i];
    }
  }

  lemma ChildPrefixPages(h: Records.Hashes, pages: Pages, tree: nat, children: seq<nat>, level: nat, i: nat)
    requires i < |children|
    ensures ChildPages(h, pages, tree, children[..i + 1], level)
         == ChildPages(h, pages, tree, children[..i], level) + TreePages(h, pages, tree, children[i], level)
  {
    hide TreePages;
    assert children[..i + 1][..i] == children[..i];
  }

  lemma {:induction false} ChildPagesGrow(h: Records.Hashes, pages: Pages, tree: nat, children: seq<nat>, level: nat,
      i: nat)
    requires i <= |children|
    ensures ChildPages(h, pages, tree, children[..i], level) <= ChildPages(h, pages, tree, children, level)
    decreases |children|
  {
    hide TreePages;
    if i == |children| {
      assert children[..i] == children;
    } else {
      ChildPagesGrow(h, pages, tree, children[..|children| - 1], level, i);
      assert children[..|children| - 1][..i] == children[..i];
    }
  }

  /** A copied node takes as many bytes as the node it copies. */
  lemma CopiedFits(h: Records.Hashes, tree: nat, node: Node, id: nat, copied: Node, next: nat, count: nat)
    requires NodePage(h, tree, node, id).Ok? && LegalNode(copied, count)
    requires if node.Leaf? then
               copied.Leaf? && |copied.cells| == |node.cells|
               && forall i :: 0 <= i < |node.cells| ==>
                    copied.cells[i].key == node.cells[i].key
                    && SameStorage(node.cells[i].value, copied.cells[i].value, count)
             else copied.Internal? && copied == node.(children := copied.children)
                  && |copied.children| == |node.children| && 0 !in copied.children
    ensures NodePage(h, tree, copied, next).Ok?
  {
    hide Seal, Body, Start, EncodeCell, SameStorage;
    var a, b := NodeCells(node), NodeCells(copied);
    forall i | 0 <= i < |a|
      ensures b[i].key == a[i].key && |EncodeAll(b)[i]| == |EncodeAll(a)[i]|
    {
      if node.Leaf? {
        assert copied.cells[i].key == node.cells[i].key
            && SameStorage(node.cells[i].value, copied.cells[i].value, count);
        SameLength(a[i], b[i], count);
      } else {
        ChildLength(a[i], b[i]);
      }
    }
    StartSame(EncodeAll(a), EncodeAll(b), |a|);
  }

  lemma SameLength(a: Cell, b: Cell, count: nat)
    requires a.payload.Stored? && b.payload.Stored? && a.key == b.key
    requires SameStorage(a.payload.value, b.payload.value, count)
    ensures |EncodeCell(a)| == |EncodeCell(b)|
  {
  }

  lemma ChildLength(a: Cell, b: Cell)
    requires a.payload.Child? && b.payload.Child? && a.key == b.key
    ensures |EncodeCell(a)| == |EncodeCell(b)|
  {
  }

  lemma {:induction false} StartSame(a: seq<ByteString>, b: seq<ByteString>, n: nat)
    requires |a| == |b| && n <= |a| && forall i :: 0 <= i < |a| ==> |b[i]| == |a[i]|
    ensures Start(b, n) == Start(a, n)
  {
    if n > 0 {
      StartSame(a, b, n - 1);
    }
  }

  lemma SourceLegal(h: Records.Hashes, pages: Pages, tree: nat, id: nat)
    requires ReadNode(h, pages, tree, id).Ok?
    ensures LegalNode(ReadNode(h, pages, tree, id).value, |pages|)
    ensures NodePage(h, tree, ReadNode(h, pages, tree, id).value, id).Ok?
  {
    hide DecodeNode, NodePage, LegalNode, ReadNode;
    NodePageValid(h, pages, tree, id);
    EncodeOfDecode(h, pages[id], id, tree, |pages|);
  }

  /** Copy the values of a leaf. */
  method CopyLeaf(h: Records.Hashes, source: Pages, file: PageFile, tree: nat, cells: seq<LeafCell>, written: bool)
    returns (r: Result<seq<LeafCell>>)
    requires file.Valid() && file.hashes == h && Records.ValidHashes(h) && tree < Base(4)
    requires LegalNode(Leaf(cells), |source|) && LeafRows(h, source, tree, cells).Ok?
    modifies file
    ensures file.Valid() && old(file.pages) <= file.pages
    ensures r.Ok? ==> LegalNode(Leaf(r.value), |file.pages|)
                      && LeafRows(h, file.pages, tree, r.value) == LeafRows(h, source, tree, cells)
    ensures r.Ok? ==> |r.value| == |cells| && forall i :: 0 <= i < |cells| ==>
              r.value[i].key == cells[i].key && SameStorage(cells[i].value, r.value[i].value, |file.pages|)
    ensures r.Ok? <==> Takes(old(file.poisoned), |old(file.pages)|, LeafPages(cells), written)
    ensures r.Ok? ==> file.poisoned == old(file.poisoned) && |file.pages| == |old(file.pages)| + LeafPages(cells)
  {
    hide ReadStored, Records.ValidHashes, LegalNode, LeafRows, Walk;
    var copied: seq<LeafCell> := [];
    NoRows(h, source, file.pages, tree);
    for i := 0 to |cells|
      invariant file.Valid() && old(file.pages) <= file.pages && |copied| == i
      invariant file.poisoned == old(file.poisoned) && |file.pages| == |old(file.pages)| + LeafPages(cells[..i])
      invariant LeafPages(cells[..i]) > 0 ==> !file.poisoned && written
      invariant forall j :: 0 <= j < i ==>
                copied[j].key == cells[j].key && SameStorage(cells[j].value, copied[j].value, |file.pages|)
      invariant LeafRows(h, source, tree, cells[..i]).Ok?
      invariant LeafRows(h, file.pages, tree, copied) == LeafRows(h, source, tree, cells[..i])
    {
      LeafPrefix(h, source, tree, cells, i);
      PrefixPages(cells, i);
      LeafPagesGrow(cells, i + 1);
      var value := ReadStored(h, source, tree, cells[i].value);
      StoredLength(h, source, tree, cells[i].value);
      InlineBound(cells, i, |source|);
      ghost var before := file.pages;
      var stored := file.StoreValue(tree, value.value, written);
      if stored.Err? {
        return Err(stored.error);
      }
      LeafLater(h, before, file.pages, tree, copied);
      StoredAs(h, source, tree, cells[i].value, stored.value, |file.pages|);
      LeafSnoc(h, file.pages, tree, copied, LeafCell(cells[i].key, stored.value));
      copied := copied + [LeafCell(cells[i].key, stored.value)];
    }
    assert cells[..|cells|] == cells;
    CopiedLeafLegal(cells, copied, |source|, |file.pages|);
    r := Ok(copied);
  }

  lemma NoRows(h: Records.Hashes, a: Pages, b: Pages, tree: nat)
    ensures LeafRows(h, a, tree, []) == LeafRows(h, b, tree, []) == Ok([])
  {
  }

  lemma InlineBound(cells: seq<LeafCell>, i: nat, count: nat)
    requires LegalNode(Leaf(cells), count) && i < |cells|
    ensures cells[i].value.Inline? ==> |cells[i].value.bytes| <= INLINE_LIMIT
  {
    assert LegalCell(true, NodeCells(Leaf(cells))[i], count);
  }

  lemma StoredAs(h: Records.Hashes, pages: Pages, tree: nat, a: Value, b: Value, count: nat)
    requires ReadStored(h, pages, tree, a).Ok?
    requires a.Inline? ==> |a.bytes| <= INLINE_LIMIT
    requires a.Overflow? ==> INLINE_LIMIT < a.length <= MAX_VALUE && |ReadStored(h, pages, tree, a).value| == a.length
    requires var value := ReadStored(h, pages, tree, a).value;
             if |value| <= INLINE_LIMIT then b == Inline(value)
             else b.Overflow? && b.length == |value| && ValidRef(b.head, count)
    ensures SameStorage(a, b, count)
  {
    hide Walk;
  }

  /**
   `copy_tree`: copy a node after everything below it. The new root has the rows of the
   old, whatever the new page numbers are.
   */
  method CopyTree(h: Records.Hashes, source: Pages, file: PageFile, tree: nat, root: nat, ghost level: nat,
      written: bool) returns (r: Result<nat>)
    requires file.Valid() && file.hashes == h && Records.ValidHashes(h) && tree < Base(4) && |source| <= MAX_PAGES
    requires root != 0 ==> Rows(h, source, tree, root, level).Ok?
    modifies file
    ensures file.Valid() && old(file.pages) <= file.pages
    ensures r.Ok? && root == 0 ==> r.value == 0 && file.pages == old(file.pages)
    ensures r.Ok? && root != 0 ==>
              && ValidRef(r.value, |file.pages|)
              && Rows(h, file.pages, tree, r.value, level) == Rows(h, source, tree, root, level)
    ensures r.Ok? <==>
            root == 0 || Takes(old(file.poisoned), |old(file.pages)|, TreePages(h, source, tree, root, level), written)
    ensures r.Ok? && root != 0 ==>
              !file.poisoned && |file.pages| == |old(file.pages)| + TreePages(h, source, tree, root, level)
    decreases level, 1, 0
  {
    hide ReadNode, ReadStored, Records.ValidHashes, LegalNode, LeafRows, ChildRows, Rows, LeafPages, ChildPages,
      NodePage;
    if root == 0 {
      return Ok(0);
    }
    RowsOf(h, source, tree, root, level);
    var node := ReadNode(h, source, tree, root);
    SourceLegal(h, source, tree, root);
    var copied: Node;
    match node.value {
      case Leaf(cells) =>
        var leaves := CopyLeaf(h, source, file, tree, cells, written);
        if leaves.Err? {
          return Err(leaves.error);
        }
        copied := Leaf(leaves.value);
      case Internal(height, keys, children) =>
        var moved := CopyChildren(h, source, file, tree, children, level - 1, written);
        if moved.Err? {
          return Err(moved.error);
        }
        LegalChildren(node.value, |source|);
        ChildRefs(moved.value, |file.pages|);
        CopiedInternalLegal(node.value, moved.value, |source|, |file.pages|);
        copied := Internal(height, keys, moved.value);
    }
    ghost var before := file.pages;
    CopiedFits(h, tree, node.value, root, copied, |before|, |before|);
    r := file.AppendNode(tree, copied, written);
    if r.Ok? {
      if copied.Leaf? {
        LeafLater(h, before, file.pages, tree, copied.cells);
      } else {
        ChildrenLater(h, before, file.pages, tree, copied.children, level - 1);
      }
      RowsIf(h, file.pages, tree, r.value, level, copied);
    }
  }

  /** Copy the children in order. */
  method CopyChildren(h: Records.Hashes, source: Pages, file: PageFile, tree: nat, children: seq<nat>,
      ghost level: nat, written: bool) returns (r: Result<seq<nat>>)
    requires file.Valid() && file.hashes == h && Records.ValidHashes(h) && tree < Base(4) && |source| <= MAX_PAGES
    requires ChildRows(h, source, tree, children, level).Ok?
    modifies file
    ensures file.Valid() && old(file.pages) <= file.pages
    ensures r.Ok? ==>
              && |r.value| == |children| && (forall i :: 0 <= i < |r.value| ==> ValidRef(r.value[i], |file.pages|))
              && ChildRows(h, file.pages, tree, r.value, level) == ChildRows(h, source, tree, children, level)
    ensures r.Ok? <==>
            Takes(old(file.poisoned), |old(file.pages)|, ChildPages(h, source, tree, children, level), written)
    ensures r.Ok? ==>
              && file.poisoned == old(file.poisoned)
              && |file.pages| == |old(file.pages)| + ChildPages(h, source, tree, children, level)
    decreases level, 2, |children|
  {
    hide ReadNode, ReadStored, Records.ValidHashes, ChildRows, Rows, TreePages;
    var moved: seq<nat> := [];
    NoChildren(h, source, file.pages, tree, level);
    for i := 0 to |children|
      invariant file.Valid() && old(file.pages) <= file.pages && |moved| == i
      invariant file.poisoned == old(file.poisoned)
      invariant |file.pages| == |old(file.pages)| + ChildPages(h, source, tree, children[..i], level)
      invariant ChildPages(h, source, tree, children[..i], level) > 0 ==> !file.poisoned && written
      invariant forall j :: 0 <= j < i ==> ValidRef(moved[j], |file.pages|)
      invariant ChildRows(h, source, tree, children[..i], level).Ok?
      invariant ChildRows(h, file.pages, tree, moved, level) == ChildRows(h, source, tree, children[..i], level)
    {
      ChildPrefix(h, source, tree, children, level, i);
      ChildPrefixPages(h, source, tree, children, level, i);
      TreeHasPages(h, source, tree, children[i], level);
      ChildPagesGrow(h, source, tree, children, level, i + 1);
      RowsLater(h, source, source, tree, children[i], level);
      ghost var before := file.pages;
      var id := CopyTree(h, source, file, tree, children[i], level, written);
      if id.Err? {
        return Err(id.error);
      }
      ChildrenLater(h, before, file.pages, tree, moved, level);
      ChildSnoc(h, file.pages, tree, moved, id.value, level);
      moved := moved + [id.value];
    }
    assert children[..|children|] == children;
    r := Ok(moved);
  }

  lemma ChildRefs(children: seq<nat>, count: nat)
    requires forall i :: 0 <= i < |children| ==> ValidRef(children[i], count)
    ensures 0 !in children
  {
  }

  lemma NoChildren(h: Records.Hashes, a: Pages, b: Pages, tree: nat, level: nat)
    ensures ChildRows(h, a, tree, [], level) == ChildRows(h, b, tree, [], level) == Ok([])
  {
  }

  lemma LegalChildren(node: Node, count: nat)
    requires node.Internal? && LegalNode(node, count)
    ensures |node.children| == |node.keys| + 1
  {
  }

  lemma RowsOf(h: Records.Hashes, pages: Pages, tree: nat, id: nat, level: nat)
    requires Rows(h, pages, tree, id, level).Ok?
    ensures ReadNode(h, pages, tree, id).Ok?
    ensures var node := ReadNode(h, pages, tree, id).value;
            && node.Level() == level
            && Rows(h, pages, tree, id, level) ==
               if node.Leaf? then LeafRows(h, pages, tree, node.cells)
               else if level == 0 then Err(Corrupt) else ChildRows(h, pages, tree, node.children, level - 1)
  {
  }

  lemma RowsIf(h: Records.Hashes, pages: Pages, tree: nat, id: nat, level: nat, node: Node)
    requires ReadNode(h, pages, tree, id) == Ok(node) && node.Level() == level && (node.Internal? ==> level > 0)
    ensures Rows(h, pages, tree, id, level) ==
            if node.Leaf? then LeafRows(h, pages, tree, node.cells)
            else if level == 0 then Err(Corrupt) else ChildRows(h, pages, tree, node.children, level - 1)
  {
  }
}
