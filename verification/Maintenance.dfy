/**
 Collection followed by compaction: whatever was readable at or above the floor before the
 pass is read the same from the compacted file.
 */
module Maintenance {
  import opened Common
  import opened Bytes
  import opened Mvcc
  import opened StateReads
  import opened Collection
  import opened Compaction
  import opened PageFiles
  import Page
  import KeyEncoding
  import Records

  function Pairs(entries: seq<Entry>): (r: seq<Compaction.Row>)
    ensures |r| == |entries|
  {
    seq(|entries|, i requires 0 <= i < |entries| => (entries[i].key, entries[i].value))
  }

  lemma PairsInjective(a: seq<Entry>, b: seq<Entry>)
    requires Pairs(a) == Pairs(b)
    ensures a == b
  {
    forall i | 0 <= i < |a|
      ensures a[i] == b[i]
    {
      assert Pairs(a)[i] == Pairs(b)[i];
    }
  }

  /** The tree at `root` has exactly these entries in this order; no tree has none. */
  ghost predicate Stores(h: Records.Hashes, pages: Pages, tree: nat, root: nat, level: nat, entries: seq<Entry>) {
    if root == 0 then entries == [] else Compaction.Rows(h, pages, tree, root, level) == Ok(Pairs(entries))
  }

  lemma StoresUnique(h: Records.Hashes, pages: Pages, tree: nat, root: nat, level: nat, a: seq<Entry>, b: seq<Entry>)
    requires Stores(h, pages, tree, root, level, a) && Stores(h, pages, tree, root, level, b)
    ensures a == b
  {
    hide Compaction.Rows;
    if root != 0 {
      PairsInjective(a, b);
    }
  }

  ghost predicate ReadsAgree(a: seq<Entry>, b: seq<Entry>, table: nat, sequence: nat)
    requires ValidSnapshot(table, sequence)
  {
    && (forall key :: |key| <= KeyEncoding.MAX_KEY_BYTES ==>
          ReadValue(a, table, key, sequence) == ReadValue(b, table, key, sequence))
    && (forall lower, upper :: ScanRows(a, table, sequence, lower, upper) == ScanRows(b, table, sequence, lower, upper))
  }

  /** Every point read and every scan at or above the floor is the same. */
  ghost predicate Preserves(before: seq<Entry>, after: seq<Entry>, floor: nat) {
    forall table: nat, sequence: nat :: ValidSnapshot(table, sequence) && sequence >= floor ==>
          ReadsAgree(before, after, table, sequence)
  }

  lemma CollectedPreserves(entries: seq<Entry>, floor: nat)
    requires WellFormedTree(entries)
    ensures AllEntriesValid(entries) && WellFormedTree(Kept(entries, |entries|, floor))
    ensures Preserves(entries, Kept(entries, |entries|, floor), floor)
  {
    hide WellFormedTree, ReadValue, ScanRows, StoreOf, Kept;
    EmptyBaseline(entries, floor);
    KeptIsCollect(entries, floor);
    forall table: nat, sequence: nat | ValidSnapshot(table, sequence) && sequence >= floor
      ensures ReadsAgree(entries, Kept(entries, |entries|, floor), table, sequence)
    {
      CollectionPreserves(entries, Kept(entries, |entries|, floor), floor, table, sequence);
    }
  }

  /**
   Compact the tree collection left: what the new file stores answers every read at or above the
   floor as the tree before collection did.
   */
  method CompactCollected(h: Records.Hashes, source: Pages, file: PageFile, tree: nat, root: nat, ghost level: nat,
      ghost entries: seq<Entry>, ghost floor: nat, written: bool) returns (r: Result<nat>)
    requires file.Valid() && file.hashes == h && Records.ValidHashes(h) && tree < Base(4) && |source| <= Page.MAX_PAGES
    requires WellFormedTree(entries) && AllEntriesValid(entries)
    requires Stores(h, source, tree, root, level, Kept(entries, |entries|, floor))
    modifies file
    ensures file.Valid() && old(file.pages) <= file.pages
    ensures r.Ok? <==>
            root == 0 || Takes(old(file.poisoned), |old(file.pages)|, TreePages(h, source, tree, root, level), written)
    ensures r.Ok? ==> Stores(h, file.pages, tree, r.value, level, Kept(entries, |entries|, floor))
    ensures r.Ok? ==> forall copied :: Stores(h, file.pages, tree, r.value, level, copied) ==>
                        WellFormedTree(copied) && Preserves(entries, copied, floor)
  {
    hide WellFormedTree, AllEntriesValid, Kept, Compaction.Rows, Preserves, Records.ValidHashes;
    ghost var kept := Kept(entries, |entries|, floor);
    CollectedPreserves(entries, floor);
    r := CopyTree(h, source, file, tree, root, level, written);
    if r.Ok? {
      forall copied | Stores(h, file.pages, tree, r.value, level, copied)
        ensures WellFormedTree(copied) && Preserves(entries, copied, floor)
      {
        StoresUnique(h, file.pages, tree, r.value, level, kept, copied);
      }
    }
  }
}
