/**
 Collection of history at a retention floor: one pass over the state tree that keeps
 every version above the floor and the newest at or below it.
 */
module Collection {
  import opened Common
  import opened Bytes
  import opened Versions
  import KeyEncoding
  import opened Mvcc
  import opened StateReads

  /** The address whose baseline has been kept, if any. */
  datatype Address = Address(table: nat, key: ByteString)

  /** `keep_state`: the decision for one version and the baseline after it. */
  function KeepState(k: StateKey, floor: nat, baseline: Option<Address>): (bool, Option<Address>) {
    if k.sequence > floor then (true, baseline)
    else if baseline == Some(Address(k.table, k.key)) then (false, baseline)
    else (true, Some(Address(k.table, k.key)))
  }

  /** Entry `i` is above the floor or the newest version of its row that is not. */
  ghost predicate Keeps(tree: seq<Entry>, i: nat, floor: nat)
    requires AllEntriesValid(tree) && i < |tree|
  {
    KeyOf(tree[i]).sequence > floor || FirstBelow(tree, i, floor)
  }

  ghost predicate FirstBelow(tree: seq<Entry>, i: nat, floor: nat)
    requires AllEntriesValid(tree) && i < |tree|
  {
    && KeyOf(tree[i]).sequence <= floor
    && forall j :: 0 <= j < i ==> SameRow(KeyOf(tree[j]), KeyOf(tree[i])) ==> KeyOf(tree[j]).sequence > floor
  }

  ghost function Kept(tree: seq<Entry>, n: nat, floor: nat): seq<Entry>
    requires AllEntriesValid(tree) && n <= |tree|
  {
    if n == 0 then [] else Kept(tree, n - 1, floor) + if Keeps(tree, n - 1, floor) then [tree[n - 1]] else []
  }

  lemma {:induction false} KeptMembers(tree: seq<Entry>, n: nat, floor: nat, e: Entry)
    requires AllEntriesValid(tree) && n <= |tree|
    ensures e in Kept(tree, n, floor) <==> exists i :: 0 <= i < n && tree[i] == e && Keeps(tree, i, floor)
  {
    hide Keeps, ValidEntry;
    if n > 0 {
      KeptMembers(tree, n - 1, floor, e);
    }
  }

  lemma {:induction false} KeptWellFormed(tree: seq<Entry>, n: nat, floor: nat)
    requires WellFormedTree(tree) && n <= |tree|
    ensures WellFormedTree(Kept(tree, n, floor))
  {
    hide Keeps, Less, ValidEntry;
    if n > 0 {
      KeptWellFormed(tree, n - 1, floor);
      var front := Kept(tree, n - 1, floor);
      forall j | 0 <= j < |front|
        ensures Less(front[j].key, tree[n - 1].key)
      {
        assert front[j] in front;
        KeptMembers(tree, n - 1, floor, front[j]);
      }
    }
  }

  /** The first version at or below the floor is the one a read at the floor sees. */
  lemma FirstBelowIsNewest(tree: seq<Entry>, i: nat, floor: nat)
    requires WellFormedTree(tree) && i < |tree| && KeyOf(tree[i]).sequence <= floor
    ensures var k := KeyOf(tree[i]);
            FirstBelow(tree, i, floor) <==>
                  NewestSequence(StoreOf(tree), Row(k.table, k.key), floor) == Some(k.sequence)
  {
    hide Less, DecodeStateKey, Payload, StoreOf, NewestSequence, EncodeStateKey, ValidEntry;
    WellFormedOrdered(tree);
    var k, s := KeyOf(tree[i]), StoreOf(tree);
    var a := Row(k.table, k.key);
    StoreOfMembers(tree, VersionOf(k));
    NewestSequenceIs(s, a, floor);
    if FirstBelow(tree, i, floor) {
      forall n | k.sequence < n <= floor
        ensures Version(a, n) !in s
      {
        StoreOfMembers(tree, Version(a, n));
        if j :| 0 <= j < |tree| && VersionOf(KeyOf(tree[j])) == Version(a, n) {
          NewerIsEarlier(tree, i, j);
        }
      }
      NewestSequenceUnique(s, a, floor, k.sequence);
    } else {
      var j :| 0 <= j < i && SameRow(KeyOf(tree[j]), k) && KeyOf(tree[j]).sequence <= floor;
      StoreOfMembers(tree, VersionOf(KeyOf(tree[j])));
      OrderedPair(tree, j, i);
      LessIrreflexive(k.key);
    }
  }

  /** What is kept means exactly the collected store. */
  lemma KeptIsCollect(tree: seq<Entry>, floor: nat)
    requires WellFormedTree(tree)
    ensures WellFormedTree(Kept(tree, |tree|, floor))
    ensures StoreOf(Kept(tree, |tree|, floor)) == Collect(StoreOf(tree), floor)
  {
    hide Less, DecodeStateKey, Payload, StoreOf, NewestSequence, EncodeStateKey, ValidEntry, Kept, Keeps;
    var kept := Kept(tree, |tree|, floor);
    KeptWellFormed(tree, |tree|, floor);
    WellFormedOrdered(tree);
    WellFormedOrdered(kept);
    forall v: Version
      ensures v in StoreOf(kept) <==> v in Collect(StoreOf(tree), floor)
      ensures v in StoreOf(kept) ==> StoreOf(kept)[v] == StoreOf(tree)[v]
    {
      StoreOfMembers(tree, v);
      StoreOfMembers(kept, v);
      if v in StoreOf(kept) {
        var j :| 0 <= j < |kept| && VersionOf(KeyOf(kept[j])) == v;
        KeptMembers(tree, |tree|, floor, kept[j]);
        var i: nat :| i < |tree| && tree[i] == kept[j] && Keeps(tree, i, floor);
        RetainedIsKept(tree, i, floor);
        StoreOfValue(tree, i);
        StoreOfValue(kept, j);
      }
      if v in Collect(StoreOf(tree), floor) {
        var i: nat :| i < |tree| && VersionOf(KeyOf(tree[i])) == v;
        RetainedIsKept(tree, i, floor);
        KeptMembers(tree, |tree|, floor, tree[i]);
        var j :| 0 <= j < |kept| && kept[j] == tree[i];
        assert VersionOf(KeyOf(kept[j])) == v;
      }
    }
  }

  lemma RetainedIsKept(tree: seq<Entry>, i: nat, floor: nat)
    requires WellFormedTree(tree) && i < |tree|
    ensures Keeps(tree, i, floor) <==> Retained(StoreOf(tree), floor, VersionOf(KeyOf(tree[i])))
  {
    hide Less, DecodeStateKey, Payload, StoreOf, NewestSequence, EncodeStateKey, ValidEntry, FirstBelow;
    if KeyOf(tree[i]).sequence <= floor {
      FirstBelowIsNewest(tree, i, floor);
    }
  }

  // ---------------------------------------------------------------- the pass

  /** Remove one entry of a tree by key. */
  function Delete(tree: seq<Entry>, key: ByteString): seq<Entry> {
    if tree == [] then [] else if tree[0].key == key then tree[1..] else [tree[0]] + Delete(tree[1..], key)
  }

  lemma {:induction false} DeleteAt(front: seq<Entry>, e: Entry, back: seq<Entry>)
    requires forall i :: 0 <= i < |front| ==> front[i].key != e.key
    ensures Delete(front + [e] + back, e.key) == front + back
  {
    var all := front + [e] + back;
    if front == [] {
      assert all[1..] == back;
    } else {
      DeleteAt(front[1..], e, back);
      assert all[1..] == front[1..] + [e] + back;
    }
  }

  /** The baseline after a prefix is the row of its last version at or below the floor. */
  ghost predicate BaselineOf(tree: seq<Entry>, n: nat, floor: nat, baseline: Option<Address>)
    requires AllEntriesValid(tree) && n <= |tree|
  {
    match baseline
    case None => forall j :: 0 <= j < n ==> KeyOf(tree[j]).sequence > floor
    case Some(a) =>
      exists last :: 0 <= last < n && KeyOf(tree[last]).sequence <= floor && RowIs(KeyOf(tree[last]), a)
        && forall j :: last < j < n ==> KeyOf(tree[j]).sequence > floor || RowIs(KeyOf(tree[j]), a)
  }

  predicate RowIs(k: StateKey, a: Address) {
    a == Address(k.table, k.key)
  }

  /** One decision of the pass is the decision by definition. */
  lemma KeepStateExact(tree: seq<Entry>, i: nat, floor: nat, baseline: Option<Address>)
    requires WellFormedTree(tree) && i < |tree| && BaselineOf(tree, i, floor, baseline)
    ensures KeepState(KeyOf(tree[i]), floor, baseline).0 <==> Keeps(tree, i, floor)
    ensures BaselineOf(tree, i + 1, floor, KeepState(KeyOf(tree[i]), floor, baseline).1)
  {
    hide Less, DecodeStateKey, Payload, EncodeStateKey, ValidEntry;
    WellFormedOrdered(tree);
    var k := KeyOf(tree[i]);
    if k.sequence <= floor {
      if baseline == Some(Address(k.table, k.key)) {
        var last :| 0 <= last < i && KeyOf(tree[last]).sequence <= floor && RowIs(KeyOf(tree[last]), baseline.value);
        assert SameRow(KeyOf(tree[last]), k);
      } else {
        NoEarlierBelow(tree, i, floor, baseline);
        assert RowIs(k, Address(k.table, k.key));
      }
    }
  }

  lemma NoEarlierBelow(tree: seq<Entry>, i: nat, floor: nat, baseline: Option<Address>)
    requires WellFormedTree(tree) && Ordered(tree) && i < |tree| && BaselineOf(tree, i, floor, baseline)
    requires KeyOf(tree[i]).sequence <= floor && baseline != Some(Address(KeyOf(tree[i]).table, KeyOf(tree[i]).key))
    ensures FirstBelow(tree, i, floor)
  {
    hide Less, DecodeStateKey, Payload, EncodeStateKey, ValidEntry;
    var k := KeyOf(tree[i]);
    forall j | 0 <= j < i && SameRow(KeyOf(tree[j]), k)
      ensures KeyOf(tree[j]).sequence > floor
    {
      if baseline.Some? {
        var last :| 0 <= last < i && KeyOf(tree[last]).sequence <= floor && RowIs(KeyOf(tree[last]), baseline.value)
          && forall x :: last < x < i ==> KeyOf(tree[x]).sequence > floor || RowIs(KeyOf(tree[x]), baseline.value);
        if j < last {
          OrderedPair(tree, j, last);
          OrderedPair(tree, last, i);
          Between(KeyOf(tree[j]), KeyOf(tree[last]), k);
        }
      }
    }
  }

  /**
   The state half of `collect_view`: scan the pinned tree, deleting from the new root
   what is not kept.
   */
  method CollectState(tree: seq<Entry>, floor: nat) returns (root: seq<Entry>, removed: nat)
    requires WellFormedTree(tree)
    ensures AllEntriesValid(tree) && root == Kept(tree, |tree|, floor) && removed == |tree| - |root|
    ensures WellFormedTree(root) && StoreOf(root) == Collect(StoreOf(tree), floor)
  {
    hide Less, DecodeStateKey, Payload, StoreOf, EncodeStateKey, ValidEntry, Keeps, BaselineOf, WellFormedTree,
      KeepState;
    root, removed := tree, 0;
    var baseline: Option<Address> := None;
    EmptyBaseline(tree, floor);
    assert Kept(tree, 0, floor) + tree[0..] == tree;
    for i := 0 to |tree|
      invariant BaselineOf(tree, i, floor, baseline)
      invariant root == Kept(tree, i, floor) + tree[i..]
      invariant removed == |tree| - |root|
    {
      assert ValidEntry(tree[i]) by { EntryValid(tree, i); }
      KeepStateExact(tree, i, floor, baseline);
      var decision := KeepState(KeyOf(tree[i]), floor, baseline);
      baseline := decision.1;
      var front, back := Kept(tree, i, floor), tree[i + 1..];
      assert tree[i..] == [tree[i]] + back;
      if !decision.0 {
        KeptDistinct(tree, i, floor);
        Reassociate(front, [tree[i]], back);
        DeleteAt(front, tree[i], back);
        root := Delete(root, tree[i].key);
        removed := removed + 1;
      } else {
        Reassociate(front, [tree[i]], back);
      }
    }
    assert root == Kept(tree, |tree|, floor);
    KeptIsCollect(tree, floor);
  }

  lemma EmptyBaseline(tree: seq<Entry>, floor: nat)
    requires WellFormedTree(tree)
    ensures AllEntriesValid(tree) && BaselineOf(tree, 0, floor, None)
  {
  }

  lemma EntryValid(tree: seq<Entry>, i: nat)
    requires WellFormedTree(tree) && i < |tree|
    ensures ValidEntry(tree[i])
  {
  }

  lemma KeptDistinct(tree: seq<Entry>, i: nat, floor: nat)
    requires WellFormedTree(tree) && i < |tree|
    ensures var front := Kept(tree, i, floor); forall j :: 0 <= j < |front| ==> front[j].key != tree[i].key
  {
    hide Less, Keeps, ValidEntry;
    var front := Kept(tree, i, floor);
    LessIrreflexive(tree[i].key);
    forall j | 0 <= j < |front|
      ensures front[j].key != tree[i].key
    {
      assert front[j] in front;
      KeptMembers(tree, i, floor, front[j]);
    }
  }

  // ---------------------------------------------------------------- meaning preserved

  /**
   Collection changes no point read and no scan at or above the floor, keeps every
   version above it, and leaves at most one version of a row at or below it.
   */
  lemma CollectionPreserves(tree: seq<Entry>, root: seq<Entry>, floor: nat, table: nat, sequence: nat)
    requires WellFormedTree(tree) && WellFormedTree(root) && StoreOf(root) == Collect(StoreOf(tree), floor)
    requires ValidSnapshot(table, sequence) && sequence >= floor
    ensures forall key :: |key| <= KeyEncoding.MAX_KEY_BYTES ==>
              ReadValue(root, table, key, sequence) == ReadValue(tree, table, key, sequence)
    ensures forall lower, upper ::
            ScanRows(root, table, sequence, lower, upper) == ScanRows(tree, table, sequence, lower, upper)
    ensures forall v :: v in StoreOf(tree) && v.sequence > floor ==> v in StoreOf(root)
    ensures forall v, w :: SharedBaseline(StoreOf(root), floor, v, w) ==> v == w
  {
    hide Less, ValidEntry, StoreOf, ReadValue, ScanRows, Read, NewestSequence;
    CollectedIs(StoreOf(tree), floor);
    forall key | |key| <= KeyEncoding.MAX_KEY_BYTES
      ensures ReadValue(root, table, key, sequence) == ReadValue(tree, table, key, sequence)
    {
      ReadValueExact(tree, table, key, sequence);
      ReadValueExact(root, table, key, sequence);
      CollectedReads(StoreOf(tree), StoreOf(root), floor, Row(table, key), sequence);
    }
    forall lower, upper
      ensures ScanRows(root, table, sequence, lower, upper) == ScanRows(tree, table, sequence, lower, upper)
    {
      CollectedScan(tree, root, floor, table, sequence, lower, upper);
    }
    forall v, w | SharedBaseline(StoreOf(root), floor, v, w)
      ensures v == w
    {
      CollectMinimal(StoreOf(tree), floor, v, w);
    }
  }

  ghost predicate SharedBaseline(s: Store, floor: nat, v: Version, w: Version) {
    v in s && w in s && v.address == w.address && v.address.Row? && v.sequence <= floor && w.sequence <= floor
  }

  lemma CollectedIs(s: Store, floor: nat)
    ensures Collected(s, Collect(s, floor), floor)
  {
  }

  lemma CollectedScan(tree: seq<Entry>, root: seq<Entry>, floor: nat, table: nat, sequence: nat, lower: Bound,
      upper: Bound)
    requires WellFormedTree(tree) && WellFormedTree(root) && StoreOf(root) == Collect(StoreOf(tree), floor)
    requires ValidSnapshot(table, sequence) && sequence >= floor
    ensures ScanRows(root, table, sequence, lower, upper) == ScanRows(tree, table, sequence, lower, upper)
  {
    hide Less, ValidEntry, StoreOf, ScanRows, Read, NewestSequence, Collect;
    ScanExact(tree, table, sequence, lower, upper);
    ScanExact(root, table, sequence, lower, upper);
    CollectedIs(StoreOf(tree), floor);
    forall row
      ensures LiveRow(tree, table, sequence, lower, upper, row) <==> LiveRow(root, table, sequence, lower, upper, row)
    {
      CollectedReads(StoreOf(tree), StoreOf(root), floor, Row(table, row.0), sequence);
    }
    AscendingUnique(ScanRows(tree, table, sequence, lower, upper).rows,
        ScanRows(root, table, sequence, lower, upper).rows);
  }

  // ---------------------------------------------------------------- outcomes

  /** The first `n` outcomes with those at or below the floor taken out. */
  function Above(tree: seq<Entry>, n: nat, floor: nat): seq<Entry>
    requires n <= |tree|
  {
    if n == 0 then []
    else
      var sequence := EntrySequence(tree[n - 1].key);
      Above(tree, n - 1, floor) + if sequence.Ok? && sequence.value > floor then [tree[n - 1]] else []
  }

  lemma {:induction false} AboveMembers(tree: seq<Entry>, n: nat, floor: nat, e: Entry)
    requires n <= |tree|
    ensures e in Above(tree, n, floor) <==>
            e in tree[..n] && EntrySequence(e.key).Ok? && EntrySequence(e.key).value > floor
  {
    if n > 0 {
      AboveMembers(tree, n - 1, floor, e);
      assert tree[..n] == tree[..n - 1] + [tree[n - 1]];
    }
  }

  /** No two entries of a tree share a key. */
  ghost predicate DistinctKeys(tree: seq<Entry>) {
    forall i, j :: 0 <= i < j < |tree| ==> tree[i].key != tree[j].key
  }

  /**
   The outcome half of `collect_view`: outcomes are keyed by sequence, and what is left is the
   tree with those at or below the floor taken out, in order.
   */
  method CollectOutcomes(tree: seq<Entry>, floor: nat) returns (r: Result<(seq<Entry>, nat)>)
    requires DistinctKeys(tree)
    ensures r.Err? <==> exists i :: 0 <= i < |tree| && EntrySequence(tree[i].key).Err?
    ensures r.Ok? ==> r.value == (Above(tree, |tree|, floor), |tree| - |Above(tree, |tree|, floor)|)
  {
    hide EntrySequence, DistinctKeys, Above, Delete;
    var root, removed := tree, 0;
    AboveNone(tree, floor);
    assert Above(tree, 0, floor) + tree[0..] == tree;
    for i := 0 to |tree|
      invariant forall j :: 0 <= j < i ==> EntrySequence(tree[j].key).Ok?
      invariant root == Above(tree, i, floor) + tree[i..] && removed == |tree| - |root|
    {
      var sequence := EntrySequence(tree[i].key);
      if sequence.Err? {
        return Err(Corrupt);
      }
      AboveStep(tree, i, floor);
      if sequence.value <= floor {
        root := Delete(root, tree[i].key);
        removed := removed + 1;
      }
    }
    assert root == Above(tree, |tree|, floor);
    r := Ok((root, removed));
  }

  lemma AboveNone(tree: seq<Entry>, floor: nat)
    ensures Above(tree, 0, floor) == []
  {
  }

  /** One pass of that loop moves entry `i` to the front or deletes it. */
  lemma AboveStep(tree: seq<Entry>, i: nat, floor: nat)
    requires DistinctKeys(tree) && i < |tree| && EntrySequence(tree[i].key).Ok?
    ensures var root, next := Above(tree, i, floor) + tree[i..], Above(tree, i + 1, floor) + tree[i + 1..];
            && next == (if EntrySequence(tree[i].key).value <= floor then Delete(root, tree[i].key) else root)
            && |next| == |root| - if EntrySequence(tree[i].key).value <= floor then 1 else 0
  {
    hide EntrySequence, DistinctKeys, Delete;
    var front, back := Above(tree, i, floor), tree[i + 1..];
    assert tree[i..] == [tree[i]] + back;
    Reassociate(front, [tree[i]], back);
    AboveDistinct(tree, front, i, floor);
    DeleteAt(front, tree[i], back);
  }

  lemma AboveDistinct(tree: seq<Entry>, front: seq<Entry>, i: nat, floor: nat)
    requires DistinctKeys(tree) && i < |tree| && front == Above(tree, i, floor)
    ensures forall j :: 0 <= j < |front| ==> front[j].key != tree[i].key
  {
    forall j | 0 <= j < |front|
      ensures front[j].key != tree[i].key
    {
      assert front[j] in front;
      AboveMembers(tree, i, floor, front[j]);
    }
  }

  /** `entry_sequence` for the outcome tree. */
  function EntrySequence(key: ByteString): Result<nat> {
    if |key| != 8 then Err(Corrupt)
    else
      var sequence := FromBigEndian(key);
      if sequence == 0 || sequence >= U64_MAX then Err(Corrupt) else Ok(sequence)
  }

  /** Outcome keys are exactly the eight big-endian bytes of a sequence. */
  lemma SequenceExact(key: ByteString, n: nat)
    ensures EntrySequence(key) == Ok(n) <==> 0 < n < U64_MAX && key == BigEndian(n, 8)
  {
    Base8();
    FromBigEndianRoundTrip(key);
    if n < U64_MAX {
      BigEndianRoundTrip(n, 8);
    }
  }
}
