/**
 Reads of versioned state through one physical seek or scan, against the meaning of
 the store: the newest version at or below a sequence, tombstones absent.
 */
module StateReads {
  import opened Common
  import opened Bytes
  import opened Versions
  import opened KeyEncoding
  import opened Mvcc

  // ---------------------------------------------------------------- values

  function EncodeCell(c: Cell): Result<ByteString> {
    match c
    case Delete => Ok([0])
    case Put(value) =>
      if |value| > MAX_VALUE_BYTES then Err(InvalidInput)
      else Ok([1] + LittleEndian(|value|, 4) + value)
  }

  /** `value_payload`: nothing for a tombstone, the bytes for a Put. */
  function Payload(encoded: ByteString): Result<Option<ByteString>> {
    if encoded == [0] then Ok(None)
    else if |encoded| < 5 || encoded[0] != 1 then Err(InvalidInput)
    else
      var length := FromLittleEndian(encoded[1..5]);
      if length > MAX_VALUE_BYTES || length != |encoded| - 5 then Err(InvalidInput)
      else Ok(Some(encoded[5..]))
  }

  function CellOf(payload: Option<ByteString>): Cell {
    if payload.Some? then Put(payload.value) else Delete
  }

  lemma PayloadOfEncode(c: Cell)
    requires EncodeCell(c).Ok?
    ensures Payload(EncodeCell(c).value).Ok? && CellOf(Payload(EncodeCell(c).value).value) == c
  {
    if c.Put? {
      Base8();
      LittleEndianRoundTrip(|c.bytes|, 4);
      var encoded, length := EncodeCell(c).value, LittleEndian(|c.bytes|, 4);
      assert encoded == [1] + length + c.bytes;
      assert encoded[1..5] == length && encoded[5..] == c.bytes;
    }
  }

  lemma AcceptedPayload(encoded: ByteString)
    requires Payload(encoded).Ok?
    ensures EncodeCell(CellOf(Payload(encoded).value)) == Ok(encoded)
  {
    if encoded != [0] {
      FromLittleEndianRoundTrip(encoded[1..5]);
      assert encoded == [encoded[0]] + encoded[1..5] + encoded[5..];
    }
  }

  // ---------------------------------------------------------------- trees

  predicate ValidEntry(e: Entry) {
    DecodeStateKey(e.key).Ok? && Payload(e.value).Ok?
  }

  function KeyOf(e: Entry): (k: StateKey)
    requires ValidEntry(e)
    ensures ValidStateKey(k) && EncodeStateKey(k) == e.key
  {
    AcceptedStateKey(e.key);
    DecodeStateKey(e.key).value
  }

  function PayloadOf(e: Entry): Option<ByteString>
    requires ValidEntry(e)
  {
    Payload(e.value).value
  }

  ghost predicate AllEntriesValid(tree: seq<Entry>) {
    forall i :: 0 <= i < |tree| ==> ValidEntry(tree[i])
  }

  /** The entries of a state tree: valid, and in strictly ascending key order. */
  ghost predicate WellFormedTree(tree: seq<Entry>) {
    && AllEntriesValid(tree)
    && forall i, j :: 0 <= i < j < |tree| ==> Less(tree[i].key, tree[j].key)
  }

  ghost predicate Ordered(tree: seq<Entry>)
    requires AllEntriesValid(tree)
  {
    forall i, j :: 0 <= i < j < |tree| ==> Before(KeyOf(tree[i]), KeyOf(tree[j]))
  }

  lemma WellFormedOrdered(tree: seq<Entry>)
    requires WellFormedTree(tree)
    ensures Ordered(tree)
  {
    forall i, j | 0 <= i < j < |tree|
      ensures Before(KeyOf(tree[i]), KeyOf(tree[j]))
    {
      EncodedOrder(KeyOf(tree[i]), KeyOf(tree[j]));
    }
  }

  function VersionOf(k: StateKey): Version {
    Version(Row(k.table, k.key), k.sequence)
  }

  /** What the bytes mean. */
  ghost function StoreOf(tree: seq<Entry>): Store
    requires AllEntriesValid(tree)
  {
    if tree == [] then map[]
    else
      var last := tree[|tree| - 1];
      StoreOf(tree[..|tree| - 1])[VersionOf(KeyOf(last)) := CellOf(PayloadOf(last))]
  }

  lemma {:induction false} StoreOfMembers(tree: seq<Entry>, v: Version)
    requires AllEntriesValid(tree)
    ensures v in StoreOf(tree) <==> exists i :: 0 <= i < |tree| && VersionOf(KeyOf(tree[i])) == v
  {
    hide DecodeStateKey, Payload, EncodeStateKey, ValidEntry;
    if tree != [] {
      var front := tree[..|tree| - 1];
      StoreOfMembers(front, v);
      if v in StoreOf(tree) && v != VersionOf(KeyOf(tree[|tree| - 1])) {
        var i :| 0 <= i < |front| && VersionOf(KeyOf(front[i])) == v;
        assert VersionOf(KeyOf(tree[i])) == v;
      }
      if i :| 0 <= i < |tree| && VersionOf(KeyOf(tree[i])) == v {
        assert i < |front| ==> VersionOf(KeyOf(front[i])) == v;
      }
    }
  }

  lemma {:induction false} StoreOfValue(tree: seq<Entry>, i: nat)
    requires AllEntriesValid(tree) && Ordered(tree) && i < |tree|
    ensures var v := VersionOf(KeyOf(tree[i]));
            v in StoreOf(tree) && StoreOf(tree)[v] == CellOf(PayloadOf(tree[i]))
  {
    hide DecodeStateKey, Payload, EncodeStateKey, Less;
    var k := |tree| - 1;
    if i < k {
      StoreOfValue(tree[..k], i);
      assert Before(KeyOf(tree[i]), KeyOf(tree[k]));
      LessIrreflexive(KeyOf(tree[i]).key);
    }
  }

  // ---------------------------------------------------------------- point reads

  /** The first entry at or above a physical key. */
  function Seek(tree: seq<Entry>, lower: ByteString): (i: nat)
    ensures i <= |tree|
    ensures forall j :: 0 <= j < i ==> !AtMost(lower, tree[j].key)
    ensures i < |tree| ==> AtMost(lower, tree[i].key)
  {
    if tree == [] || AtMost(lower, tree[0].key) then 0
    else
      var i := Seek(tree[1..], lower);
      assert forall j :: 0 < j < i + 1 ==> tree[j] == tree[1..][j - 1];
      i + 1
  }

  /** `read_value`: one seek, an exact prefix test, and checks of what was found. */
  function ReadValue(tree: seq<Entry>, table: nat, key: ByteString, sequence: nat): Result<Option<ByteString>> {
    if !ValidSnapshot(table, sequence) || |key| > MAX_KEY_BYTES then Err(InvalidInput)
    else
      var lower := SeekKey(table, key, sequence);
      var length := |lower| - 8;
      var i := Seek(tree, lower);
      if i == |tree| || !(lower[..length] <= tree[i].key) then Ok(None)
      else if |tree[i].key| != |lower| then Err(Corrupt)
      else
        var complement := FromBigEndian(tree[i].key[length..]);
        if complement > U64_MAX || U64_MAX - complement <= table || U64_MAX - complement > sequence then Err(Corrupt)
        else
          match Payload(tree[i].value)
          case Ok(payload) => Ok(payload)
          case Err(_) => Err(Corrupt)
  }

  lemma LowerPrefix(table: nat, key: ByteString, sequence: nat)
    requires sequence <= U64_MAX
    ensures var lower := SeekKey(table, key, sequence);
            |lower| >= 18 && lower[..|lower| - 8] == AddressPrefix(table, key)
  {
  }

  /** The version bytes at the end of an entry of the row that was sought. */
  lemma FoundVersion(k: StateKey)
    requires ValidStateKey(k)
    ensures var encoded, n := EncodeStateKey(k), |AddressPrefix(k.table, k.key)|;
            |encoded| == n + 8 && FromBigEndian(encoded[n..]) == U64_MAX - k.sequence
  {
    Base8();
    BigEndianRoundTrip(U64_MAX - k.sequence, 8);
    assert EncodeStateKey(k)[|AddressPrefix(k.table, k.key)|..] == BigEndian(U64_MAX - k.sequence, 8);
  }

  /** The entry a seek for `target` meets is the newest version of the row, if the row has one. */
  lemma SeekMeets(tree: seq<Entry>, target: StateKey)
    requires WellFormedTree(tree) && ValidSnapshot(target.table, target.sequence)
    ensures var i, a := Seek(tree, EncodeStateKey(target)), Row(target.table, target.key);
            if i < |tree| && SameRow(KeyOf(tree[i]), target)
            then
              && KeyOf(tree[i]).sequence <= target.sequence
              && NewestSequence(StoreOf(tree), a, target.sequence) == Some(KeyOf(tree[i]).sequence)
            else NewestSequence(StoreOf(tree), a, target.sequence) == None
  {
    hide Less, SeekKey, Seek, StoreOf, NewestSequence, DecodeStateKey, Payload;
    WellFormedOrdered(tree);
    var i, a, s := Seek(tree, EncodeStateKey(target)), Row(target.table, target.key), StoreOf(tree);
    var found := i < |tree| && SameRow(KeyOf(tree[i]), target);
    forall k: nat | k <= target.sequence && Version(a, k) in s
      ensures found && KeyOf(tree[i]).sequence >= k
    {
      StoreOfMembers(tree, Version(a, k));
      var j :| 0 <= j < |tree| && VersionOf(KeyOf(tree[j])) == Version(a, k);
      SeekReaches(tree, target, i, j);
    }
    NewestSequenceIs(s, a, target.sequence);
    if found {
      SoughtVersion(tree, target, i);
      StoreOfValue(tree, i);
      NewestSequenceUnique(s, a, target.sequence, KeyOf(tree[i]).sequence);
    }
  }

  lemma SoughtVersion(tree: seq<Entry>, target: StateKey, i: nat)
    requires AllEntriesValid(tree) && ValidSnapshot(target.table, target.sequence) && i < |tree|
    requires AtMost(EncodeStateKey(target), tree[i].key) && SameRow(KeyOf(tree[i]), target)
    ensures KeyOf(tree[i]).sequence <= target.sequence
  {
    hide SeekKey, DecodeStateKey, Payload;
    var k := KeyOf(tree[i]);
    EncodedOrder(target, k);
    EncodedOrder(k, target);
    LessIrreflexive(tree[i].key);
    LessIrreflexive(k.key);
  }

  /** Any entry of the row at or below the sequence is at or after the seek position, with the row between. */
  lemma SeekReaches(tree: seq<Entry>, target: StateKey, i: nat, j: nat)
    requires WellFormedTree(tree) && Ordered(tree) && ValidSnapshot(target.table, target.sequence)
    requires j < |tree| && SameRow(KeyOf(tree[j]), target) && KeyOf(tree[j]).sequence <= target.sequence
    requires i == Seek(tree, EncodeStateKey(target))
    ensures i <= j && SameRow(KeyOf(tree[i]), target) && KeyOf(tree[i]).sequence >= KeyOf(tree[j]).sequence
  {
    hide SeekKey, DecodeStateKey, Payload, Seek, Less;
    var k := KeyOf(tree[j]);
    EncodedOrder(target, k);
    assert k.sequence == target.sequence ==> k == target;
    assert AtMost(EncodeStateKey(target), tree[j].key);
    LessIrreflexive(k.key);
    if i < j {
      var found := KeyOf(tree[i]);
      assert Before(found, k);
      EncodedOrder(target, found);
      if EncodeStateKey(target) == EncodeStateKey(found) {
        PrefixIsRow(found, target.table, target.key);
        PrefixIsRow(target, target.table, target.key);
      } else {
        Between(target, found, k);
      }
    }
  }

  lemma Between(a: StateKey, b: StateKey, c: StateKey)
    requires Before(a, b) && Before(b, c) && SameRow(a, c)
    ensures SameRow(a, b)
  {
    if Less(a.key, b.key) {
      LessAsymmetric(a.key, b.key);
    }
  }

  /** A point read returns the newest version at or below the sequence; a tombstone is absence. */
  lemma ReadValueExact(tree: seq<Entry>, table: nat, key: ByteString, sequence: nat)
    requires WellFormedTree(tree) && ValidSnapshot(table, sequence) && |key| <= MAX_KEY_BYTES
    ensures ReadValue(tree, table, key, sequence) == Ok(Read(StoreOf(tree), Row(table, key), sequence))
  {
    hide Less, Escape, BigEndian, FromBigEndian, Seek, StoreOf, NewestSequence, DecodeStateKey, SeekKey, AddressPrefix;
    var target := StateKey(table, key, sequence);
    var lower := SeekKey(table, key, sequence);
    var i := Seek(tree, lower);
    SeekMeets(tree, target);
    LowerPrefix(table, key, sequence);
    if i < |tree| {
      var k := KeyOf(tree[i]);
      PrefixIsRow(k, table, key);
      if SameRow(k, target) {
        FoundVersion(k);
        WellFormedOrdered(tree);
        StoreOfValue(tree, i);
      }
    }
  }

  // ---------------------------------------------------------------- scans

  /** The rows an iterator yields, and the error that ends it if any. */
  datatype Stream = Stream(rows: seq<(ByteString, ByteString)>, error: Option<Error>)

  /** Everything `advance` yields from the physical entries that remain. */
  function Rows(physical: seq<Entry>, table: nat, sequence: nat, selected: Option<ByteString>): Stream {
    if physical == [] then Stream([], None)
    else if !ValidEntry(physical[0]) || KeyOf(physical[0]).table != table then Stream([], Some(Corrupt))
    else
      var k := KeyOf(physical[0]);
      if k.sequence > sequence || selected == Some(k.key) then Rows(physical[1..], table, sequence, selected)
      else
        var rest := Rows(physical[1..], table, sequence, Some(k.key));
        if PayloadOf(physical[0]).Some? then rest.(rows := [(k.key, PayloadOf(physical[0]).value)] + rest.rows)
        else rest
  }

  /** The entries of the physical range, in order. */
  function Range(tree: seq<Entry>, lower: ByteString, upper: ByteString): seq<Entry> {
    if tree == [] then []
    else (if InRange(tree[0].key, lower, upper) then [tree[0]] else []) + Range(tree[1..], lower, upper)
  }

  predicate ValidBound(b: Bound) {
    b.Unbounded? || |b.key| <= MAX_KEY_BYTES
  }

  class StateScan {
    var physical: seq<Entry>
    var selected: Option<ByteString>
    var done: bool
    const table: nat
    const sequence: nat

    /** The rows still to come. */
    function Remaining(): Stream
      reads this
    {
      if done then Stream([], None) else Rows(physical, table, sequence, selected)
    }

    constructor (physical: seq<Entry>, table: nat, sequence: nat)
      ensures Remaining() == Rows(physical, table, sequence, None)
    {
      this.physical, this.selected, this.done := physical, None, false;
      this.table, this.sequence := table, sequence;
    }

    /** Each call yields the next row; an error or the end finishes the scan. */
    method Next() returns (r: Option<Result<(ByteString, ByteString)>>)
      modifies this
      ensures match r
              case None => old(Remaining()) == Stream([], None) && Remaining() == Stream([], None)
              case Some(Ok(row)) => old(Remaining()) == Remaining().(rows := [row] + Remaining().rows)
              case Some(Err(e)) => old(Remaining()) == Stream([], Some(e)) && Remaining() == Stream([], None)
    {
      if done {
        return None;
      }
      while physical != []
        invariant !done && Rows(physical, table, sequence, selected) == old(Remaining())
        decreases |physical|
      {
        var entry := physical[0];
        physical := physical[1..];
        if !ValidEntry(entry) || KeyOf(entry).table != table {
          done := true;
          return Some(Err(Corrupt));
        }
        var k := KeyOf(entry);
        if k.sequence > sequence || selected == Some(k.key) {
          continue;
        }
        selected := Some(k.key);
        if PayloadOf(entry).Some? {
          return Some(Ok((k.key, PayloadOf(entry).value)));
        }
      }
      done := true;
      r := None;
    }
  }

  /** `scan`: translate the user bounds and open an iterator over the physical range. */
  method Scan(tree: seq<Entry>, table: nat, sequence: nat, lower: Bound, upper: Bound) returns (r: Result<StateScan>)
    ensures match r
            case Ok(scan) =>
              && ValidSnapshot(table, sequence) && ValidBound(lower) && ValidBound(upper)
              && fresh(scan) && scan.Remaining() == ScanRows(tree, table, sequence, lower, upper)
            case Err(_) => !ValidSnapshot(table, sequence) || !ValidBound(lower) || !ValidBound(upper)
  {
    if !ValidSnapshot(table, sequence) || !ValidBound(lower) || !ValidBound(upper) {
      return Err(InvalidInput);
    }
    var physical := Range(tree, LowerKey(table, sequence, lower), UpperKey(table, upper));
    var scan := new StateScan(physical, table, sequence);
    r := Ok(scan);
  }

  function ScanRows(tree: seq<Entry>, table: nat, sequence: nat, lower: Bound, upper: Bound): Stream
    requires ValidSnapshot(table, sequence)
  {
    Rows(Range(tree, LowerKey(table, sequence, lower), UpperKey(table, upper)), table, sequence, None)
  }

  // ---------------------------------------------------------------- what a scan yields

  ghost predicate OfTable(physical: seq<Entry>, table: nat) {
    && AllEntriesValid(physical)
    && Ordered(physical)
    && forall i :: 0 <= i < |physical| ==> KeyOf(physical[i]).table == table
  }

  /** The first entry of a user key at or below the sequence. */
  ghost predicate IsFirst(physical: seq<Entry>, i: nat, key: ByteString, sequence: nat)
    requires AllEntriesValid(physical)
  {
    && i < |physical| && KeyOf(physical[i]).key == key && KeyOf(physical[i]).sequence <= sequence
    && forall j :: 0 <= j < i ==> KeyOf(physical[j]).key == key ==> KeyOf(physical[j]).sequence > sequence
  }

  ghost predicate Yields(physical: seq<Entry>, row: (ByteString, ByteString), sequence: nat)
    requires AllEntriesValid(physical)
  {
    exists i: nat :: IsFirst(physical, i, row.0, sequence) && PayloadOf(physical[i]) == Some(row.1)
  }

  /** Keys ascend strictly. */
  ghost predicate Ascending(rows: seq<(ByteString, ByteString)>) {
    forall i, j :: 0 <= i < j < |rows| ==> Less(rows[i].0, rows[j].0)
  }

  ghost predicate AtOrAfter(physical: seq<Entry>, selected: Option<ByteString>)
    requires AllEntriesValid(physical)
  {
    selected.Some? ==> forall i :: 0 <= i < |physical| ==> AtMost(selected.value, KeyOf(physical[i]).key)
  }

  lemma OfTableTail(physical: seq<Entry>, table: nat)
    requires OfTable(physical, table) && physical != []
    ensures OfTable(physical[1..], table)
    ensures AtOrAfter(physical[1..], Some(KeyOf(physical[0]).key))
  {
    var tail := physical[1..];
    forall i, j | 0 <= i < j < |tail|
      ensures Before(KeyOf(tail[i]), KeyOf(tail[j]))
    {
      assert tail[i] == physical[i + 1] && tail[j] == physical[j + 1];
    }
    forall i | 0 <= i < |tail|
      ensures AtMost(KeyOf(physical[0]).key, KeyOf(tail[i]).key)
    {
      assert tail[i] == physical[i + 1];
      assert Before(KeyOf(physical[0]), KeyOf(physical[i + 1]));
    }
  }

  /** Passing over an entry that is not the first of `row` leaves the question to the rest. */
  lemma YieldsTail(physical: seq<Entry>, row: (ByteString, ByteString), sequence: nat)
    requires AllEntriesValid(physical) && physical != []
    requires KeyOf(physical[0]).key != row.0 || KeyOf(physical[0]).sequence > sequence
    ensures Yields(physical, row, sequence) <==> Yields(physical[1..], row, sequence)
  {
    hide DecodeStateKey, Payload, EncodeStateKey;
    var tail := physical[1..];
    if Yields(physical, row, sequence) {
      var i: nat :| IsFirst(physical, i, row.0, sequence) && PayloadOf(physical[i]) == Some(row.1);
      assert tail[i - 1] == physical[i];
      assert forall j :: 0 <= j < i - 1 ==> tail[j] == physical[j + 1];
      assert IsFirst(tail, i - 1, row.0, sequence);
    }
    if Yields(tail, row, sequence) {
      var i: nat :| IsFirst(tail, i, row.0, sequence) && PayloadOf(tail[i]) == Some(row.1);
      assert physical[i + 1] == tail[i];
      assert forall j :: 0 < j < i + 1 ==> physical[j] == tail[j - 1];
      assert IsFirst(physical, i + 1, row.0, sequence);
    }
  }

  lemma YieldsHead(physical: seq<Entry>, row: (ByteString, ByteString), sequence: nat)
    requires AllEntriesValid(physical) && physical != []
    requires KeyOf(physical[0]).key == row.0 && KeyOf(physical[0]).sequence <= sequence
    ensures Yields(physical, row, sequence) <==> PayloadOf(physical[0]) == Some(row.1)
  {
    hide DecodeStateKey, Payload, EncodeStateKey;
    if PayloadOf(physical[0]) == Some(row.1) {
      assert IsFirst(physical, 0, row.0, sequence);
    }
    if Yields(physical, row, sequence) {
      var i: nat :| IsFirst(physical, i, row.0, sequence) && PayloadOf(physical[i]) == Some(row.1);
      assert i == 0;
    }
  }

  /** `advance` yields, for each key but the one already selected, its first visible entry if that is a Put. */
  lemma {:induction false} RowsExact(physical: seq<Entry>, table: nat, sequence: nat, selected: Option<ByteString>,
      row: (ByteString, ByteString))
    requires OfTable(physical, table) && AtOrAfter(physical, selected)
    ensures var s := Rows(physical, table, sequence, selected);
            && s.error == None
            && (row in s.rows <==> selected != Some(row.0) && Yields(physical, row, sequence))
            && (row in s.rows ==> AtMost(KeyOf(physical[0]).key, row.0))
  {
    hide DecodeStateKey, Payload, EncodeStateKey, Less, IsFirst;
    if physical == [] {
      NothingYielded(row, sequence);
    } else {
      var k, tail := KeyOf(physical[0]), physical[1..];
      OfTableTail(physical, table);
      var skipped := k.sequence > sequence || selected == Some(k.key);
      if skipped {
        assert AtOrAfter(tail, selected) by { TailAtOrAfter(physical, selected); }
        RowsExact(tail, table, sequence, selected, row);
      } else {
        RowsExact(tail, table, sequence, Some(k.key), row);
      }
      if k.key == row.0 && k.sequence <= sequence {
        YieldsHead(physical, row, sequence);
      } else {
        YieldsTail(physical, row, sequence);
      }
      if tail != [] {
        HeadsAscend(physical, row.0);
      }
      if !skipped && selected == Some(row.0) {
        SelectedPassed(physical, table, sequence, selected, row);
      }
    }
  }

  lemma NothingYielded(row: (ByteString, ByteString), sequence: nat)
    ensures !Yields([], row, sequence)
  {
  }

  lemma TailAtOrAfter(physical: seq<Entry>, selected: Option<ByteString>)
    requires AllEntriesValid(physical) && physical != [] && AtOrAfter(physical, selected)
    ensures AtOrAfter(physical[1..], selected)
  {
    var tail := physical[1..];
    forall i | selected.Some? && 0 <= i < |tail|
      ensures AtMost(selected.value, KeyOf(tail[i]).key)
    {
      assert tail[i] == physical[i + 1];
    }
  }

  lemma HeadsAscend(physical: seq<Entry>, key: ByteString)
    requires AllEntriesValid(physical) && Ordered(physical) && |physical| > 1
    requires KeyOf(physical[0]).table == KeyOf(physical[1]).table
    ensures AtMost(KeyOf(physical[1]).key, key) ==> AtMost(KeyOf(physical[0]).key, key)
  {
    assert Before(KeyOf(physical[0]), KeyOf(physical[1]));
    var a, b := KeyOf(physical[0]).key, KeyOf(physical[1]).key;
    if Less(a, b) && Less(b, key) {
      LessTransitive(a, b, key);
    }
  }

  /** Once a greater key is selected, the old selection has no entries left. */
  lemma SelectedPassed(physical: seq<Entry>, table: nat, sequence: nat, selected: Option<ByteString>,
      row: (ByteString, ByteString))
    requires OfTable(physical, table) && AtOrAfter(physical, selected) && physical != []
    requires selected == Some(row.0) && KeyOf(physical[0]).key != row.0
    ensures !Yields(physical, row, sequence)
  {
    hide DecodeStateKey, Payload, EncodeStateKey, Less;
    OfTableTail(physical, table);
    var first := KeyOf(physical[0]).key;
    forall i | 0 <= i < |physical|
      ensures KeyOf(physical[i]).key != row.0
    {
      if i > 0 {
        assert physical[i] == physical[1..][i - 1];
        LessAsymmetric(row.0, first);
      }
    }
  }

  lemma {:induction false} RowsAscend(physical: seq<Entry>, table: nat, sequence: nat, selected: Option<ByteString>)
    requires OfTable(physical, table) && AtOrAfter(physical, selected)
    ensures Ascending(Rows(physical, table, sequence, selected).rows)
  {
    hide DecodeStateKey, Payload, EncodeStateKey, Less, IsFirst, Yields;
    if physical != [] {
      var k, tail := KeyOf(physical[0]), physical[1..];
      OfTableTail(physical, table);
      TailAtOrAfter(physical, selected);
      if k.sequence > sequence || selected == Some(k.key) {
        RowsAscend(tail, table, sequence, selected);
      } else {
        RowsAscend(tail, table, sequence, Some(k.key));
        var rest := Rows(tail, table, sequence, Some(k.key)).rows;
        forall i | 0 <= i < |rest|
          ensures Less(k.key, rest[i].0)
        {
          assert rest[i] in rest;
          RowsExact(tail, table, sequence, Some(k.key), rest[i]);
          assert AtMost(k.key, KeyOf(tail[0]).key);
          if Less(k.key, KeyOf(tail[0]).key) && Less(KeyOf(tail[0]).key, rest[i].0) {
            LessTransitive(k.key, KeyOf(tail[0]).key, rest[i].0);
          }
        }
      }
    }
  }

  lemma {:induction false} RangeMembers(tree: seq<Entry>, lower: ByteString, upper: ByteString, e: Entry)
    ensures e in Range(tree, lower, upper) <==> e in tree && InRange(e.key, lower, upper)
  {
    hide InRange;
    if tree != [] {
      RangeMembers(tree[1..], lower, upper, e);
    }
  }

  lemma {:induction false} RangeWellFormed(tree: seq<Entry>, lower: ByteString, upper: ByteString)
    requires WellFormedTree(tree)
    ensures WellFormedTree(Range(tree, lower, upper))
  {
    hide ValidEntry, InRange, Less;
    if tree != [] {
      var tail := tree[1..];
      RangeWellFormed(tail, lower, upper);
      var rest := Range(tail, lower, upper);
      forall i | 0 <= i < |rest|
        ensures Less(tree[0].key, rest[i].key)
      {
        RangeMembers(tail, lower, upper, rest[i]);
        assert rest[i] in rest;
      }
    }
  }

  /** The physical range holds exactly the table's visible entries within the user bounds, plus newer versions. */
  lemma RangeEntry(e: Entry, table: nat, sequence: nat, lower: Bound, upper: Bound)
    requires ValidEntry(e) && ValidSnapshot(table, sequence)
    ensures var k, inside := KeyOf(e), InRange(e.key, LowerKey(table, sequence, lower), UpperKey(table, upper));
            && (inside ==> k.table == table && AboveLower(k.key, lower) && BelowUpper(k.key, upper))
            && (k.table == table && k.sequence <= sequence && AboveLower(k.key, lower) && BelowUpper(k.key, upper) ==>
                  inside)
  {
    hide DecodeStateKey, Payload, EncodeStateKey, Less, LowerKey, UpperKey;
    LowerExact(KeyOf(e), table, sequence, lower);
    UpperExact(KeyOf(e), table, upper);
  }

  lemma RangeOfTable(tree: seq<Entry>, table: nat, sequence: nat, lower: Bound, upper: Bound)
    requires WellFormedTree(tree) && ValidSnapshot(table, sequence)
    ensures OfTable(Range(tree, LowerKey(table, sequence, lower), UpperKey(table, upper)), table)
  {
    hide DecodeStateKey, Payload, EncodeStateKey, Less, LowerKey, UpperKey, InRange, Range, Before, ValidEntry;
    var from, until := LowerKey(table, sequence, lower), UpperKey(table, upper);
    var physical := Range(tree, from, until);
    RangeWellFormed(tree, from, until);
    WellFormedOrdered(physical);
    forall i | 0 <= i < |physical|
      ensures KeyOf(physical[i]).table == table
    {
      RangeMembers(tree, from, until, physical[i]);
      RangeEntry(physical[i], table, sequence, lower, upper);
    }
  }

  /** A stored version of the row within the bounds is an entry of the physical range. */
  lemma InBoundsEntry(tree: seq<Entry>, table: nat, sequence: nat, lower: Bound, upper: Bound, key: ByteString,
      n: nat) returns (i: nat)
    requires WellFormedTree(tree) && ValidSnapshot(table, sequence) && n <= sequence
    requires AboveLower(key, lower) && BelowUpper(key, upper)
    requires Version(Row(table, key), n) in StoreOf(tree)
    ensures var physical := Range(tree, LowerKey(table, sequence, lower), UpperKey(table, upper));
            i < |physical| && physical[i] in tree && ValidEntry(physical[i])
                && KeyOf(physical[i]) == StateKey(table, key, n)
  {
    hide DecodeStateKey, Payload, EncodeStateKey, Less, LowerKey, UpperKey, InRange, Range, ValidEntry, StoreOf;
    StoreOfMembers(tree, Version(Row(table, key), n));
    var j: nat :| j < |tree| && VersionOf(KeyOf(tree[j])) == Version(Row(table, key), n);
    var e := tree[j];
    RangeEntry(e, table, sequence, lower, upper);
    RangeMembers(tree, LowerKey(table, sequence, lower), UpperKey(table, upper), e);
    i :| i < |Range(tree, LowerKey(table, sequence, lower), UpperKey(table, upper))|
         && Range(tree, LowerKey(table, sequence, lower), UpperKey(table, upper))[i] == e;
  }

  lemma PhysicalEntry(tree: seq<Entry>, table: nat, sequence: nat, lower: Bound, upper: Bound, i: nat)
    requires WellFormedTree(tree) && ValidSnapshot(table, sequence)
    requires i < |Range(tree, LowerKey(table, sequence, lower), UpperKey(table, upper))|
    ensures var e := Range(tree, LowerKey(table, sequence, lower), UpperKey(table, upper))[i];
            && ValidEntry(e) && KeyOf(e).table == table
            && AboveLower(KeyOf(e).key, lower) && BelowUpper(KeyOf(e).key, upper)
            && VersionOf(KeyOf(e)) in StoreOf(tree)
            && StoreOf(tree)[VersionOf(KeyOf(e))] == CellOf(PayloadOf(e))
  {
    hide DecodeStateKey, Payload, EncodeStateKey, Less, LowerKey, UpperKey, InRange, Range, ValidEntry, StoreOf;
    var from, until := LowerKey(table, sequence, lower), UpperKey(table, upper);
    var e := Range(tree, from, until)[i];
    RangeMembers(tree, from, until, e);
    RangeEntry(e, table, sequence, lower, upper);
    var j: nat :| j < |tree| && tree[j] == e;
    WellFormedOrdered(tree);
    StoreOfValue(tree, j);
  }

  lemma YieldedIsRead(tree: seq<Entry>, table: nat, sequence: nat, lower: Bound, upper: Bound, i: nat, key: ByteString)
    requires WellFormedTree(tree) && ValidSnapshot(table, sequence)
    requires var physical := Range(tree, LowerKey(table, sequence, lower), UpperKey(table, upper));
             AllEntriesValid(physical) && Ordered(physical) && IsFirst(physical, i, key, sequence)
    ensures AboveLower(key, lower) && BelowUpper(key, upper)
    ensures var e := Range(tree, LowerKey(table, sequence, lower), UpperKey(table, upper))[i];
            ValidEntry(e) && Read(StoreOf(tree), Row(table, key), sequence) == PayloadOf(e)
  {
    hide DecodeStateKey, Payload, EncodeStateKey, Less, LowerKey, UpperKey, InRange, Range, ValidEntry, StoreOf,
      NewestSequence;
    var physical := Range(tree, LowerKey(table, sequence, lower), UpperKey(table, upper));
    PhysicalEntry(tree, table, sequence, lower, upper, i);
    var k := KeyOf(physical[i]);
    forall n | k.sequence < n <= sequence
      ensures Version(Row(table, key), n) !in StoreOf(tree)
    {
      if Version(Row(table, key), n) in StoreOf(tree) {
        var j := InBoundsEntry(tree, table, sequence, lower, upper, key, n);
        NewerIsEarlier(physical, i, j);
      }
    }
    NewestSequenceUnique(StoreOf(tree), Row(table, key), sequence, k.sequence);
  }

  lemma NewerIsEarlier(physical: seq<Entry>, i: nat, j: nat)
    requires AllEntriesValid(physical) && Ordered(physical) && i < |physical| && j < |physical|
    requires SameRow(KeyOf(physical[i]), KeyOf(physical[j]))
             && KeyOf(physical[j]).sequence > KeyOf(physical[i]).sequence
    ensures j < i
  {
    hide DecodeStateKey, Payload, EncodeStateKey, Less, ValidEntry;
    LessIrreflexive(KeyOf(physical[i]).key);
    if i < j {
      OrderedPair(physical, i, j);
    }
  }

  lemma OrderedPair(physical: seq<Entry>, i: nat, j: nat)
    requires AllEntriesValid(physical) && Ordered(physical) && i < j < |physical|
    ensures Before(KeyOf(physical[i]), KeyOf(physical[j]))
  {
  }

  lemma ReadIsYielded(tree: seq<Entry>, table: nat, sequence: nat, lower: Bound, upper: Bound,
      row: (ByteString, ByteString))
    requires WellFormedTree(tree) && ValidSnapshot(table, sequence)
    requires AboveLower(row.0, lower) && BelowUpper(row.0, upper)
    requires Read(StoreOf(tree), Row(table, row.0), sequence) == Some(row.1)
    requires OfTable(Range(tree, LowerKey(table, sequence, lower), UpperKey(table, upper)), table)
    ensures Yields(Range(tree, LowerKey(table, sequence, lower), UpperKey(table, upper)), row, sequence)
  {
    hide DecodeStateKey, Payload, EncodeStateKey, Less, LowerKey, UpperKey, InRange, Range, ValidEntry, StoreOf,
      NewestSequence;
    var physical := Range(tree, LowerKey(table, sequence, lower), UpperKey(table, upper));
    var a := Row(table, row.0);
    NewestSequenceIs(StoreOf(tree), a, sequence);
    var n := NewestSequence(StoreOf(tree), a, sequence).value;
    var i := InBoundsEntry(tree, table, sequence, lower, upper, row.0, n);
    PhysicalEntry(tree, table, sequence, lower, upper, i);
    forall j | 0 <= j < i && KeyOf(physical[j]).key == row.0
      ensures KeyOf(physical[j]).sequence > sequence
    {
      PhysicalEntry(tree, table, sequence, lower, upper, j);
      assert Before(KeyOf(physical[j]), KeyOf(physical[i]));
      LessIrreflexive(row.0);
    }
    assert IsFirst(physical, i, row.0, sequence);
  }

  /**
   A scan yields exactly the live rows within its bounds, each once and in key order,
   for every combination of bounds, and never an error.
   */
  lemma ScanExact(tree: seq<Entry>, table: nat, sequence: nat, lower: Bound, upper: Bound)
    requires WellFormedTree(tree) && ValidSnapshot(table, sequence)
    ensures var s := ScanRows(tree, table, sequence, lower, upper);
            && s.error == None && Ascending(s.rows)
            && forall row :: row in s.rows <==> LiveRow(tree, table, sequence, lower, upper, row)
  {
    hide DecodeStateKey, Payload, EncodeStateKey, Less, LowerKey, UpperKey, InRange, Range, ValidEntry, StoreOf, Rows,
      Yields, Read;
    RangeOfTable(tree, table, sequence, lower, upper);
    var physical := Range(tree, LowerKey(table, sequence, lower), UpperKey(table, upper));
    RowsAscend(physical, table, sequence, None);
    RowsExact(physical, table, sequence, None, ([], []));
    forall row: (ByteString, ByteString)
      ensures row in Rows(physical, table, sequence, None).rows <==> LiveRow(tree, table, sequence, lower, upper, row)
    {
      RowsExact(physical, table, sequence, None, row);
      if LiveRow(tree, table, sequence, lower, upper, row) {
        ReadIsYielded(tree, table, sequence, lower, upper, row);
      }
      if Yields(physical, row, sequence) {
        var i := Yielded(physical, row, sequence);
        YieldedIsRead(tree, table, sequence, lower, upper, i, row.0);
      }
    }
  }

  ghost predicate LiveRow(tree: seq<Entry>, table: nat, sequence: nat, lower: Bound, upper: Bound,
      row: (ByteString, ByteString))
    requires AllEntriesValid(tree)
  {
    && AboveLower(row.0, lower) && BelowUpper(row.0, upper)
    && Read(StoreOf(tree), Row(table, row.0), sequence) == Some(row.1)
  }

  lemma Yielded(physical: seq<Entry>, row: (ByteString, ByteString), sequence: nat) returns (i: nat)
    requires AllEntriesValid(physical) && Yields(physical, row, sequence)
    ensures IsFirst(physical, i, row.0, sequence) && PayloadOf(physical[i]) == Some(row.1)
  {
    i :| IsFirst(physical, i, row.0, sequence) && PayloadOf(physical[i]) == Some(row.1);
  }

  // ---------------------------------------------------------------- resumed scans

  /** One set of rows has one ascending order. */
  lemma {:induction false} AscendingUnique(xs: seq<(ByteString, ByteString)>, ys: seq<(ByteString, ByteString)>)
    requires Ascending(xs) && Ascending(ys)
    requires forall row :: row in xs <==> row in ys
    ensures xs == ys
  {
    hide Less;
    if xs == [] {
      if ys != [] {
        FirstRow(ys);
      }
    } else {
      FirstRow(xs);
      assert ys != [];
      FirstRow(ys);
      HeadsEqual(xs, ys);
      forall row
        ensures row in xs[1..] <==> row in ys[1..]
      {
        TailRow(xs, row);
        TailRow(ys, row);
      }
      AscendingUnique(xs[1..], ys[1..]);
    }
  }

  lemma FirstRow(rows: seq<(ByteString, ByteString)>)
    requires rows != []
    ensures rows[0] in rows
  {
  }

  lemma HeadsEqual(xs: seq<(ByteString, ByteString)>, ys: seq<(ByteString, ByteString)>)
    requires Ascending(xs) && Ascending(ys) && xs != [] && ys != []
    requires xs[0] in ys && ys[0] in xs
    ensures xs[0] == ys[0]
  {
    var i :| 0 <= i < |ys| && ys[i] == xs[0];
    var j :| 0 <= j < |xs| && xs[j] == ys[0];
    if i > 0 && j > 0 {
      LessAsymmetric(xs[0].0, ys[0].0);
    }
  }

  lemma TailRow(rows: seq<(ByteString, ByteString)>, row: (ByteString, ByteString))
    requires Ascending(rows) && rows != []
    ensures row in rows[1..] <==> row in rows && row != rows[0]
    ensures row in rows[1..] ==> Less(rows[0].0, row.0)
  {
    LessIrreflexive(rows[0].0);
    if row in rows && row != rows[0] {
      var i :| 0 <= i < |rows| && rows[i] == row;
      assert rows[1..][i - 1] == row;
    }
  }

  /** Seeking again after the last key continues the scan exactly where it stopped. */
  lemma ScanResumes(tree: seq<Entry>, table: nat, sequence: nat, lower: Bound, upper: Bound)
    requires WellFormedTree(tree) && ValidSnapshot(table, sequence)
    requires ScanRows(tree, table, sequence, lower, upper).rows != []
    ensures var rows := ScanRows(tree, table, sequence, lower, upper).rows;
            ScanRows(tree, table, sequence, Excluded(rows[0].0), upper).rows == rows[1..]
  {
    hide Less, ScanRows, Read, StoreOf, WellFormedTree, ValidEntry;
    var rows := ScanRows(tree, table, sequence, lower, upper).rows;
    var from := Excluded(rows[0].0);
    ScanExact(tree, table, sequence, lower, upper);
    ScanExact(tree, table, sequence, from, upper);
    assert AllEntriesValid(tree) by { EntriesValid(tree); }
    FirstRow(rows);
    forall row
      ensures row in ScanRows(tree, table, sequence, from, upper).rows <==> row in rows[1..]
    {
      TailRow(rows, row);
      ResumedRow(tree, table, sequence, lower, upper, rows[0].0, row);
      if row in rows && !(row in rows[1..]) {
        LessIrreflexive(row.0);
      }
    }
    assert Ascending(rows[1..]);
    AscendingUnique(ScanRows(tree, table, sequence, from, upper).rows, rows[1..]);
  }

  lemma EntriesValid(tree: seq<Entry>)
    requires WellFormedTree(tree)
    ensures AllEntriesValid(tree)
  {
  }

  /** Past a live row the lower bound that admitted it no longer matters. */
  lemma ResumedRow(tree: seq<Entry>, table: nat, sequence: nat, lower: Bound, upper: Bound, last: ByteString,
      row: (ByteString, ByteString))
    requires AllEntriesValid(tree) && AboveLower(last, lower)
    ensures LiveRow(tree, table, sequence, Excluded(last), upper, row) <==>
            Less(last, row.0) && LiveRow(tree, table, sequence, lower, upper, row)
  {
    if Less(last, row.0) && !lower.Unbounded? && Less(lower.key, last) {
      LessTransitive(lower.key, last, row.0);
    }
  }

  /** The claim every clone and iterator of a snapshot shares; revoking it takes their view away. */
  class Claim {
    const tree: seq<Entry>
    var held: bool

    constructor (tree: seq<Entry>)
      ensures this.tree == tree && held
    {
      this.tree, held := tree, true;
    }

    /** `revoke_claim`: only the first call releases the view. */
    method Revoke() returns (released: bool)
      modifies this
      ensures released == old(held) && !held
    {
      released := held;
      held := false;
    }
  }

  /** A snapshot's iterator: it holds no physical position, only the bounds still to read. */
  class SnapshotScan {
    const claim: Claim
    const table: nat
    const sequence: nat
    const upper: Bound
    var lower: Bound
    var done: bool

    ghost predicate Valid()
      reads this
    {
      WellFormedTree(claim.tree) && ValidSnapshot(table, sequence) && ValidBound(lower) && ValidBound(upper)
    }

    ghost function Remaining(): seq<(ByteString, ByteString)>
      requires Valid()
      reads this
    {
      if done then [] else ScanRows(claim.tree, table, sequence, lower, upper).rows
    }

    constructor (claim: Claim, table: nat, sequence: nat, lower: Bound, upper: Bound, done: bool)
      ensures this.claim == claim && this.table == table && this.sequence == sequence
      ensures this.lower == lower && this.upper == upper && this.done == done
    {
      this.claim, this.table, this.sequence := claim, table, sequence;
      this.lower, this.upper, this.done := lower, upper, done;
    }

    /**
     Each call opens a scan after the last key it returned; while the claim is held, together they
     are one scan. A revoked iterator says so, whatever it had left, and reads nothing.
     */
    method Next() returns (r: Option<Result<(ByteString, ByteString)>>)
      requires Valid()
      modifies `lower, `done
      ensures Valid()
      ensures !claim.held ==> r == Some(Err(SnapshotRevoked)) && lower == old(lower) && done == old(done)
      ensures claim.held ==>
                match r
                case None => old(Remaining()) == [] && Remaining() == []
                case Some(Ok(row)) => old(Remaining()) == [row] + Remaining()
                case Some(Err(_)) => false
    {
      hide WellFormedTree, ScanRows, ValidSnapshot;
      if !claim.held {
        return Some(Err(SnapshotRevoked));
      }
      if done {
        return None;
      }
      var tree := claim.tree;
      ghost var before := ScanRows(tree, table, sequence, lower, upper);
      ScanExact(tree, table, sequence, lower, upper);
      assert before.error == None;
      var rows := Scan(tree, table, sequence, lower, upper);
      var next := Failure(rows);
      if rows.Ok? {
        next := rows.value.Next();
      }
      if next.None? || next.value.Err? {
        done := true;
        return next;
      }
      var row := next.value.value;
      assert before.rows[0] == row && before.rows == [row] + before.rows[1..];
      RowKey(tree, table, sequence, lower, upper);
      ScanResumes(tree, table, sequence, lower, upper);
      lower := Excluded(row.0);
      r := next;
    }
  }

  function Failure(r: Result<StateScan>): Option<Result<(ByteString, ByteString)>> {
    if r.Err? then Some(Err(r.error)) else None
  }

  lemma RowKey(tree: seq<Entry>, table: nat, sequence: nat, lower: Bound, upper: Bound)
    requires WellFormedTree(tree) && ValidSnapshot(table, sequence)
    requires ScanRows(tree, table, sequence, lower, upper).rows != []
    ensures |ScanRows(tree, table, sequence, lower, upper).rows[0].0| <= MAX_KEY_BYTES
  {
    hide DecodeStateKey, Payload, EncodeStateKey, Less, LowerKey, UpperKey, InRange, Range, ValidEntry, StoreOf, Rows,
      IsFirst;
    RangeOfTable(tree, table, sequence, lower, upper);
    var physical := Range(tree, LowerKey(table, sequence, lower), UpperKey(table, upper));
    var row := Rows(physical, table, sequence, None).rows[0];
    RowsExact(physical, table, sequence, None, row);
    var i := Yielded(physical, row, sequence);
    FirstKey(physical, i, row.0, sequence);
  }

  lemma FirstKey(physical: seq<Entry>, i: nat, key: ByteString, sequence: nat)
    requires AllEntriesValid(physical) && IsFirst(physical, i, key, sequence)
    ensures |key| <= MAX_KEY_BYTES
  {
  }

  /** `snapshot::scan`: an iterator over the bounds, already done when no key can lie between them. */
  method OpenScan(claim: Claim, table: nat, sequence: nat, lower: Bound, upper: Bound) returns (r: Result<SnapshotScan>)
    requires WellFormedTree(claim.tree) && ValidSnapshot(table, sequence) && ValidBound(lower) && ValidBound(upper)
    ensures r.Err? <==> !claim.held || (!lower.Unbounded? && !upper.Unbounded? && Less(upper.key, lower.key))
    ensures r.Ok? ==>
              && r.value.Valid() && r.value.claim == claim && fresh(r.value)
              && r.value.Remaining() == ScanRows(claim.tree, table, sequence, lower, upper).rows
  {
    hide WellFormedTree, ScanRows, ValidSnapshot;
    if !claim.held {
      return Err(SnapshotRevoked);
    }
    var done := false;
    if !lower.Unbounded? && !upper.Unbounded? {
      if Less(upper.key, lower.key) {
        return Err(InvalidInput);
      }
      done := lower.key == upper.key && !(lower.Included? && upper.Included?);
      if done {
        EmptyBounds(claim.tree, table, sequence, lower, upper);
      }
    }
    var scan := new SnapshotScan(claim, table, sequence, lower, upper, done);
    r := Ok(scan);
  }

  lemma EmptyBounds(tree: seq<Entry>, table: nat, sequence: nat, lower: Bound, upper: Bound)
    requires WellFormedTree(tree) && ValidSnapshot(table, sequence)
    requires !lower.Unbounded? && !upper.Unbounded? && lower.key == upper.key && !(lower.Included? && upper.Included?)
    ensures ScanRows(tree, table, sequence, lower, upper).rows == []
  {
    hide ScanRows, Less, Read, StoreOf, ValidEntry;
    ScanExact(tree, table, sequence, lower, upper);
    var rows := ScanRows(tree, table, sequence, lower, upper).rows;
    if rows != [] {
      FirstRow(rows);
      OutsideBounds(rows[0].0, lower, upper);
    }
  }

  lemma OutsideBounds(key: ByteString, lower: Bound, upper: Bound)
    requires !lower.Unbounded? && !upper.Unbounded? && lower.key == upper.key && !(lower.Included? && upper.Included?)
    ensures !(AboveLower(key, lower) && BelowUpper(key, upper))
  {
    LessIrreflexive(key);
    if Less(key, lower.key) {
      LessAsymmetric(key, lower.key);
    }
  }

  // ---------------------------------------------------------------- reads in terms of bytes

  /** The tree holds `cell` for the row at `sequence`: the very bytes the writer makes of them. */
  ghost predicate HoldsCell(tree: seq<Entry>, table: nat, key: ByteString, sequence: nat, cell: Cell) {
    && ValidStateKey(StateKey(table, key, sequence))
    && exists i :: 0 <= i < |tree| && tree[i].key == EncodeStateKey(StateKey(table, key, sequence))
                   && EncodeCell(cell) == Ok(tree[i].value)
  }

  lemma StoredExact(tree: seq<Entry>, table: nat, key: ByteString, sequence: nat, cell: Cell)
    requires WellFormedTree(tree) && ValidStateKey(StateKey(table, key, sequence))
    ensures var v := Version(Row(table, key), sequence);
            HoldsCell(tree, table, key, sequence, cell) <==> v in StoreOf(tree) && StoreOf(tree)[v] == cell
  {
    hide Less, DecodeStateKey, EncodeStateKey, Payload, EncodeCell, StoreOf;
    var k, v := StateKey(table, key, sequence), Version(Row(table, key), sequence);
    WellFormedOrdered(tree);
    StoreOfMembers(tree, v);
    if HoldsCell(tree, table, key, sequence, cell) {
      var i :| 0 <= i < |tree| && tree[i].key == EncodeStateKey(k) && EncodeCell(cell) == Ok(tree[i].value);
      Mvcc.DecodeOfEncode(k);
      KeyIs(tree[i], k);
      PayloadOfEncode(cell);
      StoreOfValue(tree, i);
      CellIs(tree[i], cell);
    }
    if v in StoreOf(tree) && StoreOf(tree)[v] == cell {
      var i :| 0 <= i < |tree| && VersionOf(KeyOf(tree[i])) == v;
      StoreOfValue(tree, i);
      assert ValidEntry(tree[i]);
      AcceptedPayload(tree[i].value);
      assert KeyOf(tree[i]) == k;
    }
  }

  /** A version is stored exactly when the tree holds some cell there. */
  lemma SomeCell(tree: seq<Entry>, table: nat, key: ByteString, sequence: nat)
    requires WellFormedTree(tree) && ValidStateKey(StateKey(table, key, sequence))
    ensures Version(Row(table, key), sequence) in StoreOf(tree) <==>
            exists cell :: HoldsCell(tree, table, key, sequence, cell)
  {
    hide StoreOf, HoldsCell, Less, ValidEntry, EncodeStateKey;
    forall cell
      ensures HoldsCell(tree, table, key, sequence, cell) <==>
              Version(Row(table, key), sequence) in StoreOf(tree)
              && StoreOf(tree)[Version(Row(table, key), sequence)] == cell
    {
      StoredExact(tree, table, key, sequence, cell);
    }
    if Version(Row(table, key), sequence) in StoreOf(tree) {
      assert HoldsCell(tree, table, key, sequence, StoreOf(tree)[Version(Row(table, key), sequence)]);
    }
  }

  lemma KeyIs(e: Entry, k: StateKey)
    requires ValidEntry(e) && DecodeStateKey(e.key) == Ok(k)
    ensures KeyOf(e) == k
  {
  }

  lemma CellIs(e: Entry, cell: Cell)
    requires ValidEntry(e) && Payload(e.value).Ok? && CellOf(Payload(e.value).value) == cell
    ensures CellOf(PayloadOf(e)) == cell
  {
  }

  /** Version `m` is the row's last at or below `sequence`, and it put `value`. */
  ghost predicate LastPutAt(tree: seq<Entry>, table: nat, key: ByteString, sequence: nat, m: nat, value: ByteString) {
    && m <= sequence && HoldsCell(tree, table, key, m, Put(value))
    && forall j: nat, cell :: m < j <= sequence ==> !HoldsCell(tree, table, key, j, cell)
  }

  /**
   A point read returns a value exactly when the bytes of the tree put it there at some version
   at or below the snapshot, with no version of the row in between.
   */
  lemma PointReadExact(tree: seq<Entry>, table: nat, key: ByteString, sequence: nat, value: ByteString)
    requires WellFormedTree(tree) && ValidSnapshot(table, sequence) && |key| <= MAX_KEY_BYTES
    ensures ReadValue(tree, table, key, sequence).Ok?
    ensures ReadValue(tree, table, key, sequence).value == Some(value) <==>
            exists m :: table < m && LastPutAt(tree, table, key, sequence, m, value)
  {
    hide Less, StoreOf, ReadValue, EncodeStateKey, EncodeCell, HoldsCell, ValidEntry;
    ReadValueExact(tree, table, key, sequence);
    var s, a := StoreOf(tree), Row(table, key);
    NewestSequenceIs(s, a, sequence);
    forall m: nat, cell | table < m <= sequence
      ensures HoldsCell(tree, table, key, m, cell) <==> Version(a, m) in s && s[Version(a, m)] == cell
    {
      StoredExact(tree, table, key, m, cell);
    }
    NoOldVersion(tree, table, key);
    if m: nat :| table < m && LastPutAt(tree, table, key, sequence, m, value) {
      forall j | m < j <= sequence
        ensures Version(a, j) !in s
      {
        SomeCell(tree, table, key, j);
      }
      NewestSequenceUnique(s, a, sequence, m);
    }
    if Read(s, a, sequence) == Some(value) {
      assert LastPutAt(tree, table, key, sequence, NewestSequence(s, a, sequence).value, value);
    }
  }

  /** No row is older than its table, whose ID is the sequence that created it. */
  lemma NoOldVersion(tree: seq<Entry>, table: nat, key: ByteString)
    requires WellFormedTree(tree)
    ensures forall m :: 0 <= m <= table ==> Version(Row(table, key), m) !in StoreOf(tree)
  {
    hide Less, DecodeStateKey, EncodeStateKey, Payload, StoreOf;
    forall m | 0 <= m <= table
      ensures Version(Row(table, key), m) !in StoreOf(tree)
    {
      StoreOfMembers(tree, Version(Row(table, key), m));
      forall i | 0 <= i < |tree|
        ensures VersionOf(KeyOf(tree[i])) != Version(Row(table, key), m)
      {
        assert ValidStateKey(KeyOf(tree[i]));
      }
    }
  }
}
