/**
 Versioned state as bytes: physical keys that sort by table, user key and newest
 version first, the single seek behind a point read, and scans.

 A tree is the sequence of its entries in key order. `StoreOf` is what those bytes mean.
 */
module Mvcc {
  import opened Common
  import opened Bytes
  import opened KeyEncoding

  const MAX_STATE_KEY_BYTES := 8 + 2 * MAX_KEY_BYTES + 2 + 8

  datatype StateKey = StateKey(table: nat, key: ByteString, sequence: nat)

  datatype Entry = Entry(key: ByteString, value: ByteString)

  // ---------------------------------------------------------------- keys

  predicate ValidSnapshot(table: nat, sequence: nat) {
    0 < table < U64_MAX && sequence < U64_MAX
  }

  predicate ValidStateKey(k: StateKey) {
    ValidSnapshot(k.table, k.sequence) && |k.key| <= MAX_KEY_BYTES && k.sequence > k.table
  }

  function AddressPrefix(table: nat, key: ByteString): (p: ByteString)
    ensures |p| >= 10
  {
    BigEndian(table, 8) + Escape(key)
  }

  /** The complement of the sequence puts the newest version of an address first. */
  function SeekKey(table: nat, key: ByteString, sequence: nat): ByteString
    requires sequence <= U64_MAX
  {
    AddressPrefix(table, key) + BigEndian(U64_MAX - sequence, 8)
  }

  /** The prefix with the terminator's last byte raised: past every version of `key`. */
  function AfterKey(table: nat, key: ByteString): ByteString {
    var p := AddressPrefix(table, key);
    p[|p| - 1 := 1]
  }

  function EncodeStateKey(k: StateKey): ByteString
    requires k.sequence <= U64_MAX
  {
    SeekKey(k.table, k.key, k.sequence)
  }

  function DecodeStateKey(encoded: ByteString): Result<StateKey> {
    if !(18 <= |encoded| <= MAX_STATE_KEY_BYTES) then Err(InvalidInput)
    else
      var frame := encoded[8..|encoded| - 8];
      var (key, used) :- Unescape(frame);
      var complement := FromBigEndian(encoded[|encoded| - 8..]);
      if used != |frame| || complement > U64_MAX then Err(InvalidInput)
      else
        var k := StateKey(FromBigEndian(encoded[..8]), key, U64_MAX - complement);
        if ValidStateKey(k) then Ok(k) else Err(InvalidInput)
  }

  lemma KeyParts(encoded: ByteString, table: ByteString, frame: ByteString, version: ByteString)
    requires |table| == 8 && |version| == 8 && encoded == table + frame + version
    ensures encoded[..8] == table && encoded[8..|encoded| - 8] == frame && encoded[|encoded| - 8..] == version
  {
  }

  /** A stored key decodes to the address and version it was built from. */
  lemma DecodeOfEncode(k: StateKey)
    requires ValidStateKey(k)
    ensures DecodeStateKey(EncodeStateKey(k)) == Ok(k)
  {
    hide Escape, Unescape, BigEndian, FromBigEndian;
    Base8();
    var version := U64_MAX - k.sequence;
    KeyParts(EncodeStateKey(k), BigEndian(k.table, 8), Escape(k.key), BigEndian(version, 8));
    UnescapeOfEscape(k.key, []);
    assert Escape(k.key) + [] == Escape(k.key);
    BigEndianRoundTrip(k.table, 8);
    BigEndianRoundTrip(version, 8);
  }

  /** Each accepted key is the one encoding of what it decodes to. */
  lemma AcceptedStateKey(encoded: ByteString)
    requires DecodeStateKey(encoded).Ok?
    ensures var k := DecodeStateKey(encoded).value; ValidStateKey(k) && EncodeStateKey(k) == encoded
  {
    hide Escape, Unescape, BigEndian, FromBigEndian;
    var frame := encoded[8..|encoded| - 8];
    EscapeOfUnescape(frame);
    assert frame[..|frame|] == frame;
    FromBigEndianRoundTrip(encoded[..8]);
    FromBigEndianRoundTrip(encoded[|encoded| - 8..]);
    assert encoded == encoded[..8] + frame + encoded[|encoded| - 8..];
  }

  /** Tables ascend, then user keys, then versions from newest to oldest. */
  predicate Before(a: StateKey, b: StateKey) {
    a.table < b.table ||
    (a.table == b.table && (Less(a.key, b.key) || (a.key == b.key && a.sequence > b.sequence)))
  }

  predicate SameRow(a: StateKey, b: StateKey) {
    a.table == b.table && a.key == b.key
  }

  /** Byte order of encoded keys is address order, newest version first. */
  lemma EncodedOrder(a: StateKey, b: StateKey)
    requires a.table <= U64_MAX && b.table <= U64_MAX && a.sequence <= U64_MAX && b.sequence <= U64_MAX
    ensures Less(EncodeStateKey(a), EncodeStateKey(b)) <==> Before(a, b)
  {
    Base8();
    var ta, tb := BigEndian(a.table, 8), BigEndian(b.table, 8);
    var va, vb := BigEndian(U64_MAX - a.sequence, 8), BigEndian(U64_MAX - b.sequence, 8);
    Reassociate(ta, Escape(a.key), va);
    Reassociate(tb, Escape(b.key), vb);
    BigEndianOrder(a.table, b.table, 8);
    if a.table != b.table {
      LessByHead(ta, tb, Escape(a.key) + va, Escape(b.key) + vb);
    } else {
      LessAfterPrefix(ta, Escape(a.key) + va, Escape(b.key) + vb);
      if a.key == b.key {
        LessAfterPrefix(Escape(a.key), va, vb);
        BigEndianOrder(U64_MAX - a.sequence, U64_MAX - b.sequence, 8);
        LessIrreflexive(a.key);
      } else {
        EscapeOrder(a.key, b.key, va, vb);
      }
    }
  }

  /** The exact prefix test of a point read recognises exactly the versions of that row. */
  lemma PrefixIsRow(k: StateKey, table: nat, key: ByteString)
    requires k.table <= U64_MAX && table <= U64_MAX && k.sequence <= U64_MAX
    ensures AddressPrefix(table, key) <= EncodeStateKey(k) <==> k.table == table && k.key == key
  {
    hide Escape, BigEndian;
    Base8();
    BigEndianOrder(k.table, table, 8);
    var prefix, encoded := AddressPrefix(table, key), EncodeStateKey(k);
    var version := BigEndian(U64_MAX - k.sequence, 8);
    Reassociate(BigEndian(k.table, 8), Escape(k.key), version);
    if prefix <= encoded {
      var rest := encoded[|prefix|..];
      assert encoded == prefix + rest;
      Reassociate(BigEndian(table, 8), Escape(key), rest);
      SameHead(BigEndian(k.table, 8), BigEndian(table, 8), Escape(k.key) + version, Escape(key) + rest);
      EscapePrefixFree(k.key, key, version, rest);
    }
  }

  lemma SameHead(a: ByteString, b: ByteString, x: ByteString, y: ByteString)
    requires |a| == |b| && a + x == b + y
    ensures a == b && x == y
  {
    assert a == (a + x)[..|a|] && b == (b + y)[..|b|];
    assert x == (a + x)[|a|..] && y == (b + y)[|b|..];
  }

  // ---------------------------------------------------------------- scan bounds

  function EscapeAfter(s: ByteString): ByteString {
    Escape(s)[|Escape(s)| - 1 := 1]
  }

  /** Raising the terminator passes every frame of `s` and no frame of a greater key. */
  lemma {:induction false} AfterOrder(s: ByteString, t: ByteString, x: ByteString)
    ensures Less(EscapeAfter(s), Escape(t) + x) <==> Less(s, t)
    ensures EscapeAfter(s) != Escape(t) + x
  {
    var a, b := EscapeAfter(s), Escape(t) + x;
    if s == [] {
      assert a == [0, 1];
      assert !Less([1], [0]) && !Less([], []);
      if t == [] {
        assert b[0] == 0 && b[1] == 0;
        assert a[1..][0] == 1 && b[1..][0] == 0;
      } else if t[0] == 0 {
        assert b[0] == 0 && b[1] == 255;
        assert a[1..][0] == 1 && b[1..][0] == 255;
      } else {
        assert b[0] == t[0];
      }
    } else if t == [] {
      assert b[0] == 0 && b[1] == 0;
      if s[0] == 0 {
        assert a[0] == 0 && a[1] == 255;
        assert a[1..][0] == 255 && b[1..][0] == 0;
      } else {
        assert a[0] == s[0];
      }
    } else {
      AfterStep(s);
      var p, q := if s[0] == 0 then [0, 255] else [s[0]], if t[0] == 0 then [0, 255] else [t[0]];
      assert a == p + EscapeAfter(s[1..]);
      assert b == q + (Escape(t[1..]) + x);
      if s[0] == t[0] {
        AfterOrder(s[1..], t[1..], x);
        LessAfterPrefix(p, EscapeAfter(s[1..]), Escape(t[1..]) + x);
        assert a[|p|..] == EscapeAfter(s[1..]) && b[|p|..] == Escape(t[1..]) + x;
      } else {
        assert a[0] == s[0] && b[0] == t[0];
      }
    }
  }

  lemma AfterStep(s: ByteString)
    requires s != []
    ensures EscapeAfter(s) == (if s[0] == 0 then [0, 255] else [s[0]]) + EscapeAfter(s[1..])
  {
  }

  datatype Bound = Unbounded | Included(key: ByteString) | Excluded(key: ByteString)

  predicate AboveLower(key: ByteString, lower: Bound) {
    match lower
    case Unbounded => true
    case Included(k) => AtMost(k, key)
    case Excluded(k) => Less(k, key)
  }

  predicate BelowUpper(key: ByteString, upper: Bound) {
    match upper
    case Unbounded => true
    case Included(k) => AtMost(key, k)
    case Excluded(k) => Less(key, k)
  }

  function LowerKey(table: nat, sequence: nat, lower: Bound): ByteString
    requires sequence <= U64_MAX
  {
    match lower
    case Unbounded => BigEndian(table, 8)
    case Included(key) => SeekKey(table, key, sequence)
    case Excluded(key) => AfterKey(table, key)
  }

  function UpperKey(table: nat, upper: Bound): ByteString {
    match upper
    case Unbounded => BigEndian(table + 1, 8)
    case Included(key) => AfterKey(table, key)
    case Excluded(key) => AddressPrefix(table, key)
  }

  /** The physical range test of a scan. */
  predicate InRange(encoded: ByteString, lower: ByteString, upper: ByteString) {
    AtMost(lower, encoded) && Less(encoded, upper)
  }

  lemma AfterKeyIs(table: nat, key: ByteString)
    ensures AfterKey(table, key) == BigEndian(table, 8) + EscapeAfter(key)
  {
  }

  /** Where an encoded key of another table lies. */
  lemma OtherTable(k: StateKey, table: nat, tail: ByteString)
    requires k.table != table && k.table <= U64_MAX && table <= U64_MAX && k.sequence <= U64_MAX
    ensures AtMost(BigEndian(table, 8) + tail, EncodeStateKey(k)) <==> table < k.table
    ensures Less(EncodeStateKey(k), BigEndian(table, 8) + tail) <==> k.table < table
  {
    Base8();
    var version := BigEndian(U64_MAX - k.sequence, 8);
    Reassociate(BigEndian(k.table, 8), Escape(k.key), version);
    BigEndianOrder(table, k.table, 8);
    BigEndianOrder(k.table, table, 8);
    LessByHead(BigEndian(table, 8), BigEndian(k.table, 8), tail, Escape(k.key) + version);
    LessByHead(BigEndian(k.table, 8), BigEndian(table, 8), Escape(k.key) + version, tail);
    if BigEndian(table, 8) + tail == EncodeStateKey(k) {
      SameHead(BigEndian(table, 8), BigEndian(k.table, 8), tail, Escape(k.key) + version);
    }
  }

  /** The lower physical bound admits exactly the versions its user bound admits. */
  lemma LowerExact(k: StateKey, table: nat, sequence: nat, lower: Bound)
    requires ValidStateKey(k) && ValidSnapshot(table, sequence)
    ensures AtMost(LowerKey(table, sequence, lower), EncodeStateKey(k)) <==>
            k.table > table ||
            (k.table == table && match lower
             case Unbounded => true
             case Included(key) => Less(key, k.key) || (key == k.key && k.sequence <= sequence)
             case Excluded(key) => Less(key, k.key))
  {
    var t, version := BigEndian(table, 8), BigEndian(U64_MAX - k.sequence, 8);
    match lower
    case Unbounded =>
      assert t + [] == t;
      if k.table != table {
        OtherTable(k, table, []);
      } else {
        Reassociate(t, Escape(k.key), version);
        LessAfterPrefix(t, [], Escape(k.key) + version);
      }
    case Included(key) =>
      var seek := StateKey(table, key, sequence);
      EncodedOrder(seek, k);
      if EncodeStateKey(seek) == EncodeStateKey(k) {
        PrefixIsRow(seek, k.table, k.key);
        EncodedOrder(k, seek);
        LessIrreflexive(EncodeStateKey(k));
      }
      if seek == k {
        LessIrreflexive(k.key);
      }
    case Excluded(key) =>
      AfterKeyIs(table, key);
      if k.table != table {
        OtherTable(k, table, EscapeAfter(key));
      } else {
        Reassociate(t, Escape(k.key), version);
        LessAfterPrefix(t, EscapeAfter(key), Escape(k.key) + version);
        AfterOrder(key, k.key, version);
        if AfterKey(table, key) == EncodeStateKey(k) {
          SameHead(t, t, EscapeAfter(key), Escape(k.key) + version);
        }
      }
  }

  /** The upper physical bound admits exactly the versions its user bound admits. */
  lemma UpperExact(k: StateKey, table: nat, upper: Bound)
    requires ValidStateKey(k) && 0 < table < U64_MAX
    ensures Less(EncodeStateKey(k), UpperKey(table, upper)) <==>
            k.table < table || (k.table == table && BelowUpper(k.key, upper))
  {
    var t, version := BigEndian(table, 8), BigEndian(U64_MAX - k.sequence, 8);
    match upper
    case Unbounded => UpperTable(k, table);
    case Included(key) =>
      AfterKeyIs(table, key);
      if k.table != table {
        OtherTable(k, table, EscapeAfter(key));
      } else {
        Reassociate(t, Escape(k.key), version);
        LessAfterPrefix(t, Escape(k.key) + version, EscapeAfter(key));
        AfterOrder(key, k.key, version);
        LessTotal(EscapeAfter(key), Escape(k.key) + version);
        LessTotal(key, k.key);
        if Less(EscapeAfter(key), Escape(k.key) + version) {
          LessAsymmetric(EscapeAfter(key), Escape(k.key) + version);
          LessAsymmetric(key, k.key);
        }
      }
    case Excluded(key) =>
      if k.table != table {
        OtherTable(k, table, Escape(key));
      } else {
        Reassociate(t, Escape(k.key), version);
        LessAfterPrefix(t, Escape(k.key) + version, Escape(key));
        if k.key == key {
          assert Escape(key) + [] == Escape(key);
          LessAfterPrefix(Escape(key), version, []);
          LessIrreflexive(key);
        } else {
          assert Escape(key) + [] == Escape(key);
          EscapeOrder(k.key, key, version, []);
        }
      }
  }

  lemma UpperTable(k: StateKey, table: nat)
    requires ValidStateKey(k) && 0 < table < U64_MAX
    ensures Less(EncodeStateKey(k), BigEndian(table + 1, 8)) <==> k.table <= table
  {
    var t, version := BigEndian(table + 1, 8), BigEndian(U64_MAX - k.sequence, 8);
    assert t + [] == t;
    if k.table != table + 1 {
      OtherTable(k, table + 1, []);
    } else {
      Reassociate(t, Escape(k.key), version);
      LessAfterPrefix(t, Escape(k.key) + version, []);
    }
  }
}
