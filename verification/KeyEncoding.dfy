/**
 Storage schemas and the conversion between schema-encoded values and the key
 bytes a table sorts by.

 `ReadValue` and `ReadKey` are the two recursive readers; a typed `Value` is the
 reference both are measured against.
 */
module KeyEncoding {
  import opened Common
  import opened Bytes

  const MAX_KEY_BYTES := 1024
  const MAX_VALUE_BYTES := 16 * 1024 * 1024
  const MAX_DESCRIPTOR_BYTES := 65536
  const MAX_DEPTH := 16
  const SIGN_BIT := 0x8000_0000_0000_0000
  const U64_RANGE := 0x1_0000_0000_0000_0000

  datatype TypeNode =
    | Unit
    | Boolean
    | I64
    | U64
    | Bytes(bound: nat)
    | String(bound: nat)
    | Tuple(fields: seq<TypeNode>)

  datatype Schema = Schema(descriptor: ByteString, node: TypeNode, maxValueBytes: nat, maxKeyBytes: nat)

  // ---------------------------------------------------------------- escape frames

  /** Zero bytes become 00 ff and the frame ends with 00 00. */
  function Escape(s: ByteString): (e: ByteString)
    ensures |s| + 2 <= |e| <= 2 * |s| + 2
  {
    if s == [] then [0, 0]
    else if s[0] == 0 then [0, 255] + Escape(s[1..])
    else [s[0]] + Escape(s[1..])
  }

  /** The framed bytes and the length of the frame that `e` starts with. */
  function Unescape(e: ByteString): Result<(ByteString, nat)> {
    if e == [] then Err(InvalidInput)
    else if e[0] != 0 then
      var (bytes, used) :- Unescape(e[1..]);
      Ok(([e[0]] + bytes, used + 1))
    else if |e| == 1 then Err(InvalidInput)
    else if e[1] == 0 then Ok(([], 2))
    else if e[1] == 255 then
      var (bytes, used) :- Unescape(e[2..]);
      Ok(([0] + bytes, used + 2))
    else Err(InvalidInput)
  }

  lemma {:induction false} UnescapeOfEscape(s: ByteString, suffix: ByteString)
    ensures Unescape(Escape(s) + suffix) == Ok((s, |Escape(s)|))
  {
    var e := Escape(s) + suffix;
    if s == [] {
      assert e[0] == 0 && e[1] == 0;
    } else {
      UnescapeOfEscape(s[1..], suffix);
      assert s == [s[0]] + s[1..];
      if s[0] == 0 {
        assert e[2..] == Escape(s[1..]) + suffix;
      } else {
        assert e[1..] == Escape(s[1..]) + suffix;
      }
    }
  }

  /** The reader accepts nothing but frames the writer produces. */
  lemma {:induction false} EscapeOfUnescape(e: ByteString)
    requires Unescape(e).Ok?
    ensures var (bytes, used) := Unescape(e).value;
            used <= |e| && e[..used] == Escape(bytes)
  {
    if e[0] != 0 {
      EscapeOfUnescape(e[1..]);
      var (bytes, used) := Unescape(e[1..]).value;
      assert e[..used + 1] == [e[0]] + e[1..][..used];
      assert ([e[0]] + bytes)[1..] == bytes;
    } else if e[1] == 0 {
      assert e[..2] == [0, 0];
    } else {
      EscapeOfUnescape(e[2..]);
      var (bytes, used) := Unescape(e[2..]).value;
      assert e[..used + 2] == [0, 255] + e[2..][..used];
      assert ([0] + bytes)[1..] == bytes;
    }
  }

  /** Frames of different bytes sort as those bytes do, whatever follows either. */
  lemma {:induction false} EscapeOrder(s: ByteString, t: ByteString, x: ByteString, y: ByteString)
    requires s != t
    ensures Less(Escape(s) + x, Escape(t) + y) <==> Less(s, t)
  {
    var a, b := Escape(s) + x, Escape(t) + y;
    if s == [] {
      if t[0] == 0 {
        assert a[0] == b[0] == 0 && a[1] == 0 && b[1] == 255;
        assert a[1..][0] < b[1..][0];
      }
    } else if t == [] {
      if s[0] == 0 {
        assert a[0] == b[0] == 0 && a[1] == 255 && b[1] == 0;
        assert b[1..][0] < a[1..][0];
      }
    } else if s[0] == t[0] {
      assert s == [s[0]] + s[1..] && t == [t[0]] + t[1..];
      EscapeOrder(s[1..], t[1..], x, y);
      var p := if s[0] == 0 then [0, 255] else [s[0]];
      assert a == p + (Escape(s[1..]) + x);
      assert b == p + (Escape(t[1..]) + y);
      LessAfterPrefix(p, Escape(s[1..]) + x, Escape(t[1..]) + y);
    }
  }

  /** No frame is a proper prefix of another: equal concatenations split equally. */
  lemma EscapePrefixFree(s: ByteString, t: ByteString, x: ByteString, y: ByteString)
    requires Escape(s) + x == Escape(t) + y
    ensures s == t && x == y
  {
    UnescapeOfEscape(s, x);
    UnescapeOfEscape(t, y);
    assert x == (Escape(s) + x)[|Escape(s)|..];
    assert y == (Escape(t) + y)[|Escape(t)|..];
  }

  method EscapeInto(bytes: ByteString, encoded: ByteString) returns (r: ByteString)
    ensures r == encoded + Escape(bytes)
  {
    r := encoded;
    for i := 0 to |bytes|
      invariant encoded + Escape(bytes) == r + Escape(bytes[i..])
    {
      var rest := bytes[i..];
      assert rest[1..] == bytes[i + 1..];
      ghost var before := r;
      r := r + [bytes[i]];
      if bytes[i] == 0 {
        r := r + [255];
        assert before + ([0, 255] + Escape(rest[1..])) == r + Escape(rest[1..]);
      } else {
        assert before + ([bytes[i]] + Escape(rest[1..])) == r + Escape(rest[1..]);
      }
    }
    assert bytes[|bytes|..] == [];
    r := r + [0, 0];
  }

  /** `Unescape(e)` with `bytes` already read before it. */
  function Continue(bytes: ByteString, used: nat, e: ByteString): Result<(ByteString, nat)> {
    var (more, length) :- Unescape(e);
    Ok((bytes + more, used + length))
  }

  lemma ContinueStart(e: ByteString)
    ensures Continue([], 0, e) == Unescape(e)
  {
    hide Unescape;
    if Unescape(e).Ok? {
      assert [] + Unescape(e).value.0 == Unescape(e).value.0;
    }
  }

  /** One byte, or one escaped pair, moves from the input to the bytes read. */
  lemma ContinueStep(bytes: ByteString, used: nat, e: ByteString)
    requires e != [] && (e[0] == 0 ==> |e| > 1)
    ensures Continue(bytes, used, e) ==
            if e[0] != 0 then Continue(bytes + [e[0]], used + 1, e[1..])
            else if e[1] == 0 then Ok((bytes, used + 2))
            else if e[1] == 255 then Continue(bytes + [0], used + 2, e[2..])
            else Err(InvalidInput)
  {
    if e[0] != 0 {
      if Unescape(e[1..]).Ok? {
        Reassociate(bytes, [e[0]], Unescape(e[1..]).value.0);
      }
    } else if e[1] == 0 {
      assert bytes + [] == bytes;
    } else if e[1] == 255 && Unescape(e[2..]).Ok? {
      Reassociate(bytes, [0], Unescape(e[2..]).value.0);
    }
  }

  lemma ContinueCut(bytes: ByteString, used: nat, e: ByteString)
    requires e == [] || e == [0]
    ensures Continue(bytes, used, e) == Err(InvalidInput)
  {
  }

  method ReadFrame(encoded: ByteString) returns (r: Result<(ByteString, nat)>)
    ensures r == Unescape(encoded)
  {
    hide Unescape, Continue;
    var bytes: ByteString := [];
    var input := encoded;
    ContinueStart(encoded);
    while true
      invariant |input| <= |encoded|
      invariant Continue(bytes, |encoded| - |input|, input) == Unescape(encoded)
      decreases |input|
    {
      if input == [] {
        ContinueCut(bytes, |encoded|, input);
        return Err(InvalidInput);
      }
      var byte := input[0];
      ghost var at := input;
      input := input[1..];
      if byte != 0 {
        ContinueStep(bytes, |encoded| - |at|, at);
        bytes := bytes + [byte];
        continue;
      }
      if input == [] {
        assert at == [0];
        ContinueCut(bytes, |encoded| - |at|, at);
        return Err(InvalidInput);
      }
      ContinueStep(bytes, |encoded| - |at|, at);
      byte := input[0];
      input := input[1..];
      assert input == at[2..];
      if byte == 0 {
        return Ok((bytes, |encoded| - |input|));
      }
      if byte != 255 {
        return Err(InvalidInput);
      }
      bytes := bytes + [0];
    }
  }

  // ---------------------------------------------------------------- text

  predicate Tail(b: Byte) {
    0x80 <= b <= 0xBF
  }

  /** Well-formed UTF-8 (Unicode table 3-7). */
  predicate Utf8(s: ByteString) {
    if s == [] then true
    else if s[0] < 0x80 then Utf8(s[1..])
    else if 0xC2 <= s[0] <= 0xDF then |s| >= 2 && Tail(s[1]) && Utf8(s[2..])
    else if 0xE0 <= s[0] <= 0xEF then
      && |s| >= 3 && Tail(s[1]) && Tail(s[2])
      && (s[0] == 0xE0 ==> s[1] >= 0xA0)
      && (s[0] == 0xED ==> s[1] <= 0x9F)
      && Utf8(s[3..])
    else if 0xF0 <= s[0] <= 0xF4 then
      && |s| >= 4 && Tail(s[1]) && Tail(s[2]) && Tail(s[3])
      && (s[0] == 0xF0 ==> s[1] >= 0x90)
      && (s[0] == 0xF4 ==> s[1] <= 0x8F)
      && Utf8(s[4..])
    else false
  }

  // ---------------------------------------------------------------- typed values

  datatype Value =
    | UnitValue
    | BooleanValue(truth: bool)
    | I64Value(integer: int)
    | U64Value(natural: nat)
    | BytesValue(bytes: ByteString)
    | TupleValue(values: seq<Value>)

  predicate HasType(node: TypeNode, v: Value)
    decreases node, 1
  {
    match node
    case Unit => v.UnitValue?
    case Boolean => v.BooleanValue?
    case I64 => v.I64Value? && -SIGN_BIT <= v.integer < SIGN_BIT
    case U64 => v.U64Value? && v.natural < U64_RANGE
    case Bytes(bound) => v.BytesValue? && |v.bytes| <= bound && |v.bytes| <= U32_MAX
    case String(bound) => v.BytesValue? && |v.bytes| <= bound && |v.bytes| <= U32_MAX && Utf8(v.bytes)
    case Tuple(fields) => v.TupleValue? && HaveTypes(fields, v.values)
  }

  predicate HaveTypes(nodes: seq<TypeNode>, vs: seq<Value>)
    decreases nodes, 0
  {
    && |nodes| == |vs|
    && (nodes != [] ==> HasType(nodes[0], vs[0]) && HaveTypes(nodes[1..], vs[1..]))
  }

  function Unsigned(n: int): nat
    requires -SIGN_BIT <= n < SIGN_BIT
  {
    if n < 0 then n + U64_RANGE else n
  }

  function Signed(u: nat): int
    requires u < U64_RANGE
  {
    if u < SIGN_BIT then u else u - U64_RANGE
  }

  /** Exclusive or with bit 63. */
  function FlipSign(u: nat): (r: nat)
    requires u < U64_RANGE
    ensures r < U64_RANGE
  {
    if u < SIGN_BIT then u + SIGN_BIT else u - SIGN_BIT
  }

  /** The schema value encoding. */
  function ValueBytes(v: Value): ByteString
    decreases v, 1
  {
    match v
    case UnitValue => []
    case BooleanValue(truth) => [if truth then 1 else 0]
    case I64Value(n) => if -SIGN_BIT <= n < SIGN_BIT then LittleEndian(Unsigned(n), 8) else []
    case U64Value(n) => LittleEndian(n, 8)
    case BytesValue(bytes) => LittleEndian(|bytes|, 4) + bytes
    case TupleValue(values) => AllValueBytes(values)
  }

  function AllValueBytes(vs: seq<Value>): ByteString
    decreases vs, 0
  {
    if vs == [] then [] else ValueBytes(vs[0]) + AllValueBytes(vs[1..])
  }

  /** The ordered key encoding. */
  function KeyBytes(v: Value): ByteString
    decreases v, 1
  {
    match v
    case UnitValue => []
    case BooleanValue(truth) => [if truth then 1 else 0]
    case I64Value(n) => if -SIGN_BIT <= n < SIGN_BIT then BigEndian(FlipSign(Unsigned(n)), 8) else []
    case U64Value(n) => BigEndian(n, 8)
    case BytesValue(bytes) => Escape(bytes)
    case TupleValue(values) => AllKeyBytes(values)
  }

  function AllKeyBytes(vs: seq<Value>): ByteString
    decreases vs, 0
  {
    if vs == [] then [] else KeyBytes(vs[0]) + AllKeyBytes(vs[1..])
  }

  /** Field-by-field order: false before true, numbers by size, strings by byte. */
  predicate ValueLess(v: Value, w: Value)
    decreases v, 1
  {
    match (v, w)
    case (BooleanValue(a), BooleanValue(b)) => !a && b
    case (I64Value(a), I64Value(b)) => a < b
    case (U64Value(a), U64Value(b)) => a < b
    case (BytesValue(a), BytesValue(b)) => Less(a, b)
    case (TupleValue(a), TupleValue(b)) => ValuesLess(a, b)
    case _ => false
  }

  predicate ValuesLess(vs: seq<Value>, ws: seq<Value>)
    decreases vs, 0
  {
    && vs != [] && ws != []
    && (ValueLess(vs[0], ws[0]) || (vs[0] == ws[0] && ValuesLess(vs[1..], ws[1..])))
  }

  // ---------------------------------------------------------------- the readers

  /** Consume one value and return its key bytes with the unread input. */
  function ReadValue(node: TypeNode, input: ByteString): Result<(ByteString, ByteString)>
    decreases node, 1
  {
    match node
    case Unit => Ok(([], input))
    case Boolean =>
      if |input| < 1 || input[0] > 1 then Err(InvalidInput) else Ok(([input[0]], input[1..]))
    case I64 =>
      if |input| < 8 then Err(InvalidInput)
      else
        FromLittleEndianRoundTrip(input[..8]);
        Base8();
        Ok((BigEndian(FlipSign(FromLittleEndian(input[..8])), 8), input[8..]))
    case U64 =>
      if |input| < 8 then Err(InvalidInput)
      else Ok((BigEndian(FromLittleEndian(input[..8]), 8), input[8..]))
    case Bytes(bound) => ReadBlob(input, bound, false)
    case String(bound) => ReadBlob(input, bound, true)
    case Tuple(fields) => ReadValues(fields, input)
  }

  function ReadBlob(input: ByteString, bound: nat, text: bool): Result<(ByteString, ByteString)> {
    if |input| < 4 then Err(InvalidInput)
    else
      var length := FromLittleEndian(input[..4]);
      if length > bound || length > |input| - 4 then Err(InvalidInput)
      else if text && !Utf8(input[4..4 + length]) then Err(InvalidInput)
      else Ok((Escape(input[4..4 + length]), input[4 + length..]))
  }

  function ReadValues(nodes: seq<TypeNode>, input: ByteString): Result<(ByteString, ByteString)>
    decreases nodes, 0
  {
    if nodes == [] then Ok(([], input))
    else
      var (key, rest) :- ReadValue(nodes[0], input);
      var (keys, last) :- ReadValues(nodes[1..], rest);
      Ok((key + keys, last))
  }

  /** Consume one key and return its value bytes with the unread input. */
  function ReadKey(node: TypeNode, input: ByteString): Result<(ByteString, ByteString)>
    decreases node, 1
  {
    match node
    case Unit => Ok(([], input))
    case Boolean =>
      if |input| < 1 || input[0] > 1 then Err(InvalidInput) else Ok(([input[0]], input[1..]))
    case I64 =>
      if |input| < 8 then Err(InvalidInput)
      else
        FromBigEndianRoundTrip(input[..8]);
        Base8();
        Ok((LittleEndian(FlipSign(FromBigEndian(input[..8])), 8), input[8..]))
    case U64 =>
      if |input| < 8 then Err(InvalidInput)
      else Ok((LittleEndian(FromBigEndian(input[..8]), 8), input[8..]))
    case Bytes(bound) => ReadKeyFrame(input, bound, false)
    case String(bound) => ReadKeyFrame(input, bound, true)
    case Tuple(fields) => ReadKeys(fields, input)
  }

  function ReadKeyFrame(input: ByteString, bound: nat, text: bool): Result<(ByteString, ByteString)> {
    var (bytes, used) :- Unescape(input);
    if |bytes| > bound || (text && !Utf8(bytes)) || used > |input| then Err(InvalidInput)
    else Ok((LittleEndian(|bytes|, 4) + bytes, input[used..]))
  }

  function ReadKeys(nodes: seq<TypeNode>, input: ByteString): Result<(ByteString, ByteString)>
    decreases nodes, 0
  {
    if nodes == [] then Ok(([], input))
    else
      var (value, rest) :- ReadKey(nodes[0], input);
      var (values, last) :- ReadKeys(nodes[1..], rest);
      Ok((value + values, last))
  }

  // ---------------------------------------------------------------- readers against typed values

  lemma ReadBlobOf(bytes: ByteString, bound: nat, text: bool, suffix: ByteString)
    requires |bytes| <= bound && |bytes| <= U32_MAX && (text ==> Utf8(bytes))
    ensures ReadBlob(LittleEndian(|bytes|, 4) + bytes + suffix, bound, text) == Ok((Escape(bytes), suffix))
  {
    Base8();
    LittleEndianRoundTrip(|bytes|, 4);
    var input := LittleEndian(|bytes|, 4) + bytes + suffix;
    BlobParts(input, LittleEndian(|bytes|, 4), bytes, suffix);
    assert FromLittleEndian(input[..4]) == |bytes|;
  }

  lemma BlobParts(input: ByteString, length: ByteString, bytes: ByteString, suffix: ByteString)
    requires |length| == 4 && input == length + bytes + suffix
    ensures |input| == 4 + |bytes| + |suffix|
    ensures input[..4] == length
    ensures input[4..4 + |bytes|] == bytes
    ensures input[4 + |bytes|..] == suffix
  {
  }

  lemma ReadKeyFrameOf(bytes: ByteString, bound: nat, text: bool, suffix: ByteString)
    requires |bytes| <= bound && (text ==> Utf8(bytes))
    ensures ReadKeyFrame(Escape(bytes) + suffix, bound, text) == Ok((LittleEndian(|bytes|, 4) + bytes, suffix))
  {
    UnescapeOfEscape(bytes, suffix);
    assert (Escape(bytes) + suffix)[|Escape(bytes)|..] == suffix;
  }

  lemma SignedRoundTrip(n: int)
    requires -SIGN_BIT <= n < SIGN_BIT
    ensures Unsigned(n) < U64_RANGE
    ensures FlipSign(Unsigned(n)) == n + SIGN_BIT
    ensures FlipSign(FlipSign(Unsigned(n))) == Unsigned(n)
  {
  }

  lemma {:induction false} ReadValueOf(node: TypeNode, v: Value, suffix: ByteString)
    requires HasType(node, v)
    ensures ReadValue(node, ValueBytes(v) + suffix) == Ok((KeyBytes(v), suffix))
    decreases node, 1
  {
    Base8();
    var input := ValueBytes(v) + suffix;
    match node
    case Unit => assert input == suffix;
    case Boolean => assert input[1..] == suffix;
    case I64 =>
      SignedRoundTrip(v.integer);
      LittleEndianRoundTrip(Unsigned(v.integer), 8);
      assert input[..8] == ValueBytes(v) && input[8..] == suffix;
    case U64 =>
      LittleEndianRoundTrip(v.natural, 8);
      assert input[..8] == ValueBytes(v) && input[8..] == suffix;
    case Bytes(bound) => ReadBlobOf(v.bytes, bound, false, suffix);
    case String(bound) => ReadBlobOf(v.bytes, bound, true, suffix);
    case Tuple(fields) => ReadValuesOf(fields, v.values, suffix);
  }

  lemma {:induction false} ReadValuesOf(nodes: seq<TypeNode>, vs: seq<Value>, suffix: ByteString)
    requires HaveTypes(nodes, vs)
    ensures ReadValues(nodes, AllValueBytes(vs) + suffix) == Ok((AllKeyBytes(vs), suffix))
    decreases nodes, 0
  {
    if nodes == [] {
      assert AllValueBytes(vs) + suffix == suffix;
    } else {
      var rest := AllValueBytes(vs[1..]) + suffix;
      assert AllValueBytes(vs) + suffix == ValueBytes(vs[0]) + rest;
      ReadValueOf(nodes[0], vs[0], rest);
      ReadValuesOf(nodes[1..], vs[1..], suffix);
    }
  }

  lemma {:induction false} ReadKeyOf(node: TypeNode, v: Value, suffix: ByteString)
    requires HasType(node, v)
    ensures ReadKey(node, KeyBytes(v) + suffix) == Ok((ValueBytes(v), suffix))
    decreases node, 1
  {
    Base8();
    var input := KeyBytes(v) + suffix;
    match node
    case Unit => assert input == suffix;
    case Boolean => assert input[1..] == suffix;
    case I64 =>
      SignedRoundTrip(v.integer);
      BigEndianRoundTrip(FlipSign(Unsigned(v.integer)), 8);
      assert input[..8] == KeyBytes(v) && input[8..] == suffix;
    case U64 =>
      BigEndianRoundTrip(v.natural, 8);
      assert input[..8] == KeyBytes(v) && input[8..] == suffix;
    case Bytes(bound) => ReadKeyFrameOf(v.bytes, bound, false, suffix);
    case String(bound) => ReadKeyFrameOf(v.bytes, bound, true, suffix);
    case Tuple(fields) => ReadKeysOf(fields, v.values, suffix);
  }

  lemma {:induction false} ReadKeysOf(nodes: seq<TypeNode>, vs: seq<Value>, suffix: ByteString)
    requires HaveTypes(nodes, vs)
    ensures ReadKeys(nodes, AllKeyBytes(vs) + suffix) == Ok((AllValueBytes(vs), suffix))
    decreases nodes, 0
  {
    if nodes == [] {
      assert AllKeyBytes(vs) + suffix == suffix;
    } else {
      var rest := AllKeyBytes(vs[1..]) + suffix;
      assert AllKeyBytes(vs) + suffix == KeyBytes(vs[0]) + rest;
      ReadKeyOf(nodes[0], vs[0], rest);
      ReadKeysOf(nodes[1..], vs[1..], suffix);
    }
  }

  /** Whatever the value reader accepts is the encoding of one typed value. */
  lemma {:induction false} AcceptedValue(node: TypeNode, input: ByteString) returns (v: Value)
    requires ReadValue(node, input).Ok?
    ensures HasType(node, v)
    ensures var (key, rest) := ReadValue(node, input).value;
            input == ValueBytes(v) + rest && key == KeyBytes(v)
    decreases node, 1
  {
    Base8();
    match node
    case Unit => v := UnitValue;
    case Boolean => v := BooleanValue(input[0] == 1);
    case I64 =>
      FromLittleEndianRoundTrip(input[..8]);
      v := I64Value(Signed(FromLittleEndian(input[..8])));
    case U64 =>
      FromLittleEndianRoundTrip(input[..8]);
      v := U64Value(FromLittleEndian(input[..8]));
    case Bytes(bound) => v := AcceptedBlob(input, bound, false);
    case String(bound) => v := AcceptedBlob(input, bound, true);
    case Tuple(fields) =>
      var vs := AcceptedValues(fields, input);
      v := TupleValue(vs);
  }

  lemma AcceptedBlob(input: ByteString, bound: nat, text: bool) returns (v: Value)
    requires ReadBlob(input, bound, text).Ok?
    ensures v.BytesValue? && |v.bytes| <= bound && |v.bytes| <= U32_MAX && (text ==> Utf8(v.bytes))
    ensures ReadBlob(input, bound, text).value.0 == Escape(v.bytes)
    ensures input == LittleEndian(|v.bytes|, 4) + v.bytes + ReadBlob(input, bound, text).value.1
  {
    Base8();
    FromLittleEndianRoundTrip(input[..4]);
    var length := FromLittleEndian(input[..4]);
    v := BytesValue(input[4..4 + length]);
    assert input == input[..4] + input[4..4 + length] + input[4 + length..];
  }

  lemma {:induction false} AcceptedValues(nodes: seq<TypeNode>, input: ByteString) returns (vs: seq<Value>)
    requires ReadValues(nodes, input).Ok?
    ensures HaveTypes(nodes, vs)
    ensures var (key, rest) := ReadValues(nodes, input).value;
            input == AllValueBytes(vs) + rest && key == AllKeyBytes(vs)
    decreases nodes, 0
  {
    if nodes == [] {
      vs := [];
    } else {
      var v := AcceptedValue(nodes[0], input);
      var more := AcceptedValues(nodes[1..], ReadValue(nodes[0], input).value.1);
      vs := [v] + more;
      assert vs[1..] == more;
    }
  }

  /** Whatever the key reader accepts is the key of one typed value. */
  lemma {:induction false} AcceptedKey(node: TypeNode, input: ByteString) returns (v: Value)
    requires ReadKey(node, input).Ok? && |input| <= U32_MAX
    ensures HasType(node, v)
    ensures var (value, rest) := ReadKey(node, input).value;
            input == KeyBytes(v) + rest && value == ValueBytes(v)
    decreases node, 1
  {
    Base8();
    match node
    case Unit => v := UnitValue;
    case Boolean => v := BooleanValue(input[0] == 1);
    case I64 =>
      FromBigEndianRoundTrip(input[..8]);
      v := I64Value(Signed(FlipSign(FromBigEndian(input[..8]))));
    case U64 =>
      FromBigEndianRoundTrip(input[..8]);
      v := U64Value(FromBigEndian(input[..8]));
    case Bytes(bound) => v := AcceptedFrame(input, bound, false);
    case String(bound) => v := AcceptedFrame(input, bound, true);
    case Tuple(fields) =>
      var vs := AcceptedKeys(fields, input);
      v := TupleValue(vs);
  }

  lemma AcceptedFrame(input: ByteString, bound: nat, text: bool) returns (v: Value)
    requires ReadKeyFrame(input, bound, text).Ok? && |input| <= U32_MAX
    ensures v.BytesValue? && |v.bytes| <= bound && |v.bytes| <= U32_MAX && (text ==> Utf8(v.bytes))
    ensures ReadKeyFrame(input, bound, text).value.0 == LittleEndian(|v.bytes|, 4) + v.bytes
    ensures input == Escape(v.bytes) + ReadKeyFrame(input, bound, text).value.1
  {
    EscapeOfUnescape(input);
    var (bytes, used) := Unescape(input).value;
    v := BytesValue(bytes);
    assert input == input[..used] + input[used..];
  }

  lemma {:induction false} AcceptedKeys(nodes: seq<TypeNode>, input: ByteString) returns (vs: seq<Value>)
    requires ReadKeys(nodes, input).Ok? && |input| <= U32_MAX
    ensures HaveTypes(nodes, vs)
    ensures var (value, rest) := ReadKeys(nodes, input).value;
            input == AllKeyBytes(vs) + rest && value == AllValueBytes(vs)
    decreases nodes, 0
  {
    if nodes == [] {
      vs := [];
    } else {
      var v := AcceptedKey(nodes[0], input);
      var more := AcceptedKeys(nodes[1..], ReadKey(nodes[0], input).value.1);
      vs := [v] + more;
      assert vs[1..] == more;
    }
  }

  // ---------------------------------------------------------------- order

  /** Keys of different values of one type sort as the values do, under any suffixes. */
  lemma {:induction false} KeyOrder(node: TypeNode, v: Value, w: Value, x: ByteString, y: ByteString)
    requires HasType(node, v) && HasType(node, w) && v != w
    ensures Less(KeyBytes(v) + x, KeyBytes(w) + y) <==> ValueLess(v, w)
    decreases node, 1
  {
    Base8();
    match node
    case Unit =>
    case Boolean =>
    case I64 =>
      SignedRoundTrip(v.integer);
      SignedRoundTrip(w.integer);
      BigEndianOrder(FlipSign(Unsigned(v.integer)), FlipSign(Unsigned(w.integer)), 8);
      LessByHead(KeyBytes(v), KeyBytes(w), x, y);
    case U64 =>
      BigEndianOrder(v.natural, w.natural, 8);
      LessByHead(KeyBytes(v), KeyBytes(w), x, y);
    case Bytes(_) => EscapeOrder(v.bytes, w.bytes, x, y);
    case String(_) => EscapeOrder(v.bytes, w.bytes, x, y);
    case Tuple(fields) => KeysOrder(fields, v.values, w.values, x, y);
  }

  lemma {:induction false} KeysOrder(nodes: seq<TypeNode>, vs: seq<Value>, ws: seq<Value>, x: ByteString, y: ByteString)
    requires HaveTypes(nodes, vs) && HaveTypes(nodes, ws) && vs != ws
    ensures Less(AllKeyBytes(vs) + x, AllKeyBytes(ws) + y) <==> ValuesLess(vs, ws)
    decreases nodes, 0
  {
    var a, b := AllKeyBytes(vs[1..]) + x, AllKeyBytes(ws[1..]) + y;
    assert AllKeyBytes(vs) + x == KeyBytes(vs[0]) + a;
    assert AllKeyBytes(ws) + y == KeyBytes(ws[0]) + b;
    if vs[0] == ws[0] {
      assert vs == [vs[0]] + vs[1..] && ws == [ws[0]] + ws[1..];
      KeysOrder(nodes[1..], vs[1..], ws[1..], x, y);
      LessAfterPrefix(KeyBytes(vs[0]), a, b);
      ValueLessIrreflexive(vs[0]);
    } else {
      KeyOrder(nodes[0], vs[0], ws[0], a, b);
    }
  }

  lemma {:induction false} ValueLessIrreflexive(v: Value)
    ensures !ValueLess(v, v)
    decreases v, 1
  {
    match v
    case BytesValue(bytes) => LessIrreflexive(bytes);
    case TupleValue(values) => ValuesLessIrreflexive(values);
    case _ =>
  }

  lemma {:induction false} ValuesLessIrreflexive(vs: seq<Value>)
    ensures !ValuesLess(vs, vs)
    decreases vs, 0
  {
    if vs != [] {
      ValueLessIrreflexive(vs[0]);
      ValuesLessIrreflexive(vs[1..]);
    }
  }

  // ---------------------------------------------------------------- schemas

  function MaxValueBytes(node: TypeNode): nat
    decreases node, 1
  {
    match node
    case Unit => 0
    case Boolean => 1
    case I64 => 8
    case U64 => 8
    case Bytes(bound) => bound + 4
    case String(bound) => bound + 4
    case Tuple(fields) => SumMaxValueBytes(fields)
  }

  function SumMaxValueBytes(nodes: seq<TypeNode>): nat
    decreases nodes, 0
  {
    if nodes == [] then 0 else MaxValueBytes(nodes[0]) + SumMaxValueBytes(nodes[1..])
  }

  function MaxKeyBytes(node: TypeNode): nat
    decreases node, 1
  {
    match node
    case Unit => 0
    case Boolean => 1
    case I64 => 8
    case U64 => 8
    case Bytes(bound) => 2 * bound + 2
    case String(bound) => 2 * bound + 2
    case Tuple(fields) => SumMaxKeyBytes(fields)
  }

  function SumMaxKeyBytes(nodes: seq<TypeNode>): nat
    decreases nodes, 0
  {
    if nodes == [] then 0 else MaxKeyBytes(nodes[0]) + SumMaxKeyBytes(nodes[1..])
  }

  /** Every value of a type fits the sizes computed from the type. */
  lemma {:induction false} EncodedSizes(node: TypeNode, v: Value)
    requires HasType(node, v)
    ensures |ValueBytes(v)| <= MaxValueBytes(node) && |KeyBytes(v)| <= MaxKeyBytes(node)
    decreases node, 1
  {
    match node
    case Tuple(fields) => EncodedSizesOf(fields, v.values);
    case _ =>
  }

  lemma {:induction false} EncodedSizesOf(nodes: seq<TypeNode>, vs: seq<Value>)
    requires HaveTypes(nodes, vs)
    ensures |AllValueBytes(vs)| <= SumMaxValueBytes(nodes)
    ensures |AllKeyBytes(vs)| <= SumMaxKeyBytes(nodes)
    decreases nodes, 0
  {
    if nodes != [] {
      EncodedSizes(nodes[0], vs[0]);
      EncodedSizesOf(nodes[1..], vs[1..]);
    }
  }

  datatype Parsed = Parsed(node: TypeNode, valueBytes: nat, keyBytes: nat, rest: ByteString)

  datatype ParsedFields = ParsedFields(fields: seq<TypeNode>, valueBytes: nat, keyBytes: nat, rest: ByteString)

  function CheckSize(p: Parsed): Result<Parsed> {
    if p.valueBytes > MAX_VALUE_BYTES then Err(InvalidInput) else Ok(p)
  }

  /** Read one type description; the root sits at depth 1. */
  function DecodeNode(input: ByteString, depth: nat): Result<Parsed>
    decreases MAX_DEPTH + 1 - depth, 0, 1
  {
    if depth > MAX_DEPTH || input == [] then Err(InvalidInput)
    else
      var (tag, rest) := (input[0], input[1..]);
      if tag == 0 then Ok(Parsed(Unit, 0, 0, rest))
      else if tag == 1 then Ok(Parsed(Boolean, 1, 1, rest))
      else if tag == 2 then Ok(Parsed(I64, 8, 8, rest))
      else if tag == 3 then Ok(Parsed(U64, 8, 8, rest))
      else if tag == 4 || tag == 5 then DecodeBounded(tag, rest)
      else if tag == 6 then DecodeTuple(rest, depth)
      else Err(InvalidInput)
  }

  function DecodeBounded(tag: Byte, rest: ByteString): Result<Parsed> {
    if |rest| < 4 then Err(InvalidInput)
    else
      var bound := FromLittleEndian(rest[..4]);
      CheckSize(Parsed(if tag == 4 then Bytes(bound) else String(bound), bound + 4, 2 * bound + 2, rest[4..]))
  }

  function DecodeTuple(rest: ByteString, depth: nat): Result<Parsed>
    requires depth <= MAX_DEPTH
    decreases MAX_DEPTH + 1 - depth, 0, 0
  {
    if |rest| < 2 then Err(InvalidInput)
    else
      var count := FromLittleEndian(rest[..2]);
      if count > 256 || count > |rest[2..]| then Err(InvalidInput)
      else
        var p :- DecodeFields(rest[2..], count, depth + 1, 0);
        CheckSize(Parsed(Tuple(p.fields), p.valueBytes, p.keyBytes, p.rest))
  }

  /** Read `count` fields after earlier fields of maximum size `taken`. */
  function DecodeFields(input: ByteString, count: nat, depth: nat, taken: nat): Result<ParsedFields>
    requires depth <= MAX_DEPTH + 1
    decreases MAX_DEPTH + 1 - depth, count + 1
  {
    if count == 0 then Ok(ParsedFields([], 0, 0, input))
    else
      var p :- DecodeNode(input, depth);
      if taken + p.valueBytes > MAX_VALUE_BYTES then Err(InvalidInput)
      else
        var more :- DecodeFields(p.rest, count - 1, depth, taken + p.valueBytes);
        Ok(ParsedFields([p.node] + more.fields, p.valueBytes + more.valueBytes, p.keyBytes + more.keyBytes, more.rest))
  }

  /** The type description of a node. */
  function Describe(node: TypeNode): ByteString
    decreases node, 1
  {
    match node
    case Unit => [0]
    case Boolean => [1]
    case I64 => [2]
    case U64 => [3]
    case Bytes(bound) => [4] + LittleEndian(bound, 4)
    case String(bound) => [5] + LittleEndian(bound, 4)
    case Tuple(fields) => [6] + LittleEndian(|fields|, 2) + DescribeAll(fields)
  }

  function DescribeAll(nodes: seq<TypeNode>): ByteString
    decreases nodes, 0
  {
    if nodes == [] then [] else Describe(nodes[0]) + DescribeAll(nodes[1..])
  }

  /** The storage types of version 1, with a node at the given depth. */
  predicate Legal(node: TypeNode, depth: nat)
    decreases node, 1
  {
    && depth <= MAX_DEPTH
    && MaxValueBytes(node) <= MAX_VALUE_BYTES
    && match node
       case Bytes(bound) => bound <= U32_MAX
       case String(bound) => bound <= U32_MAX
       case Tuple(fields) => |fields| <= 256 && AllLegal(fields, depth + 1)
       case _ => true
  }

  predicate AllLegal(nodes: seq<TypeNode>, depth: nat)
    decreases nodes, 0
  {
    nodes != [] ==> Legal(nodes[0], depth) && AllLegal(nodes[1..], depth)
  }

  lemma {:induction false} DescribeNonempty(nodes: seq<TypeNode>)
    ensures |DescribeAll(nodes)| >= |nodes|
  {
    if nodes != [] {
      assert |Describe(nodes[0])| >= 1;
      DescribeNonempty(nodes[1..]);
    }
  }

  lemma Regroup(a: ByteString, b: ByteString, c: ByteString, d: ByteString)
    ensures a + b + c + d == a + (b + (c + d))
  {
  }

  lemma {:induction false} DecodeOfDescribe(node: TypeNode, depth: nat, suffix: ByteString)
    requires Legal(node, depth)
    ensures DecodeNode(Describe(node) + suffix, depth) ==
            Ok(Parsed(node, MaxValueBytes(node), MaxKeyBytes(node), suffix))
    decreases node, 1
  {
    Base8();
    var input := Describe(node) + suffix;
    match node
    case Bytes(bound) =>
      LittleEndianRoundTrip(bound, 4);
      assert input[1..][..4] == LittleEndian(bound, 4) && input[1..][4..] == suffix;
    case String(bound) =>
      LittleEndianRoundTrip(bound, 4);
      assert input[1..][..4] == LittleEndian(bound, 4) && input[1..][4..] == suffix;
    case Tuple(fields) =>
      var rest := LittleEndian(|fields|, 2) + (DescribeAll(fields) + suffix);
      Regroup([6], LittleEndian(|fields|, 2), DescribeAll(fields), suffix);
      assert input[1..] == rest;
      LittleEndianRoundTrip(|fields|, 2);
      DescribeNonempty(fields);
      assert rest[..2] == LittleEndian(|fields|, 2) && rest[2..] == DescribeAll(fields) + suffix;
      DecodeOfDescribeAll(rest[2..], fields, depth + 1, 0, suffix);
    case _ => assert input[1..] == suffix;
  }

  lemma DecodeFieldsStep(input: ByteString, count: nat, depth: nat, taken: nat, p: Parsed, more: ParsedFields)
    requires count > 0 && depth <= MAX_DEPTH + 1 && taken + p.valueBytes <= MAX_VALUE_BYTES
    requires DecodeNode(input, depth) == Ok(p)
    requires DecodeFields(p.rest, count - 1, depth, taken + p.valueBytes) == Ok(more)
    ensures DecodeFields(input, count, depth, taken) == Ok(ParsedFields([p.node] + more.fields,
              p.valueBytes + more.valueBytes, p.keyBytes + more.keyBytes, more.rest))
  {
  }

  lemma {:induction false} DecodeOfDescribeAll(input: ByteString, nodes: seq<TypeNode>, depth: nat, taken: nat,
      suffix: ByteString)
    requires depth <= MAX_DEPTH + 1 && AllLegal(nodes, depth)
    requires taken + SumMaxValueBytes(nodes) <= MAX_VALUE_BYTES
    requires input == DescribeAll(nodes) + suffix
    ensures DecodeFields(input, |nodes|, depth, taken) ==
            Ok(ParsedFields(nodes, SumMaxValueBytes(nodes), SumMaxKeyBytes(nodes), suffix))
    decreases nodes, 0
  {
    hide Describe, Legal, DecodeNode, MaxValueBytes, MaxKeyBytes;
    if nodes == [] {
      assert input == suffix;
    } else {
      var node, others := nodes[0], nodes[1..];
      var rest := DescribeAll(others) + suffix;
      assert input == Describe(node) + rest by {
        Reassociate(Describe(node), DescribeAll(others), suffix);
      }
      DecodeOfDescribe(node, depth, rest);
      DecodeOfDescribeAll(rest, others, depth, taken + MaxValueBytes(node), suffix);
      DecodeFieldsStep(input, |nodes|, depth, taken,
        Parsed(node, MaxValueBytes(node), MaxKeyBytes(node), rest),
        ParsedFields(others, SumMaxValueBytes(others), SumMaxKeyBytes(others), suffix));
      assert nodes == [node] + others;
    }
  }

  /** The descriptor reader accepts only descriptions of legal types, with their exact sizes. */
  lemma {:induction false} AcceptedDescriptor(input: ByteString, depth: nat)
    requires DecodeNode(input, depth).Ok?
    ensures var p := DecodeNode(input, depth).value;
            && Legal(p.node, depth)
            && input == Describe(p.node) + p.rest
            && p.valueBytes == MaxValueBytes(p.node)
            && p.keyBytes == MaxKeyBytes(p.node)
    decreases MAX_DEPTH + 1 - depth, 0, 1
  {
    var tag, rest := input[0], input[1..];
    assert input == [tag] + rest;
    if tag == 4 || tag == 5 {
      AcceptedInteger(rest, 4);
    } else if tag == 6 {
      AcceptedTuple(rest, depth);
      var p := DecodeTuple(rest, depth).value;
      Regroup([6], LittleEndian(|p.node.fields|, 2), DescribeAll(p.node.fields), p.rest);
    }
  }

  lemma {:induction false} AcceptedTuple(rest: ByteString, depth: nat)
    requires depth <= MAX_DEPTH && DecodeTuple(rest, depth).Ok?
    ensures var p := DecodeTuple(rest, depth).value;
            && p.node.Tuple?
            && Legal(p.node, depth)
            && rest == LittleEndian(|p.node.fields|, 2) + (DescribeAll(p.node.fields) + p.rest)
            && p.valueBytes == MaxValueBytes(p.node)
            && p.keyBytes == MaxKeyBytes(p.node)
    decreases MAX_DEPTH + 1 - depth, 0, 0
  {
    AcceptedInteger(rest, 2);
    AcceptedFields(rest[2..], FromLittleEndian(rest[..2]), depth + 1, 0);
  }

  lemma AcceptedInteger(input: ByteString, width: nat)
    requires width == 2 || width == 4
    requires |input| >= width
    ensures FromLittleEndian(input[..width]) < Base(width) <= U32_MAX + 1
    ensures input == LittleEndian(FromLittleEndian(input[..width]), width) + input[width..]
  {
    Base8();
    FromLittleEndianRoundTrip(input[..width]);
    assert input == input[..width] + input[width..];
  }

  lemma {:induction false} AcceptedFields(input: ByteString, count: nat, depth: nat, taken: nat)
    requires depth <= MAX_DEPTH + 1
    requires DecodeFields(input, count, depth, taken).Ok?
    ensures var p := DecodeFields(input, count, depth, taken).value;
            && |p.fields| == count
            && AllLegal(p.fields, depth)
            && input == DescribeAll(p.fields) + p.rest
            && p.valueBytes == SumMaxValueBytes(p.fields)
            && p.keyBytes == SumMaxKeyBytes(p.fields)
    decreases MAX_DEPTH + 1 - depth, count + 1
  {
    if count != 0 {
      AcceptedDescriptor(input, depth);
      var p := DecodeNode(input, depth).value;
      AcceptedFields(p.rest, count - 1, depth, taken + p.valueBytes);
      var more := DecodeFields(p.rest, count - 1, depth, taken + p.valueBytes).value;
      DecodeFieldsStep(input, count, depth, taken, p, more);
      assert ([p.node] + more.fields)[1..] == more.fields;
      Reassociate(Describe(p.node), DescribeAll(more.fields), more.rest);
    }
  }

  function DecodeSchema(bytes: ByteString): Result<Schema> {
    if |bytes| > MAX_DESCRIPTOR_BYTES || |bytes| < 2 then Err(InvalidInput)
    else if FromLittleEndian(bytes[..2]) != 1 then Err(Unsupported)
    else
      var p :- DecodeNode(bytes[2..], 1);
      if p.rest != [] then Err(InvalidInput)
      else Ok(Schema(bytes, p.node, p.valueBytes, p.keyBytes))
  }

  /** What every decoded schema satisfies. */
  predicate WellFormed(schema: Schema) {
    && Legal(schema.node, 1)
    && schema.maxValueBytes == MaxValueBytes(schema.node)
    && schema.maxKeyBytes == MaxKeyBytes(schema.node)
  }

  lemma DecodedSchema(bytes: ByteString)
    ensures DecodeSchema(bytes).Ok? ==>
              WellFormed(DecodeSchema(bytes).value) &&
              bytes == [1, 0] + Describe(DecodeSchema(bytes).value.node)
  {
    if DecodeSchema(bytes).Ok? {
      AcceptedDescriptor(bytes[2..], 1);
      FromLittleEndianRoundTrip(bytes[..2]);
      assert LittleEndian(1, 2) == [1] + LittleEndian(0, 1);
      assert bytes == bytes[..2] + bytes[2..];
      var node := DecodeSchema(bytes).value.node;
      assert bytes[2..] == Describe(node) + [];
    }
  }

  // ---------------------------------------------------------------- whole keys

  function EncodeKeySpec(schema: Schema, value: ByteString): Result<ByteString> {
    if schema.maxKeyBytes > MAX_KEY_BYTES || |value| > schema.maxValueBytes then Err(InvalidInput)
    else
      var (key, rest) :- ReadValue(schema.node, value);
      if rest != [] then Err(InvalidInput) else Ok(key)
  }

  function DecodeKeySpec(schema: Schema, key: ByteString): Result<ByteString> {
    if schema.maxKeyBytes > MAX_KEY_BYTES || |key| > schema.maxKeyBytes then Err(InvalidInput)
    else
      var (value, rest) :- ReadKey(schema.node, key);
      if rest != [] then Err(InvalidInput) else Ok(value)
  }

  /** Encoding succeeds exactly on encodings of typed values of a usable key schema. */
  lemma EncodeKeyAccepts(schema: Schema, value: ByteString)
    requires WellFormed(schema)
    ensures EncodeKeySpec(schema, value).Ok? <==>
            (schema.maxKeyBytes <= MAX_KEY_BYTES && exists v :: HasType(schema.node, v) && ValueBytes(v) == value)
  {
    if EncodeKeySpec(schema, value).Ok? {
      var v := AcceptedValue(schema.node, value);
      assert ValueBytes(v) + [] == ValueBytes(v);
    }
    if v :| HasType(schema.node, v) && ValueBytes(v) == value {
      EncodedSizes(schema.node, v);
      ReadValueOf(schema.node, v, []);
      assert ValueBytes(v) + [] == value;
    }
  }

  /** `decode_key` undoes `encode_key`, and the key fits the schema's maximum. */
  lemma DecodeUndoesEncode(schema: Schema, value: ByteString)
    requires WellFormed(schema) && EncodeKeySpec(schema, value).Ok?
    ensures |EncodeKeySpec(schema, value).value| <= schema.maxKeyBytes <= MAX_KEY_BYTES
    ensures DecodeKeySpec(schema, EncodeKeySpec(schema, value).value) == Ok(value)
  {
    var v := AcceptedValue(schema.node, value);
    var key := EncodeKeySpec(schema, value).value;
    EncodedSizes(schema.node, v);
    ReadKeyOf(schema.node, v, []);
    assert KeyBytes(v) + [] == key;
    assert ValueBytes(v) + [] == ValueBytes(v) == value;
  }

  /** `encode_key` undoes `decode_key`: no second key decodes to the same value. */
  lemma EncodeUndoesDecode(schema: Schema, key: ByteString)
    requires WellFormed(schema) && DecodeKeySpec(schema, key).Ok?
    ensures EncodeKeySpec(schema, DecodeKeySpec(schema, key).value) == Ok(key)
  {
    var v := AcceptedKey(schema.node, key);
    var value := DecodeKeySpec(schema, key).value;
    EncodedSizes(schema.node, v);
    ReadValueOf(schema.node, v, []);
    assert ValueBytes(v) + [] == value;
    assert KeyBytes(v) + [] == KeyBytes(v) == key;
  }

  /** Two encoded keys compare as the typed values they came from. */
  lemma EncodedKeyOrder(schema: Schema, v: Value, w: Value)
    requires WellFormed(schema) && HasType(schema.node, v) && HasType(schema.node, w)
    requires schema.maxKeyBytes <= MAX_KEY_BYTES
    ensures EncodeKeySpec(schema, ValueBytes(v)) == Ok(KeyBytes(v))
    ensures EncodeKeySpec(schema, ValueBytes(w)) == Ok(KeyBytes(w))
    ensures Less(KeyBytes(v), KeyBytes(w)) <==> ValueLess(v, w)
    ensures KeyBytes(v) == KeyBytes(w) <==> v == w
  {
    EncodedSizes(schema.node, v);
    EncodedSizes(schema.node, w);
    ReadValueOf(schema.node, v, []);
    ReadValueOf(schema.node, w, []);
    assert ValueBytes(v) + [] == ValueBytes(v) && ValueBytes(w) + [] == ValueBytes(w);
    assert KeyBytes(v) + [] == KeyBytes(v) && KeyBytes(w) + [] == KeyBytes(w);
    if v == w {
      LessIrreflexive(KeyBytes(v));
      ValueLessIrreflexive(v);
    } else {
      KeyOrder(schema.node, v, w, [], []);
      KeyOrder(schema.node, w, v, [], []);
      LessIrreflexive(KeyBytes(v));
      if KeyBytes(v) == KeyBytes(w) {
        ValueLessTotal(schema.node, v, w);
      }
    }
  }

  lemma {:induction false} ValueLessTotal(node: TypeNode, v: Value, w: Value)
    requires HasType(node, v) && HasType(node, w)
    ensures v == w || ValueLess(v, w) || ValueLess(w, v)
    decreases node, 1
  {
    match node
    case Bytes(_) => LessTotal(v.bytes, w.bytes);
    case String(_) => LessTotal(v.bytes, w.bytes);
    case Tuple(fields) => ValuesLessTotal(fields, v.values, w.values);
    case _ =>
  }

  lemma {:induction false} ValuesLessTotal(nodes: seq<TypeNode>, vs: seq<Value>, ws: seq<Value>)
    requires HaveTypes(nodes, vs) && HaveTypes(nodes, ws)
    ensures vs == ws || ValuesLess(vs, ws) || ValuesLess(ws, vs)
    decreases nodes, 0
  {
    if nodes != [] {
      ValueLessTotal(nodes[0], vs[0], ws[0]);
      ValuesLessTotal(nodes[1..], vs[1..], ws[1..]);
      assert vs == [vs[0]] + vs[1..] && ws == [ws[0]] + ws[1..];
    }
  }

  // ---------------------------------------------------------------- the recursive routines

  datatype Cursor = Cursor(input: ByteString, output: ByteString)

  /** A reader's result on the unread input, after what it appends to `output`. */
  function Appended(output: ByteString, r: Result<(ByteString, ByteString)>): Result<Cursor> {
    match r
    case Ok((more, rest)) => Ok(Cursor(rest, output + more))
    case Err(e) => Err(e)
  }

  /** Take one value off the cursor's input and push its key bytes. */
  method PushKey(node: TypeNode, at: Cursor) returns (r: Result<Cursor>)
    ensures r == Appended(at.output, ReadValue(node, at.input))
    decreases node, 1
  {
    match node
    case Unit =>
      assert at.output + [] == at.output;
      r := Ok(at);
    case Boolean =>
      if |at.input| < 1 || at.input[0] > 1 {
        return Err(InvalidInput);
      }
      r := Ok(Cursor(at.input[1..], at.output + [at.input[0]]));
    case I64 =>
      if |at.input| < 8 {
        return Err(InvalidInput);
      }
      FromLittleEndianRoundTrip(at.input[..8]);
      Base8();
      var number := FlipSign(FromLittleEndian(at.input[..8]));
      r := Ok(Cursor(at.input[8..], at.output + BigEndian(number, 8)));
    case U64 =>
      if |at.input| < 8 {
        return Err(InvalidInput);
      }
      r := Ok(Cursor(at.input[8..], at.output + BigEndian(FromLittleEndian(at.input[..8]), 8)));
    case Bytes(bound) => r := PushFrame(at, bound, false);
    case String(bound) => r := PushFrame(at, bound, true);
    case Tuple(fields) => r := PushKeys(fields, at);
  }

  method PushFrame(at: Cursor, bound: nat, text: bool) returns (r: Result<Cursor>)
    ensures r == Appended(at.output, ReadBlob(at.input, bound, text))
  {
    if |at.input| < 4 {
      return Err(InvalidInput);
    }
    var length := FromLittleEndian(at.input[..4]);
    if length > bound || length > |at.input| - 4 {
      return Err(InvalidInput);
    }
    var bytes := at.input[4..4 + length];
    if text && !Utf8(bytes) {
      return Err(InvalidInput);
    }
    var output := EscapeInto(bytes, at.output);
    r := Ok(Cursor(at.input[4 + length..], output));
  }

  method PushKeys(fields: seq<TypeNode>, start: Cursor) returns (r: Result<Cursor>)
    ensures r == Appended(start.output, ReadValues(fields, start.input))
    decreases fields, 0
  {
    var at := start;
    for i := 0 to |fields|
      invariant Appended(start.output, ReadValues(fields, start.input)) ==
                Appended(at.output, ReadValues(fields[i..], at.input))
    {
      var rest := fields[i..];
      assert rest[1..] == fields[i + 1..];
      var step := PushKey(fields[i], at);
      if step.Err? {
        return step;
      }
      if ReadValues(rest[1..], step.value.input).Ok? {
        var key := ReadValue(fields[i], at.input).value.0;
        var keys := ReadValues(rest[1..], step.value.input).value.0;
        assert at.output + (key + keys) == at.output + key + keys;
      }
      at := step.value;
    }
    assert fields[|fields|..] == [] && at.output + [] == at.output;
    r := Ok(at);
  }

  /** Take one key off the cursor's input and push its value bytes. */
  method PushValue(node: TypeNode, at: Cursor) returns (r: Result<Cursor>)
    ensures r == Appended(at.output, ReadKey(node, at.input))
    decreases node, 1
  {
    match node
    case Unit =>
      assert at.output + [] == at.output;
      r := Ok(at);
    case Boolean =>
      if |at.input| < 1 || at.input[0] > 1 {
        return Err(InvalidInput);
      }
      r := Ok(Cursor(at.input[1..], at.output + [at.input[0]]));
    case I64 =>
      if |at.input| < 8 {
        return Err(InvalidInput);
      }
      FromBigEndianRoundTrip(at.input[..8]);
      Base8();
      var number := FlipSign(FromBigEndian(at.input[..8]));
      r := Ok(Cursor(at.input[8..], at.output + LittleEndian(number, 8)));
    case U64 =>
      if |at.input| < 8 {
        return Err(InvalidInput);
      }
      r := Ok(Cursor(at.input[8..], at.output + LittleEndian(FromBigEndian(at.input[..8]), 8)));
    case Bytes(bound) => r := PushBlob(at, bound, false);
    case String(bound) => r := PushBlob(at, bound, true);
    case Tuple(fields) => r := PushValues(fields, at);
  }

  method PushBlob(at: Cursor, bound: nat, text: bool) returns (r: Result<Cursor>)
    ensures r == Appended(at.output, ReadKeyFrame(at.input, bound, text))
  {
    var frame := ReadFrame(at.input);
    if frame.Err? {
      return Err(frame.error);
    }
    var (bytes, used) := frame.value;
    EscapeOfUnescape(at.input);
    if |bytes| > bound || (text && !Utf8(bytes)) {
      return Err(InvalidInput);
    }
    var output := at.output + LittleEndian(|bytes|, 4);
    output := output + bytes;
    assert output == at.output + (LittleEndian(|bytes|, 4) + bytes);
    r := Ok(Cursor(at.input[used..], output));
  }

  method PushValues(fields: seq<TypeNode>, start: Cursor) returns (r: Result<Cursor>)
    ensures r == Appended(start.output, ReadKeys(fields, start.input))
    decreases fields, 0
  {
    var at := start;
    for i := 0 to |fields|
      invariant Appended(start.output, ReadKeys(fields, start.input)) ==
                Appended(at.output, ReadKeys(fields[i..], at.input))
    {
      var rest := fields[i..];
      assert rest[1..] == fields[i + 1..];
      var step := PushValue(fields[i], at);
      if step.Err? {
        return step;
      }
      if ReadKeys(rest[1..], step.value.input).Ok? {
        var value := ReadKey(fields[i], at.input).value.0;
        var values := ReadKeys(rest[1..], step.value.input).value.0;
        assert at.output + (value + values) == at.output + value + values;
      }
      at := step.value;
    }
    assert fields[|fields|..] == [] && at.output + [] == at.output;
    r := Ok(at);
  }

  method EncodeKey(schema: Schema, value: ByteString) returns (r: Result<ByteString>)
    ensures r == EncodeKeySpec(schema, value)
  {
    if schema.maxKeyBytes > MAX_KEY_BYTES || |value| > schema.maxValueBytes {
      return Err(InvalidInput);
    }
    var at := PushKey(schema.node, Cursor(value, []));
    if at.Err? {
      return Err(at.error);
    }
    assert ReadValue(schema.node, value).value.0 == at.value.output;
    r := if at.value.input != [] then Err(InvalidInput) else Ok(at.value.output);
  }

  method DecodeKey(schema: Schema, key: ByteString) returns (r: Result<ByteString>)
    ensures r == DecodeKeySpec(schema, key)
  {
    if schema.maxKeyBytes > MAX_KEY_BYTES || |key| > schema.maxKeyBytes {
      return Err(InvalidInput);
    }
    var at := PushValue(schema.node, Cursor(key, []));
    if at.Err? {
      return Err(at.error);
    }
    assert ReadKey(schema.node, key).value.0 == at.value.output;
    r := if at.value.input != [] then Err(InvalidInput) else Ok(at.value.output);
  }
}
