/** Bytes, fixed-width integers and the unsigned byte order used by the tree. */
module Bytes {

  type Byte = b: int | 0 <= b < 256

  type ByteString = seq<Byte>

  const U64_MAX := 0xFFFF_FFFF_FFFF_FFFF

  const U32_MAX := 0xFFFF_FFFF

  /** 256 to the power `width`. */
  function Base(width: nat): (r: nat)
    ensures r > 0
  {
    if width == 0 then 1 else 256 * Base(width - 1)
  }

  function LittleEndian(n: nat, width: nat): (s: ByteString)
    ensures |s| == width
  {
    if width == 0 then [] else [n % 256] + LittleEndian(n / 256, width - 1)
  }

  function FromLittleEndian(s: ByteString): nat {
    if s == [] then 0 else s[0] + 256 * FromLittleEndian(s[1..])
  }

  function BigEndian(n: nat, width: nat): (s: ByteString)
    ensures |s| == width
  {
    if width == 0 then [] else BigEndian(n / 256, width - 1) + [n % 256]
  }

  function FromBigEndian(s: ByteString): nat {
    if s == [] then 0 else 256 * FromBigEndian(s[..|s| - 1]) + s[|s| - 1]
  }

  lemma SplitDigit(low: Byte, high: nat)
    ensures (low + 256 * high) % 256 == low && (low + 256 * high) / 256 == high
  {
  }

  lemma SmallerFactor(d: nat, a: nat, b: nat)
    requires d * a < d * b
    ensures a < b
  {
  }

  lemma Quotient(n: nat, d: nat, q: nat, r: nat)
    requires d > 0 && n == d * q + r && r < d
    ensures n / d == q
  {
    var x := n / d;
    assert d * x <= n < d * x + d;
    assert d * (x + 1) == d * x + d && d * (q + 1) == d * q + d;
    SmallerFactor(d, x, q + 1);
    SmallerFactor(d, q, x + 1);
  }

  lemma Remainder(a: nat, b: nat, v: nat, r: nat)
    requires r < a && v < b
    ensures 0 <= a * v + r < a * b
  {
    assert a * (v + 1) == a * v + a;
    assert a * (v + 1) <= a * b;
  }

  lemma Distribute(a: nat, b: nat, u: nat, v: nat)
    ensures a * (b * u + v) == (a * b) * u + a * v
  {
  }

  lemma DivideTwice(n: nat, a: nat, b: nat)
    requires a > 0 && b > 0
    ensures a * b > 0 && n / a / b == n / (a * b)
  {
    var q, r := n / a, n % a;
    var u, v := q / b, q % b;
    Remainder(a, b, v, r);
    Distribute(a, b, u, v);
    Quotient(n, a * b, u, a * v + r);
  }

  /** Byte `i` has the weight of 256 to the power `i`. */
  lemma {:induction false} LittleEndianDigit(n: nat, width: nat, i: nat)
    requires i < width
    ensures LittleEndian(n, width)[i] == n / Base(i) % 256
  {
    if i > 0 {
      LittleEndianDigit(n / 256, width - 1, i - 1);
      DivideTwice(n, 256, Base(i - 1));
    }
  }

  lemma {:induction false} LittleEndianRoundTrip(n: nat, width: nat)
    requires n < Base(width)
    ensures FromLittleEndian(LittleEndian(n, width)) == n
  {
    if width != 0 {
      LittleEndianRoundTrip(n / 256, width - 1);
      assert LittleEndian(n, width)[1..] == LittleEndian(n / 256, width - 1);
    }
  }

  lemma {:induction false} FromLittleEndianRoundTrip(s: ByteString)
    ensures FromLittleEndian(s) < Base(|s|)
    ensures LittleEndian(FromLittleEndian(s), |s|) == s
  {
    if s != [] {
      var high := FromLittleEndian(s[1..]);
      FromLittleEndianRoundTrip(s[1..]);
      SplitDigit(s[0], high);
      assert LittleEndian(s[0] + 256 * high, |s|) == [s[0]] + LittleEndian(high, |s| - 1);
      assert s == [s[0]] + s[1..];
    }
  }

  lemma {:induction false} BigEndianRoundTrip(n: nat, width: nat)
    requires n < Base(width)
    ensures FromBigEndian(BigEndian(n, width)) == n
  {
    if width != 0 {
      BigEndianRoundTrip(n / 256, width - 1);
      assert BigEndian(n, width)[..width - 1] == BigEndian(n / 256, width - 1);
    }
  }

  lemma {:induction false} FromBigEndianRoundTrip(s: ByteString)
    ensures FromBigEndian(s) < Base(|s|)
    ensures BigEndian(FromBigEndian(s), |s|) == s
  {
    if s != [] {
      var high, low := FromBigEndian(s[..|s| - 1]), s[|s| - 1];
      FromBigEndianRoundTrip(s[..|s| - 1]);
      SplitDigit(low, high);
      assert BigEndian(low + 256 * high, |s|) == BigEndian(high, |s| - 1) + [low];
      assert s == s[..|s| - 1] + [low];
    }
  }

  lemma Base8()
    ensures Base(1) == 0x100
    ensures Base(2) == 0x1_0000
    ensures Base(4) == 0x1_0000_0000
    ensures Base(8) == 0x1_0000_0000_0000_0000
  {
    assert Base(1) == 256 * Base(0);
    assert Base(2) == 256 * Base(1);
    assert Base(3) == 256 * Base(2);
    assert Base(4) == 256 * Base(3);
    assert Base(5) == 256 * Base(4);
    assert Base(6) == 256 * Base(5);
    assert Base(7) == 256 * Base(6);
    assert Base(8) == 256 * Base(7);
  }

  /** Unsigned lexicographic order; a proper prefix comes first. */
  predicate Less(a: ByteString, b: ByteString) {
    b != [] && (a == [] || a[0] < b[0] || (a[0] == b[0] && Less(a[1..], b[1..])))
  }

  predicate AtMost(a: ByteString, b: ByteString) {
    a == b || Less(a, b)
  }

  lemma {:induction false} LessIrreflexive(a: ByteString)
    ensures !Less(a, a)
  {
    if a != [] {
      LessIrreflexive(a[1..]);
    }
  }

  lemma {:induction false} LessTransitive(a: ByteString, b: ByteString, c: ByteString)
    requires Less(a, b) && Less(b, c)
    ensures Less(a, c)
  {
    if a != [] && a[0] == b[0] == c[0] {
      LessTransitive(a[1..], b[1..], c[1..]);
    }
  }

  lemma {:induction false} LessTotal(a: ByteString, b: ByteString)
    ensures Less(a, b) || a == b || Less(b, a)
  {
    if a != [] && b != [] && a[0] == b[0] {
      LessTotal(a[1..], b[1..]);
      assert a == [a[0]] + a[1..];
      assert b == [b[0]] + b[1..];
    }
  }

  lemma LessAsymmetric(a: ByteString, b: ByteString)
    requires Less(a, b)
    ensures !Less(b, a) && a != b
  {
    LessIrreflexive(a);
    if Less(b, a) {
      LessTransitive(a, b, a);
    }
  }

  /** A shared prefix does not affect the order. */
  lemma {:induction false} LessAfterPrefix(p: ByteString, a: ByteString, b: ByteString)
    ensures Less(p + a, p + b) <==> Less(a, b)
  {
    if p == [] {
      assert p + a == a && p + b == b;
    } else {
      assert (p + a)[1..] == p[1..] + a;
      assert (p + b)[1..] == p[1..] + b;
      LessAfterPrefix(p[1..], a, b);
    }
  }

  /** The first differing pair of equally long heads decides, whatever follows. */
  lemma {:induction false} LessByHead(a: ByteString, b: ByteString, x: ByteString, y: ByteString)
    requires |a| == |b| && a != b
    ensures Less(a + x, b + y) <==> Less(a, b)
  {
    if a[0] == b[0] {
      assert a == [a[0]] + a[1..];
      assert b == [b[0]] + b[1..];
      LessByHead(a[1..], b[1..], x, y);
      assert (a + x)[1..] == a[1..] + x;
      assert (b + y)[1..] == b[1..] + y;
    }
  }

  /** Big-endian bytes of a fixed width sort as the integers do. */
  lemma {:induction false} BigEndianOrder(m: nat, n: nat, width: nat)
    requires m < Base(width) && n < Base(width)
    ensures Less(BigEndian(m, width), BigEndian(n, width)) <==> m < n
    ensures BigEndian(m, width) == BigEndian(n, width) <==> m == n
  {
    BigEndianRoundTrip(m, width);
    BigEndianRoundTrip(n, width);
    if width != 0 {
      BigEndianOrder(m / 256, n / 256, width - 1);
      var a, b := BigEndian(m / 256, width - 1), BigEndian(n / 256, width - 1);
      if a == b {
        LessAfterPrefix(a, [m % 256], [n % 256]);
        assert !Less([], []);
      } else {
        LessByHead(a, b, [m % 256], [n % 256]);
      }
    }
  }
}
