/**
 The text check of string keys is what it should be: the byte strings it accepts are exactly
 the UTF-8 forms of sequences of Unicode scalar values (section 3 of RFC 3629).
 */
module Utf8Text {
  import opened Bytes
  import opened KeyEncoding

  predicate Scalar(u: nat) {
    u < 0xD800 || 0xE000 <= u <= 0x10FFFF
  }

  /** The UTF-8 form of one scalar value. */
  function Form(u: nat): ByteString
    requires Scalar(u)
  {
    if u < 0x80 then [u]
    else if u < 0x800 then [0xC0 + u / 64, 0x80 + u % 64]
    else if u < 0x10000 then [0xE0 + u / 64 / 64, 0x80 + u / 64 % 64, 0x80 + u % 64]
    else [0xF0 + u / 64 / 64 / 64, 0x80 + u / 64 / 64 % 64, 0x80 + u / 64 % 64, 0x80 + u % 64]
  }

  predicate Scalars(text: seq<nat>) {
    forall i :: 0 <= i < |text| ==> Scalar(text[i])
  }

  function Forms(text: seq<nat>): ByteString
    requires Scalars(text)
  {
    if text == [] then [] else Form(text[0]) + Forms(text[1..])
  }

  lemma Digit(high: nat, low: nat)
    requires low < 64
    ensures (high * 64 + low) / 64 == high && (high * 64 + low) % 64 == low
  {
  }

  /** A three-byte form avoids what is shorter and what is reserved. */
  lemma ThreeBytes(u: nat, rest: ByteString)
    requires Scalar(u) && 0x800 <= u < 0x10000 && Utf8(rest)
    ensures Utf8(Form(u) + rest)
  {
    var s, q := Form(u) + rest, u / 64;
    assert s[3..] == rest;
    assert q == q / 64 * 64 + q % 64 && u == q * 64 + u % 64;
  }

  lemma FourBytes(u: nat, rest: ByteString)
    requires Scalar(u) && u >= 0x10000 && Utf8(rest)
    ensures Utf8(Form(u) + rest)
  {
    var s, q, p := Form(u) + rest, u / 64, u / 64 / 64;
    assert s[4..] == rest;
    assert p == p / 64 * 64 + p % 64 && q == p * 64 + q % 64 && u == q * 64 + u % 64;
  }

  /** The form of a scalar in front of well-formed text is well-formed text. */
  lemma FormAccepted(u: nat, rest: ByteString)
    requires Scalar(u) && Utf8(rest)
    ensures Utf8(Form(u) + rest)
  {
    var s := Form(u) + rest;
    if u < 0x80 {
      assert s[1..] == rest;
    } else if u < 0x800 {
      assert s[2..] == rest;
    } else if u < 0x10000 {
      ThreeBytes(u, rest);
    } else {
      FourBytes(u, rest);
    }
  }

  lemma {:induction false} FormsAccepted(text: seq<nat>)
    requires Scalars(text)
    ensures Utf8(Forms(text))
  {
    hide Utf8;
    if text == [] {
      NoText();
    } else {
      FormsAccepted(text[1..]);
      FormAccepted(text[0], Forms(text[1..]));
    }
  }

  lemma NoText()
    ensures Utf8([])
  {
  }

  lemma ThreeOf(a: nat, b: nat, c: nat)
    requires a < 16 && b < 64 && c < 64 && (a == 0 ==> b >= 32) && (a == 13 ==> b < 32)
    ensures Scalar((a * 64 + b) * 64 + c) && Form((a * 64 + b) * 64 + c) == [0xE0 + a, 0x80 + b, 0x80 + c]
  {
    Digit(a, b);
    Digit(a * 64 + b, c);
  }

  lemma FourOf(a: nat, b: nat, c: nat, d: nat)
    requires a <= 4 && b < 64 && c < 64 && d < 64 && (a == 0 ==> b >= 16) && (a == 4 ==> b < 16)
    ensures Scalar(((a * 64 + b) * 64 + c) * 64 + d)
    ensures Form(((a * 64 + b) * 64 + c) * 64 + d) == [0xF0 + a, 0x80 + b, 0x80 + c, 0x80 + d]
  {
    Digit(a, b);
    Digit(a * 64 + b, c);
    Digit((a * 64 + b) * 64 + c, d);
  }

  /** Well-formed text starts with the form of a scalar value. */
  lemma FirstScalar(s: ByteString) returns (u: nat)
    requires Utf8(s) && s != []
    ensures Scalar(u) && |Form(u)| <= |s| && s[..|Form(u)|] == Form(u) && Utf8(s[|Form(u)|..])
  {
    var a: int := s[0];
    if a < 0x80 {
      u := a;
    } else if a <= 0xDF {
      var b: int := s[1];
      Digit(a - 0xC0, b - 0x80);
      u := (a - 0xC0) * 64 + (b - 0x80);
    } else if a <= 0xEF {
      var b: int, c: int := s[1], s[2];
      ThreeOf(a - 0xE0, b - 0x80, c - 0x80);
      u := ((a - 0xE0) * 64 + (b - 0x80)) * 64 + (c - 0x80);
    } else {
      var b: int, c: int, d: int := s[1], s[2], s[3];
      FourOf(a - 0xF0, b - 0x80, c - 0x80, d - 0x80);
      u := (((a - 0xF0) * 64 + (b - 0x80)) * 64 + (c - 0x80)) * 64 + (d - 0x80);
    }
  }

  lemma {:induction false} TextOf(s: ByteString) returns (text: seq<nat>)
    requires Utf8(s)
    ensures Scalars(text) && Forms(text) == s
  {
    hide Utf8, Form;
    if s == [] {
      text := [];
    } else {
      var u := FirstScalar(s);
      Shortens(u);
      var more := TextOf(s[|Form(u)|..]);
      text := [u] + more;
      assert text[1..] == more;
      assert s == s[..|Form(u)|] + s[|Form(u)|..];
    }
  }

  lemma Shortens(u: nat)
    requires Scalar(u)
    ensures |Form(u)| > 0
  {
  }

  /** A byte string is well formed exactly when it is the UTF-8 form of some text. */
  lemma Utf8Exact(s: ByteString)
    ensures Utf8(s) <==> exists text :: Scalars(text) && Forms(text) == s
  {
    hide Utf8, Forms;
    if Utf8(s) {
      var text := TextOf(s);
    }
    if text :| Scalars(text) && Forms(text) == s {
      FormsAccepted(text);
    }
  }
}
