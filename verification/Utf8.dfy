// UTF-8 validity as the grammar of section 4 of RFC 3629 gives it.
module Utf8 {
  import opened Bytes

  predicate Tail(x: byte) { 0x80 <= x <= 0xBF }

  predicate Two(s: bytes) {
    |s| >= 2 && 0xC2 <= s[0] <= 0xDF && Tail(s[1])
  }

  predicate Three(s: bytes) {
    && |s| >= 3 && Tail(s[2])
    && ((s[0] == 0xE0 && 0xA0 <= s[1] <= 0xBF)
       || (0xE1 <= s[0] <= 0xEC && Tail(s[1]))
       || (s[0] == 0xED && 0x80 <= s[1] <= 0x9F)
       || (0xEE <= s[0] <= 0xEF && Tail(s[1])))
  }

  predicate Four(s: bytes) {
    && |s| >= 4 && Tail(s[2]) && Tail(s[3])
    && ((s[0] == 0xF0 && 0x90 <= s[1] <= 0xBF)
       || (0xF1 <= s[0] <= 0xF3 && Tail(s[1]))
       || (s[0] == 0xF4 && 0x80 <= s[1] <= 0x8F))
  }

  predicate ValidUtf8(s: bytes) {
    || s == []
    || (s[0] < 0x80 && ValidUtf8(s[1..]))
    || (Two(s) && ValidUtf8(s[2..]))
    || (Three(s) && ValidUtf8(s[3..]))
    || (Four(s) && ValidUtf8(s[4..]))
  }

  lemma {:induction false} AsciiIsValid(s: bytes)
    requires forall i :: 0 <= i < |s| ==> s[i] < 0x80
    ensures ValidUtf8(s)
  {
    if s != [] {
      AsciiIsValid(s[1..]);
    }
  }

  // ---- The same by code points -----------------------------------------------------

  /** A Unicode scalar value: any code point but the surrogates. */
  predicate Scalar(c: nat) {
    c <= 0xD7FF || 0xE000 <= c <= 0x10FFFF
  }

  /** The bit layout of section 3 of RFC 3629: six bits to every byte behind the first. */
  function EncodeScalar(c: nat): bytes
    requires Scalar(c)
  {
    if c < 0x80 then [c]
    else if c < 0x800 then [0xC0 + c / 0x40, 0x80 + c % 0x40]
    else if c < 0x1_0000 then [0xE0 + c / 0x1000, 0x80 + c / 0x40 % 0x40, 0x80 + c % 0x40]
    else [0xF0 + c / 0x4_0000, 0x80 + c / 0x1000 % 0x40, 0x80 + c / 0x40 % 0x40, 0x80 + c % 0x40]
  }

  predicate Scalars(cs: seq<nat>) {
    forall i :: 0 <= i < |cs| ==> Scalar(cs[i])
  }

  function EncodeScalars(cs: seq<nat>): bytes
    requires Scalars(cs)
  {
    if cs == [] then [] else EncodeScalar(cs[0]) + EncodeScalars(cs[1..])
  }

  lemma Digits(x: nat, y: nat)
    requires y < 0x40
    ensures (x * 0x40 + y) / 0x40 == x && (x * 0x40 + y) % 0x40 == y
  {}

  lemma Twice(c: nat)
    ensures c / 0x1000 == c / 0x40 / 0x40 && c / 0x4_0000 == c / 0x40 / 0x40 / 0x40
  {}

  lemma FrontTwo(s: bytes) returns (c: nat)
    requires Two(s)
    ensures Scalar(c) && EncodeScalar(c) == s[..2]
  {
    c := ((s[0] as int) - 0xC0) * 0x40 + ((s[1] as int) - 0x80);
    Digits((s[0] as int) - 0xC0, (s[1] as int) - 0x80);
    assert 0x80 <= c < 0x800;
  }

  lemma {:induction false} FrontThree(s: bytes) returns (c: nat)
    requires Three(s)
    ensures Scalar(c) && EncodeScalar(c) == s[..3]
  {
    var x, y, z := (s[0] as int) - 0xE0, (s[1] as int) - 0x80, (s[2] as int) - 0x80;
    c := (x * 0x40 + y) * 0x40 + z;
    Digits(x * 0x40 + y, z);
    Digits(x, y);
    Twice(c);
    assert 0x800 <= c < 0x1_0000;
  }

  lemma {:induction false} FrontFour(s: bytes) returns (c: nat)
    requires Four(s)
    ensures Scalar(c) && EncodeScalar(c) == s[..4]
  {
    var w, x, y, z := (s[0] as int) - 0xF0, (s[1] as int) - 0x80, (s[2] as int) - 0x80, (s[3] as int) - 0x80;
    c := ((w * 0x40 + x) * 0x40 + y) * 0x40 + z;
    Digits((w * 0x40 + x) * 0x40 + y, z);
    Digits(w * 0x40 + x, y);
    Digits(w, x);
    Twice(c);
    assert 0x1_0000 <= c <= 0x10_FFFF;
  }

  /** The scalar value at the front of a valid string, by the size of its first byte. */
  lemma {:induction false} FirstScalar(s: bytes) returns (c: nat)
    requires s != [] && ValidUtf8(s)
    ensures Scalar(c) && EncodeScalar(c) <= s && ValidUtf8(s[|EncodeScalar(c)|..])
  {
    if s[0] < 0x80 {
      c := s[0];
    } else if s[0] < 0xE0 {
      c := FrontTwo(s);
    } else if s[0] < 0xF0 {
      c := FrontThree(s);
    } else {
      c := FrontFour(s);
    }
  }

  lemma {:induction false} ScalarInFront(c: nat, s: bytes)
    requires Scalar(c) && ValidUtf8(s)
    ensures ValidUtf8(EncodeScalar(c) + s)
  {
    var t := EncodeScalar(c) + s;
    assert t[|EncodeScalar(c)|..] == s;
    if 0x80 <= c < 0x800 { assert Two(t); }
    if 0x800 <= c < 0x1_0000 { assert Three(t); }
    if c >= 0x1_0000 { assert Four(t); }
  }

  lemma {:induction false} EncodedIsValid(cs: seq<nat>)
    requires Scalars(cs)
    ensures ValidUtf8(EncodeScalars(cs))
  {
    if cs != [] {
      EncodedIsValid(cs[1..]);
      ScalarInFront(cs[0], EncodeScalars(cs[1..]));
    }
  }

  lemma {:induction false} ValidIsEncoded(s: bytes) returns (cs: seq<nat>)
    requires ValidUtf8(s)
    ensures Scalars(cs) && EncodeScalars(cs) == s
  {
    cs := [];
    if s != [] {
      var c := FirstScalar(s);
      var rest := ValidIsEncoded(s[|EncodeScalar(c)|..]);
      cs := [c] + rest;
      assert cs[1..] == rest;
    }
  }

  /** A byte string is accepted exactly when it is the encoding of some scalar values. */
  lemma {:induction false} Utf8Iff(s: bytes)
    ensures ValidUtf8(s) <==> exists cs: seq<nat> :: Scalars(cs) && EncodeScalars(cs) == s
  {
    if ValidUtf8(s) {
      var cs := ValidIsEncoded(s);
    }
    if cs: seq<nat> :| Scalars(cs) && EncodeScalars(cs) == s {
      EncodedIsValid(cs);
    }
  }
}
