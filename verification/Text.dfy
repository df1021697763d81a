/** Byte strings as text. */
module Text {
  import opened Wire

  predicate InRange(s: bytes, i: nat, lo: byte, hi: byte) {
    i < |s| && lo <= s[i] <= hi
  }

  /** Length of the well-formed UTF-8 sequence at the front (table 3-7 of the
      Unicode standard), 0 when there is none. */
  function FirstChar(s: bytes): (n: nat)
    ensures n <= |s|
  {
    if InRange(s, 0, 0x00, 0x7F) then 1
    else if InRange(s, 0, 0xC2, 0xDF) && InRange(s, 1, 0x80, 0xBF) then 2
    else if InRange(s, 2, 0x80, 0xBF) &&
            (|| (InRange(s, 0, 0xE0, 0xE0) && InRange(s, 1, 0xA0, 0xBF))
             || (InRange(s, 0, 0xE1, 0xEC) && InRange(s, 1, 0x80, 0xBF))
             || (InRange(s, 0, 0xED, 0xED) && InRange(s, 1, 0x80, 0x9F))
             || (InRange(s, 0, 0xEE, 0xEF) && InRange(s, 1, 0x80, 0xBF))) then 3
    else if InRange(s, 2, 0x80, 0xBF) && InRange(s, 3, 0x80, 0xBF) &&
            (|| (InRange(s, 0, 0xF0, 0xF0) && InRange(s, 1, 0x90, 0xBF))
             || (InRange(s, 0, 0xF1, 0xF3) && InRange(s, 1, 0x80, 0xBF))
             || (InRange(s, 0, 0xF4, 0xF4) && InRange(s, 1, 0x80, 0x8F))) then 4
    else 0
  }

  /** `std::str::from_utf8` succeeds. */
  predicate IsUtf8(s: bytes) {
    s == [] || (FirstChar(s) > 0 && IsUtf8(s[FirstChar(s)..]))
  }

  /** `from_utf8(..).unwrap_or(default)`; a string is its bytes. */
  function DecodeOr(s: bytes, default: bytes): bytes {
    if IsUtf8(s) then s else default
  }

  lemma {:induction false} AsciiIsUtf8(s: bytes)
    requires forall i :: 0 <= i < |s| ==> s[i] < 0x80
    ensures IsUtf8(s)
  {
    if s != [] {
      AsciiIsUtf8(s[1..]);
    }
  }

  /** A Unicode scalar value: a code point that is not a surrogate. */
  type Scalar = c: int | 0 <= c < 0xD800 || 0xE000 <= c < 0x11_0000

  /** The UTF-8 encoding form (table 3-6 of the Unicode standard). */
  function Utf8(c: Scalar): (b: bytes)
    ensures 1 <= |b| <= 4
  {
    if c < 0x80 then [c]
    else if c < 0x800 then [0xC0 + c / 0x40, 0x80 + c % 0x40]
    else if c < 0x1_0000 then [0xE0 + c / 0x1000, 0x80 + c / 0x40 % 0x40, 0x80 + c % 0x40]
    else [0xF0 + c / 0x4_0000, 0x80 + c / 0x1000 % 0x40, 0x80 + c / 0x40 % 0x40, 0x80 + c % 0x40]
  }

  function Utf8All(cs: seq<Scalar>): bytes {
    if cs == [] then [] else Utf8(cs[0]) + Utf8All(cs[1..])
  }

  /** Only the first four bytes decide about the first character. */
  lemma FirstCharOf(s: bytes, t: bytes)
    requires FirstChar(t) > 0 && t <= s
    requires FirstChar(t) == |t|
    ensures FirstChar(s) == FirstChar(t)
  {
    assert forall i :: 0 <= i < |t| ==> s[i] == t[i];
  }

  /** Some scalar values encode to these bytes. */
  ghost predicate IsEncoded(s: bytes) {
    exists cs: seq<Scalar> :: s == Utf8All(cs)
  }

  lemma FirstCharOfScalar(c: Scalar)
    ensures FirstChar(Utf8(c)) == |Utf8(c)|
  {
  }

  /** Every first character is the encoding of a scalar value. */
  lemma ScalarOfFirstChar(s: bytes) returns (c: Scalar)
    requires FirstChar(s) > 0
    ensures s[..FirstChar(s)] == Utf8(c)
  {
    var n := FirstChar(s);
    if n == 1 {
      c := s[0];
    } else if n == 2 {
      var x: nat, y: nat := s[0] - 0xC0, s[1] - 0x80;
      c := x * 0x40 + y;
    } else if n == 3 {
      c := ThreeBytes(s[0] - 0xE0, s[1] - 0x80, s[2] - 0x80);
    } else {
      c := FourBytes(s[0] - 0xF0, s[1] - 0x80, s[2] - 0x80, s[3] - 0x80);
    }
  }

  lemma ThreeBytes(x: nat, y: nat, z: nat) returns (c: Scalar)
    requires x < 0x10 && y < 0x40 && z < 0x40
    requires (x == 0 ==> y >= 0x20) && (x == 0xD ==> y < 0x20)
    ensures 0x800 <= c < 0x1_0000 && c / 0x1000 == x && c / 0x40 % 0x40 == y && c % 0x40 == z
  {
    var high := x * 0x40 + y;
    assert high / 0x40 == x && high % 0x40 == y;
    c := high * 0x40 + z;
    assert c / 0x40 == high && c / 0x1000 == high / 0x40;
  }

  lemma FourBytes(x: nat, y: nat, z: nat, w: nat) returns (c: Scalar)
    requires x < 5 && y < 0x40 && z < 0x40 && w < 0x40
    requires (x == 0 ==> y >= 0x10) && (x == 4 ==> y < 0x10)
    ensures 0x1_0000 <= c < 0x11_0000
    ensures c / 0x4_0000 == x && c / 0x1000 % 0x40 == y && c / 0x40 % 0x40 == z && c % 0x40 == w
  {
    var high := x * 0x40 + y;
    assert high / 0x40 == x && high % 0x40 == y;
    var mid := high * 0x40 + z;
    assert mid / 0x40 == high && mid % 0x40 == z;
    c := mid * 0x40 + w;
    assert c / 0x40 == mid && c / 0x1000 == mid / 0x40 && c / 0x4_0000 == high / 0x40;
  }

  lemma {:induction false} EncodedIsUtf8(cs: seq<Scalar>)
    ensures IsUtf8(Utf8All(cs))
  {
    if cs != [] {
      var s := Utf8All(cs);
      FirstCharOfScalar(cs[0]);
      FirstCharOf(s, Utf8(cs[0]));
      assert s[FirstChar(s)..] == Utf8All(cs[1..]);
      EncodedIsUtf8(cs[1..]);
    }
  }

  lemma {:induction false} Utf8IsEncoded(s: bytes) returns (cs: seq<Scalar>)
    requires IsUtf8(s)
    ensures s == Utf8All(cs)
  {
    if s == [] {
      cs := [];
    } else {
      var c := ScalarOfFirstChar(s);
      var rest := Utf8IsEncoded(s[FirstChar(s)..]);
      cs := [c] + rest;
      assert s == s[..FirstChar(s)] + s[FirstChar(s)..];
      assert cs[1..] == rest;
    }
  }

  /** Exactly the concatenations of encoded scalar values are UTF-8. */
  lemma Utf8Iff(s: bytes)
    ensures IsUtf8(s) <==> IsEncoded(s)
  {
    if IsUtf8(s) {
      var cs := Utf8IsEncoded(s);
    }
    if IsEncoded(s) {
      var cs: seq<Scalar> :| s == Utf8All(cs);
      EncodedIsUtf8(cs);
    }
  }

  /** What decoding gives: the bytes themselves whenever they are encoded scalar
      values, however many, and the default otherwise. */
  lemma DecodeExact(s: bytes, default: bytes)
    ensures DecodeOr(s, default) == if IsEncoded(s) then s else default
  {
    Utf8Iff(s);
  }
}
