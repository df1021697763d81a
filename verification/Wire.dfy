/** Bytes, fixed-width integers and the small containers every component shares. */
module Wire {

  datatype Option<+T> = None | Some(value: T)

  type byte = x: int | 0 <= x < 0x100
  type u16 = x: int | 0 <= x < 0x1_0000
  type u32 = x: int | 0 <= x < 0x1_0000_0000

  type bytes = seq<byte>

  /** Big-endian encodings (network order). */
  function Be16(n: u16): (b: bytes)
    ensures |b| == 2
  {
    [n / 0x100, n % 0x100]
  }

  function Be32(n: u32): (b: bytes)
    ensures |b| == 4
  {
    [n / 0x100_0000, n / 0x1_0000 % 0x100, n / 0x100 % 0x100, n % 0x100]
  }

  function FromBe16(hi: byte, lo: byte): u16 {
    hi * 0x100 + lo
  }

  function FromBe32(a: byte, b: byte, c: byte, d: byte): u32 {
    ((a * 0x100 + b) * 0x100 + c) * 0x100 + d
  }

  /** The two bytes at `i` as a number. */
  function At16(p: bytes, i: nat): u16
    requires i + 2 <= |p|
  {
    FromBe16(p[i], p[i + 1])
  }

  lemma Be16At(p: bytes, i: nat, n: u16)
    requires i + 2 <= |p| && p[i..i + 2] == Be16(n)
    ensures At16(p, i) == n
  {
    assert p[i] == p[i..i + 2][0] && p[i + 1] == p[i..i + 2][1];
  }

  lemma Be32RoundTrip(n: u32)
    ensures var b := Be32(n); FromBe32(b[0], b[1], b[2], b[3]) == n
  {
    var q := n / 0x1_0000;
    assert n / 0x100_0000 == q / 0x100 && q / 0x100 * 0x100 + q % 0x100 == q;
    assert n / 0x100 % 0x100 * 0x100 + n % 0x100 == n % 0x1_0000;
  }

  function PowerOf256(n: nat): (p: nat)
    ensures p > 0
  {
    if n == 0 then 1 else 0x100 * PowerOf256(n - 1)
  }

  /** The number a byte string denotes, most significant byte first. */
  function BeValue(b: bytes): nat {
    if b == [] then 0 else b[0] * PowerOf256(|b| - 1) + BeValue(b[1..])
  }

  lemma TwoByteValue(hi: byte, lo: byte)
    ensures BeValue([hi, lo]) == FromBe16(hi, lo)
  {
    assert [hi, lo][1..] == [lo] && [lo][1..] == [];
    assert PowerOf256(1) == 0x100 && PowerOf256(0) == 1;
    assert BeValue([lo]) == lo * PowerOf256(0) + BeValue([]) == lo;
  }

  lemma FourByteValue(a: byte, b: byte, c: byte, d: byte)
    ensures BeValue([a, b, c, d]) == FromBe32(a, b, c, d)
  {
    assert [a, b, c, d][1..] == [b, c, d] && [b, c, d][1..] == [c, d];
    TwoByteValue(c, d);
    assert PowerOf256(3) == 0x100_0000 && PowerOf256(2) == 0x1_0000;
  }

  /** The encodings denote the numbers they encode. */
  lemma EncodedValues(n: u16, m: u32)
    ensures BeValue(Be16(n)) == n && BeValue(Be32(m)) == m
    ensures var b := Le32(m); BeValue([b[3], b[2], b[1], b[0]]) == m
  {
    var b, l := Be32(m), Le32(m);
    TwoByteValue(n / 0x100, n % 0x100);
    FourByteValue(b[0], b[1], b[2], b[3]);
    Be32RoundTrip(m);
    FourByteValue(l[3], l[2], l[1], l[0]);
    Le32RoundTrip(m);
  }

  /** Little-endian 32-bit encoding, as a savefile stores its header fields. */
  function Le32(n: u32): (b: bytes)
    ensures |b| == 4
  {
    [n % 0x100, n / 0x100 % 0x100, n / 0x1_0000 % 0x100, n / 0x100_0000]
  }

  function FromLe32(a: byte, b: byte, c: byte, d: byte): u32 {
    ((d * 0x100 + c) * 0x100 + b) * 0x100 + a
  }

  lemma Le32RoundTrip(n: u32)
    ensures var b := Le32(n); FromLe32(b[0], b[1], b[2], b[3]) == n
  {
    var q := n / 0x1_0000;
    assert n / 0x100_0000 == q / 0x100 && q % 0x100 + q / 0x100 * 0x100 == q;
    assert n % 0x100 + n / 0x100 % 0x100 * 0x100 == n % 0x1_0000;
  }

  /** Binary digit `i`, the lowest being digit 0. */
  predicate BitAt(n: nat, i: nat) {
    if i == 0 then n % 2 == 1 else BitAt(n / 2, i - 1)
  }

  /** Bitwise and, digit by digit. */
  function And(a: nat, b: nat): (r: nat)
    ensures r <= a
  {
    if a == 0 then 0 else 2 * And(a / 2, b / 2) + (if a % 2 == 1 && b % 2 == 1 then 1 else 0)
  }

  /** Bitwise or, digit by digit. */
  function Or(a: nat, b: nat): (r: nat)
    decreases a + b
  {
    if a == 0 && b == 0 then 0
    else 2 * Or(a / 2, b / 2) + (if a % 2 == 1 || b % 2 == 1 then 1 else 0)
  }

  lemma {:induction false} AndBits(a: nat, b: nat, i: nat)
    ensures BitAt(And(a, b), i) <==> BitAt(a, i) && BitAt(b, i)
    decreases i
  {
    if a == 0 {
      ZeroBits(i);
    } else if i > 0 {
      AndBits(a / 2, b / 2, i - 1);
    }
  }

  lemma {:induction false} OrBits(a: nat, b: nat, i: nat)
    ensures BitAt(Or(a, b), i) <==> BitAt(a, i) || BitAt(b, i)
    decreases i
  {
    if a == 0 && b == 0 {
      ZeroBits(i);
    } else if i > 0 {
      OrBits(a / 2, b / 2, i - 1);
    }
  }

  lemma {:induction false} ZeroBits(i: nat)
    ensures !BitAt(0, i)
  {
    if i > 0 {
      ZeroBits(i - 1);
    }
  }

  function PowerOf2(n: nat): nat {
    if n == 0 then 1 else 2 * PowerOf2(n - 1)
  }

  lemma {:induction false} OrBelow(a: nat, b: nat, n: nat)
    requires a < PowerOf2(n) && b < PowerOf2(n)
    ensures Or(a, b) < PowerOf2(n)
  {
    if n > 0 {
      OrBelow(a / 2, b / 2, n - 1);
    }
  }

  /** Numbers with the same binary digits are equal. */
  lemma {:induction false} SameBits(a: nat, b: nat, n: nat)
    requires a < PowerOf2(n) && b < PowerOf2(n)
    requires forall i :: 0 <= i < n ==> (BitAt(a, i) <==> BitAt(b, i))
    ensures a == b
  {
    if n > 0 {
      assert BitAt(a, 0) <==> BitAt(b, 0);
      forall i | 0 <= i < n - 1 ensures BitAt(a / 2, i) <==> BitAt(b / 2, i) {
        assert BitAt(a, i + 1) <==> BitAt(b, i + 1);
      }
      SameBits(a / 2, b / 2, n - 1);
    }
  }

  /** A flag byte is the set of its one bits, so that bitwise or and bitwise and
      are union and intersection. */
  type Bit = i: int | 0 <= i < 8
  type Flags = set<Bit>

  function BitsOf(b: byte): Flags {
    set i: Bit | 0 <= i < 8 && BitAt(b, i)
  }

  lemma BitsOfAnd(a: byte, b: byte)
    ensures BitsOf(And(a, b)) == BitsOf(a) * BitsOf(b)
  {
    forall i: Bit ensures i in BitsOf(And(a, b)) <==> i in BitsOf(a) * BitsOf(b) {
      AndBits(a, b, i);
    }
  }

  lemma ByteOr(a: byte, b: byte)
    ensures Or(a, b) < 0x100
  {
    assert PowerOf2(8) == 0x100;
    OrBelow(a, b, 8);
  }

  lemma BitsOfOr(a: byte, b: byte)
    ensures Or(a, b) < 0x100 && BitsOf(Or(a, b)) == BitsOf(a) + BitsOf(b)
  {
    ByteOr(a, b);
    forall i: Bit ensures i in BitsOf(Or(a, b)) <==> i in BitsOf(a) + BitsOf(b) {
      OrBits(a, b, i);
    }
  }

  /** The set of bits determines the byte. */
  lemma BitsInjective(a: byte, b: byte)
    ensures BitsOf(a) == BitsOf(b) <==> a == b
  {
    if BitsOf(a) == BitsOf(b) {
      assert PowerOf2(8) == 0x100;
      forall i | 0 <= i < 8 ensures BitAt(a, i) <==> BitAt(b, i) {
        var j: Bit := i;
        assert j in BitsOf(a) <==> j in BitsOf(b);
      }
      SameBits(a, b, 8);
    }
  }

  function Min(a: int, b: int): int {
    if a <= b then a else b
  }

  function SaturatingSub(a: nat, b: nat): nat {
    if a >= b then a - b else 0
  }

  function Max(a: int, b: int): int {
    if a >= b then a else b
  }

  /** The first `n` elements, or all of them when there are fewer. */
  function Take<T>(s: seq<T>, n: nat): (r: seq<T>)
    ensures |r| == Min(|s|, n)
  {
    if |s| <= n then s else s[..n]
  }

  /** The tail of a chunk can be counted to what follows it. */
  lemma Regroup<T>(before: seq<T>, x: seq<T>, y: seq<T>, after: seq<T>)
    ensures before + (x + y) + after == before + x + (y + after)
  {
    assert before + (x + y) + after == before + x + (y + after);
  }

  lemma SliceOfSlice<T>(s: seq<T>, lo: nat, hi: nat, i: nat, j: nat)
    requires lo <= hi <= |s| && i <= j <= hi - lo
    ensures s[lo..hi][i..j] == s[lo + i..lo + j]
  {
    var a, b := s[lo..hi][i..j], s[lo + i..lo + j];
    assert |a| == |b| && forall k :: 0 <= k < |a| ==> a[k] == b[k];
  }

  /** A chunk placed after a prefix can be read back at the prefix's length. */
  lemma ChunkAt<T>(whole: seq<T>, before: seq<T>, chunk: seq<T>, after: seq<T>)
    requires whole == before + chunk + after
    ensures |whole| == |before| + |chunk| + |after|
    ensures whole[|before|..|before| + |chunk|] == chunk
    ensures whole[|before| + |chunk|..] == after
    ensures forall i :: 0 <= i < |chunk| ==> whole[|before| + i] == chunk[i]
  {
  }
}

/** Sums over the values of a finite map. */
module MapSums {

  /** The total weight of the values of `m`. */
  ghost function Total<K, V>(m: map<K, V>, w: V -> nat): nat
    decreases |m|
  {
    if m == map[] then 0
    else
      var k :| k in m;
      w(m[k]) + Total(m - {k}, w)
  }

  /** Any key may be taken out first. */
  lemma {:induction false} TotalRemove<K, V>(m: map<K, V>, k: K, w: V -> nat)
    requires k in m
    ensures Total(m, w) == w(m[k]) + Total(m - {k}, w)
    decreases |m|
  {
    var j :| j in m && Total(m, w) == w(m[j]) + Total(m - {j}, w);
    if j != k {
      TotalRemove(m - {j}, k, w);
      TotalRemove(m - {k}, j, w);
      assert m - {j} - {k} == m - {k} - {j};
    }
  }

  /** Writing a key adds its weight to what the other keys weigh. */
  lemma TotalUpdate<K, V>(m: map<K, V>, k: K, v: V, w: V -> nat)
    ensures Total(m[k := v], w) == w(v) + Total(m - {k}, w)
  {
    TotalRemove(m[k := v], k, w);
    assert m[k := v] - {k} == m - {k};
  }
}
