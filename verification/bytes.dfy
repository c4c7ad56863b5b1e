/** Bytes, unsigned big-endian numbers and the two's-complement views of
    them that Java's `int` and `BigInteger` give. */
module Bytes {

  type byte = b: int | 0 <= b < 256

  const TWO_31: nat := 0x8000_0000
  const TWO_32: nat := 0x1_0000_0000

  /** Java `int`. */
  const INT_MIN: int := -0x8000_0000
  const INT_MAX: int := 0x7fff_ffff
  type int32 = x: int | INT_MIN <= x <= INT_MAX

  /** Rust `u32`. */
  type u32 = x: int | 0 <= x < TWO_32

  function Pow256(k: nat): (r: nat)
    ensures r >= 1
  {
    if k == 0 then 1 else 256 * Pow256(k - 1)
  }

  /** `n as u32` in Rust: the low 32 bits of `n`. */
  function Low32(n: nat): (r: u32)
    ensures n < TWO_32 ==> r == n
  {
    n % TWO_32
  }

  /** Four bytes hold exactly the values below 2^32. */
  lemma Pow256Four()
    ensures Pow256(4) == TWO_32
  {
    assert Pow256(1) == 256;
    assert Pow256(2) == 256 * 256;
    assert Pow256(3) == 256 * 256 * 256;
  }

  /** Concatenation regroups freely; stated once so that long proofs need
      not rediscover it. */
  lemma AppendAssoc<T>(a: seq<T>, b: seq<T>, c: seq<T>)
    ensures (a + b) + c == a + (b + c)
  {
  }

  /** The concatenation of a sequence of sequences, left to right. */
  function Flatten<T>(ss: seq<seq<T>>): seq<T> {
    if |ss| == 0 then [] else ss[0] + Flatten(ss[1..])
  }

  lemma {:induction false} FlattenAppend<T>(a: seq<seq<T>>, b: seq<seq<T>>)
    ensures Flatten(a + b) == Flatten(a) + Flatten(b)
  {
    if |a| == 0 {
      assert a + b == b;
    } else {
      assert (a + b)[1..] == a[1..] + b;
      FlattenAppend(a[1..], b);
    }
  }

  /** The unsigned big-endian value of `s` (what `new BigInteger(1, s)` denotes). */
  function Value(s: seq<byte>): (r: nat)
    ensures r < Pow256(|s|)
  {
    if |s| == 0 then 0
    else
      var high := Value(s[..|s| - 1]);
      assert high + 1 <= Pow256(|s| - 1);
      assert high * 256 + s[|s| - 1] < (high + 1) * 256;
      high * 256 + s[|s| - 1]
  }

  /** The most significant byte carries the weight 256^(n-1). */
  lemma {:induction false} ValueFirst(s: seq<byte>)
    requires |s| > 0
    ensures Value(s) == s[0] * Pow256(|s| - 1) + Value(s[1..])
  {
    if |s| > 1 {
      var init := s[..|s| - 1];
      var last := s[|s| - 1];
      var p := Pow256(|s| - 2);
      var rest := Value(init[1..]);
      ValueFirst(init);
      assert init[1..] == s[1..][..|s| - 2];
      assert Value(s[1..]) == rest * 256 + last;
      assert Value(s) == Value(init) * 256 + last;
      assert Value(init) == s[0] * p + rest;
      ShiftByte(s[0], p, rest);
    } else {
      assert s[1..] == [];
      assert s[..0] == [];
    }
  }

  lemma ShiftByte(a: int, p: int, rest: int)
    ensures (a * p + rest) * 256 == a * (256 * p) + rest * 256
  {
  }

  /** Leading zero bytes do not change the value. */
  lemma {:induction false} LeadingZeros(z: seq<byte>, s: seq<byte>)
    requires forall i :: 0 <= i < |z| ==> z[i] == 0
    ensures Value(z + s) == Value(s)
  {
    if |s| == 0 {
      assert z + s == z;
      ZerosValue(z);
    } else {
      assert (z + s)[..|z + s| - 1] == z + s[..|s| - 1];
      LeadingZeros(z, s[..|s| - 1]);
    }
  }

  lemma {:induction false} ZerosValue(z: seq<byte>)
    requires forall i :: 0 <= i < |z| ==> z[i] == 0
    ensures Value(z) == 0
  {
    if |z| > 0 {
      ZerosValue(z[..|z| - 1]);
    }
  }

  /** Two byte strings of the same length with the same value are equal. */
  lemma {:induction false} ValueInjective(a: seq<byte>, b: seq<byte>)
    requires |a| == |b| && Value(a) == Value(b)
    ensures a == b
  {
    if |a| > 0 {
      var n := |a| - 1;
      assert a[n] == Value(a) % 256 == b[n];
      assert Value(a[..n]) == Value(a) / 256 == Value(b[..n]);
      ValueInjective(a[..n], b[..n]);
      assert a == a[..n] + [a[n]];
      assert b == b[..n] + [b[n]];
    }
  }

  /** The `width`-byte unsigned big-endian encoding of `n`. */
  function Encode(n: nat, width: nat): (r: seq<byte>)
    requires n < Pow256(width)
    ensures |r| == width
    ensures Value(r) == n
  {
    if width == 0 then []
    else
      var init := Encode(n / 256, width - 1);
      var s := init + [n % 256];
      assert s[..|s| - 1] == init;
      s
  }

  /** Encoding is the inverse of `Value` on byte strings of that width. */
  lemma EncodeValue(b: seq<byte>)
    ensures Encode(Value(b), |b|) == b
  {
    ValueInjective(Encode(Value(b), |b|), b);
  }

  /** `BigInteger.intValue()`: the low 32 bits of `v`, read as a signed Java `int`. */
  function IntValue(v: int): (r: int32)
    ensures (r - v) % TWO_32 == 0
    ensures 0 <= v < TWO_31 ==> r == v
    ensures TWO_31 <= v < TWO_32 ==> r == v - TWO_32
  {
    var low := v % TWO_32;
    if low < TWO_31 then low else low - TWO_32
  }

  /** `BigInteger.valueOf(n).toByteArray()` for non-negative `n`: the shortest
      big-endian two's-complement encoding, which always has a clear sign bit. */
  function ToByteArray(n: nat): (r: seq<byte>)
    ensures |r| >= 1
    ensures Value(r) == n
    ensures r[0] < 128
    ensures |r| == 1 || r[0] != 0 || r[1] >= 128
  {
    if n < 128 then [n]
    else
      var init := ToByteArray(n / 256);
      var s := init + [n % 256];
      assert s[..|s| - 1] == init;
      s
  }

  /** A value below 2^(8k-1) needs at most `k` bytes of two's complement. */
  lemma {:induction false} ToByteArrayLength(n: nat, k: nat)
    requires k >= 1 && n < 128 * Pow256(k - 1)
    ensures |ToByteArray(n)| <= k
  {
    if n >= 128 {
      assert k >= 2;
      var p := Pow256(k - 2);
      assert n < 256 * (128 * p);
      assert n / 256 < 128 * p;
      ToByteArrayLength(n / 256, k - 1);
    }
  }
}
