/** Bytes, 64-bit unsigned integers, their big-endian form, and the unsigned
    lexicographic order in which a sorted key-value store keeps byte strings. */
module Bytes {

  /** An unsigned byte (`u8`). */
  type Byte = b: int | 0 <= b < 256

  const U64_MAX: int := 0xFFFF_FFFF_FFFF_FFFF

  /** An unsigned 64-bit integer (`u64`, and TiKV's `TimeStamp`). */
  type U64 = n: int | 0 <= n <= U64_MAX

  /** The number of bytes of a big-endian `u64`. */
  const U64_SIZE: nat := 8

  function Pow256(k: nat): (r: nat)
    ensures r > 0
  {
    if k == 0 then 1 else 256 * Pow256(k - 1)
  }

  /** The `k` low-order bytes of `n`, most significant first. */
  function ToBigEndian(n: nat, k: nat): (r: seq<Byte>)
    ensures |r| == k
  {
    if k == 0 then [] else ToBigEndian(n / 256, k - 1) + [n % 256]
  }

  /** The number whose big-endian form is `s`. */
  function FromBigEndian(s: seq<Byte>): (r: nat)
    ensures r < Pow256(|s|)
  {
    if s == [] then 0 else FromBigEndian(s[..|s| - 1]) * 256 + s[|s| - 1]
  }

  /** `encode_u64`: the 8 big-endian bytes of `n`. */
  function EncodeU64(n: U64): (r: seq<Byte>)
    ensures |r| == U64_SIZE
  {
    ToBigEndian(n, U64_SIZE)
  }

  /** `decode_u64` of exactly 8 bytes. */
  function DecodeU64(s: seq<Byte>): (r: U64)
    requires |s| == U64_SIZE
  {
    assert Pow256(8) == U64_MAX + 1;
    FromBigEndian(s)
  }

  lemma {:induction false} FromToBigEndian(n: nat, k: nat)
    requires n < Pow256(k)
    ensures FromBigEndian(ToBigEndian(n, k)) == n
  {
    if k > 0 {
      var s := ToBigEndian(n, k);
      assert s[..k - 1] == ToBigEndian(n / 256, k - 1);
      FromToBigEndian(n / 256, k - 1);
    }
  }

  lemma {:induction false} ToFromBigEndian(s: seq<Byte>)
    ensures ToBigEndian(FromBigEndian(s), |s|) == s
  {
    if s != [] {
      var n := FromBigEndian(s);
      assert n / 256 == FromBigEndian(s[..|s| - 1]);
      ToFromBigEndian(s[..|s| - 1]);
    }
  }

  /** The largest `k`-byte number is `k` bytes of 0xFF. */
  lemma {:induction false} BigEndianAllOnes(k: nat)
    ensures ToBigEndian(Pow256(k) - 1, k) == seq(k, _ => 0xFF)
  {
    if k > 0 {
      assert (Pow256(k) - 1) / 256 == Pow256(k - 1) - 1;
      BigEndianAllOnes(k - 1);
    }
  }

  /** A number below 256 is seven zero bytes and itself. */
  lemma SmallU64Encoding(n: U64)
    requires n < 256
    ensures EncodeU64(n) == [0, 0, 0, 0, 0, 0, 0, n]
  {
    assert ToBigEndian(0, 7) == [0, 0, 0, 0, 0, 0, 0] by {
      assert ToBigEndian(0, 1) == [0];
      assert ToBigEndian(0, 2) == [0, 0];
      assert ToBigEndian(0, 3) == [0, 0, 0];
      assert ToBigEndian(0, 4) == [0, 0, 0, 0];
      assert ToBigEndian(0, 5) == [0, 0, 0, 0, 0];
      assert ToBigEndian(0, 6) == [0, 0, 0, 0, 0, 0];
    }
  }

  /** Decoding 8 big-endian bytes inverts encoding, in both directions. */
  lemma U64RoundTrip(n: U64, s: seq<Byte>)
    requires |s| == U64_SIZE
    ensures DecodeU64(EncodeU64(n)) == n
    ensures EncodeU64(DecodeU64(s)) == s
  {
    assert Pow256(8) == U64_MAX + 1;
    FromToBigEndian(n, U64_SIZE);
    ToFromBigEndian(s);
  }

  /** `a` sorts before `b` because the two first differ at position `i`,
      where `a` holds the smaller byte. */
  ghost predicate FirstDifferenceAt(a: seq<Byte>, b: seq<Byte>, i: nat) {
    i < |a| && i < |b| && a[..i] == b[..i] && a[i] < b[i]
  }

  /** `a` is a proper prefix of `b`. */
  ghost predicate ProperPrefix(a: seq<Byte>, b: seq<Byte>) {
    |a| < |b| && b[..|a|] == a
  }

  /** Unsigned lexicographic order of byte strings (memcmp, then length). */
  ghost predicate LexLess(a: seq<Byte>, b: seq<Byte>) {
    (exists i :: FirstDifferenceAt(a, b, i)) || ProperPrefix(a, b)
  }

  ghost predicate LexLessEq(a: seq<Byte>, b: seq<Byte>) {
    a == b || LexLess(a, b)
  }

  /** A first difference survives anything appended after it. */
  lemma DifferenceExtends(a: seq<Byte>, b: seq<Byte>, x: seq<Byte>, y: seq<Byte>, i: nat)
    requires FirstDifferenceAt(a, b, i)
    ensures FirstDifferenceAt(a + x, b + y, i)
  {
    assert (a + x)[..i] == a[..i];
    assert (b + y)[..i] == b[..i];
  }

  /** A first difference moves right past a common prefix. */
  lemma DifferenceShifts(p: seq<Byte>, a: seq<Byte>, b: seq<Byte>, i: nat)
    requires FirstDifferenceAt(a, b, i)
    ensures FirstDifferenceAt(p + a, p + b, |p| + i)
  {
    assert (p + a)[..|p| + i] == p + a[..i];
    assert (p + b)[..|p| + i] == p + b[..i];
  }

  /** Big-endian encoding is monotone: a smaller number gets a string that
      sorts strictly before, at a position inside both. */
  lemma {:induction false} BigEndianOrderAt(n: nat, m: nat, k: nat) returns (i: nat)
    requires n < m < Pow256(k)
    ensures FirstDifferenceAt(ToBigEndian(n, k), ToBigEndian(m, k), i)
  {
    var a, b := ToBigEndian(n, k), ToBigEndian(m, k);
    var a', b' := ToBigEndian(n / 256, k - 1), ToBigEndian(m / 256, k - 1);
    assert a == a' + [n % 256] && b == b' + [m % 256];
    if n / 256 < m / 256 {
      i := BigEndianOrderAt(n / 256, m / 256, k - 1);
      DifferenceExtends(a', b', [n % 256], [m % 256], i);
    } else {
      assert a' == b';
      i := k - 1;
      assert a[..i] == a' && b[..i] == b';
    }
  }
}
