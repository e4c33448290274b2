/** Machine integers and their little-endian byte forms.

    Integers are kept as mathematical integers with their range in the type.
    An `f64` is carried as its 64-bit pattern; its IEEE-754 order is in module Floats. */
module Bytes {

  const TWO_32: int := 0x1_0000_0000
  const TWO_63: int := 0x8000_0000_0000_0000
  const TWO_64: int := 0x1_0000_0000_0000_0000

  type byte = x: int | 0 <= x < 256
  type u32 = x: int | 0 <= x < TWO_32
  type u64 = x: int | 0 <= x < TWO_64
  type i64 = x: int | -TWO_63 <= x < TWO_63

  /** 256 to the power k. */
  function Pow256(k: nat): (p: nat)
    ensures p > 0
  {
    if k == 0 then 1 else 256 * Pow256(k - 1)
  }

  lemma Pow256Values()
    ensures Pow256(4) == TWO_32 && Pow256(8) == TWO_64
  {
    assert Pow256(2) == 65536;
    assert Pow256(4) == 65536 * 65536 by { assert Pow256(3) == 256 * Pow256(2); }
    assert Pow256(6) == 65536 * Pow256(4) by { assert Pow256(5) == 256 * Pow256(4); }
    assert Pow256(8) == 65536 * Pow256(6) by { assert Pow256(7) == 256 * Pow256(6); }
  }

  /** The k low-order bytes of n, least significant first. */
  function LeBytes(n: nat, k: nat): (bytes: seq<byte>)
    ensures |bytes| == k
  {
    if k == 0 then [] else [n % 256] + LeBytes(n / 256, k - 1)
  }

  /** The number a little-endian byte string stands for. */
  function LeValue(bytes: seq<byte>): nat {
    if bytes == [] then 0 else bytes[0] + 256 * LeValue(bytes[1..])
  }

  lemma {:induction false} LeBytesThenValue(n: nat, k: nat)
    requires n < Pow256(k)
    ensures LeValue(LeBytes(n, k)) == n
  {
    if k > 0 {
      LeBytesThenValue(n / 256, k - 1);
      assert LeBytes(n, k)[1..] == LeBytes(n / 256, k - 1);
    }
  }

  lemma {:induction false} LeValueThenBytes(bytes: seq<byte>)
    ensures LeValue(bytes) < Pow256(|bytes|)
    ensures LeBytes(LeValue(bytes), |bytes|) == bytes
  {
    if bytes != [] {
      LeValueThenBytes(bytes[1..]);
      assert LeValue(bytes) / 256 == LeValue(bytes[1..]);
      assert LeValue(bytes) % 256 == bytes[0];
    }
  }

  /** A number below 2^30 leaves the fourth byte below 64 and every later one zero. */
  lemma HighBytesOfSmall(n: nat, k: nat)
    requires 4 <= k && n < 0x4000_0000
    ensures LeBytes(n, k)[3] < 0x40
    ensures forall i :: 4 <= i < k ==> LeBytes(n, k)[i] == 0
  {
    var a := LeBytes(n / 256, k - 1);
    var b := LeBytes(n / 256 / 256, k - 2);
    var c := LeBytes(n / 256 / 256 / 256, k - 3);
    var top := n / 256 / 256 / 256;
    assert top < 0x40 && top % 256 == top && top / 256 == 0;
    assert LeBytes(n, k)[3] == a[2] == b[1] == c[0] == top;
    ZeroBytes(k - 4);
    forall i | 4 <= i < k
      ensures LeBytes(n, k)[i] == 0
    {
      assert LeBytes(n, k)[i] == a[i - 1] == b[i - 2] == c[i - 3] == LeBytes(0, k - 4)[i - 4];
    }
  }

  lemma {:induction false} ZeroBytes(k: nat)
    ensures forall i :: 0 <= i < k ==> LeBytes(0, k)[i] == 0
  {
    if k > 0 {
      ZeroBytes(k - 1);
    }
  }

  /** `u32::to_le_bytes` */
  function U32ToLe(n: u32): (bytes: seq<byte>)
    ensures |bytes| == 4
  {
    LeBytes(n, 4)
  }

  /** `u32::from_le_bytes` */
  function U32FromLe(bytes: seq<byte>): u32
    requires |bytes| == 4
  {
    Pow256Values();
    LeValueThenBytes(bytes);
    LeValue(bytes)
  }

  /** `u64::to_le_bytes` */
  function U64ToLe(n: u64): (bytes: seq<byte>)
    ensures |bytes| == 8
  {
    LeBytes(n, 8)
  }

  /** `u64::from_le_bytes` */
  function U64FromLe(bytes: seq<byte>): u64
    requires |bytes| == 8
  {
    Pow256Values();
    LeValueThenBytes(bytes);
    LeValue(bytes)
  }

  /** Two's complement pattern of a signed 64-bit integer. */
  function I64Bits(v: i64): u64 {
    if v < 0 then v + TWO_64 else v
  }

  function I64FromBits(u: u64): i64 {
    if u >= TWO_63 then u - TWO_64 else u
  }

  /** `i64::to_le_bytes` */
  function I64ToLe(v: i64): (bytes: seq<byte>)
    ensures |bytes| == 8
  {
    U64ToLe(I64Bits(v))
  }

  /** `i64::from_le_bytes` */
  function I64FromLe(bytes: seq<byte>): i64
    requires |bytes| == 8
  {
    I64FromBits(U64FromLe(bytes))
  }

  lemma U32RoundTrip(n: u32)
    ensures U32FromLe(U32ToLe(n)) == n
  {
    Pow256Values();
    LeBytesThenValue(n, 4);
  }

  lemma U32BytesRoundTrip(bytes: seq<byte>)
    requires |bytes| == 4
    ensures U32ToLe(U32FromLe(bytes)) == bytes
  {
    LeValueThenBytes(bytes);
  }

  lemma U64RoundTrip(n: u64)
    ensures U64FromLe(U64ToLe(n)) == n
  {
    Pow256Values();
    LeBytesThenValue(n, 8);
  }

  lemma U64BytesRoundTrip(bytes: seq<byte>)
    requires |bytes| == 8
    ensures U64ToLe(U64FromLe(bytes)) == bytes
  {
    LeValueThenBytes(bytes);
  }

  lemma I64RoundTrip(v: i64)
    ensures I64FromLe(I64ToLe(v)) == v
  {
    U64RoundTrip(I64Bits(v));
  }

  lemma I64BytesRoundTrip(bytes: seq<byte>)
    requires |bytes| == 8
    ensures I64ToLe(I64FromLe(bytes)) == bytes
  {
    U64BytesRoundTrip(bytes);
  }
}
