/**
  Bytes, 64-bit unsigned integers and their byte encodings.

  The source reinterprets raw memory as `uint64_t`, so an integer field of
  the wire format is host byte order. The wire format fixes little-endian,
  which is what `EncodeU64`/`DecodeU64` use; the big-endian reading
  (`FromBE`) is only needed for the protocol sniff, which loads a whole word.
 */
module Bytes {

  type byte = b: int | 0 <= b < 256

  const U64_LIMIT: nat := 0x1_0000_0000_0000_0000

  type u64 = x: int | 0 <= x < 0x1_0000_0000_0000_0000

  /** Unsigned 64-bit addition as C++ performs it: wrapping modulo 2^64. */
  function AddU64(a: u64, b: nat): (r: u64)
    ensures a + b < U64_LIMIT ==> r == a + b
  {
    (a + b) % U64_LIMIT
  }

  /** Unsigned 64-bit multiplication as C++ performs it: wrapping modulo 2^64. */
  function MulU64(a: u64, b: nat): (r: u64)
    ensures a * b < U64_LIMIT ==> r == a * b
  {
    (a * b) % U64_LIMIT
  }

  function Pow256(n: nat): (r: nat)
    ensures r >= 1
  {
    if n == 0 then 1 else 256 * Pow256(n - 1)
  }

  /** The value of `s` read least-significant byte first. */
  function FromLE(s: seq<byte>): nat
  {
    if |s| == 0 then 0 else s[0] + 256 * FromLE(s[1..])
  }

  /** The value of `s` read most-significant byte first. */
  function FromBE(s: seq<byte>): nat
  {
    if |s| == 0 then 0 else 256 * FromBE(s[..|s| - 1]) + s[|s| - 1]
  }

  /** The low `n` bytes of `v`, least-significant first. */
  function ToLE(v: nat, n: nat): (r: seq<byte>)
    ensures |r| == n
  {
    if n == 0 then [] else [v % 256] + ToLE(v / 256, n - 1)
  }

  lemma {:induction false} FromLEBound(s: seq<byte>)
    ensures FromLE(s) < Pow256(|s|)
  {
    if |s| > 0 {
      FromLEBound(s[1..]);
    }
  }

  lemma {:induction false} FromToLE(v: nat, n: nat)
    requires v < Pow256(n)
    ensures FromLE(ToLE(v, n)) == v
  {
    if n > 0 {
      FromToLE(v / 256, n - 1);
      assert ToLE(v, n)[1..] == ToLE(v / 256, n - 1);
    }
  }

  lemma {:induction false} ToFromLE(s: seq<byte>)
    ensures ToLE(FromLE(s), |s|) == s
  {
    if |s| > 0 {
      ToFromLE(s[1..]);
      var v := FromLE(s);
      assert v % 256 == s[0] && v / 256 == FromLE(s[1..]);
    }
  }

  /** Two byte strings of one length with the same little-endian value are equal. */
  lemma FromLEInjective(a: seq<byte>, b: seq<byte>)
    requires |a| == |b| && FromLE(a) == FromLE(b)
    ensures a == b
  {
    ToFromLE(a);
    ToFromLE(b);
  }

  /** A byte below a multiple of 256 is recovered by `%` and the multiple by `/`. */
  lemma SplitLowByte(hi: nat, lo: byte)
    ensures (256 * hi + lo) % 256 == lo && (256 * hi + lo) / 256 == hi
  {
  }

  /** Two byte strings of one length with the same big-endian value are equal. */
  lemma {:induction false} FromBEInjective(a: seq<byte>, b: seq<byte>)
    requires |a| == |b| && FromBE(a) == FromBE(b)
    ensures a == b
  {
    if |a| > 0 {
      var n := |a| - 1;
      SplitLowByte(FromBE(a[..n]), a[n]);
      SplitLowByte(FromBE(b[..n]), b[n]);
      FromBEInjective(a[..n], b[..n]);
      assert a == a[..n] + [a[n]] && b == b[..n] + [b[n]];
    }
  }

  lemma U64LimitIsPow256()
    ensures Pow256(8) == U64_LIMIT
  {
  }

  /** The 8 bytes a `uint64_t` occupies in memory. */
  function EncodeU64(v: u64): (r: seq<byte>)
    ensures |r| == 8
    ensures FromLE(r) == v
  {
    U64LimitIsPow256();
    FromToLE(v, 8);
    ToLE(v, 8)
  }

  /** The `uint64_t` stored in 8 bytes of memory. */
  function DecodeU64(s: seq<byte>): (r: u64)
    requires |s| == 8
    ensures EncodeU64(r) == s
  {
    FromLEBound(s);
    U64LimitIsPow256();
    ToFromLE(s);
    FromLE(s)
  }

  lemma U64RoundTrip(v: u64)
    ensures DecodeU64(EncodeU64(v)) == v
  {
    var s := EncodeU64(v);
    FromLEInjective(EncodeU64(DecodeU64(s)), s);
  }

  /**
    `src` copied over `buf` starting at `at`, as `memcpy` into a buffer does;
    every byte outside the copied range keeps its value.
   */
  function Overwrite(buf: seq<byte>, at: nat, src: seq<byte>): (r: seq<byte>)
    requires at + |src| <= |buf|
    ensures |r| == |buf|
    ensures r[at..at + |src|] == src
    ensures forall i | 0 <= i < |buf| && !(at <= i < at + |src|) :: r[i] == buf[i]
  {
    buf[..at] + src + buf[at + |src|..]
  }
}
