/**
 * Bytes and little-endian integers: the byte order both the C# BitConverter
 * calls (on the x86 hosts the system runs on) and the Python `int.from_bytes`
 * / `int.to_bytes(..., byteorder="little")` calls use.
 */
module Bytes {

  type byte = x: int | 0 <= x < 256

  /** 256^n */
  function Pow256(n: nat): (r: nat)
    ensures r >= 1
    ensures n >= 1 ==> r >= 256
  {
    if n == 0 then 1 else 256 * Pow256(n - 1)
  }

  lemma Pow256Values()
    ensures Pow256(1) == 0x100
    ensures Pow256(4) == 0x1_0000_0000
    ensures Pow256(8) == 0x1_0000_0000_0000_0000
  {
  }

  /** Half of 256^n: the bound of an n-byte two's-complement integer. */
  function Half(n: nat): int
  {
    Pow256(n) / 2
  }

  lemma HalfTwice(n: nat)
    requires n >= 1
    ensures Pow256(n) == 2 * Half(n) && Half(n) >= 128
  {
    assert Pow256(n) == 2 * (128 * Pow256(n - 1));
  }

  const Two31: int := 0x8000_0000
  const Two32: int := 0x1_0000_0000
  const Two63: int := 0x8000_0000_0000_0000

  /** A .NET `byte[]`: its `Length` is an `int`, so it holds fewer than 2^31 bytes. */
  type ByteArray = s: seq<byte> | |s| < Two31

  /** A C# `int` / Python value accepted by `int.to_bytes(4, signed=True)`. */
  type int32 = x: int | -Two31 <= x < Two31
  /** C# `int` arithmetic in an unchecked context: the result wraps around modulo 2^32. */
  function Wrap32(x: int): (r: int32)
    ensures (r - x) % Two32 == 0
    ensures -Two31 <= x < Two31 ==> r == x
  {
    var m := x % Two32;
    if m >= Two31 then m - Two32 else m
  }

  /** A C# `long`. */
  type int64 = x: int | -Two63 <= x < Two63
  /** The bit pattern of a C# `float` (IEEE-754 binary32); only copied, never computed on. */
  type float32 = x: nat | x < 0x1_0000_0000
  /** The bit pattern of a C# `double` / Python float (IEEE-754 binary64). */
  type float64 = x: nat | x < 0x1_0000_0000_0000_0000

  /** The n low-order bytes of u, least significant first. */
  function EncodeLE(u: nat, n: nat): (r: seq<byte>)
    ensures |r| == n
  {
    if n == 0 then [] else [u % 256] + EncodeLE(u / 256, n - 1)
  }

  /** The unsigned value of a little-endian byte string. */
  function DecodeLE(bs: seq<byte>): (r: nat)
    ensures r < Pow256(|bs|)
  {
    if |bs| == 0 then 0 else bs[0] + 256 * DecodeLE(bs[1..])
  }

  lemma {:induction false} DecodeEncodeLE(u: nat, n: nat)
    requires u < Pow256(n)
    ensures DecodeLE(EncodeLE(u, n)) == u
  {
    if n > 0 {
      var e := EncodeLE(u, n);
      assert e[1..] == EncodeLE(u / 256, n - 1);
      DecodeEncodeLE(u / 256, n - 1);
    }
  }

  lemma {:induction false} EncodeDecodeLE(bs: seq<byte>)
    ensures EncodeLE(DecodeLE(bs), |bs|) == bs
  {
    if |bs| > 0 {
      var u := DecodeLE(bs);
      assert u % 256 == bs[0] && u / 256 == DecodeLE(bs[1..]);
      EncodeDecodeLE(bs[1..]);
    }
  }

  /** Two's-complement bytes of v in n bytes. */
  function TwosLE(v: int, n: nat): (r: seq<byte>)
    requires n >= 1 && -Half(n) <= v < Half(n)
    ensures |r| == n
  {
    EncodeLE(if v < 0 then v + Pow256(n) else v, n)
  }

  /**
   * Python's `int.from_bytes(bs, "little", signed=True)` for a byte string of
   * any length (0 for the empty string); for four bytes it is also C#'s
   * `BitConverter.ToInt32` and for eight `ToInt64`.
   */
  function SignedLE(bs: seq<byte>): (r: int)
    ensures |bs| >= 1 ==> -Half(|bs|) <= r < Half(|bs|)
    ensures |bs| == 0 ==> r == 0
  {
    var u := DecodeLE(bs);
    if |bs| > 0 && u >= Half(|bs|) then HalfTwice(|bs|); u - Pow256(|bs|) else u
  }

  lemma SignedTwos(v: int, n: nat)
    requires n >= 1 && -Half(n) <= v < Half(n)
    ensures SignedLE(TwosLE(v, n)) == v
  {
    DecodeEncodeLE(if v < 0 then v + Pow256(n) else v, n);
  }

  lemma TwosSigned(bs: seq<byte>)
    requires |bs| >= 1
    ensures TwosLE(SignedLE(bs), |bs|) == bs
  {
    EncodeDecodeLE(bs);
  }

  function Int32Bytes(v: int32): (r: seq<byte>)
    ensures |r| == 4
  {
    Pow256Values();
    TwosLE(v, 4)
  }

  function Int32Of(bs: seq<byte>): (r: int32)
    requires |bs| == 4
  {
    Pow256Values();
    SignedLE(bs)
  }

  function Int64Bytes(v: int64): (r: seq<byte>)
    ensures |r| == 8
  {
    Pow256Values();
    TwosLE(v, 8)
  }

  function Int64Of(bs: seq<byte>): (r: int64)
    requires |bs| == 8
  {
    Pow256Values();
    SignedLE(bs)
  }

  function Float32Bytes(f: float32): (r: seq<byte>)
    ensures |r| == 4
  {
    EncodeLE(f, 4)
  }

  function Float32Of(bs: seq<byte>): (r: float32)
    requires |bs| == 4
  {
    Pow256Values();
    DecodeLE(bs)
  }

  function Float64Bytes(f: float64): (r: seq<byte>)
    ensures |r| == 8
  {
    EncodeLE(f, 8)
  }

  function Float64Of(bs: seq<byte>): (r: float64)
    requires |bs| == 8
  {
    Pow256Values();
    DecodeLE(bs)
  }

  lemma Int32RoundTrip(v: int32)
    ensures Int32Of(Int32Bytes(v)) == v
  {
    Pow256Values();
    SignedTwos(v, 4);
  }

  lemma Int32BytesRoundTrip(bs: seq<byte>)
    requires |bs| == 4
    ensures Int32Bytes(Int32Of(bs)) == bs
  {
    Pow256Values();
    TwosSigned(bs);
  }

  lemma Int64RoundTrip(v: int64)
    ensures Int64Of(Int64Bytes(v)) == v
  {
    Pow256Values();
    SignedTwos(v, 8);
  }

  lemma Float32RoundTrip(f: float32)
    ensures Float32Of(Float32Bytes(f)) == f
  {
    Pow256Values();
    DecodeEncodeLE(f, 4);
  }

  lemma Float64RoundTrip(f: float64)
    ensures Float64Of(Float64Bytes(f)) == f
  {
    Pow256Values();
    DecodeEncodeLE(f, 8);
  }

  /** `bs` copied over `buf` starting at `at`; every other element kept (`CopyTo`, `Array.Copy`). */
  function Splice<T>(buf: seq<T>, at: nat, bs: seq<T>): (r: seq<T>)
    requires at + |bs| <= |buf|
    ensures |r| == |buf|
    ensures r[at..at + |bs|] == bs
    ensures forall k :: 0 <= k < |buf| && !(at <= k < at + |bs|) ==> r[k] == buf[k]
  {
    buf[..at] + bs + buf[at + |bs|..]
  }

  /** A slice of a spliced region is the same slice of what was spliced in. */
  lemma SpliceSlice(buf: seq<byte>, at: nat, bs: seq<byte>, lo: nat, hi: nat)
    requires at + |bs| <= |buf| && lo <= hi <= |bs|
    ensures Splice(buf, at, bs)[at + lo..at + hi] == bs[lo..hi]
  {
    var r := Splice(buf, at, bs);
    assert r[at + lo..at + hi] == r[at..at + |bs|][lo..hi];
  }

  /** A slice of the second part of a concatenation. */
  lemma AppendSlice(x: seq<byte>, y: seq<byte>, n: nat, lo: nat, hi: nat)
    requires |x| == n && lo <= hi <= |y|
    ensures (x + y)[n + lo..n + hi] == y[lo..hi]
  {
  }

  /** A prefix reaching past the first part of a concatenation. */
  lemma AppendPrefix(x: seq<byte>, y: seq<byte>, n: nat, e: nat)
    requires |x| == n && e <= |y|
    ensures (x + y)[..n + e] == x + y[..e]
  {
  }

  /** Writing a then b right after it is writing a + b. */
  lemma SpliceTwice(buf: seq<byte>, at: nat, a: seq<byte>, b: seq<byte>)
    requires at + |a| + |b| <= |buf|
    ensures Splice(Splice(buf, at, a), at + |a|, b) == Splice(buf, at, a + b)
  {
    var lhs := Splice(Splice(buf, at, a), at + |a|, b);
    var rhs := Splice(buf, at, a + b);
    assert forall k :: 0 <= k < |buf| ==> lhs[k] == rhs[k] by {
      forall k | 0 <= k < |buf|
        ensures lhs[k] == rhs[k]
      {
        if at <= k < at + |a| {
          assert Splice(buf, at, a)[k] == Splice(buf, at, a)[at..at + |a|][k - at];
          assert rhs[k] == rhs[at..at + |a| + |b|][k - at];
        } else if at + |a| <= k < at + |a| + |b| {
          assert lhs[k] == lhs[at + |a|..at + |a| + |b|][k - at - |a|];
          assert rhs[k] == rhs[at..at + |a| + |b|][k - at];
        }
      }
    }
  }

  /** The concatenation of a list of byte strings, in order. */
  function Concat(parts: seq<seq<byte>>): (r: seq<byte>)
  {
    if |parts| == 0 then [] else parts[0] + Concat(parts[1..])
  }

  function TotalLength(parts: seq<seq<byte>>): nat
  {
    if |parts| == 0 then 0 else |parts[0]| + TotalLength(parts[1..])
  }

  lemma {:induction false} ConcatLength(parts: seq<seq<byte>>)
    ensures |Concat(parts)| == TotalLength(parts)
  {
    if |parts| > 0 {
      ConcatLength(parts[1..]);
    }
  }

  lemma {:induction false} ConcatAppend(parts: seq<seq<byte>>, last: seq<byte>)
    ensures Concat(parts + [last]) == Concat(parts) + last
  {
    if |parts| == 0 {
      assert parts + [last] == [last];
    } else {
      assert (parts + [last])[1..] == parts[1..] + [last];
      ConcatAppend(parts[1..], last);
    }
  }
}
