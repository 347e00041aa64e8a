/**
 * The bit packing around the MATLAB tactile codec of the compression
 * service. The encoder packs the codec's bit list into bytes, eight bits per
 * byte, most significant bit first; the decoder unpacks each byte (received
 * as a signed char) back into eight bits and keeps the first `l`, where `l`
 * is the bit count the encoder sent along.
 *
 * As written, the encoder converts a final group of fewer than eight bits
 * as a number of its own — right-aligned in its byte — while the decoder
 * reads every byte left-aligned, so a bit list whose length is not a
 * multiple of 8 does not come back. `MergeAsWritten` is that code;
 * `Merge` pads the last group on the right, which the decoder inverts for
 * every bit list.
 */
module BitPacking {
  import opened Bytes
  import opened SeqUtil
  import PS = PySerializer

  type bit = b: int | 0 <= b <= 1

  function Pow2(n: nat): (r: nat)
    ensures r >= 1
  {
    if n == 0 then 1 else 2 * Pow2(n - 1)
  }

  lemma {:induction false} Pow2AtMost8(n: nat)
    requires n <= 8
    ensures Pow2(n) <= 256
    decreases 8 - n
  {
    if n < 8 {
      Pow2AtMost8(n + 1);
    } else {
      assert Pow2(8) == 256;
    }
  }

  /** Python's `int(s, 2)` of a string of binary digits, most significant first. */
  function BinaryValue(bits: seq<bit>): (v: nat)
    ensures v < Pow2(|bits|)
  {
    if |bits| == 0 then 0 else 2 * BinaryValue(bits[..|bits| - 1]) + bits[|bits| - 1]
  }

  /** Python's `bin(v)[2:].zfill(n)` for v < 2^n: the n binary digits of v, most significant first. */
  function BitsOf(v: nat, n: nat): (bits: seq<bit>)
    ensures |bits| == n
  {
    if n == 0 then [] else BitsOf(v / 2, n - 1) + [v % 2]
  }

  lemma {:induction false} ValueOfBits(v: nat, n: nat)
    requires v < Pow2(n)
    ensures BinaryValue(BitsOf(v, n)) == v
  {
    if n > 0 {
      ValueOfBits(v / 2, n - 1);
      var bits := BitsOf(v, n);
      assert bits[..n - 1] == BitsOf(v / 2, n - 1);
    }
  }

  lemma {:induction false} BitsOfValue(bits: seq<bit>)
    ensures BitsOf(BinaryValue(bits), |bits|) == bits
  {
    if |bits| > 0 {
      var n := |bits|;
      var v := BinaryValue(bits);
      assert v / 2 == BinaryValue(bits[..n - 1]) && v % 2 == bits[n - 1];
      BitsOfValue(bits[..n - 1]);
      assert bits == bits[..n - 1] + [bits[n - 1]];
    }
  }

  /** One group of at most 8 bits read as a binary number, as the encoder does. */
  function GroupValue(g: seq<bit>): (v: byte)
    requires |g| <= 8
    ensures v == BinaryValue(g)
  {
    Pow2AtMost8(|g|);
    BinaryValue(g)
  }

  /** The group of bits starting the list: its first 8, or all when fewer remain. */
  function Group(bits: seq<bit>): (g: seq<bit>)
    ensures |g| == if |bits| <= 8 then |bits| else 8
    ensures g == bits[..|g|]
  {
    if |bits| <= 8 then bits else bits[..8]
  }

  /** `merge_binary_to_decimal`, as written: each group of 8 converted on its own. */
  function MergeAsWritten(bits: seq<bit>): (r: seq<byte>)
    ensures |r| == (|bits| + 7) / 8
    decreases |bits|
  {
    if |bits| == 0 then [] else [GroupValue(Group(bits))] + MergeAsWritten(bits[|Group(bits)|..])
  }

  /** The corrected packing: the last group is padded with zero bits on the right. */
  function Merge(bits: seq<bit>): (r: seq<byte>)
    ensures |r| == (|bits| + 7) / 8
    decreases |bits|
  {
    if |bits| == 0 then []
    else
      var g := Group(bits);
      [GroupValue(g + Fill(8 - |g|, 0))] + Merge(bits[|g|..])
  }

  /** `struct.unpack("b")`: a byte read as a signed char. */
  function SignedOf(b: byte): (num: int)
    ensures -128 <= num < 128 && num % 256 == b % 256
  {
    if b < 128 then b else b - 256
  }

  /** `(num + 256) % 256` for a signed char: the byte again. */
  function UnsignedOf(num: int): (b: byte)
    requires -128 <= num < 128
    ensures b % 256 == num % 256
  {
    (num + 256) % 256
  }

  lemma UnsignedSigned(b: byte)
    ensures UnsignedOf(SignedOf(b)) == b
  {
  }

  /** `decode_py`'s expansion of every byte into 8 bits, most significant first. */
  function Expand(codes: seq<byte>): (bits: seq<bit>)
    ensures |bits| == 8 * |codes|
  {
    if |codes| == 0 then [] else BitsOf(UnsignedOf(SignedOf(codes[0])), 8) + Expand(codes[1..])
  }

  lemma ExpandCons(b: byte, codes: seq<byte>)
    ensures Expand([b] + codes) == BitsOf(b, 8) + Expand(codes)
  {
    UnsignedSigned(b);
    assert ([b] + codes)[1..] == codes;
  }

  /** `decode_py`'s bit list: the expansion cut to `flattened[:l]`. */
  function Unpack(codes: seq<byte>, l: int): (bits: seq<bit>)
    ensures 0 <= l <= 8 * |codes| ==> |bits| == l
  {
    var e := Expand(codes);
    e[..PS.SliceBound(l, |e|)]
  }

  /** The number of zero bits that complete a list to whole bytes. */
  function Padding(n: nat): (p: nat)
    ensures p < 8 && (n + p) % 8 == 0
  {
    (8 - n % 8) % 8
  }

  /** The first byte of the corrected packing expands to the first group, padded. */
  lemma ExpandMergeStep(bits: seq<bit>)
    requires |bits| > 0
    ensures var g := Group(bits);
            Expand(Merge(bits)) == g + Fill(8 - |g|, 0) + Expand(Merge(bits[|g|..]))
  {
    var g := Group(bits);
    var padded := g + Fill(8 - |g|, 0);
    ExpandCons(GroupValue(padded), Merge(bits[|g|..]));
    BitsOfValue(padded);
  }

  /** A full group expands back to itself, ahead of the rest. */
  lemma ExpandMergeFull(bits: seq<bit>)
    requires |bits| > 8
    ensures Expand(Merge(bits)) == bits[..8] + Expand(Merge(bits[8..]))
  {
    ExpandMergeStep(bits);
    assert Group(bits) + Fill(0, 0) == bits[..8];
  }

  /** The last group expands to itself and its padding. */
  lemma {:induction false} ExpandMergeLast(bits: seq<bit>)
    requires 0 < |bits| <= 8
    ensures Expand(Merge(bits)) == bits + Fill(Padding(|bits|), 0)
  {
    ExpandMergeStep(bits);
    assert Merge(bits[|bits|..]) == [];
    PaddingLast(|bits|);
  }

  lemma PaddingLast(n: nat)
    requires 0 < n <= 8
    ensures Padding(n) == 8 - n
  {
    if n < 8 {
      assert n % 8 == n;
    }
  }

  lemma WholeBytesStep(n: nat)
    requires n > 0 && n % 8 == 0
    ensures n >= 8 && (n - 8) % 8 == 0
  {
  }

  lemma PaddingShift(n: nat)
    requires n >= 8
    ensures Padding(n - 8) == Padding(n)
  {
    assert (n - 8) % 8 == n % 8;
  }

  lemma {:induction false} ExpandMerge(bits: seq<bit>)
    ensures Expand(Merge(bits)) == bits + Fill(Padding(|bits|), 0)
    decreases |bits|
  {
    if 0 < |bits| <= 8 {
      ExpandMergeLast(bits);
    } else if |bits| > 8 {
      ExpandMergeFull(bits);
      ExpandMerge(bits[8..]);
      PaddingShift(|bits|);
      assert bits == bits[..8] + bits[8..];
    }
  }

  /** The corrected packing round-trips every bit list through the decoder. */
  lemma {:induction false} MergeRoundTrip(bits: seq<bit>)
    ensures Unpack(Merge(bits), |bits|) == bits
  {
    ExpandMerge(bits);
  }

  /** As written, a full group expands back to itself, ahead of the rest. */
  lemma ExpandMergeAsWrittenStep(bits: seq<bit>)
    requires |bits| >= 8
    ensures Expand(MergeAsWritten(bits)) == bits[..8] + Expand(MergeAsWritten(bits[8..]))
  {
    var g := Group(bits);
    ExpandCons(GroupValue(g), MergeAsWritten(bits[8..]));
    BitsOfValue(g);
  }

  lemma {:induction false} ExpandMergeAsWritten(bits: seq<bit>)
    requires |bits| % 8 == 0
    ensures Expand(MergeAsWritten(bits)) == bits
    decreases |bits|
  {
    if |bits| > 0 {
      WholeBytesStep(|bits|);
      ExpandMergeAsWrittenStep(bits);
      ExpandMergeAsWritten(bits[8..]);
      assert bits == bits[..8] + bits[8..];
    }
  }

  /** As written, the packing round-trips the lists of whole bytes. */
  lemma {:induction false} MergeAsWrittenWholeBytes(bits: seq<bit>)
    requires |bits| % 8 == 0
    ensures Unpack(MergeAsWritten(bits), |bits|) == bits
  {
    ExpandMergeAsWritten(bits);
  }

  /** ... and on whole bytes it agrees with the corrected packing. */
  lemma {:induction false} MergeAgreesOnWholeBytes(bits: seq<bit>)
    requires |bits| % 8 == 0
    ensures MergeAsWritten(bits) == Merge(bits)
    decreases |bits|
  {
    if |bits| > 0 {
      assert Group(bits) + Fill(0, 0) == Group(bits);
      MergeAgreesOnWholeBytes(bits[8..]);
    }
  }

  /** As written, the single bit [1] packs to the byte 1, which unpacks to [0]. */
  lemma MergeAsWrittenLosesShortGroup()
    ensures MergeAsWritten([1]) == [1]
    ensures Unpack(MergeAsWritten([1]), 1) == [0]
  {
    assert Group([1]) == [1];
    assert BinaryValue([1]) == 1;
    assert BitsOf(1, 8) == [0, 0, 0, 0, 0, 0, 0, 1];
    assert UnsignedOf(SignedOf(1)) == 1;
    assert Expand([1]) == BitsOf(1, 8);
  }
}
