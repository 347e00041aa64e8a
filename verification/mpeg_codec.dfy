/**
 * The MPEG haptic-codec variant of the tactile path. With compression the
 * server encodes each actuator's row with the native codec and frames the
 * blocks as
 *
 *   [count: int32] [length of block i: int32]* [block 0] [block 1] ...
 *
 * and the client parses the frame, decodes each block with the native codec
 * and copies the samples over the front of that actuator's cache row.
 * Without compression both sides use the raw float32 layout.
 *
 * The native `Encode` and `Decode` are parameters.
 */
module MpegCodec {
  import opened Wrappers
  import opened Bytes
  import opened SeqUtil
  import opened Series
  import WireCodec
  import EH = EncodeHelper
  import DH = DecodeHelper

  /** The exceptions the MPEG paths let escape. */
  datatype Error = IndexOutOfRange | Overflow | Argument

  // ---------------------------------------------------------------- framing

  /** Blocks whose count and lengths fit the int32 header fields. */
  ghost predicate Framable(blocks: seq<seq<byte>>)
  {
    |blocks| < Two31 && forall i :: 0 <= i < |blocks| ==> |blocks[i]| < Two31
  }

  function LengthWords(blocks: seq<seq<byte>>): (ws: seq<seq<byte>>)
    requires Framable(blocks)
    ensures |ws| == |blocks| && Words(ws)
    ensures forall i :: 0 <= i < |blocks| ==> ws[i] == Int32Bytes(|blocks[i]|)
  {
    seq(|blocks|, i requires 0 <= i < |blocks| => Int32Bytes(|blocks[i]|))
  }

  /** The header: the block count, then each block's length. */
  function Header(blocks: seq<seq<byte>>): (h: seq<byte>)
    requires Framable(blocks)
    ensures |h| == 4 * (1 + |blocks|)
  {
    Int32Bytes(|blocks|) + Flatten(LengthWords(blocks))
  }

  /** The compressed server frame: the header, then the blocks back to back. */
  function Frame(blocks: seq<seq<byte>>): (r: seq<byte>)
    requires Framable(blocks)
    ensures |r| == 4 * (1 + |blocks|) + TotalLength(blocks)
    ensures r[..4] == Int32Bytes(|blocks|)
    ensures forall i :: 0 <= i < |blocks| ==> r[4 + 4 * i..8 + 4 * i] == Int32Bytes(|blocks[i]|)
  {
    ConcatLength(blocks);
    var r := Header(blocks) + Concat(blocks);
    forall i | 0 <= i < |blocks|
      ensures r[4 + 4 * i..8 + 4 * i] == Int32Bytes(|blocks[i]|)
    {
      FlattenWord(LengthWords(blocks), i);
      assert r[4 + 4 * i..8 + 4 * i] == Flatten(LengthWords(blocks))[4 * i..4 * i + 4];
    }
    r
  }

  /** The compressed `EncodeAsync`: each row through the native encoder, then framed; the length is the frame's. */
  function EncodeCompressed(caches: seq<seq<real>>, encode: seq<real> -> seq<byte>): (r: (seq<byte>, int))
    requires Framable(seq(|caches|, i requires 0 <= i < |caches| => encode(caches[i])))
    ensures r.0 == Frame(seq(|caches|, i requires 0 <= i < |caches| => encode(caches[i]))) && r.1 == |r.0|
  {
    var f := Frame(seq(|caches|, i requires 0 <= i < |caches| => encode(caches[i])));
    (f, |f|)
  }

  /**
   * The uncompressed `EncodeAsync`: a fresh buffer sized from the first row,
   * filled row-major with float32s. Without rows, reading the first row's
   * length throws; a row longer than the first overruns the buffer.
   */
  function EncodeRaw(caches: seq<seq<real>>, bits: real -> float32): (r: Result<(seq<byte>, int), WireCodec.Error>)
    ensures |caches| == 0 ==> r == Failure(WireCodec.IndexOutOfRange)
    ensures forall width :: Uniform(caches, width) && |caches| > 0 ==>
              r == Success((Flatten(EH.FloatWords(caches, bits)), 4 * (|caches| * width)))
  {
    if |caches| == 0 then Failure(WireCodec.IndexOutOfRange)
    else
      var totalSize := |caches| * |caches[0]| * 4;
      var ws := EH.FloatWords(caches, bits);
      var s := WriteWords(Fill(totalSize, 0), 0, ws);
      assert forall width :: Uniform(caches, width) ==>
               s.result == Success(4 * (|caches| * width)) && s.buffer == Flatten(ws) by {
        forall width | Uniform(caches, width)
          ensures s.result == Success(4 * (|caches| * width)) && s.buffer == Flatten(ws)
        {
          FlattenRowsLength(caches, width);
          assert width == |caches[0]|;
          assert |Flatten(ws)| == totalSize;
          assert s.buffer == Splice(Fill(totalSize, 0), 0, Flatten(ws));
          assert s.buffer[0..totalSize] == Flatten(ws);
        }
      }
      match s.result
      case Failure(e) => Failure(e)
      case Success(index) => Success((s.buffer, index))
  }

  // ---------------------------------------------------------------- parsing

  /** The `n` block lengths from byte `index` on. */
  function ReadLengths(data: seq<byte>, index: nat, n: nat): (r: Result<seq<int32>, Error>)
    ensures r.Success? <==> n == 0 || index + 4 * n <= |data|
    ensures r.Failure? ==> r.error == IndexOutOfRange
    ensures r.Success? ==> |r.value| == n
    ensures r.Success? ==> forall i :: 0 <= i < n ==> r.value[i] == Int32Of(data[index + 4 * i..index + 4 * i + 4])
    decreases n
  {
    if n == 0 then Success([])
    else
      match WireCodec.ReadInt(data, index)
      case Failure(_) => Failure(IndexOutOfRange)
      case Success(read) =>
        match ReadLengths(data, index + 4, n - 1)
        case Failure(e) => Failure(e)
        case Success(rest) =>
          assert forall i :: 1 <= i < n ==> index + 4 * i == (index + 4) + 4 * (i - 1);
          Success([read.value] + rest)
  }

  /**
   * The block bodies from byte `index` on: a negative length fails allocating
   * the body array, a body past the end of the data fails the copy.
   */
  function ReadBodies(data: seq<byte>, index: nat, lengths: seq<int32>): (r: Result<seq<seq<byte>>, Error>)
    requires index <= |data|
    ensures r.Success? ==> |r.value| == |lengths|
    ensures r.Success? ==> forall i :: 0 <= i < |lengths| ==> |r.value[i]| == lengths[i]
    ensures (exists i :: 0 <= i < |lengths| && lengths[i] < 0) ==> r.Failure?
    ensures r.Success? ==> index + TotalLength(r.value) <= |data|
    decreases |lengths|
  {
    if |lengths| == 0 then Success([])
    else if lengths[0] < 0 then Failure(Overflow)
    else if index + lengths[0] > |data| then Failure(Argument)
    else
      match ReadBodies(data, index + lengths[0], lengths[1..])
      case Failure(e) => Failure(e)
      case Success(rest) =>
        var body := data[index..index + lengths[0]];
        assert forall i :: 1 <= i < |lengths| ==> lengths[i] == lengths[1..][i - 1];
        assert ([body] + rest)[1..] == rest;
        Success([body] + rest)
  }

  /** The framing half of the compressed `Decode`: count, lengths, bodies. */
  function Parse(data: seq<byte>): (r: Result<seq<seq<byte>>, Error>)
    ensures |data| < 4 ==> r == Failure(IndexOutOfRange)
    ensures |data| >= 4 && Int32Of(data[..4]) < 0 ==> r == Failure(Overflow)
    ensures r.Success? ==> |data| >= 4 && |r.value| == Int32Of(data[..4])
  {
    match WireCodec.ReadInt(data, 0)
    case Failure(_) => Failure(IndexOutOfRange)
    case Success(read) =>
      assert read.value == Int32Of(data[..4]) by { assert data[0..4] == data[..4]; }
      if read.value < 0 then Failure(Overflow)
      else
        var lengths :- ReadLengths(data, 4, read.value);
        ReadBodies(data, 4 + 4 * read.value, lengths)
  }

  /** The length of every block, as the frame header lists them. */
  function BlockLengths(blocks: seq<seq<byte>>): (r: seq<int32>)
    requires Framable(blocks)
    ensures |r| == |blocks| && forall i :: 0 <= i < |blocks| ==> r[i] as int == |blocks[i]|
  {
    seq(|blocks|, i requires 0 <= i < |blocks| => |blocks[i]| as int32)
  }

  lemma {:induction false} LengthsOfFrame(pre: seq<byte>, blocks: seq<seq<byte>>, post: seq<byte>)
    requires Framable(blocks)
    ensures ReadLengths(pre + Flatten(LengthWords(blocks)) + post, |pre|, |blocks|)
            == Success(BlockLengths(blocks))
    decreases |blocks|
  {
    var data := pre + Flatten(LengthWords(blocks)) + post;
    var r := ReadLengths(data, |pre|, |blocks|);
    assert r.Success?;
    forall i | 0 <= i < |blocks|
      ensures r.value[i] == |blocks[i]|
    {
      FlattenWord(LengthWords(blocks), i);
      assert data[|pre| + 4 * i..|pre| + 4 * i + 4] == Flatten(LengthWords(blocks))[4 * i..4 * i + 4];
      Int32RoundTrip(|blocks[i]|);
    }
    assert r.value == BlockLengths(blocks);
  }

  lemma {:induction false} BodiesOfFrame(pre: seq<byte>, blocks: seq<seq<byte>>, post: seq<byte>)
    requires Framable(blocks)
    ensures ReadBodies(pre + Concat(blocks) + post, |pre|, BlockLengths(blocks)) == Success(blocks)
    decreases |blocks|
  {
    if |blocks| > 0 {
      var lengths := BlockLengths(blocks);
      var pre1 := pre + blocks[0];
      var data := pre + Concat(blocks) + post;
      assert Concat(blocks) == blocks[0] + Concat(blocks[1..]);
      assert data == pre1 + Concat(blocks[1..]) + post;
      assert lengths[1..] == BlockLengths(blocks[1..]);
      BodiesOfFrame(pre1, blocks[1..], post);
      assert data[|pre|..|pre1|] == blocks[0];
      ReadBodiesStep(data, |pre|, |pre1|, lengths, blocks[0]);
      assert [blocks[0]] + blocks[1..] == blocks;
    }
  }

  /** A body that fits is cut out before the bodies after it. */
  lemma ReadBodiesStep(data: seq<byte>, index: nat, next: nat, lengths: seq<int32>, body: seq<byte>)
    requires |lengths| > 0 && 0 <= lengths[0] && next == index + lengths[0] as int && next <= |data|
    requires body == data[index..next] && ReadBodies(data, next, lengths[1..]).Success?
    ensures ReadBodies(data, index, lengths) == Success([body] + ReadBodies(data, next, lengths[1..]).value)
  {
  }

  /** The client parses exactly the blocks the server framed. */
  lemma ParseFrame(blocks: seq<seq<byte>>)
    requires Framable(blocks)
    ensures Parse(Frame(blocks)) == Success(blocks)
  {
    var data := Frame(blocks);
    var n := |blocks|;
    assert data[..4] == Int32Bytes(n);
    Int32RoundTrip(n);
    LengthsOfFrame(Int32Bytes(n), blocks, Concat(blocks));
    assert data == Int32Bytes(n) + Flatten(LengthWords(blocks)) + Concat(blocks);
    BodiesOfFrame(Int32Bytes(n) + Flatten(LengthWords(blocks)), blocks, []);
    assert data == Int32Bytes(n) + Flatten(LengthWords(blocks)) + Concat(blocks) + [];
  }

  // ---------------------------------------------------------------- decoding

  /** `Array.Copy(signals, 0, row, 0, |signals|)`, which throws instead when the row is too short. */
  function CopyFront(row: seq<real>, signals: seq<real>): (r: Option<seq<real>>)
    ensures r.Some? <==> |signals| <= |row|
    ensures r.Some? ==> |r.value| == |row| && r.value[..|signals|] == signals && r.value[|signals|..] == row[|signals|..]
  {
    if |signals| <= |row| then Some(signals + row[|signals|..]) else None
  }

  /** Every block from `i` on has a cache row that can take its decoded samples. */
  ghost predicate Fit(caches: seq<seq<real>>, blocks: seq<seq<byte>>, i: nat, decode: seq<byte> -> seq<real>)
    decreases |blocks| - i
  {
    i >= |blocks| || (i < |caches| && |decode(blocks[i])| <= |caches[i]| && Fit(caches, blocks, i + 1, decode))
  }

  /** Whether the rows fit depends only on the rows' lengths. */
  lemma {:induction false} FitByLengths(c1: seq<seq<real>>, c2: seq<seq<real>>, blocks: seq<seq<byte>>, i: nat,
                                        decode: seq<byte> -> seq<real>)
    requires |c1| == |c2| && forall a :: 0 <= a < |c1| ==> |c1[a]| == |c2[a]|
    ensures Fit(c1, blocks, i, decode) == Fit(c2, blocks, i, decode)
    decreases |blocks| - i
  {
    if i < |blocks| {
      FitByLengths(c1, c2, blocks, i + 1, decode);
    }
  }

  /**
   * Decodes blocks from `i` on into the cache rows. Row i must exist and hold
   * the decoded samples; rows decoded before a failure keep their new front.
   */
  function DecodeBlocks(caches: seq<seq<real>>, blocks: seq<seq<byte>>, i: nat, decode: seq<byte> -> seq<real>)
    : (r: (seq<seq<real>>, Option<Error>))
    requires i <= |blocks|
    ensures |r.0| == |caches| && forall a :: 0 <= a < |caches| ==> |r.0[a]| == |caches[a]|
    ensures r.1.None? <==> Fit(caches, blocks, i, decode)
    ensures r.1.None? ==>
              forall a :: 0 <= a < |caches| ==>
                Some(r.0[a]) == if i <= a < |blocks| then CopyFront(caches[a], decode(blocks[a])) else Some(caches[a])
    decreases |blocks| - i
  {
    if i == |blocks| then (caches, None)
    else if i >= |caches| then
      assert |decode(blocks[i])| >= 0;
      (caches, Some(IndexOutOfRange))
    else
      match CopyFront(caches[i], decode(blocks[i]))
      case None => (caches, Some(Argument))
      case Some(row) =>
        var next := caches[i := row];
        FitByLengths(next, caches, blocks, i + 1, decode);
        DecodeBlocks(next, blocks, i + 1, decode)
  }

  /** Decoding from block i on leaves the rows before i as they are. */
  lemma {:induction false} DecodeBlocksKeepsEarlier(caches: seq<seq<real>>, blocks: seq<seq<byte>>, i: nat,
                                                    decode: seq<byte> -> seq<real>, a: nat)
    requires i <= |blocks| && a < i && a < |caches|
    ensures DecodeBlocks(caches, blocks, i, decode).0[a] == caches[a]
    decreases |blocks| - i
  {
    if i < |blocks| && i < |caches| {
      match CopyFront(caches[i], decode(blocks[i]))
      case None =>
      case Some(row) => DecodeBlocksKeepsEarlier(caches[i := row], blocks, i + 1, decode, a);
    }
  }

  /**
   * Each block is copied in before the next one is tried: when block 0 fits
   * row 0, that row holds its decoded samples afterwards, even when a later
   * block throws.
   */
  lemma FirstBlockWritten(caches: seq<seq<real>>, blocks: seq<seq<byte>>, decode: seq<byte> -> seq<real>)
    requires 0 < |blocks| && 0 < |caches| && |decode(blocks[0])| <= |caches[0]|
    ensures DecodeBlocks(caches, blocks, 0, decode).0[0] == CopyFront(caches[0], decode(blocks[0])).value
  {
    var row := CopyFront(caches[0], decode(blocks[0])).value;
    DecodeBlocksKeepsEarlier(caches[0 := row], blocks, 1, decode, 0);
  }

  datatype Decoding = Decoding(caches: seq<seq<real>>, finished: bool, logged: bool, thrown: Option<Error>)

  /** The client `Decode` of the MPEG variant. */
  function Decode(caches: seq<seq<real>>, width: nat, useCompression: bool, data: Option<seq<byte>>,
                  decode: seq<byte> -> seq<real>, value: float32 -> real): (r: Decoding)
    requires Uniform(caches, width)
    ensures |r.caches| == |caches| && Uniform(r.caches, width)
    ensures r.finished <==> data.Some? && r.thrown.None?
    ensures data.None? ==> r.caches == caches
    ensures data.Some? && !useCompression ==> r.caches == DH.Decoded(caches, width, data.value, false, value)
    ensures data.Some? && useCompression && Parse(data.value).Failure? ==> r.caches == caches && r.thrown.Some?
  {
    if data.None? then Decoding(caches, false, false, None)
    else if !useCompression then
      Decoding(DH.Decoded(caches, width, data.value, false, value), true, 4 * (|caches| * width) > |data.value|, None)
    else
      match Parse(data.value)
      case Failure(e) => Decoding(caches, false, false, Some(e))
      case Success(blocks) =>
        var (c, e) := DecodeBlocks(caches, blocks, 0, decode);
        Decoding(c, e.None?, false, e)
  }

  /**
   * End to end with a lossless native codec: a batch the compressed server
   * frames (rows of the client's shape) is restored exactly in the client's
   * caches, whatever they held before.
   */
  lemma CompressedRoundTrip(prior: seq<seq<real>>, caches: seq<seq<real>>, width: nat,
                            encode: seq<real> -> seq<byte>, decode: seq<byte> -> seq<real>, value: float32 -> real)
    requires Uniform(prior, width) && Uniform(caches, width) && |prior| == |caches|
    requires Framable(seq(|caches|, i requires 0 <= i < |caches| => encode(caches[i])))
    requires forall i :: 0 <= i < |caches| ==> decode(encode(caches[i])) == caches[i]
    ensures var r := Decode(prior, width, true, Some(EncodeCompressed(caches, encode).0), decode, value);
            r.finished && r.caches == caches
  {
    var blocks := seq(|caches|, i requires 0 <= i < |caches| => encode(caches[i]));
    var data := EncodeCompressed(caches, encode).0;
    ParseFrame(blocks);
    assert Parse(data) == Success(blocks);
    forall a | 0 <= a < |blocks|
      ensures |decode(blocks[a])| <= |prior[a]|
    {
      assert decode(blocks[a]) == caches[a];
    }
    FitWhenLongEnough(prior, blocks, 0, decode);
    var c := DecodeBlocks(prior, blocks, 0, decode).0;
    forall a | 0 <= a < |caches|
      ensures c[a] == caches[a]
    {
      assert decode(blocks[a]) == caches[a];
      assert |prior[a]| == width == |caches[a]|;
      assert caches[a] + prior[a][|caches[a]|..] == caches[a];
    }
    assert c == caches;
    DecodeParsed(prior, width, data, blocks, decode, value);
  }

  /** A frame that parses goes through the native decoder row by row. */
  lemma DecodeParsed(caches: seq<seq<real>>, width: nat, data: seq<byte>, blocks: seq<seq<byte>>,
                     decode: seq<byte> -> seq<real>, value: float32 -> real)
    requires Uniform(caches, width) && Parse(data) == Success(blocks)
    ensures var d := DecodeBlocks(caches, blocks, 0, decode);
            Decode(caches, width, true, Some(data), decode, value) == Decoding(d.0, d.1.None?, false, d.1)
  {
  }

  lemma {:induction false} FitWhenLongEnough(caches: seq<seq<real>>, blocks: seq<seq<byte>>, i: nat,
                                             decode: seq<byte> -> seq<real>)
    requires |blocks| <= |caches| && forall a :: i <= a < |blocks| ==> |decode(blocks[a])| <= |caches[a]|
    ensures Fit(caches, blocks, i, decode)
    decreases |blocks| - i
  {
    if i < |blocks| {
      FitWhenLongEnough(caches, blocks, i + 1, decode);
    }
  }
}
