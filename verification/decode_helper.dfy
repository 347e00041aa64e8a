/**
 * The client `DecodeHelper`: the tactile caches, one row of F·T samples per
 * actuator, are refreshed from the bytes the server sent. With compression
 * the bytes first go through the external codec service, whose reply holds
 * one int per sample; without it they are the server's raw float32 layout.
 *
 * The service round trip is an event: its reply (None when the wait was
 * cancelled) is a parameter. The float32 interpretation of a bit pattern is
 * a parameter `value`.
 */
module DecodeHelper {
  import opened Wrappers
  import opened Bytes
  import opened SeqUtil
  import opened Series
  import WireCodec
  import Q = Quantize
  import EH = EncodeHelper
  import Arith

  /** The exceptions `Decode` lets escape. */
  datatype Error = IndexOutOfRange | Argument

  datatype Helper = Helper(useCompression: bool, width: nat, caches: seq<seq<real>>, buffer: seq<byte>)
  {
    ghost predicate Valid()
    {
      Uniform(caches, width)
    }
  }

  /** The compressed request starts with tag 1 ("from the client"). */
  const ClientTag: int32 := 1

  /** The constructor: `actuatorCount` zero rows of F·T samples; a zeroed buffer when compressing. */
  function Create(useCompression: bool, actuatorCount: nat, frameCount: nat, taxelSize: nat, bufferSize: nat): (h: Helper)
    ensures h.Valid() && |h.caches| == actuatorCount && h.width == frameCount * taxelSize
    ensures forall i, j :: 0 <= i < actuatorCount && 0 <= j < h.width ==> h.caches[i][j] == 0.0
    ensures h.useCompression == useCompression
    ensures |h.buffer| == (if useCompression then bufferSize else 0)
  {
    Helper(useCompression, frameCount * taxelSize,
           Fill(actuatorCount, Fill(frameCount * taxelSize, 0.0)),
           if useCompression then Fill(bufferSize, 0) else [])
  }

  /**
   * Flat sample p (row-major) of a reply: the int at byte 4p dequantised, or
   * the float32 at byte 4p read through `value`; `stale` when the reply ends
   * before that word.
   */
  function SampleAt(buf: seq<byte>, p: nat, compressed: bool, value: float32 -> real, stale: real): (s: real)
    ensures 4 * p + 4 > |buf| ==> s == stale
    ensures 4 * p + 4 <= |buf| && compressed ==> s == Q.Dequantize(Int32Of(buf[4 * p..4 * p + 4]))
    ensures 4 * p + 4 <= |buf| && !compressed ==> s == value(Float32Of(buf[4 * p..4 * p + 4]))
  {
    if 4 * p + 4 > |buf| then stale
    else if compressed then Q.Dequantize(Int32Of(buf[4 * p..4 * p + 4]))
    else value(Float32Of(buf[4 * p..4 * p + 4]))
  }

  /**
   * One cache row whose first sample is flat sample `base`: each sample whose
   * word lies wholly inside the reply is replaced, every other keeps its value.
   */
  function Row(stale: seq<real>, base: nat, buf: seq<byte>, compressed: bool, value: float32 -> real): (r: seq<real>)
    ensures |r| == |stale|
  {
    seq(|stale|, j requires 0 <= j < |stale| => SampleAt(buf, base + j, compressed, value, stale[j]))
  }

  /** The reference result of a deserialisation: row i starts at flat sample i·W. */
  function Decoded(caches: seq<seq<real>>, width: nat, buf: seq<byte>, compressed: bool, value: float32 -> real): (r: seq<seq<real>>)
    requires Uniform(caches, width)
    ensures |r| == |caches| && Uniform(r, width)
  {
    seq(|caches|, i requires 0 <= i < |caches| => Row(caches[i], i * width, buf, compressed, value))
  }

  /**
   * `Deserialize`: reads the samples in order with ReadInt / ReadFloat; the
   * first read past the end throws, which is caught and logged (`logged`),
   * leaving what was already read in place.
   */
  method Deserialize(caches: seq<seq<real>>, width: nat, buf: seq<byte>, compressed: bool, value: float32 -> real)
    returns (r: seq<seq<real>>, logged: bool)
    requires Uniform(caches, width)
    ensures r == Decoded(caches, width, buf, compressed, value)
    ensures logged <==> 4 * (|caches| * width) > |buf|
  {
    r := caches;
    logged := false;
    var i := 0;
    while i < |caches|
      invariant 0 <= i <= |caches| && |r| == |caches|
      invariant 4 * (i * width) <= |buf|
      invariant forall a :: 0 <= a < i ==> r[a] == Decoded(caches, width, buf, compressed, value)[a]
      invariant forall a :: i <= a < |caches| ==> r[a] == caches[a]
    {
      var row, ok := DeserializeRow(caches[i], i * width, buf, compressed, value);
      r := r[i := row];
      if !ok {
        logged := true;
        LaterRowsStale(caches, width, buf, compressed, value, i);
        assert forall a :: 0 <= a < |caches| ==> r[a] == Decoded(caches, width, buf, compressed, value)[a];
        return;
      }
      i := i + 1;
    }
  }

  /**
   * The inner loop of `Deserialize` for one row, the cursor at the row's
   * first word: the row comes out as the reference has it either way; `ok`
   * is false when a read threw.
   */
  method DeserializeRow(stale: seq<real>, base: nat, buf: seq<byte>, compressed: bool, value: float32 -> real)
    returns (row: seq<real>, ok: bool)
    requires 4 * base <= |buf|
    ensures row == Row(stale, base, buf, compressed, value)
    ensures ok <==> 4 * (base + |stale|) <= |buf|
  {
    row := stale;
    var index := 4 * base;
    var j := 0;
    while j < |stale|
      invariant 0 <= j <= |stale| && |row| == |stale|
      invariant index == 4 * (base + j) <= |buf|
      invariant forall b :: 0 <= b < j ==> row[b] == SampleAt(buf, base + b, compressed, value, stale[b])
      invariant forall b :: j <= b < |stale| ==> row[b] == stale[b]
    {
      var s: real;
      if compressed {
        var read := WireCodec.ReadInt(buf, index);
        if read.Failure? {
          return row, false;
        }
        s := Q.Dequantize(read.value.value);
        index := read.value.end;
      } else {
        var read := WireCodec.ReadFloat(buf, index);
        if read.Failure? {
          return row, false;
        }
        s := value(read.value.value);
        index := read.value.end;
      }
      row := row[j := s];
      j := j + 1;
    }
    return row, true;
  }

  /** A row cut short means no word of any later row fits either. */
  lemma LaterRowsStale(caches: seq<seq<real>>, width: nat, buf: seq<byte>, compressed: bool, value: float32 -> real, i: nat)
    requires Uniform(caches, width) && i < |caches| && 4 * (i * width + width) > |buf|
    ensures forall a :: i < a < |caches| ==> Decoded(caches, width, buf, compressed, value)[a] == caches[a]
    ensures 4 * (|caches| * width) > |buf|
  {
    forall a | i < a < |caches|
      ensures Row(caches[a], a * width, buf, compressed, value) == caches[a]
    {
      Arith.MulAtLeast(a - i, width);
      assert a * width == i * width + (a - i) * width;
    }
    Arith.MulAtLeast(|caches| - i, width);
    assert |caches| * width == i * width + (|caches| - i) * width;
  }

  /** The observable effect of one `Decode` call. */
  datatype Decoding = Decoding(
    helper: Helper,
    request: Option<seq<byte>>,  // the datagram sent to the codec service
    finished: bool,              // whether the completion callback ran
    logged: bool,                // whether a short reply was logged
    thrown: Option<Error>)

  /**
   * The request to the codec service: tag 1, then the received bytes
   * without their last 4, copied over the reused buffer from byte 4. The
   * whole buffer is sent, so bytes past the copy are those of earlier
   * requests.
   */
  function Request(buffer: seq<byte>, data: seq<byte>): (r: Result<seq<byte>, Error>)
    ensures var count := if |data| >= 4 then |data| - 4 else 0;
            (r.Success? <==> 4 + count <= |buffer|)
            && (|buffer| < 4 ==> r == Failure(IndexOutOfRange))
            && (4 <= |buffer| < 4 + count ==> r == Failure(Argument))
            && (r.Success? ==>
                  |r.value| == |buffer|
                  && r.value[..4] == Int32Bytes(ClientTag)
                  && r.value[4..4 + count] == data[..count]
                  && r.value[4 + count..] == buffer[4 + count..])
  {
    match WireCodec.WriteInt(buffer, 0, ClientTag)
    case Failure(_) => Failure(IndexOutOfRange)
    case Success(w) =>
      var count := if |data| >= 4 then |data| - 4 else 0;
      if 4 + count > |buffer| then Failure(Argument)
      else Success(Splice(w.buffer, 4, data[..count]))
  }

  /**
   * `Decode`: nothing happens for no data; otherwise (with compression, after
   * the service round trip) the reply is deserialised into the caches and
   * the completion callback runs. A cancelled wait yields no reply, which
   * leaves the caches as they were but still completes.
   */
  function Decode(h: Helper, data: Option<seq<byte>>, reply: Option<seq<byte>>, value: float32 -> real): (r: Decoding)
    requires h.Valid()
    ensures r.helper.Valid() && r.helper.width == h.width && |r.helper.caches| == |h.caches|
    ensures data.None? ==> r == Decoding(h, None, false, false, None)
    ensures r.thrown.Some? ==> !r.finished && r.helper == h && h.useCompression
    ensures data.Some? && !h.useCompression ==>
              r.request.None? && r.finished
              && r.helper.caches == Decoded(h.caches, h.width, data.value, false, value)
    ensures data.Some? && h.useCompression && r.thrown.None? ==>
              r.request.Some? && r.finished && r.request == Some(r.helper.buffer)
              && (reply.None? ==> r.helper.caches == h.caches)
              && (reply.Some? ==> r.helper.caches == Decoded(h.caches, h.width, reply.value, true, value))
  {
    if data.None? then Decoding(h, None, false, false, None)
    else if !h.useCompression then
      var caches := Decoded(h.caches, h.width, data.value, false, value);
      Decoding(h.(caches := caches), None, true, 4 * (|h.caches| * h.width) > |data.value|, None)
    else
      match Request(h.buffer, data.value)
      case Failure(e) => Decoding(h, None, false, false, Some(e))
      case Success(req) =>
        if reply.None? then Decoding(h.(buffer := req), Some(req), true, false, None)
        else
          var caches := Decoded(h.caches, h.width, reply.value, true, value);
          Decoding(h.(buffer := req, caches := caches), Some(req), true,
                   4 * (|h.caches| * h.width) > |reply.value|, None)
  }

  /**
   * Raw round trip: the bytes the uncompressed server encoder lays out for a
   * batch of the client's shape decode to that batch, provided the float32
   * interpretation inverts the encoding of every sample.
   */
  lemma RawRoundTrip(prior: seq<seq<real>>, caches: seq<seq<real>>, width: nat, bits: real -> float32, value: float32 -> real)
    requires Uniform(prior, width) && Uniform(caches, width) && |prior| == |caches|
    requires forall i, j :: 0 <= i < |caches| && 0 <= j < width ==> value(bits(caches[i][j])) == caches[i][j]
    ensures Decoded(prior, width, Flatten(EH.FloatWords(caches, bits)), false, value) == caches
  {
    var ws := EH.FloatWords(caches, bits);
    var buf := Flatten(ws);
    var d := Decoded(prior, width, buf, false, value);
    forall i, j | 0 <= i < |caches| && 0 <= j < width
      ensures d[i][j] == caches[i][j]
    {
      FlattenRowsAt(caches, width, i, j);
      var p := i * width + j;
      FlattenWord(ws, p);
      Float32RoundTrip(bits(caches[i][j]));
    }
    forall i | 0 <= i < |caches|
      ensures d[i] == caches[i]
    {
      assert |d[i]| == width == |caches[i]|;
    }
  }

  /**
   * Compressed round trip through a lossless codec: the ints the server puts
   * after its tag, handed back unchanged, decode to each sample quantised and
   * dequantised — within one step 2^-15 of it for samples inside (-1, 1).
   */
  lemma CompressedRoundTrip(prior: seq<seq<real>>, caches: seq<seq<real>>, width: nat, value: float32 -> real)
    requires Uniform(prior, width) && Uniform(caches, width) && |prior| == |caches|
    ensures var d := Decoded(prior, width, Flatten(EH.QuantizedWords(caches)), true, value);
            forall i, j :: 0 <= i < |caches| && 0 <= j < width ==>
              d[i][j] == Q.Dequantize(Q.Quantize(caches[i][j]))
  {
    var ws := EH.QuantizedWords(caches);
    var buf := Flatten(ws);
    var d := Decoded(prior, width, buf, true, value);
    forall i, j | 0 <= i < |caches| && 0 <= j < width
      ensures d[i][j] == Q.Dequantize(Q.Quantize(caches[i][j]))
    {
      FlattenRowsAt(caches, width, i, j);
      var p := i * width + j;
      FlattenWord(ws, p);
      Int32RoundTrip(Q.Quantize(caches[i][j]));
    }
  }
}
