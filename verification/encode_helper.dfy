/**
 * The server `EncodeHelper`: the batch of tactile caches is either sent to the
 * external compression service as quantised ints (and the service's reply is
 * what goes to the client), or laid out as raw float32s for the client
 * directly. The send buffer is a field of fixed size that every call reuses;
 * what was written to it before a throw stays there.
 *
 * The service round trip (send, busy-wait for the reply, dequeue) is an
 * event: the reply is a parameter.
 */
module EncodeHelper {
  import opened Wrappers
  import opened Bytes
  import opened SeqUtil
  import opened Series
  import WireCodec
  import Q = Quantize

  datatype Helper = Helper(useCompression: bool, sendBuffer: seq<byte>, open: bool)

  /** What `EncodeAsync` returns: the bytes to send and their length (-1: the whole reply). */
  datatype Output = Output(data: seq<byte>, length: int)

  datatype Encoded = Encoded(helper: Helper, result: Result<Output, WireCodec.Error>)

  /** The compressed request starts with tag 0 ("from the server"). */
  const ServerTag: int32 := 0

  /** The constructor: a zeroed send buffer; the service channel is only set up with compression. */
  function Create(useCompression: bool, sendBufferSize: nat): (h: Helper)
    ensures h.useCompression == useCompression && |h.sendBuffer| == sendBufferSize && !h.open
  {
    Helper(useCompression, Fill(sendBufferSize, 0), false)
  }

  /** `Start` opens the service channel; without compression it does nothing. */
  function Start(h: Helper): (h': Helper)
    ensures h.useCompression ==> h' == h.(open := true)
    ensures !h.useCompression ==> h' == h
  {
    if h.useCompression then h.(open := true) else h
  }

  /** `Stop` closes the service channel; without compression it does nothing. */
  function Stop(h: Helper): (h': Helper)
    ensures h.useCompression ==> h' == h.(open := false)
    ensures !h.useCompression ==> h' == h
  {
    if h.useCompression then h.(open := false) else h
  }

  /** Without compression no channel ever opens, whatever Start/Stop sequence runs. */
  lemma UncompressedNeverOpens(h: Helper)
    requires !h.useCompression
    ensures Stop(Start(h)) == h && Start(Stop(h)) == h
  {
  }

  /** The ints the compressed request carries, row-major by actuator then sample. */
  function QuantizedWords(caches: seq<seq<real>>): (ws: seq<seq<byte>>)
    ensures Words(ws) && |ws| == |FlattenRows(caches)|
  {
    var flat := FlattenRows(caches);
    seq(|flat|, k requires 0 <= k < |flat| => Int32Bytes(Q.Quantize(flat[k])))
  }

  /** The floats of the raw layout, row-major; `bits` is the float32 encoding of a sample. */
  function FloatWords(caches: seq<seq<real>>, bits: real -> float32): (ws: seq<seq<byte>>)
    ensures Words(ws) && |ws| == |FlattenRows(caches)|
  {
    var flat := FlattenRows(caches);
    seq(|flat|, k requires 0 <= k < |flat| => Float32Bytes(bits(flat[k])))
  }

  /**
   * The compressed branch of `EncodeAsync`: tag 0, then every sample
   * quantised, written into the send buffer; the whole buffer is sent to the
   * service and its reply is returned with length -1.
   */
  function EncodeCompressed(h: Helper, caches: seq<seq<real>>, reply: seq<byte>): (r: Encoded)
    requires h.useCompression
    ensures |r.helper.sendBuffer| == |h.sendBuffer|
    ensures r.result.Success? <==> WireCodec.IntSize + 4 * |FlattenRows(caches)| <= |h.sendBuffer|
    ensures r.result.Success? ==>
              r.result.value == Output(reply, -1)
              && r.helper.sendBuffer == Splice(h.sendBuffer, 0, Int32Bytes(ServerTag) + Flatten(QuantizedWords(caches)))
  {
    match WireCodec.WriteInt(h.sendBuffer, 0, ServerTag)
    case Failure(e) => Encoded(h, Failure(e))
    case Success(w) =>
      var s := WriteWords(w.buffer, w.end, QuantizedWords(caches));
      var h' := h.(sendBuffer := s.buffer);
      if s.result.Failure? then Encoded(h', Failure(s.result.error))
      else
        SpliceTwice(h.sendBuffer, 0, Int32Bytes(ServerTag), Flatten(QuantizedWords(caches)));
        Encoded(h', Success(Output(reply, -1)))
  }

  /**
   * The uncompressed branch: the samples as float32, row-major, from offset
   * 0; the send buffer and the number of bytes written are returned, so
   * stale bytes past that length are not sent.
   */
  function EncodeRaw(h: Helper, caches: seq<seq<real>>, bits: real -> float32): (r: Encoded)
    requires !h.useCompression
    ensures |r.helper.sendBuffer| == |h.sendBuffer|
    ensures r.result.Success? <==> 4 * |FlattenRows(caches)| <= |h.sendBuffer|
    ensures r.result.Success? ==>
              r.result.value.data == r.helper.sendBuffer
              && r.result.value.length == 4 * |FlattenRows(caches)|
              && r.helper.sendBuffer == Splice(h.sendBuffer, 0, Flatten(FloatWords(caches, bits)))
  {
    var s := WriteWords(h.sendBuffer, 0, FloatWords(caches, bits));
    var h' := h.(sendBuffer := s.buffer);
    match s.result
    case Failure(e) => Encoded(h', Failure(e))
    case Success(end) => Encoded(h', Success(Output(s.buffer, end)))
  }

  /** `EncodeAsync`. */
  function Encode(h: Helper, caches: seq<seq<real>>, reply: seq<byte>, bits: real -> float32): (r: Encoded)
    ensures h.useCompression ==> r == EncodeCompressed(h, caches, reply)
    ensures !h.useCompression ==> r == EncodeRaw(h, caches, bits)
  {
    if h.useCompression then EncodeCompressed(h, caches, reply) else EncodeRaw(h, caches, bits)
  }

  /**
   * Sample k of the batch (row-major) is the int at byte 4 + 4k of the
   * compressed request, and reads back as its truncated quantisation.
   */
  lemma CompressedLayout(h: Helper, caches: seq<seq<real>>, reply: seq<byte>, k: nat)
    requires h.useCompression && k < |FlattenRows(caches)|
    requires EncodeCompressed(h, caches, reply).result.Success?
    ensures var buf := EncodeCompressed(h, caches, reply).helper.sendBuffer;
            WireCodec.ReadInt(buf, 0) == Success(WireCodec.Read(4, ServerTag))
            && WireCodec.ReadInt(buf, 4 + 4 * k) == Success(WireCodec.Read(8 + 4 * k, Q.Quantize(FlattenRows(caches)[k])))
  {
    var ws := QuantizedWords(caches);
    TaggedRead(h.sendBuffer, ServerTag, ws, k, Q.Quantize(FlattenRows(caches)[k]));
  }

  /** In a buffer holding a tag and then words, the tag and word k read back as ints. */
  lemma {:induction false} TaggedRead(buf0: seq<byte>, tag: int32, ws: seq<seq<byte>>, k: nat, v: int32)
    requires Words(ws) && k < |ws| && ws[k] == Int32Bytes(v) && 4 + WordSize * |ws| <= |buf0|
    ensures var buf := Splice(buf0, 0, Int32Bytes(tag) + Flatten(ws));
            WireCodec.ReadInt(buf, 0) == Success(WireCodec.Read(4, tag))
            && WireCodec.ReadInt(buf, 4 + 4 * k) == Success(WireCodec.Read(8 + 4 * k, v))
  {
    TagRead(buf0, tag, ws);
    WordRead(buf0, tag, ws, k, v);
  }

  lemma TagRead(buf0: seq<byte>, tag: int32, ws: seq<seq<byte>>)
    requires Words(ws) && 4 + WordSize * |ws| <= |buf0|
    ensures WireCodec.ReadInt(Splice(buf0, 0, Int32Bytes(tag) + Flatten(ws)), 0) == Success(WireCodec.Read(4, tag))
  {
    var payload := Int32Bytes(tag) + Flatten(ws);
    SpliceSlice(buf0, 0, payload, 0, 4);
    assert payload[0..4] == Int32Bytes(tag);
    WireCodec.ReadIntAt(Splice(buf0, 0, payload), 0, tag);
  }

  lemma {:induction false} WordRead(buf0: seq<byte>, tag: int32, ws: seq<seq<byte>>, k: nat, v: int32)
    requires Words(ws) && k < |ws| && ws[k] == Int32Bytes(v) && 4 + WordSize * |ws| <= |buf0|
    ensures WireCodec.ReadInt(Splice(buf0, 0, Int32Bytes(tag) + Flatten(ws)), 4 + 4 * k)
            == Success(WireCodec.Read(8 + 4 * k, v))
  {
    var payload := Int32Bytes(tag) + Flatten(ws);
    var buf := Splice(buf0, 0, payload);
    SpliceSlice(buf0, 0, payload, 4 + 4 * k, 8 + 4 * k);
    PayloadWord(tag, ws, k);
    assert buf[4 + 4 * k..4 + 4 * k + WireCodec.IntSize] == Int32Bytes(v);
    WireCodec.ReadIntAt(buf, 4 + 4 * k, v);
  }

  /** Word k of the compressed payload is sample k, quantised. */
  lemma {:induction false} PayloadWord(tag: int32, ws: seq<seq<byte>>, k: nat)
    requires Words(ws) && k < |ws|
    ensures (Int32Bytes(tag) + Flatten(ws))[4 + 4 * k..8 + 4 * k] == ws[k]
  {
    TaggedWord(Int32Bytes(tag), ws, k);
  }

  lemma {:induction false} TaggedWord(x: seq<byte>, ws: seq<seq<byte>>, k: nat)
    requires Words(ws) && k < |ws| && |x| == 4
    ensures (x + Flatten(ws))[4 + 4 * k..8 + 4 * k] == ws[k]
  {
    FlattenWord(ws, k);
    AppendSlice(x, Flatten(ws), 4, 4 * k, 4 * k + 4);
  }

}
