/**
 * The per-point layout of the compression service's MATLAB codec path
 * (`Encoder.encode_and_serialize` and `Decoder.deserialize_and_decode`).
 * For every point the encoder writes, through the Python serializer,
 *
 *   [codes: bytes] [extremum indices: bytes of doubles]
 *   [extremum values: bytes of doubles] [bit count: int]
 *
 * where each `bytes` field is length-prefixed, and the decoder reads the
 * four fields back in the same order. The MATLAB `encode` and `decode` calls
 * are parameters; doubles are float64 bit patterns packed 8 bytes each in
 * little-endian order (`struct`'s native layout on the service's host).
 */
module PyCodec {
  import opened Wrappers
  import opened Bytes
  import PS = PySerializer
  import opened BitPacking
  import Q = Quantize

  /** What the MATLAB encoder returns for one point's signal. */
  datatype Codes = Codes(bits: seq<bit>, indices: seq<float64>, values: seq<float64>)

  /** The four fields of one point on the wire. */
  datatype Packed = Packed(codes: seq<byte>, indices: seq<float64>, values: seq<float64>, length: int)

  /** The exceptions the service's codec path raises. */
  datatype Error = Serializer(e: PS.PyError) | StructError

  /** `struct.pack(f"{n}d", *ds)`. */
  function PackDoubles(ds: seq<float64>): (r: seq<byte>)
    ensures |r| == 8 * |ds|
  {
    if |ds| == 0 then [] else Float64Bytes(ds[0]) + PackDoubles(ds[1..])
  }

  /** `struct.unpack` of `len(bs)` divided by 8 doubles: a length that is not a multiple of 8 is a struct error. */
  function UnpackDoubles(bs: seq<byte>): (r: Result<seq<float64>, Error>)
    ensures r.Success? <==> |bs| % 8 == 0
    ensures r.Success? ==> |r.value| == |bs| / 8
    decreases |bs|
  {
    if |bs| % 8 != 0 then Failure(StructError)
    else if |bs| == 0 then Success([])
    else
      var rest := UnpackDoubles(bs[8..]);
      Success([Float64Of(bs[..8])] + rest.value)
  }

  lemma {:induction false} UnpackPack(ds: seq<float64>)
    ensures UnpackDoubles(PackDoubles(ds)) == Success(ds)
  {
    if |ds| > 0 {
      var bs := PackDoubles(ds);
      assert bs[..8] == Float64Bytes(ds[0]) && bs[8..] == PackDoubles(ds[1..]);
      Float64RoundTrip(ds[0]);
      UnpackPack(ds[1..]);
      assert [ds[0]] + ds[1..] == ds;
    }
  }

  /**
   * `encode_py`: the MATLAB codes with the bits packed by
   * `merge_binary_to_decimal` as written, and the bit count before packing.
   * The bits come back from the packed bytes when their count is a multiple
   * of eight.
   */
  function EncodePy(signal: seq<real>, encode: seq<real> -> Codes): (p: Packed)
    ensures var c := encode(signal);
            p.codes == MergeAsWritten(c.bits) && p.indices == c.indices && p.values == c.values && p.length == |c.bits|
            && (|c.bits| % 8 == 0 ==> Unpack(p.codes, p.length) == c.bits)
  {
    var c := encode(signal);
    var p := Packed(MergeAsWritten(c.bits), c.indices, c.values, |c.bits|);
    if |c.bits| % 8 == 0 then MergeAsWrittenWholeBytes(c.bits); p else p
  }

  /** A point whose single code bit is 1 reaches the decoder as the bit 0. */
  lemma EncodePyLosesShortGroup(signal: seq<real>, encode: seq<real> -> Codes)
    requires encode(signal).bits == [1]
    ensures var p := EncodePy(signal, encode); Unpack(p.codes, p.length) == [0]
  {
    MergeAsWrittenLosesShortGroup();
  }

  /** A point whose field lengths and bit count fit the serializer's int32. */
  predicate Fits(p: Packed)
  {
    |p.codes| < Two31 && 8 * |p.indices| < Two31 && 8 * |p.values| < Two31 && 0 <= p.length < Two31
  }

  function Framed(x: seq<byte>): (r: seq<byte>)
    requires |x| < Two31
    ensures |r| == 4 + |x|
  {
    Int32Bytes(|x|) + x
  }

  /** The three length-prefixed fields of a point, in the order they are written. */
  function Fields(p: Packed): (fs: seq<seq<byte>>)
    ensures |fs| == 3
  {
    [p.codes, PackDoubles(p.indices), PackDoubles(p.values)]
  }

  /** Fields that each fit a length prefix, laid end to end with their prefixes. */
  function FramedAll(fs: seq<seq<byte>>): (r: seq<byte>)
    requires forall i :: 0 <= i < |fs| ==> |fs[i]| < Two31
    decreases |fs|
  {
    if |fs| == 0 then [] else Framed(fs[0]) + FramedAll(fs[1..])
  }

  /** The bytes one point occupies: the three framed fields, then the bit count. */
  function PointBytes(p: Packed): (r: seq<byte>)
    requires Fits(p)
    ensures |r| == 16 + |p.codes| + 8 * |p.indices| + 8 * |p.values|
  {
    Framed(p.codes) + Framed(PackDoubles(p.indices)) + Framed(PackDoubles(p.values)) + Int32Bytes(p.length)
  }

  lemma PointBytesFields(p: Packed)
    requires Fits(p)
    ensures PointBytes(p) == FramedAll(Fields(p)) + Int32Bytes(p.length)
  {
    var fs := Fields(p);
    var t1: seq<seq<byte>> := fs[1..];
    var t2: seq<seq<byte>> := t1[1..];
    var t3: seq<seq<byte>> := t2[1..];
    assert |t3| == 0;
    assert FramedAll(t2) == Framed(fs[2]);
    assert FramedAll(t1) == Framed(fs[1]) + Framed(fs[2]);
  }

  /** `write_bytes` on each field in turn, stopping at the first exception. */
  function WriteFields(buf: seq<byte>, index: int, fs: seq<seq<byte>>): (r: PS.Outcome)
    ensures |r.buffer| == |buf|
    decreases |fs|
  {
    if |fs| == 0 then PS.Outcome(buf, Success(index))
    else
      var o := PS.WriteBytes(buf, index, fs[0]);
      if o.result.Failure? then o else WriteFields(o.buffer, o.result.value, fs[1..])
  }

  /** The loop body of `encode_and_serialize`: the three field writes, then the bit count. */
  function EncodePoint(buf: seq<byte>, index: int, p: Packed): (r: PS.Outcome)
    ensures |r.buffer| == |buf|
  {
    var o := WriteFields(buf, index, Fields(p));
    if o.result.Failure? then o else PS.WriteInt(o.buffer, o.result.value, p.length)
  }

  /** Field writes from a non-negative cursor succeed exactly when the framed fields fit, and then lay them down. */
  lemma {:induction false} WriteFieldsLayout(buf: seq<byte>, index: nat, fs: seq<seq<byte>>)
    requires forall i :: 0 <= i < |fs| ==> |fs[i]| < Two31
    requires |fs| > 0 || index <= |buf|
    ensures var r := WriteFields(buf, index, fs);
            (r.result.Success? <==> index + |FramedAll(fs)| <= |buf|)
            && (r.result.Success? ==>
                  r.result.value == index + |FramedAll(fs)| && r.buffer == Splice(buf, index, FramedAll(fs)))
    decreases |fs|
  {
    if |fs| > 0 {
      var next := index + 4 + |fs[0]|;
      var rest := FramedAll(fs[1..]);
      assert FramedAll(fs) == Framed(fs[0]) + rest;
      if next <= |buf| {
        WriteFramed(buf, index, fs[0]);
        var b1 := Splice(buf, index, Framed(fs[0]));
        WriteFieldsStep(buf, index, fs, b1, next);
        WriteFieldsLayout(b1, next, fs[1..]);
        if next + |rest| <= |buf| {
          SpliceTwice(buf, index, Framed(fs[0]), rest);
        }
      } else {
        assert PS.WriteBytes(buf, index, fs[0]).result.Failure?;
        WriteFieldsStops(buf, index, fs);
      }
    }
  }

  lemma WriteFieldsStops(buf: seq<byte>, index: int, fs: seq<seq<byte>>)
    requires |fs| > 0 && PS.WriteBytes(buf, index, fs[0]).result.Failure?
    ensures WriteFields(buf, index, fs).result.Failure?
  {
  }

  lemma WriteFieldsStep(buf: seq<byte>, index: int, fs: seq<seq<byte>>, b1: seq<byte>, next: int)
    requires |fs| > 0 && PS.WriteBytes(buf, index, fs[0]) == PS.Outcome(b1, Success(next))
    ensures WriteFields(buf, index, fs) == WriteFields(b1, next, fs[1..])
  {
  }

  /** For a point that fits, the four writes succeed exactly when its bytes fit, and then lay them down. */
  lemma EncodePointLayout(buf: seq<byte>, index: nat, p: Packed)
    requires Fits(p)
    ensures var r := EncodePoint(buf, index, p);
            (r.result.Success? <==> index + |PointBytes(p)| <= |buf|)
            && (r.result.Success? ==>
                  r.result.value == index + |PointBytes(p)| && r.buffer == Splice(buf, index, PointBytes(p)))
  {
    if index + |PointBytes(p)| <= |buf| {
      EncodePointFits(buf, index, p);
    } else {
      EncodePointOverflows(buf, index, p);
    }
  }

  lemma EncodePointFits(buf: seq<byte>, index: nat, p: Packed)
    requires Fits(p) && index + |PointBytes(p)| <= |buf|
    ensures EncodePoint(buf, index, p) == PS.Outcome(Splice(buf, index, PointBytes(p)), Success(index + |PointBytes(p)|))
  {
    var fs := Fields(p);
    var framed := FramedAll(fs);
    PointBytesFields(p);
    WriteFieldsLayout(buf, index, fs);
    var b := Splice(buf, index, framed);
    var mid := index + |framed|;
    assert WriteFields(buf, index, fs) == PS.Outcome(b, Success(mid));
    EncodePointStep(buf, index, p, b, mid);
    WriteIntFits(b, mid, p.length);
    SpliceTwice(buf, index, framed, Int32Bytes(p.length));
    assert Splice(b, mid, Int32Bytes(p.length)) == Splice(buf, index, PointBytes(p));
  }

  /** Once the fields are written, the point's outcome is the bit-count write at the cursor they leave. */
  lemma EncodePointStep(buf: seq<byte>, index: int, p: Packed, b: seq<byte>, mid: int)
    requires WriteFields(buf, index, Fields(p)) == PS.Outcome(b, Success(mid))
    ensures EncodePoint(buf, index, p) == PS.WriteInt(b, mid, p.length)
  {
  }

  lemma EncodePointOverflows(buf: seq<byte>, index: nat, p: Packed)
    requires Fits(p) && index + |PointBytes(p)| > |buf|
    ensures EncodePoint(buf, index, p).result.Failure?
  {
    var fs := Fields(p);
    PointBytesFields(p);
    WriteFieldsLayout(buf, index, fs);
  }

  lemma WriteIntFits(buf: seq<byte>, at: nat, v: int32)
    requires at + 4 <= |buf|
    ensures PS.WriteInt(buf, at, v as int) == PS.Outcome(Splice(buf, at, Int32Bytes(v as int)), Success(at + 4))
  {
  }

  /** One length-prefixed field written at a cursor where it fits. */
  lemma WriteFramed(buf: seq<byte>, at: nat, x: seq<byte>)
    requires |x| < Two31 && at + 4 + |x| <= |buf|
    ensures PS.WriteBytes(buf, at, x) == PS.Outcome(Splice(buf, at, Framed(x)), Success(at + 4 + |x|))
  {
  }

  /** The points laid end to end. */
  function AllBytes(ps: seq<Packed>): (r: seq<byte>)
    requires forall i :: 0 <= i < |ps| ==> Fits(ps[i])
  {
    if |ps| == 0 then [] else PointBytes(ps[0]) + AllBytes(ps[1..])
  }

  /** The loop of `encode_and_serialize` over already-encoded points, from cursor `index`. */
  function EncodeFrom(buf: seq<byte>, index: int, ps: seq<Packed>): (r: PS.Outcome)
    ensures |r.buffer| == |buf|
    decreases |ps|
  {
    if |ps| == 0 then PS.Outcome(buf, Success(index))
    else
      var o := EncodePoint(buf, index, ps[0]);
      if o.result.Failure? then o
      else EncodeFrom(o.buffer, o.result.value, ps[1..])
  }

  /** From a cursor inside the buffer, the loop succeeds exactly when all points fit, and then lays them down in order. */
  lemma {:induction false} EncodeFromLayout(buf: seq<byte>, index: nat, ps: seq<Packed>)
    requires index <= |buf| && forall i :: 0 <= i < |ps| ==> Fits(ps[i])
    ensures var r := EncodeFrom(buf, index, ps);
            (r.result.Success? <==> index + |AllBytes(ps)| <= |buf|)
            && (r.result.Success? ==>
                  r.result.value == index + |AllBytes(ps)| && r.buffer == Splice(buf, index, AllBytes(ps)))
    decreases |ps|
  {
    if |ps| > 0 {
      EncodePointLayout(buf, index, ps[0]);
      var o := EncodePoint(buf, index, ps[0]);
      if o.result.Success? {
        EncodeFromLayout(o.buffer, o.result.value, ps[1..]);
        if EncodeFrom(o.buffer, o.result.value, ps[1..]).result.Success? {
          SpliceTwice(buf, index, PointBytes(ps[0]), AllBytes(ps[1..]));
        }
      }
    }
  }

  /** Every point's signal through `encode_py`, in order. */
  function Encoded(received: seq<seq<real>>, encode: seq<real> -> Codes): (ps: seq<Packed>)
    ensures |ps| == |received|
  {
    seq(|received|, i requires 0 <= i < |received| => EncodePy(received[i], encode))
  }

  predicate AllFit(ps: seq<Packed>)
  {
    forall i :: 0 <= i < |ps| ==> Fits(ps[i])
  }

  /**
   * `encode_and_serialize`: every point's signal encoded, then written from
   * cursor 0; returns the final cursor. When every point fits the serializer's
   * int32, it succeeds exactly when all the points fit in the buffer, and then
   * the buffer starts with them laid end to end.
   */
  function EncodeAndSerialize(buf: seq<byte>, received: seq<seq<real>>, encode: seq<real> -> Codes): (r: PS.Outcome)
    ensures |r.buffer| == |buf|
    ensures AllFit(Encoded(received, encode)) ==>
              (r.result.Success? <==> |AllBytes(Encoded(received, encode))| <= |buf|)
              && (r.result.Success? ==>
                    r.result.value == |AllBytes(Encoded(received, encode))|
                    && r.buffer == Splice(buf, 0, AllBytes(Encoded(received, encode))))
  {
    var ps := Encoded(received, encode);
    if AllFit(ps) then
      EncodeFromLayout(buf, 0, ps);
      EncodeFrom(buf, 0, ps)
    else
      EncodeFrom(buf, 0, ps)
  }

  // ---------------------------------------------------------------- decoder

  function Lift<T>(r: Result<T, PS.PyError>): (l: Result<T, Error>)
    ensures l.Success? <==> r.Success?
    ensures r.Success? ==> l.value == r.value
    ensures r.Failure? ==> l.error == Serializer(r.error)
  {
    match r
    case Success(v) => Success(v)
    case Failure(e) => Failure(Serializer(e))
  }

  /** The reads of one point's four fields, in the encoder's order. */
  function DecodeFields(buf: seq<byte>, index: int): (r: Result<(int, Packed), Error>)
  {
    var (i1, codes) :- Lift(PS.ReadBytes(buf, index));
    var (i2, indexBytes) :- Lift(PS.ReadBytes(buf, i1));
    var indices :- UnpackDoubles(indexBytes);
    var (i3, valueBytes) :- Lift(PS.ReadBytes(buf, i2));
    var values :- UnpackDoubles(valueBytes);
    var (i4, length) :- Lift(PS.ReadInt(buf, i3));
    Success((i4, Packed(codes, indices, values, length)))
  }

  /** `int(x * (1 << 15))` on every sample: truncation, on Python's unbounded ints. */
  function Scaled(signal: seq<real>): (ints: seq<int>)
    ensures |ints| == |signal|
    ensures forall k :: 0 <= k < |signal| ==> ints[k] == Q.Trunc(signal[k] * Q.Scale as real)
  {
    seq(|signal|, k requires 0 <= k < |signal| => Q.Trunc(signal[k] * Q.Scale as real))
  }

  /** `decode_py` then the scaling: the MATLAB decoder gets the unpacked bits and the extrema. */
  function DecodePoint(p: Packed, decode: (seq<bit>, seq<float64>, seq<float64>) -> seq<real>): seq<int>
  {
    Scaled(decode(Unpack(p.codes, p.length), p.indices, p.values))
  }

  /** The loop of `deserialize_and_decode` for `n` more points from cursor `index`. */
  function DecodeFrom(buf: seq<byte>, index: int, n: int,
                      decode: (seq<bit>, seq<float64>, seq<float64>) -> seq<real>): (r: Result<seq<seq<int>>, Error>)
    ensures r.Success? ==> |r.value| == if n <= 0 then 0 else n
    decreases if n <= 0 then 0 else n
  {
    if n <= 0 then Success([])
    else
      var (next, p) :- DecodeFields(buf, index);
      var rest :- DecodeFrom(buf, next, n - 1, decode);
      Success([DecodePoint(p, decode)] + rest)
  }

  /** `deserialize_and_decode`: one list of scaled samples per point. */
  function DeserializeAndDecode(buf: seq<byte>, start: int, pointCount: int,
                                decode: (seq<bit>, seq<float64>, seq<float64>) -> seq<real>): (r: Result<seq<seq<int>>, Error>)
    ensures r.Success? ==> |r.value| == if pointCount <= 0 then 0 else pointCount
  {
    DecodeFrom(buf, start, pointCount, decode)
  }

  // ---------------------------------------------------------------- round trip

  lemma SliceParts(b: seq<byte>, at: nat, x: seq<byte>, y: seq<byte>)
    requires at + |x| + |y| <= |b| && b[at..at + |x| + |y|] == x + y
    ensures b[at..at + |x|] == x && b[at + |x|..at + |x| + |y|] == y
  {
    assert b[at..at + |x|] == (x + y)[..|x|];
    assert b[at + |x|..at + |x| + |y|] == (x + y)[|x|..];
  }

  lemma ReadFramed(b: seq<byte>, at: nat, x: seq<byte>, next: nat)
    requires |x| < Two31 && next == at + 4 + |x| && next <= |b| && b[at..next] == Framed(x)
    ensures PS.ReadBytes(b, at) == Success((next, x))
  {
    SliceParts(b, at, Int32Bytes(|x|), x);
    Int32RoundTrip(|x|);
  }

  /** The decoder reads back exactly the four fields of a point the encoder laid down. */
  lemma DecodePointBytes(b: seq<byte>, at: nat, p: Packed, next: nat)
    requires Fits(p) && next == at + |PointBytes(p)| && next <= |b| && b[at..next] == PointBytes(p)
    ensures DecodeFields(b, at) == Success((next, p))
  {
    var x2, x3 := PackDoubles(p.indices), PackDoubles(p.values);
    var i1 := at + 4 + |p.codes|;
    var i2 := i1 + 4 + |x2|;
    var i3 := i2 + 4 + |x3|;
    FieldSlices(b, at, Framed(p.codes), Framed(x2), Framed(x3), Int32Bytes(p.length));
    ReadsDecode(b, at, i1, i2, i3, next, p);
  }

  /** Fields laid down where the decoder looks for them decode to the point. */
  lemma ReadsDecode(b: seq<byte>, at: nat, i1: nat, i2: nat, i3: nat, i4: nat, p: Packed)
    requires Fits(p)
    requires i1 == at + 4 + |p.codes| && i2 == i1 + 4 + |PackDoubles(p.indices)|
    requires i3 == i2 + 4 + |PackDoubles(p.values)| && i4 == i3 + 4 && i4 <= |b|
    requires b[at..i1] == Framed(p.codes) && b[i1..i2] == Framed(PackDoubles(p.indices))
    requires b[i2..i3] == Framed(PackDoubles(p.values)) && b[i3..i4] == Int32Bytes(p.length)
    ensures DecodeFields(b, at) == Success((i4, p))
  {
    PointReads(b, at, i1, i2, i3, i4, p.codes, PackDoubles(p.indices), PackDoubles(p.values), p.length);
    UnpackPack(p.indices);
    UnpackPack(p.values);
    DecodeFieldsOf(b, at, i1, i2, i3, i4, p);
  }

  lemma FieldSlices(b: seq<byte>, at: nat, f1: seq<byte>, f2: seq<byte>, f3: seq<byte>, f4: seq<byte>)
    requires at + |f1| + |f2| + |f3| + |f4| <= |b| && b[at..at + |f1| + |f2| + |f3| + |f4|] == f1 + f2 + f3 + f4
    ensures b[at..at + |f1|] == f1
    ensures b[at + |f1|..at + |f1| + |f2|] == f2
    ensures b[at + |f1| + |f2|..at + |f1| + |f2| + |f3|] == f3
    ensures b[at + |f1| + |f2| + |f3|..at + |f1| + |f2| + |f3| + |f4|] == f4
  {
    SliceParts(b, at, f1 + f2 + f3, f4);
    SliceParts(b, at, f1 + f2, f3);
    SliceParts(b, at, f1, f2);
  }

  /** The four serializer reads over a point's four fields. */
  lemma PointReads(b: seq<byte>, at: nat, i1: nat, i2: nat, i3: nat, i4: nat,
                   x1: seq<byte>, x2: seq<byte>, x3: seq<byte>, length: int32)
    requires |x1| < Two31 && |x2| < Two31 && |x3| < Two31
    requires i1 == at + 4 + |x1| && i2 == i1 + 4 + |x2| && i3 == i2 + 4 + |x3| && i4 == i3 + 4 && i4 <= |b|
    requires b[at..i1] == Framed(x1) && b[i1..i2] == Framed(x2) && b[i2..i3] == Framed(x3)
    requires b[i3..i4] == Int32Bytes(length)
    ensures PS.ReadBytes(b, at) == Success((i1, x1))
    ensures PS.ReadBytes(b, i1) == Success((i2, x2))
    ensures PS.ReadBytes(b, i2) == Success((i3, x3))
    ensures PS.ReadInt(b, i3) == Success((i4, length as int))
  {
    ReadFramed(b, at, x1, i1);
    ReadFramed(b, i1, x2, i2);
    ReadFramed(b, i2, x3, i3);
    ReadIntAt(b, i3, i4, length);
  }

  lemma ReadIntAt(b: seq<byte>, at: nat, next: nat, v: int32)
    requires next == at + 4 && next <= |b| && b[at..next] == Int32Bytes(v)
    ensures PS.ReadInt(b, at) == Success((next, v as int))
  {
    Int32RoundTrip(v);
  }

  lemma DecodeFieldsOf(b: seq<byte>, at: int, i1: int, i2: int, i3: int, i4: int, p: Packed)
    requires PS.ReadBytes(b, at) == Success((i1, p.codes))
    requires PS.ReadBytes(b, i1) == Success((i2, PackDoubles(p.indices)))
    requires PS.ReadBytes(b, i2) == Success((i3, PackDoubles(p.values)))
    requires UnpackDoubles(PackDoubles(p.indices)) == Success(p.indices)
    requires UnpackDoubles(PackDoubles(p.values)) == Success(p.values)
    requires PS.ReadInt(b, i3) == Success((i4, p.length))
    ensures DecodeFields(b, at) == Success((i4, p))
  {
  }

  /** Every point decoded and scaled, in order. */
  function DecodeEach(ps: seq<Packed>, decode: (seq<bit>, seq<float64>, seq<float64>) -> seq<real>): (r: seq<seq<int>>)
    ensures |r| == |ps|
    ensures forall i :: 0 <= i < |ps| ==> r[i] == DecodePoint(ps[i], decode)
  {
    if |ps| == 0 then [] else [DecodePoint(ps[0], decode)] + DecodeEach(ps[1..], decode)
  }

  lemma {:induction false} DecodeAllBytes(b: seq<byte>, at: nat, ps: seq<Packed>,
                                          decode: (seq<bit>, seq<float64>, seq<float64>) -> seq<real>)
    requires forall i :: 0 <= i < |ps| ==> Fits(ps[i])
    requires at + |AllBytes(ps)| <= |b| && b[at..at + |AllBytes(ps)|] == AllBytes(ps)
    ensures DecodeFrom(b, at, |ps|, decode) == Success(DecodeEach(ps, decode))
    decreases |ps|
  {
    if |ps| > 0 {
      var next := FirstPoint(b, at, ps);
      DecodeAllBytes(b, next, ps[1..], decode);
      DecodeFromStep(b, at, next, ps, decode);
    }
  }

  /** The first point of a laid-down run decodes, and the rest of the run follows it. */
  lemma FirstPoint(b: seq<byte>, at: nat, ps: seq<Packed>) returns (next: nat)
    requires |ps| > 0 && forall i :: 0 <= i < |ps| ==> Fits(ps[i])
    requires at + |AllBytes(ps)| <= |b| && b[at..at + |AllBytes(ps)|] == AllBytes(ps)
    ensures DecodeFields(b, at) == Success((next, ps[0]))
    ensures forall i :: 0 <= i < |ps[1..]| ==> Fits(ps[1..][i])
    ensures next + |AllBytes(ps[1..])| <= |b| && b[next..next + |AllBytes(ps[1..])|] == AllBytes(ps[1..])
  {
    next := at + |PointBytes(ps[0])|;
    AllBytesSplit(b, at, ps, next);
    DecodePointBytes(b, at, ps[0], next);
  }

  /** A point's fields at the cursor, then the rest of the points: all of them decode. */
  lemma DecodeFromStep(b: seq<byte>, at: nat, next: nat, ps: seq<Packed>,
                       decode: (seq<bit>, seq<float64>, seq<float64>) -> seq<real>)
    requires |ps| > 0 && DecodeFields(b, at) == Success((next, ps[0]))
    requires DecodeFrom(b, next, |ps[1..]|, decode) == Success(DecodeEach(ps[1..], decode))
    ensures DecodeFrom(b, at, |ps|, decode) == Success(DecodeEach(ps, decode))
  {
  }

  /** Points laid end to end: the first point's bytes, then the rest's. */
  lemma AllBytesSplit(b: seq<byte>, at: nat, ps: seq<Packed>, next: nat)
    requires |ps| > 0 && forall i :: 0 <= i < |ps| ==> Fits(ps[i])
    requires at + |AllBytes(ps)| <= |b| && b[at..at + |AllBytes(ps)|] == AllBytes(ps)
    requires next == at + |PointBytes(ps[0])|
    ensures next + |AllBytes(ps[1..])| <= |b|
    ensures b[at..next] == PointBytes(ps[0])
    ensures b[next..next + |AllBytes(ps[1..])|] == AllBytes(ps[1..])
  {
    var x, y := PointBytes(ps[0]), AllBytes(ps[1..]);
    assert AllBytes(ps) == x + y;
    var end := next + |y|;
    assert end == at + |AllBytes(ps)|;
    SliceAt(b, at, next, end, x, y);
  }

  /** A slice that is x + y splits at the end of x. */
  lemma SliceAt(b: seq<byte>, at: nat, mid: nat, end: nat, x: seq<byte>, y: seq<byte>)
    requires mid == at + |x| && end == mid + |y| && end <= |b| && b[at..end] == x + y
    ensures b[at..mid] == x && b[mid..end] == y
  {
    SliceParts(b, at, x, y);
  }

  /**
   * End to end through the service with a lossless buffer: what
   * `encode_and_serialize` writes, `deserialize_and_decode` reads back as the
   * MATLAB decoder applied to the encoder's extrema and to the bits as the
   * packer as written lets them through, scaled. For a point whose bit count
   * is a multiple of eight those are exactly the encoder's bits.
   */
  lemma EncodeDecodeRoundTrip(buf: seq<byte>, received: seq<seq<real>>, encode: seq<real> -> Codes,
                              decode: (seq<bit>, seq<float64>, seq<float64>) -> seq<real>)
    requires AllFit(Encoded(received, encode))
    requires EncodeAndSerialize(buf, received, encode).result.Success?
    ensures var r := DeserializeAndDecode(EncodeAndSerialize(buf, received, encode).buffer, 0, |received|, decode);
            r.Success? && |r.value| == |received|
            && forall i :: 0 <= i < |received| ==>
                 var c := encode(received[i]);
                 r.value[i] == Scaled(decode(Unpack(MergeAsWritten(c.bits), |c.bits|), c.indices, c.values))
                 && (|c.bits| % 8 == 0 ==> r.value[i] == Scaled(decode(c.bits, c.indices, c.values)))
  {
    var ps := Encoded(received, encode);
    var b := EncodeAndSerialize(buf, received, encode).buffer;
    DecodeAllBytes(b, 0, ps, decode);
    var r := DecodeEach(ps, decode);
    forall i | 0 <= i < |received|
      ensures var c := encode(received[i]);
              r[i] == Scaled(decode(Unpack(MergeAsWritten(c.bits), |c.bits|), c.indices, c.values))
              && (|c.bits| % 8 == 0 ==> r[i] == Scaled(decode(c.bits, c.indices, c.values)))
    {
      assert r[i] == DecodePoint(ps[i], decode);
    }
  }
}
