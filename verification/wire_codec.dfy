/**
 * The C# wire codec (`BinarySerializer` extension methods on `byte[]`).
 * Every operation takes a cursor and returns the advanced cursor. A Read or
 * Write first compares the end of the field with the buffer length and throws
 * `IndexOutOfRangeException` when it does not fit; a negative cursor passes
 * that check and is then rejected by `BitConverter` / `CopyTo` with
 * `ArgumentOutOfRangeException`. Writes check the whole extent before copying
 * anything, so a failing Write returns no buffer: the caller's bytes stay as
 * they were.
 */
module WireCodec {
  import opened Wrappers
  import opened Bytes

  datatype Error = IndexOutOfRange | ArgumentOutOfRange

  datatype Vector3 = Vector3(x: float32, y: float32, z: float32)
  datatype Quaternion = Quaternion(x: float32, y: float32, z: float32, w: float32)

  /** A successful Read: the advanced cursor and the value read. */
  datatype Read<T> = Read(end: int, value: T)
  /** A successful Write: the updated buffer and the advanced cursor. */
  datatype Written = Written(buffer: seq<byte>, end: int)

  const BoolSize: nat := 1
  const IntSize: nat := 4
  const LongSize: nat := 8
  const FloatSize: nat := 4
  const DoubleSize: nat := 8
  const Vector3Size: nat := 3 * FloatSize
  const QuaternionSize: nat := 4 * FloatSize

  /** b agrees with a everywhere except possibly on [lo, hi). */
  ghost predicate SameOutside(a: seq<byte>, b: seq<byte>, lo: int, hi: int)
  {
    |a| == |b| && forall k :: 0 <= k < |a| && !(lo <= k < hi) ==> b[k] == a[k]
  }

  /** The bounds check of a fixed-width Read, then the bytes it reads. */
  function Span(buf: seq<byte>, index: int, size: nat): (r: Result<seq<byte>, Error>)
    ensures r.Success? <==> 0 <= index && index + size <= |buf|
    ensures r == Failure(IndexOutOfRange) <==> index + size > |buf|
    ensures r.Success? ==> r.value == buf[index..index + size]
  {
    if index + size > |buf| then Failure(IndexOutOfRange)
    else if index < 0 then Failure(ArgumentOutOfRange)
    else Success(buf[index..index + size])
  }

  /** The bounds check of a Write, then the copy of `bs` at `index`. */
  function Put(buf: seq<byte>, index: int, bs: seq<byte>): (r: Result<Written, Error>)
    ensures r.Success? <==> 0 <= index && index + |bs| <= |buf|
    ensures r == Failure(IndexOutOfRange) <==> index + |bs| > |buf|
    ensures r.Success? ==> r.value.end == index + |bs| && |r.value.buffer| == |buf|
    ensures r.Success? ==> r.value.buffer[index..index + |bs|] == bs
    ensures r.Success? ==> SameOutside(buf, r.value.buffer, index, index + |bs|)
  {
    if index + |bs| > |buf| then Failure(IndexOutOfRange)
    else if index < 0 then Failure(ArgumentOutOfRange)
    else Success(Written(Splice(buf, index, bs), index + |bs|))
  }

  // ---------------------------------------------------------------- Read

  function ReadBool(buf: seq<byte>, index: int): (r: Result<Read<bool>, Error>)
    ensures r.Success? <==> 0 <= index && index + BoolSize <= |buf|
    ensures r == Failure(IndexOutOfRange) <==> index + BoolSize > |buf|
    ensures r.Success? ==> r.value.end == index + BoolSize && (r.value.value <==> buf[index] != 0)
  {
    var s :- Span(buf, index, BoolSize);
    Success(Read(index + BoolSize, s[0] != 0))
  }

  function ReadInt(buf: seq<byte>, index: int): (r: Result<Read<int32>, Error>)
    ensures r.Success? <==> 0 <= index && index + IntSize <= |buf|
    ensures r == Failure(IndexOutOfRange) <==> index + IntSize > |buf|
    ensures r.Success? ==> r.value.end == index + IntSize
  {
    var s :- Span(buf, index, IntSize);
    Success(Read(index + IntSize, Int32Of(s)))
  }

  function ReadLong(buf: seq<byte>, index: int): (r: Result<Read<int64>, Error>)
    ensures r.Success? <==> 0 <= index && index + LongSize <= |buf|
    ensures r == Failure(IndexOutOfRange) <==> index + LongSize > |buf|
    ensures r.Success? ==> r.value.end == index + LongSize
  {
    var s :- Span(buf, index, LongSize);
    Success(Read(index + LongSize, Int64Of(s)))
  }

  function ReadFloat(buf: seq<byte>, index: int): (r: Result<Read<float32>, Error>)
    ensures r.Success? <==> 0 <= index && index + FloatSize <= |buf|
    ensures r == Failure(IndexOutOfRange) <==> index + FloatSize > |buf|
    ensures r.Success? ==> r.value.end == index + FloatSize
  {
    var s :- Span(buf, index, FloatSize);
    Success(Read(index + FloatSize, Float32Of(s)))
  }

  function ReadDouble(buf: seq<byte>, index: int): (r: Result<Read<float64>, Error>)
    ensures r.Success? <==> 0 <= index && index + DoubleSize <= |buf|
    ensures r == Failure(IndexOutOfRange) <==> index + DoubleSize > |buf|
    ensures r.Success? ==> r.value.end == index + DoubleSize
  {
    var s :- Span(buf, index, DoubleSize);
    Success(Read(index + DoubleSize, Float64Of(s)))
  }

  /** Checks all 12 bytes, then reads x, y, z in that order. */
  function ReadVector3(buf: seq<byte>, index: int): (r: Result<Read<Vector3>, Error>)
    ensures r.Success? <==> 0 <= index && index + Vector3Size <= |buf|
    ensures r == Failure(IndexOutOfRange) <==> index + Vector3Size > |buf|
    ensures r.Success? ==> r.value.end == index + Vector3Size
    ensures r.Success? ==> r.value.value.x == ReadFloat(buf, index).value.value
    ensures r.Success? ==> r.value.value.y == ReadFloat(buf, index + 4).value.value
    ensures r.Success? ==> r.value.value.z == ReadFloat(buf, index + 8).value.value
  {
    var _ :- Span(buf, index, Vector3Size);
    Success(Read(index + Vector3Size,
      Vector3(Float32Of(buf[index..index + 4]), Float32Of(buf[index + 4..index + 8]),
              Float32Of(buf[index + 8..index + 12]))))
  }

  /** Checks all 16 bytes, then reads x, y, z, w in that order. */
  function ReadQuaternion(buf: seq<byte>, index: int): (r: Result<Read<Quaternion>, Error>)
    ensures r.Success? <==> 0 <= index && index + QuaternionSize <= |buf|
    ensures r == Failure(IndexOutOfRange) <==> index + QuaternionSize > |buf|
    ensures r.Success? ==> r.value.end == index + QuaternionSize
    ensures r.Success? ==> r.value.value.x == ReadFloat(buf, index).value.value
    ensures r.Success? ==> r.value.value.y == ReadFloat(buf, index + 4).value.value
    ensures r.Success? ==> r.value.value.z == ReadFloat(buf, index + 8).value.value
    ensures r.Success? ==> r.value.value.w == ReadFloat(buf, index + 12).value.value
  {
    var _ :- Span(buf, index, QuaternionSize);
    Success(Read(index + QuaternionSize,
      Quaternion(Float32Of(buf[index..index + 4]), Float32Of(buf[index + 4..index + 8]),
                 Float32Of(buf[index + 8..index + 12]), Float32Of(buf[index + 12..index + 16]))))
  }

  /**
   * A 4-byte length n, then n bytes. The field's end is the C# sum
   * `lengthEnd + n`, which wraps around for a length near 2^31 - 1; only the
   * upper end is checked, so a negative n yields an empty array (LINQ `Take`
   * of a negative count) and a cursor below index + 4, and a wrapped end
   * passes the check and yields the rest of the buffer (`Skip` then `Take`
   * of more than is left) with a negative cursor.
   */
  function ReadBytes(buf: seq<byte>, index: int): (r: Result<Read<seq<byte>>, Error>)
    ensures index + IntSize > |buf| ==> r == Failure(IndexOutOfRange)
    ensures index < 0 && index + IntSize <= |buf| ==> r == Failure(ArgumentOutOfRange)
    ensures 0 <= index && index + IntSize <= |buf| ==>
              var n := ReadInt(buf, index).value.value;
              if Wrap32(index + IntSize + n) > |buf| then r == Failure(IndexOutOfRange)
              else r.Success? && r.value.end == Wrap32(index + IntSize + n)
                   && (n < 0 ==> r.value.value == [] && r.value.end < index + IntSize)
                   && (0 <= n && index + IntSize + n <= |buf| ==>
                         r.value.value == buf[index + IntSize..index + IntSize + n])
                   && (index + IntSize + n > |buf| ==> r.value.value == buf[index + IntSize..])
  {
    var lengthEnd := index + IntSize;
    if lengthEnd > |buf| then Failure(IndexOutOfRange)
    else
      var n :- ReadInt(buf, index);
      var end := Wrap32(lengthEnd + n.value);
      if end > |buf| then Failure(IndexOutOfRange)
      else if n.value < 0 then Success(Read(end, []))
      else if lengthEnd + n.value > |buf| then Success(Read(end, buf[lengthEnd..]))
      else Success(Read(end, buf[lengthEnd..lengthEnd + n.value]))
  }

  /**
   * As ReadBytes, but the payload goes through `Encoding.UTF8.GetString`,
   * which rejects a negative count and a count running past the buffer (the
   * wrapped end). The string is modelled by its UTF-8 bytes.
   */
  function ReadString(buf: seq<byte>, index: int): (r: Result<Read<seq<byte>>, Error>)
    ensures index + IntSize > |buf| ==> r == Failure(IndexOutOfRange)
    ensures index < 0 && index + IntSize <= |buf| ==> r == Failure(ArgumentOutOfRange)
    ensures 0 <= index && index + IntSize <= |buf| ==>
              var n := ReadInt(buf, index).value.value;
              if Wrap32(index + IntSize + n) > |buf| then r == Failure(IndexOutOfRange)
              else if n < 0 || index + IntSize + n > |buf| then r == Failure(ArgumentOutOfRange)
              else r == Success(Read(Wrap32(index + IntSize + n), buf[index + IntSize..index + IntSize + n]))
  {
    var lengthEnd := index + IntSize;
    if lengthEnd > |buf| then Failure(IndexOutOfRange)
    else
      var n :- ReadInt(buf, index);
      var end := Wrap32(lengthEnd + n.value);
      if end > |buf| then Failure(IndexOutOfRange)
      else if n.value < 0 || lengthEnd + n.value > |buf| then Failure(ArgumentOutOfRange)
      else Success(Read(end, buf[lengthEnd..lengthEnd + n.value]))
  }

  /**
   * A length prefix of 2^31 - 1 at the start of an 8-byte buffer: the end
   * wraps to -2147483645, so ReadBytes returns the last four bytes with that
   * cursor and ReadString fails in `GetString`.
   */
  lemma LengthPrefixWraps(tail: seq<byte>)
    requires |tail| == 4
    ensures var buf := Int32Bytes(Two31 - 1) + tail;
            ReadBytes(buf, 0) == Success(Read(-2147483645, tail))
            && ReadString(buf, 0) == Failure(ArgumentOutOfRange)
  {
    var buf := Int32Bytes(Two31 - 1) + tail;
    assert buf[0..4] == Int32Bytes(Two31 - 1);
    Int32RoundTrip(Two31 - 1);
    assert buf[4..] == tail;
  }

  // ---------------------------------------------------------------- Write

  function BoolBytes(v: bool): seq<byte>
  {
    if v then [1] else [0]
  }

  function Vector3Bytes(v: Vector3): (r: seq<byte>)
    ensures |r| == Vector3Size
  {
    Float32Bytes(v.x) + Float32Bytes(v.y) + Float32Bytes(v.z)
  }

  function QuaternionBytes(q: Quaternion): (r: seq<byte>)
    ensures |r| == QuaternionSize
  {
    Float32Bytes(q.x) + Float32Bytes(q.y) + Float32Bytes(q.z) + Float32Bytes(q.w)
  }

  function WriteBool(buf: seq<byte>, index: int, v: bool): (r: Result<Written, Error>)
    ensures r.Success? <==> 0 <= index && index + BoolSize <= |buf|
    ensures r == Failure(IndexOutOfRange) <==> index + BoolSize > |buf|
    ensures r.Success? ==> r.value.end == index + BoolSize
    ensures r.Success? ==> SameOutside(buf, r.value.buffer, index, r.value.end)
  {
    Put(buf, index, BoolBytes(v))
  }

  function WriteInt(buf: seq<byte>, index: int, v: int32): (r: Result<Written, Error>)
    ensures r.Success? <==> 0 <= index && index + IntSize <= |buf|
    ensures r == Failure(IndexOutOfRange) <==> index + IntSize > |buf|
    ensures r.Success? ==> r.value.end == index + IntSize
    ensures r.Success? ==> SameOutside(buf, r.value.buffer, index, r.value.end)
  {
    Put(buf, index, Int32Bytes(v))
  }

  function WriteLong(buf: seq<byte>, index: int, v: int64): (r: Result<Written, Error>)
    ensures r.Success? <==> 0 <= index && index + LongSize <= |buf|
    ensures r == Failure(IndexOutOfRange) <==> index + LongSize > |buf|
    ensures r.Success? ==> r.value.end == index + LongSize
    ensures r.Success? ==> SameOutside(buf, r.value.buffer, index, r.value.end)
  {
    Put(buf, index, Int64Bytes(v))
  }

  function WriteFloat(buf: seq<byte>, index: int, v: float32): (r: Result<Written, Error>)
    ensures r.Success? <==> 0 <= index && index + FloatSize <= |buf|
    ensures r == Failure(IndexOutOfRange) <==> index + FloatSize > |buf|
    ensures r.Success? ==> r.value.end == index + FloatSize
    ensures r.Success? ==> SameOutside(buf, r.value.buffer, index, r.value.end)
  {
    Put(buf, index, Float32Bytes(v))
  }

  function WriteDouble(buf: seq<byte>, index: int, v: float64): (r: Result<Written, Error>)
    ensures r.Success? <==> 0 <= index && index + DoubleSize <= |buf|
    ensures r == Failure(IndexOutOfRange) <==> index + DoubleSize > |buf|
    ensures r.Success? ==> r.value.end == index + DoubleSize
    ensures r.Success? ==> SameOutside(buf, r.value.buffer, index, r.value.end)
  {
    Put(buf, index, Float64Bytes(v))
  }

  /**
   * The string is given as its UTF-8 encoding; the whole extent is checked
   * first. Its length, like every C# array length, is an int.
   */
  function WriteString(buf: seq<byte>, index: int, utf8: seq<byte>): (r: Result<Written, Error>)
    requires |utf8| < Two31
    ensures r.Success? <==> 0 <= index && index + IntSize + |utf8| <= |buf|
    ensures r == Failure(IndexOutOfRange) <==> index + IntSize + |utf8| > |buf|
    ensures r.Success? ==> r.value.end == index + IntSize + |utf8|
    ensures r.Success? ==> SameOutside(buf, r.value.buffer, index, r.value.end)
  {
    Put(buf, index, Int32Bytes(|utf8|) + utf8)
  }

  /** A length-prefixed byte array; its length, an array length, is an int. */
  function WriteBytes(buf: seq<byte>, index: int, value: seq<byte>): (r: Result<Written, Error>)
    requires |value| < Two31
    ensures r.Success? <==> 0 <= index && index + IntSize + |value| <= |buf|
    ensures r == Failure(IndexOutOfRange) <==> index + IntSize + |value| > |buf|
    ensures r.Success? ==> r.value.end == index + IntSize + |value|
    ensures r.Success? ==> SameOutside(buf, r.value.buffer, index, r.value.end)
  {
    Put(buf, index, Int32Bytes(|value|) + value)
  }

  function WriteVector3(buf: seq<byte>, index: int, v: Vector3): (r: Result<Written, Error>)
    ensures r.Success? <==> 0 <= index && index + Vector3Size <= |buf|
    ensures r == Failure(IndexOutOfRange) <==> index + Vector3Size > |buf|
    ensures r.Success? ==> r.value.end == index + Vector3Size
    ensures r.Success? ==> SameOutside(buf, r.value.buffer, index, r.value.end)
  {
    Put(buf, index, Vector3Bytes(v))
  }

  function WriteQuaternion(buf: seq<byte>, index: int, q: Quaternion): (r: Result<Written, Error>)
    ensures r.Success? <==> 0 <= index && index + QuaternionSize <= |buf|
    ensures r == Failure(IndexOutOfRange) <==> index + QuaternionSize > |buf|
    ensures r.Success? ==> r.value.end == index + QuaternionSize
    ensures r.Success? ==> SameOutside(buf, r.value.buffer, index, r.value.end)
  {
    Put(buf, index, QuaternionBytes(q))
  }

  // ---------------------------------------------------------------- Round trips

  lemma BoolRoundTrip(buf: seq<byte>, index: int, v: bool)
    requires WriteBool(buf, index, v).Success?
    ensures ReadBool(WriteBool(buf, index, v).value.buffer, index) == Success(Read(index + BoolSize, v))
  {
    var b := WriteBool(buf, index, v).value.buffer;
    assert b[index..index + 1] == BoolBytes(v);
    assert b[index] == BoolBytes(v)[0];
  }

  lemma IntRoundTrip(buf: seq<byte>, index: int, v: int32)
    requires WriteInt(buf, index, v).Success?
    ensures ReadInt(WriteInt(buf, index, v).value.buffer, index) == Success(Read(index + IntSize, v))
  {
    Int32RoundTrip(v);
  }

  /** Reading an int where its four bytes lie. */
  lemma ReadIntAt(buf: seq<byte>, index: nat, v: int32)
    requires index + IntSize <= |buf| && buf[index..index + IntSize] == Int32Bytes(v)
    ensures ReadInt(buf, index) == Success(Read(index + IntSize, v))
  {
    Int32RoundTrip(v);
  }

  lemma LongRoundTrip(buf: seq<byte>, index: int, v: int64)
    requires WriteLong(buf, index, v).Success?
    ensures ReadLong(WriteLong(buf, index, v).value.buffer, index) == Success(Read(index + LongSize, v))
  {
    Int64RoundTrip(v);
  }

  lemma FloatRoundTrip(buf: seq<byte>, index: int, v: float32)
    requires WriteFloat(buf, index, v).Success?
    ensures ReadFloat(WriteFloat(buf, index, v).value.buffer, index) == Success(Read(index + FloatSize, v))
  {
    Float32RoundTrip(v);
  }

  lemma DoubleRoundTrip(buf: seq<byte>, index: int, v: float64)
    requires WriteDouble(buf, index, v).Success?
    ensures ReadDouble(WriteDouble(buf, index, v).value.buffer, index) == Success(Read(index + DoubleSize, v))
  {
    Float64RoundTrip(v);
  }

  lemma Vector3RoundTrip(buf: seq<byte>, index: int, v: Vector3)
    requires WriteVector3(buf, index, v).Success?
    ensures ReadVector3(WriteVector3(buf, index, v).value.buffer, index) == Success(Read(index + Vector3Size, v))
  {
    var b := WriteVector3(buf, index, v).value.buffer;
    var s := b[index..index + Vector3Size];
    assert s == Vector3Bytes(v);
    assert b[index..index + 4] == s[0..4] == Float32Bytes(v.x);
    assert b[index + 4..index + 8] == s[4..8] == Float32Bytes(v.y);
    assert b[index + 8..index + 12] == s[8..12] == Float32Bytes(v.z);
    Float32RoundTrip(v.x);
    Float32RoundTrip(v.y);
    Float32RoundTrip(v.z);
  }

  lemma QuaternionRoundTrip(buf: seq<byte>, index: int, q: Quaternion)
    requires WriteQuaternion(buf, index, q).Success?
    ensures ReadQuaternion(WriteQuaternion(buf, index, q).value.buffer, index) == Success(Read(index + QuaternionSize, q))
  {
    var b := WriteQuaternion(buf, index, q).value.buffer;
    var s := b[index..index + QuaternionSize];
    assert s == QuaternionBytes(q);
    assert b[index..index + 4] == s[0..4] == Float32Bytes(q.x);
    assert b[index + 4..index + 8] == s[4..8] == Float32Bytes(q.y);
    assert b[index + 8..index + 12] == s[8..12] == Float32Bytes(q.z);
    assert b[index + 12..index + 16] == s[12..16] == Float32Bytes(q.w);
    Float32RoundTrip(q.x);
    Float32RoundTrip(q.y);
    Float32RoundTrip(q.z);
    Float32RoundTrip(q.w);
  }

  lemma BytesRoundTrip(buf: seq<byte>, index: int, value: seq<byte>)
    requires |buf| < Two31 && |value| < Two31
    requires WriteBytes(buf, index, value).Success?
    ensures ReadBytes(WriteBytes(buf, index, value).value.buffer, index)
            == Success(Read(index + IntSize + |value|, value))
  {
    var b := WriteBytes(buf, index, value).value.buffer;
    var framed := Int32Bytes(|value|) + value;
    assert b[index..index + |framed|] == framed;
    assert b[index..index + IntSize] == framed[..4] == Int32Bytes(|value|);
    Int32RoundTrip(|value|);
    assert b[index + IntSize..index + IntSize + |value|] == framed[4..] == value;
  }

  lemma StringRoundTrip(buf: seq<byte>, index: int, utf8: seq<byte>)
    requires |buf| < Two31 && |utf8| < Two31
    requires WriteString(buf, index, utf8).Success?
    ensures ReadString(WriteString(buf, index, utf8).value.buffer, index)
            == Success(Read(index + IntSize + |utf8|, utf8))
  {
    var b := WriteString(buf, index, utf8).value.buffer;
    var framed := Int32Bytes(|utf8|) + utf8;
    assert b[index..index + |framed|] == framed;
    assert b[index..index + IntSize] == framed[..4] == Int32Bytes(|utf8|);
    Int32RoundTrip(|utf8|);
    assert b[index + IntSize..index + IntSize + |utf8|] == framed[4..] == utf8;
  }
}
