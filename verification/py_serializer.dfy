/**
 * The Python `BinarySerializer` of the compression service. Its cursors are
 * plain Python ints, so a negative cursor is not rejected: slices and item
 * assignments then count from the end of the buffer. The model keeps those
 * semantics (PySlice, PyPosition) and states the intended laws for
 * non-negative cursors.
 *
 * Writes mutate the `bytearray` in place before they may raise, so a write
 * returns an Outcome: the buffer as the caller sees it afterwards, and either
 * the new cursor or the exception raised.
 */
module PySerializer {
  import opened Wrappers
  import opened Bytes

  datatype PyError = IndexError | OverflowError

  datatype Outcome = Outcome(buffer: seq<byte>, result: Result<int, PyError>)

  const IntSize: nat := 4

  /** How Python clamps a slice bound `i` of a sequence of length n. */
  function SliceBound(i: int, n: nat): (r: nat)
    ensures r <= n
    ensures 0 <= i <= n ==> r == i
  {
    if i < 0 then (if i + n < 0 then 0 else i + n)
    else if i > n then n
    else i
  }

  /** Python's `s[i:j]`. */
  function PySlice(s: seq<byte>, i: int, j: int): (r: seq<byte>)
    ensures 0 <= i <= j <= |s| ==> r == s[i..j]
    ensures |r| <= |s|
  {
    var lo := SliceBound(i, |s|);
    var hi := SliceBound(j, |s|);
    if lo < hi then s[lo..hi] else []
  }

  /** The element `s[k]` denotes in Python, for -|s| <= k < |s|. */
  function PyPosition(k: int, n: nat): (r: nat)
    requires -(n as int) <= k < n
    ensures r < n
    ensures 0 <= k ==> r == k
  {
    if k < 0 then k + n else k
  }

  /** The loop `for i in range(len(bs)): buffer[index + i] = bs[i]`. */
  function Store(buf: seq<byte>, index: int, bs: seq<byte>): (r: seq<byte>)
    requires -(|buf| as int) <= index && index + |bs| <= |buf|
    ensures |r| == |buf|
    decreases |bs|
  {
    if |bs| == 0 then buf
    else Store(buf[PyPosition(index, |buf|) := bs[0]], index + 1, bs[1..])
  }

  /** For a non-negative cursor the store loop is a plain splice. */
  lemma {:induction false} StoreIsSplice(buf: seq<byte>, index: int, bs: seq<byte>)
    requires 0 <= index && index + |bs| <= |buf|
    ensures Store(buf, index, bs) == Splice(buf, index, bs)
    decreases |bs|
  {
    if |bs| > 0 {
      var b1 := buf[index := bs[0]];
      StoreIsSplice(b1, index + 1, bs[1..]);
      var lhs := Splice(b1, index + 1, bs[1..]);
      var rhs := Splice(buf, index, bs);
      assert forall k :: 0 <= k < |buf| ==> lhs[k] == rhs[k] by {
        forall k | 0 <= k < |buf|
          ensures lhs[k] == rhs[k]
        {
          if index + 1 <= k < index + |bs| {
            assert lhs[k] == lhs[index + 1..index + |bs|][k - index - 1];
            assert rhs[k] == rhs[index..index + |bs|][k - index];
          } else if k == index {
            assert rhs[k] == rhs[index..index + |bs|][0];
          }
        }
      }
    }
  }

  /** `read_int`: only the upper end of the field is checked. */
  function ReadInt(buf: seq<byte>, index: int): (r: Result<(int, int), PyError>)
    ensures r.Failure? <==> index + IntSize > |buf|
    ensures r.Success? ==> r.value.0 == index + IntSize
    ensures r.Success? && 0 <= index ==> r.value.1 == Int32Of(buf[index..index + IntSize])
  {
    var end := index + IntSize;
    if end > |buf| then Failure(IndexError)
    else Success((end, SignedLE(PySlice(buf, index, end))))
  }

  /**
   * `write_int`: the bounds check, then `int.to_bytes` (OverflowError outside
   * the int32 range), then the store loop, whose first assignment raises
   * IndexError when the cursor lies below -len(buffer). Nothing is written
   * before any of these raises.
   */
  function WriteInt(buf: seq<byte>, index: int, value: int): (r: Outcome)
    ensures r.result.Failure? ==> r.buffer == buf
    ensures r.result == Failure(IndexError) <==> index + IntSize > |buf| || (index < -|buf| && -Two31 <= value < Two31)
    ensures r.result == Failure(OverflowError) <==> index + IntSize <= |buf| && !(-Two31 <= value < Two31)
    ensures r.result.Success? ==> r.result.value == index + IntSize && |r.buffer| == |buf|
    ensures r.result.Success? && 0 <= index ==> r.buffer == Splice(buf, index, Int32Bytes(value))
  {
    var end := index + IntSize;
    if end > |buf| then Outcome(buf, Failure(IndexError))
    else if !(-Two31 <= value < Two31) then Outcome(buf, Failure(OverflowError))
    else if index < -|buf| then Outcome(buf, Failure(IndexError))
    else
      var stored := Store(buf, index, Int32Bytes(value));
      if 0 <= index then StoreIsSplice(buf, index, Int32Bytes(value)); Outcome(stored, Success(end))
      else Outcome(stored, Success(end))
  }

  /**
   * `read_bytes`: a 4-byte count, then `buffer[index:index + count]`. Only the
   * upper end is checked, so a negative count slices from the end of the
   * buffer (or yields nothing) and moves the cursor backwards.
   */
  function ReadBytes(buf: seq<byte>, index: int): (r: Result<(int, seq<byte>), PyError>)
    ensures index + IntSize > |buf| ==> r == Failure(IndexError)
    ensures 0 <= index && index + IntSize <= |buf| ==>
              var count := Int32Of(buf[index..index + IntSize]);
              var end := index + IntSize + count;
              (r.Failure? <==> end > |buf|)
              && (r.Success? ==> r.value.0 == end)
              && (r.Success? && count >= 0 ==> r.value.1 == buf[index + IntSize..end])
  {
    var (start, count) :- ReadInt(buf, index);
    var end := start + count;
    if end > |buf| then Failure(IndexError)
    else Success((end, PySlice(buf, start, end)))
  }

  /**
   * `write_bytes`: the count is written through `write_int` first; only then is
   * the body's extent checked, so an IndexError there leaves the four count
   * bytes written.
   */
  function WriteBytes(buf: seq<byte>, index: int, value: seq<byte>): (r: Outcome)
    ensures |r.buffer| == |buf|
    ensures r.result.Success? <==> -|buf| <= index && index + IntSize + |value| <= |buf| && |value| < Two31
    ensures r.result.Success? ==> r.result.value == index + IntSize + |value|
    ensures r.result.Success? && 0 <= index ==>
              r.buffer == Splice(buf, index, Int32Bytes(|value|) + value)
  {
    var count := |value|;
    var header := WriteInt(buf, index, count);
    if header.result.Failure? then header
    else
      var start := header.result.value;
      var end := start + count;
      if end > |buf| then Outcome(header.buffer, Failure(IndexError))
      else
        var stored := Store(header.buffer, start, value);
        if 0 <= index then
          StoreIsSplice(header.buffer, start, value);
          SpliceTwice(buf, index, Int32Bytes(count), value);
          Outcome(stored, Success(end))
        else Outcome(stored, Success(end))
  }

  /**
   * A failing `write_bytes` fails as its count write does; when the count was
   * written and the body does not fit, the count bytes stay in the buffer.
   */
  lemma WriteBytesFailure(buf: seq<byte>, index: int, value: seq<byte>)
    ensures var header := WriteInt(buf, index, |value|);
            (header.result.Failure? ==> WriteBytes(buf, index, value) == header)
            && (header.result.Success? && index + IntSize + |value| > |buf| ==>
                  WriteBytes(buf, index, value) == Outcome(header.buffer, Failure(IndexError)))
  {
  }

  // ---------------------------------------------------------------- Round trips

  lemma IntRoundTrip(buf: seq<byte>, index: int, v: int32)
    requires 0 <= index
    requires WriteInt(buf, index, v).result.Success?
    ensures ReadInt(WriteInt(buf, index, v).buffer, index) == Success((index + IntSize, v as int))
  {
    Int32RoundTrip(v);
  }

  lemma BytesRoundTrip(buf: seq<byte>, index: int, value: seq<byte>)
    requires 0 <= index
    requires WriteBytes(buf, index, value).result.Success?
    ensures ReadBytes(WriteBytes(buf, index, value).buffer, index)
            == Success((index + IntSize + |value|, value))
  {
    var b := WriteBytes(buf, index, value).buffer;
    var framed := Int32Bytes(|value|) + value;
    assert b[index..index + |framed|] == framed;
    assert b[index..index + IntSize] == framed[..4] == Int32Bytes(|value|);
    Int32RoundTrip(|value|);
    assert b[index + IntSize..index + IntSize + |value|] == framed[4..] == value;
  }
}
