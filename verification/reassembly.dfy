/**
 * Datagram reassembly in the server `UdpReceiver` receive loop. Every datagram
 * starts with a 4-byte tag: tag 0 means "more follows" and its body is kept
 * pending; any other tag ends a message, which is delivered as the pending
 * bodies followed by this body, in arrival order. An exception while handling
 * one datagram is logged and the loop goes on with the pending list as it was.
 */
module Reassembly {
  import opened Wrappers
  import opened Bytes
  import WireCodec

  const TagSize: nat := 4

  /** What the handler of one datagram throws (and the loop logs). */
  datatype Fault =
    | ReceiveFailed                          // a datagram larger than the receive buffer
    | TagUnreadable(error: WireCodec.Error)  // ReadInt on a receive buffer shorter than 4 bytes
    | NegativeBodyLength                     // `new byte[received - 4]` for a datagram under 4 bytes

  datatype Receiver = Receiver(pending: seq<seq<byte>>, isReceiving: bool)

  datatype StepResult = StepResult(pending: seq<seq<byte>>, delivered: Option<seq<byte>>, logged: Option<Fault>)

  function Tag(d: seq<byte>): int32
    requires |d| >= TagSize
  {
    Int32Of(d[..TagSize])
  }

  /** The payload after the tag (nothing, for a datagram too short to carry one). */
  function Body(d: seq<byte>): seq<byte>
  {
    if |d| < TagSize then [] else d[TagSize..]
  }

  /** A fresh receive buffer of `bufferSize` bytes after `d` was received into it. */
  function ReceiveBuffer(d: seq<byte>, bufferSize: nat): (r: seq<byte>)
    requires |d| <= bufferSize
    ensures |r| == bufferSize && r[..|d|] == d
  {
    d + seq(bufferSize - |d|, _ => 0)
  }

  /** The handling of one datagram `d` received into a buffer of `bufferSize` bytes. */
  function Step(pending: seq<seq<byte>>, d: seq<byte>, bufferSize: nat): (r: StepResult)
    ensures r.logged.Some? <==> bufferSize < |d| || bufferSize < TagSize || |d| < TagSize
    ensures r.logged.Some? ==> r.pending == pending && r.delivered.None?
    ensures r.logged.None? && Tag(d) == 0 ==>
              r.pending == pending + [Body(d)] && r.delivered.None?
    ensures r.logged.None? && Tag(d) != 0 ==>
              r.pending == [] && r.delivered == Some(Concat(pending) + Body(d))
    ensures r.logged.None? && Tag(d) != 0 && pending == [] ==> r.delivered == Some(Body(d))
  {
    if bufferSize < |d| then StepResult(pending, None, Some(ReceiveFailed))
    else
    var buffer := ReceiveBuffer(d, bufferSize);
    match WireCodec.ReadInt(buffer, 0)
    case Failure(e) => StepResult(pending, None, Some(TagUnreadable(e)))
    case Success(read) =>
      if |d| < TagSize then StepResult(pending, None, Some(NegativeBodyLength))
      else
        assert buffer[..TagSize] == d[..TagSize];
        var body := buffer[read.end..|d|];
        assert body == Body(d);
        if read.value == 0 then StepResult(pending + [body], None, None)
        else if |pending| == 0 then
          assert Concat(pending) + body == body;
          StepResult(pending, Some(body), None)
        else StepResult([], Some(Concat(pending) + body), None)
  }

  /** The delivered message is as long as its parts together. */
  lemma {:induction false} DeliveredLength(pending: seq<seq<byte>>, d: seq<byte>, bufferSize: nat)
    requires Step(pending, d, bufferSize).delivered.Some?
    ensures |Step(pending, d, bufferSize).delivered.value| == TotalLength(pending) + |d| - TagSize
  {
    ConcatLength(pending);
  }

  function Start(r: Receiver, bound: bool): (r': Receiver)
    ensures r'.pending == r.pending
    ensures r'.isReceiving == (bound || r.isReceiving)
  {
    if bound then r.(isReceiving := true) else r
  }

  function Close(r: Receiver): (r': Receiver)
    ensures !r'.isReceiving && r'.pending == r.pending
  {
    r.(isReceiving := false)
  }

  /** The receive loop over a sequence of datagrams: the final state and the deliveries, in order. */
  function Loop(r: Receiver, ds: seq<seq<byte>>, bufferSize: nat): (res: (Receiver, seq<seq<byte>>))
    ensures |res.1| <= |ds|
    ensures res.0.isReceiving == r.isReceiving
    decreases |ds|
  {
    if |ds| == 0 || !r.isReceiving then (r, [])
    else
      var s := Step(r.pending, ds[0], bufferSize);
      var rest := Loop(r.(pending := s.pending), ds[1..], bufferSize);
      (rest.0, (if s.delivered.Some? then [s.delivered.value] else []) + rest.1)
  }

  /** Once closed, the loop delivers nothing more. */
  lemma ClosedDeliversNothing(r: Receiver, ds: seq<seq<byte>>, bufferSize: nat)
    ensures Loop(Close(r), ds, bufferSize) == (Close(r), [])
  {
  }

  /** Datagrams that fit the buffer and carry tag 0. */
  predicate AllChunks(ds: seq<seq<byte>>, bufferSize: nat)
  {
    |ds| == 0 || (TagSize <= |ds[0]| <= bufferSize && Tag(ds[0]) == 0 && AllChunks(ds[1..], bufferSize))
  }

  function Bodies(ds: seq<seq<byte>>): (r: seq<seq<byte>>)
    ensures |r| == |ds|
    ensures forall i :: 0 <= i < |ds| ==> r[i] == Body(ds[i])
  {
    if |ds| == 0 then [] else [Body(ds[0])] + Bodies(ds[1..])
  }

  lemma ChunkStep(pending: seq<seq<byte>>, d: seq<byte>, bufferSize: nat)
    requires TagSize <= |d| <= bufferSize && Tag(d) == 0
    ensures Step(pending, d, bufferSize) == StepResult(pending + [Body(d)], None, None)
  {
  }

  lemma AppendAssoc<T>(a: seq<T>, b: seq<T>, c: seq<T>)
    ensures (a + b) + c == a + (b + c)
  {
  }

  /** Tag-0 chunks only accumulate. */
  lemma {:induction false} ChunksAccumulate(r: Receiver, ds: seq<seq<byte>>, bufferSize: nat)
    requires TagSize <= bufferSize && r.isReceiving
    requires AllChunks(ds, bufferSize)
    ensures Loop(r, ds, bufferSize) == (r.(pending := r.pending + Bodies(ds)), [])
    decreases |ds|
  {
    if |ds| == 0 {
      assert r.pending + Bodies(ds) == r.pending;
    } else {
      ChunkStep(r.pending, ds[0], bufferSize);
      var r1 := r.(pending := r.pending + [Body(ds[0])]);
      ChunksAccumulate(r1, ds[1..], bufferSize);
      var rest := Loop(r1, ds[1..], bufferSize);
      assert Loop(r, ds, bufferSize) == (rest.0, [] + rest.1);
      AppendAssoc(r.pending, [Body(ds[0])], Bodies(ds[1..]));
    }
  }

  /**
   * k tag-0 chunks followed by one final datagram produce exactly one
   * delivery: the pending bodies, the chunks' bodies and the final body, in
   * order; nothing stays pending.
   */
  lemma MessageReassembled(r: Receiver, chunks: seq<seq<byte>>, last: seq<byte>, bufferSize: nat)
    requires TagSize <= bufferSize && r.isReceiving
    requires AllChunks(chunks, bufferSize)
    requires TagSize <= |last| <= bufferSize && Tag(last) != 0
    ensures Loop(r, chunks + [last], bufferSize)
            == (r.(pending := []), [Concat(r.pending + Bodies(chunks)) + Body(last)])
  {
    LoopSplit(r, chunks, [last], bufferSize);
    ChunksAccumulate(r, chunks, bufferSize);
    var r1 := r.(pending := r.pending + Bodies(chunks));
    var s := Step(r1.pending, last, bufferSize);
    assert s == StepResult([], Some(Concat(r1.pending) + Body(last)), None);
    assert Loop(r1.(pending := []), [last][1..], bufferSize) == (r1.(pending := []), []);
    assert [s.delivered.value] + [] == [s.delivered.value];
    assert r1.(pending := []) == r.(pending := []);
    assert Loop(r1, [last], bufferSize) == (r.(pending := []), [s.delivered.value]);
    assert [] + [s.delivered.value] == [s.delivered.value];
  }

  /** The loop over ds1 + ds2 is the loop over ds1, then over ds2. */
  lemma {:induction false} LoopSplit(r: Receiver, ds1: seq<seq<byte>>, ds2: seq<seq<byte>>, bufferSize: nat)
    decreases |ds1|
    ensures var first := Loop(r, ds1, bufferSize);
            var second := Loop(first.0, ds2, bufferSize);
            Loop(r, ds1 + ds2, bufferSize) == (second.0, first.1 + second.1)
  {
    if !r.isReceiving {
      assert Loop(r, ds1, bufferSize) == (r, []);
      assert Loop(r, ds2, bufferSize) == (r, []);
      assert Loop(r, ds1 + ds2, bufferSize) == (r, []);
      var first := Loop(r, ds1, bufferSize);
      var second := Loop(first.0, ds2, bufferSize);
      assert first.0 == r;
      assert second == (r, []);
      assert first.1 + second.1 == [];
    } else if |ds1| == 0 {
      assert ds1 + ds2 == ds2;
      var second := Loop(r, ds2, bufferSize);
      assert Loop(r, ds1, bufferSize) == (r, []);
      assert [] + second.1 == second.1;
    } else {
      var s := Step(r.pending, ds1[0], bufferSize);
      var d := if s.delivered.Some? then [s.delivered.value] else [];
      var r1 := r.(pending := s.pending);
      assert (ds1 + ds2)[0] == ds1[0];
      assert (ds1 + ds2)[1..] == ds1[1..] + ds2;
      LoopSplit(r1, ds1[1..], ds2, bufferSize);
      var first1 := Loop(r1, ds1[1..], bufferSize);
      var second := Loop(first1.0, ds2, bufferSize);
      LoopFirst(r, ds1 + ds2, bufferSize, r1, d);
      LoopFirst(r, ds1, bufferSize, r1, d);
      assert d + (first1.1 + second.1) == (d + first1.1) + second.1;
    }
  }

  /** A receiving loop handles the first datagram, then loops over the rest. */
  lemma LoopFirst(r: Receiver, ds: seq<seq<byte>>, bufferSize: nat, r1: Receiver, d: seq<seq<byte>>)
    requires r.isReceiving && |ds| > 0
    requires r1 == r.(pending := Step(r.pending, ds[0], bufferSize).pending)
    requires d == var s := Step(r.pending, ds[0], bufferSize); if s.delivered.Some? then [s.delivered.value] else []
    ensures Loop(r, ds, bufferSize) == (Loop(r1, ds[1..], bufferSize).0, d + Loop(r1, ds[1..], bufferSize).1)
  {
  }
}
