/**
 * Video streaming. Both `VideoController`s act on every `_intervalFrames`-th
 * fixed update: the server captures the camera as a JPEG and sends it when it
 * fits the sender's buffer, the client renders the newest received frame. Both
 * count the frames they handle to force a garbage collection every 1000.
 *
 * The camera, the JPEG encoder and the texture are outside the model: the
 * captured JPEG is a parameter, a render is recorded by the frame it shows.
 */
module Video {
  import opened Wrappers
  import opened Bytes
  import opened Arith
  import SeqUtil

  /** Frames handled between forced collections. */
  const GcPeriod: nat := 1000

  /** The frame counter after a tick: `(_frameCounter + 1) % _intervalFrames`. */
  function Advance(counter: int, interval: int): (c: int)
    requires interval >= 1
    ensures 0 <= c < interval
  {
    (counter + 1) % interval
  }

  // ---------------------------------------------------------------- server

  datatype Server = Server(frameCounter: int, gcCounter: int, intervalFrames: int, bufferSize: int, textureReady: bool)

  ghost predicate ServerValid(v: Server)
  {
    v.intervalFrames >= 1 && 0 <= v.frameCounter < v.intervalFrames && 0 <= v.gcCounter < GcPeriod
  }

  datatype Capture = Capture(gcCounter: int, textureReady: bool, collected: bool)

  /**
   * The counting in `CaptureWindow`: the first capture sets up the texture and
   * zeroes the counter; every capture counts, and the 1000th forces a
   * collection and starts the count again.
   */
  function CaptureCount(gcCounter: int, textureReady: bool): (r: Capture)
    ensures r.textureReady
    ensures 0 <= gcCounter < GcPeriod ==> 0 <= r.gcCounter < GcPeriod
    ensures r.collected <==> (if textureReady then gcCounter else 0) + 1 >= GcPeriod
  {
    var g := (if textureReady then gcCounter else 0) + 1;
    if g >= GcPeriod then Capture(0, true, true) else Capture(g, true, false)
  }

  datatype ServerStep = ServerStep(video: Server, sent: Option<seq<byte>>, collected: bool)

  /**
   * The server `Tick`: on a zero frame counter the camera is captured (`jpeg`)
   * and sent whole, in one datagram, only when shorter than the buffer.
   */
  function ServerTick(v: Server, jpeg: seq<byte>): (r: ServerStep)
    requires v.intervalFrames >= 1
    ensures r.video.frameCounter == Advance(v.frameCounter, v.intervalFrames)
    ensures v.frameCounter != 0 ==> r.sent.None? && !r.collected && r.video.gcCounter == v.gcCounter
    ensures r.sent.Some? <==> v.frameCounter == 0 && |jpeg| < v.bufferSize
    ensures r.sent.Some? ==> r.sent.value == jpeg
    ensures ServerValid(v) ==> ServerValid(r.video)
  {
    var next := Advance(v.frameCounter, v.intervalFrames);
    if v.frameCounter == 0 then
      var c := CaptureCount(v.gcCounter, v.textureReady);
      ServerStep(v.(frameCounter := next, gcCounter := c.gcCounter, textureReady := c.textureReady),
                 if |jpeg| < v.bufferSize then Some(jpeg) else None, c.collected)
    else ServerStep(v.(frameCounter := next), None, false)
  }

  /** The frames sent by a run of ticks, one entry per tick. */
  function ServerRun(v: Server, jpegs: seq<seq<byte>>): (r: (Server, seq<Option<seq<byte>>>))
    requires v.intervalFrames >= 1
    ensures |r.1| == |jpegs| && r.0.intervalFrames == v.intervalFrames && r.0.bufferSize == v.bufferSize
    decreases |jpegs|
  {
    if |jpegs| == 0 then (v, [])
    else
      var s := ServerTick(v, jpegs[0]);
      var rest := ServerRun(s.video, jpegs[1..]);
      (rest.0, [s.sent] + rest.1)
  }

  /**
   * Starting from a zero frame counter, tick u sends its capture exactly when
   * u is a multiple of the interval and the capture is shorter than the buffer.
   */
  lemma {:induction false} ServerSendsEveryInterval(v: Server, jpegs: seq<seq<byte>>)
    requires v.intervalFrames >= 1 && 0 <= v.frameCounter < v.intervalFrames
    ensures var sent := ServerRun(v, jpegs).1;
            forall u :: 0 <= u < |jpegs| ==>
              (sent[u].Some? <==> (v.frameCounter + u) % v.intervalFrames == 0 && |jpegs[u]| < v.bufferSize)
              && (sent[u].Some? ==> sent[u].value == jpegs[u])
    decreases |jpegs|
  {
    if |jpegs| > 0 {
      var m := v.intervalFrames;
      var s := ServerTick(v, jpegs[0]);
      var sent := ServerRun(v, jpegs).1;
      var rest := ServerRun(s.video, jpegs[1..]).1;
      ServerSendsEveryInterval(s.video, jpegs[1..]);
      ModUnique(v.frameCounter, m, 0, v.frameCounter);
      assert sent == [s.sent] + rest;
      forall u | 1 <= u < |jpegs|
        ensures (sent[u].Some? <==> (v.frameCounter + u) % m == 0 && |jpegs[u]| < v.bufferSize)
                && (sent[u].Some? ==> sent[u].value == jpegs[u])
      {
        assert sent[u] == rest[u - 1] && jpegs[u] == jpegs[1..][u - 1];
        ModOfSum(v.frameCounter + 1, u - 1, m);
      }
    }
  }

  /** The server's collections: every 1000th capture after the texture is set up, and no other. */
  function CaptureRun(gcCounter: int, textureReady: bool, n: nat): (collected: seq<bool>)
    ensures |collected| == n
    decreases n
  {
    if n == 0 then []
    else
      var c := CaptureCount(gcCounter, textureReady);
      [c.collected] + CaptureRun(c.gcCounter, c.textureReady, n - 1)
  }

  lemma {:induction false} CaptureCollectsPeriodically(gcCounter: nat, n: nat)
    requires gcCounter < GcPeriod
    ensures forall u :: 0 <= u < n ==> (CaptureRun(gcCounter, true, n)[u] <==> (gcCounter + u + 1) % 1000 == 0)
    decreases n
  {
    if n > 0 {
      var c := CaptureCount(gcCounter, true);
      CaptureCollectsPeriodically(c.gcCounter, n - 1);
      if gcCounter + 1 == 1000 {
        ModUnique(gcCounter + 1, 1000, 1, 0);
      } else {
        ModUnique(gcCounter + 1, 1000, 0, gcCounter + 1);
      }
      var run := CaptureRun(gcCounter, true, n);
      forall u | 1 <= u < n
        ensures run[u] <==> (gcCounter + u + 1) % 1000 == 0
      {
        assert run[u] == CaptureRun(c.gcCounter, true, n - 1)[u - 1];
        ModOfSum(gcCounter + 1, u, 1000);
      }
    }
  }

  // ---------------------------------------------------------------- client

  datatype Client = Client(queue: seq<seq<byte>>, frameCounter: int, gcCounter: int, intervalFrames: int,
                           textureReady: bool)

  /** `data.Take(length)`: the first `length` bytes, all of them if fewer, none for a negative length. */
  function Take(data: seq<byte>, length: int): (r: seq<byte>)
    ensures |r| == if length <= 0 then 0 else if length < |data| then length else |data|
    ensures r == data[..|r|]
  {
    if length <= 0 then [] else if length < |data| then data[..length] else data
  }

  /** The receive callback: only the first `length` bytes of the receive buffer are queued. */
  function Receive(c: Client, data: seq<byte>, length: int): (r: Client)
    ensures r.queue == c.queue + [Take(data, length)]
    ensures r.(queue := c.queue) == c
  {
    c.(queue := c.queue + [Take(data, length)])
  }

  /** `DeserializeVideo`: the newest queued frame, the queue left empty; nothing for an empty queue. */
  function DeserializeVideo(queue: seq<seq<byte>>): (r: (seq<seq<byte>>, Option<seq<byte>>))
    ensures r.0 == []
    ensures r.1.None? <==> |queue| == 0
    ensures |queue| > 0 ==> r.1 == Some(queue[|queue| - 1])
  {
    ([], SeqUtil.DrainLast(queue))
  }

  datatype Render = Render(gcCounter: int, textureReady: bool, shown: Option<seq<byte>>, collected: bool)

  /**
   * `Render` as written: nothing without data; the counter is zeroed only
   * when the texture is first created, and never after a collection. The
   * counter is a C# `int`, so `_gcCounter++` wraps from int.MaxValue to
   * int.MinValue.
   */
  function RenderAsWritten(gcCounter: int, textureReady: bool, data: Option<seq<byte>>): (r: Render)
    ensures data.None? ==> r == Render(gcCounter, textureReady, None, false)
    ensures data.Some? ==> r.shown == data && r.textureReady && -Two31 <= r.gcCounter < Two31
    ensures data.Some? ==> (r.collected <==> r.gcCounter >= GcPeriod)
    ensures data.Some? && !textureReady ==> r.gcCounter == 1 && !r.collected
    ensures data.Some? && textureReady && -Two31 <= gcCounter < Two31 - 1 ==> r.gcCounter == gcCounter + 1
    ensures data.Some? && textureReady && gcCounter == Two31 - 1 ==> r.gcCounter == -Two31 && !r.collected
  {
    match data
    case None => Render(gcCounter, textureReady, None, false)
    case Some(d) =>
      var g := Wrap32((if textureReady then gcCounter else 0) + 1);
      Render(g, true, Some(d), g >= GcPeriod)
  }

  /** The collections of n renders as written, from a set-up texture. */
  function RenderRunAsWritten(gcCounter: int, n: nat, frame: seq<byte>): (collected: seq<bool>)
    ensures |collected| == n
    decreases n
  {
    if n == 0 then []
    else
      var r := RenderAsWritten(gcCounter, true, Some(frame));
      [r.collected] + RenderRunAsWritten(r.gcCounter, n - 1, frame)
  }

  /**
   * As written, from the 1000th render on, every render forces a collection,
   * as long as the counter has not reached int.MaxValue.
   */
  lemma {:induction false} RenderAsWrittenCollectsEveryFrame(gcCounter: int, n: nat, frame: seq<byte>)
    requires GcPeriod - 1 <= gcCounter && gcCounter + n <= Two31 - 1
    ensures forall u :: 0 <= u < n ==> RenderRunAsWritten(gcCounter, n, frame)[u]
    decreases n
  {
    if n > 0 {
      RenderAsWrittenCollectsEveryFrame(gcCounter + 1, n - 1, frame);
    }
  }

  /** While the counter stays below 1000, no render collects. */
  lemma {:induction false} RenderAsWrittenQuietBelow(gcCounter: int, n: nat, frame: seq<byte>)
    requires -Two31 <= gcCounter && gcCounter + n < GcPeriod
    ensures forall u :: 0 <= u < n ==> !RenderRunAsWritten(gcCounter, n, frame)[u]
    decreases n
  {
    if n > 0 {
      RenderAsWrittenQuietBelow(gcCounter + 1, n - 1, frame);
    }
  }

  /**
   * As written, the render that takes the counter past int.MaxValue wraps it
   * to int.MinValue, and neither it nor the next 2^31 + 999 renders collect.
   */
  lemma RenderAsWrittenStopsAtWrap(n: nat, frame: seq<byte>)
    requires n <= Two31 + GcPeriod
    ensures var run := RenderRunAsWritten(Two31 - 1, n, frame);
            forall u :: 0 <= u < n ==> !run[u]
  {
    if n > 0 {
      var r := RenderAsWritten(Two31 - 1, true, Some(frame));
      assert r.gcCounter == -Two31 && !r.collected;
      RenderAsWrittenQuietBelow(-Two31, n - 1, frame);
      var run := RenderRunAsWritten(Two31 - 1, n, frame);
      assert run == [false] + RenderRunAsWritten(-Two31, n - 1, frame);
    }
  }

  /** `Render` corrected: the count starts again after each forced collection, as on the server. */
  function RenderFrame(gcCounter: int, textureReady: bool, data: Option<seq<byte>>): (r: Render)
    ensures data.None? ==> r == Render(gcCounter, textureReady, None, false)
    ensures data.Some? ==> r.shown == data && r.textureReady
    ensures data.Some? && 0 <= gcCounter < GcPeriod ==> 0 <= r.gcCounter < GcPeriod
  {
    match data
    case None => Render(gcCounter, textureReady, None, false)
    case Some(d) =>
      var c := CaptureCount(gcCounter, textureReady);
      Render(c.gcCounter, true, Some(d), c.collected)
  }

  /** The collections of n renders with the correction, from a set-up texture. */
  function RenderRun(gcCounter: int, n: nat, frame: seq<byte>): (collected: seq<bool>)
    ensures |collected| == n
    decreases n
  {
    if n == 0 then []
    else
      var r := RenderFrame(gcCounter, true, Some(frame));
      [r.collected] + RenderRun(r.gcCounter, n - 1, frame)
  }

  lemma {:induction false} RenderRunIsCaptureRun(gcCounter: int, n: nat, frame: seq<byte>)
    ensures RenderRun(gcCounter, n, frame) == CaptureRun(gcCounter, true, n)
    decreases n
  {
    if n > 0 {
      RenderRunIsCaptureRun(CaptureCount(gcCounter, true).gcCounter, n - 1, frame);
    }
  }

  /** With the correction, renders collect exactly as the server's captures do: every 1000th. */
  lemma RenderCollectsPeriodically(gcCounter: nat, n: nat, frame: seq<byte>)
    requires gcCounter < GcPeriod
    ensures forall u :: 0 <= u < n ==> (RenderRun(gcCounter, n, frame)[u] <==> (gcCounter + u + 1) % 1000 == 0)
  {
    RenderRunIsCaptureRun(gcCounter, n, frame);
    CaptureCollectsPeriodically(gcCounter, n);
  }

  datatype ClientStep = ClientStep(video: Client, shown: Option<seq<byte>>, collected: bool)

  /**
   * The client `Tick`: on a zero frame counter, the newest queued frame is
   * rendered, with the render counter as written (never reset).
   */
  function ClientTick(c: Client): (r: ClientStep)
    requires c.intervalFrames >= 1
    ensures r.video.frameCounter == Advance(c.frameCounter, c.intervalFrames)
    ensures c.frameCounter != 0 ==> r == ClientStep(c.(frameCounter := r.video.frameCounter), None, false)
    ensures c.frameCounter == 0 ==> r.video.queue == [] && r.shown == SeqUtil.DrainLast(c.queue)
    ensures c.frameCounter == 0 && |c.queue| == 0 ==> r.video == c.(frameCounter := r.video.frameCounter)
  {
    var next := Advance(c.frameCounter, c.intervalFrames);
    if c.frameCounter == 0 then
      var (queue, data) := DeserializeVideo(c.queue);
      var rendered := RenderAsWritten(c.gcCounter, c.textureReady, data);
      ClientStep(c.(queue := queue, frameCounter := next, gcCounter := rendered.gcCounter,
                    textureReady := rendered.textureReady), rendered.shown, rendered.collected)
    else ClientStep(c.(frameCounter := next), None, false)
  }

  /** The frame shown is the first `length` bytes of the newest datagram received since the last render. */
  lemma ClientShowsNewest(c: Client, data: seq<byte>, length: int)
    requires c.intervalFrames >= 1 && c.frameCounter == 0
    ensures ClientTick(Receive(c, data, length)).shown == Some(Take(data, length))
  {
  }

  /**
   * Once the client has rendered 999 frames on its texture, every later tick
   * that renders a frame forces a collection and the counter keeps growing,
   * until the counter reaches int.MaxValue.
   */
  lemma ClientCollectsEveryRenderAfter999(c: Client, data: seq<byte>, length: int)
    requires c.intervalFrames >= 1 && c.frameCounter == 0 && c.textureReady
    requires GcPeriod - 1 <= c.gcCounter < Two31 - 1
    ensures var r := ClientTick(Receive(c, data, length));
            r.collected && r.video.gcCounter == c.gcCounter + 1 && r.video.gcCounter >= GcPeriod - 1
  {
  }

  /** At int.MaxValue the tick's render wraps the counter to int.MinValue and does not collect. */
  lemma ClientSkipsCollectionAtWrap(c: Client, data: seq<byte>, length: int)
    requires c.intervalFrames >= 1 && c.frameCounter == 0 && c.textureReady && c.gcCounter == Two31 - 1
    ensures var r := ClientTick(Receive(c, data, length));
            !r.collected && r.video.gcCounter == -Two31
  {
  }
}
