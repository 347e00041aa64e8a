/**
 * Pose streaming. The client `PoseController` writes a float32 timestamp and,
 * for every synchronised object in order, its position (Vector3) and rotation
 * (Quaternion) into a reused buffer and sends the written prefix. The server
 * `PoseController` keeps only the newest payload of its queue, stamps the pose
 * time with its calibration offset and copies the poses into its objects, one
 * object at a time.
 *
 * Times are reals: float rounding of `Time.fixedTime` arithmetic is not
 * modelled, and the reading of a float32 bit pattern as a number is the
 * parameter `seconds`.
 */
module Pose {
  import opened Wrappers
  import opened Bytes
  import opened WireCodec
  import SeqUtil

  datatype Pose = Pose(position: Vector3, rotation: Quaternion)

  /** A pose on the wire: a Vector3 of 12 bytes then a Quaternion of 16. */
  const PoseSize: nat := 28

  function OneBytes(p: Pose): (r: seq<byte>)
    ensures |r| == PoseSize
  {
    Vector3Bytes(p.position) + QuaternionBytes(p.rotation)
  }

  /** The poses laid end to end, each as position then rotation. */
  function PoseBytes(ps: seq<Pose>): (r: seq<byte>)
    ensures |r| == 28 * |ps|
  {
    if |ps| == 0 then [] else OneBytes(ps[0]) + PoseBytes(ps[1..])
  }

  // ---------------------------------------------------------------- client

  /**
   * `SerializePose`: position then rotation per object; the first write that
   * would overrun the buffer is caught, and the cursor after the last complete
   * write is returned. The only caller starts right after the timestamp.
   */
  function SerializePose(buf: seq<byte>, index: int, poses: seq<Pose>): (r: Written)
    requires 0 <= index
    ensures |r.buffer| == |buf|
    decreases |poses|
  {
    if |poses| == 0 then Written(buf, index)
    else
      match WriteVector3(buf, index, poses[0].position)
      case Failure(_) => Written(buf, index)
      case Success(w) =>
        match WriteQuaternion(w.buffer, w.end, poses[0].rotation)
        case Failure(_) => w
        case Success(w') => SerializePose(w'.buffer, w'.end, poses[1..])
  }

  /**
   * How many bytes of `n` poses fit into `room` bytes when a position (12
   * bytes) or a rotation (16 bytes) is written only whole.
   */
  function Fitted(room: nat, n: nat): (k: nat)
    ensures k <= room && k <= 28 * n
  {
    if n == 0 || room < Vector3Size then 0
    else if room < PoseSize then Vector3Size
    else PoseSize + Fitted(room - PoseSize, n - 1)
  }

  /** In closed form: all poses, or every complete pose plus the next position when its 12 bytes still fit. */
  lemma {:induction false} FittedClosedForm(room: nat, n: nat)
    ensures Fitted(room, n)
            == if 28 * n <= room then 28 * n
               else 28 * (room / 28) + (if room % 28 >= 12 then 12 else 0)
    decreases n
  {
    if n > 0 && room >= 28 {
      FittedClosedForm(room - 28, n - 1);
      assert (room - 28) / 28 == room / 28 - 1;
      assert (room - 28) % 28 == room % 28;
    }
  }

  lemma SpliceNothing(buf: seq<byte>, at: nat)
    requires at <= |buf|
    ensures Splice(buf, at, []) == buf
  {
  }

  /** A pose that fits is written whole: position and rotation together, as one splice. */
  lemma SerializePoseStep(buf: seq<byte>, index: nat, next: nat, poses: seq<Pose>, b: seq<byte>)
    requires |poses| > 0 && next == index + PoseSize && next <= |buf|
    requires b == Splice(buf, index, OneBytes(poses[0]))
    ensures SerializePose(buf, index, poses) == SerializePose(b, next, poses[1..])
  {
    var p := poses[0];
    SpliceTwice(buf, index, Vector3Bytes(p.position), QuaternionBytes(p.rotation));
  }

  /** Without room for a whole pose, only the position is written, and only if it fits. */
  lemma SerializePoseShort(buf: seq<byte>, index: nat, poses: seq<Pose>)
    requires |poses| > 0 && index <= |buf| < index + PoseSize
    ensures SerializePose(buf, index, poses)
            == if index + Vector3Size <= |buf|
               then Written(Splice(buf, index, Vector3Bytes(poses[0].position)), index + Vector3Size)
               else Written(buf, index)
  {
  }

  lemma PoseBytesPrefix(poses: seq<Pose>, e: nat)
    requires |poses| > 0 && e <= 28 * (|poses| - 1)
    ensures PoseBytes(poses)[..PoseSize + e] == OneBytes(poses[0]) + PoseBytes(poses[1..])[..e]
  {
    var a := OneBytes(poses[0]);
    var c := PoseBytes(poses[1..]);
    assert PoseBytes(poses) == a + c;
    AppendPrefix(a, c, PoseSize, e);
  }

  lemma SerializePoseWhole(buf: seq<byte>, index: nat, next: nat, poses: seq<Pose>, b: seq<byte>, e: nat, k: nat)
    requires |poses| > 0 && next == index + PoseSize && next + e <= |buf| && e <= 28 * (|poses| - 1)
    requires b == Splice(buf, index, OneBytes(poses[0])) && k == PoseSize + e
    requires SerializePose(b, next, poses[1..]) == Written(Splice(b, next, PoseBytes(poses[1..])[..e]), next + e)
    ensures SerializePose(buf, index, poses) == Written(Splice(buf, index, PoseBytes(poses)[..k]), index + k)
  {
    SerializePoseStep(buf, index, next, poses, b);
    SpliceTwice(buf, index, OneBytes(poses[0]), PoseBytes(poses[1..])[..e]);
    PoseBytesPrefix(poses, e);
  }

  /** With room for a whole pose, the bytes that fit are that pose and the bytes of the rest that fit after it. */
  lemma FittedStep(room: nat, n: nat, room1: nat, n1: nat)
    requires n > 0 && room >= PoseSize && room1 == room - PoseSize && n1 == n - 1
    ensures Fitted(room, n) == PoseSize + Fitted(room1, n1)
  {
  }

  /**
   * From a cursor inside the buffer, SerializePose writes exactly the bytes of
   * the poses that fit, whole field by whole field, and nothing else, and
   * returns the cursor after them.
   */
  lemma {:induction false} SerializePoseLayout(buf: seq<byte>, index: nat, poses: seq<Pose>)
    requires index <= |buf|
    ensures var k := Fitted(|buf| - index, |poses|);
            SerializePose(buf, index, poses) == Written(Splice(buf, index, PoseBytes(poses)[..k]), index + k)
    decreases |poses|
  {
    if |poses| == 0 {
      SpliceNothing(buf, index);
    } else if |buf| - index < PoseSize {
      SerializePoseLayoutShort(buf, index, poses);
    } else {
      var next := index + PoseSize;
      var b := Splice(buf, index, OneBytes(poses[0]));
      var e := Fitted(|b| - next, |poses[1..]|);
      var k := Fitted(|buf| - index, |poses|);
      SerializePoseLayout(b, next, poses[1..]);
      FittedStep(|buf| - index, |poses|, |b| - next, |poses[1..]|);
      SerializePoseWhole(buf, index, next, poses, b, e, k);
    }
  }

  /** The layout without room for a whole pose. */
  lemma SerializePoseLayoutShort(buf: seq<byte>, index: nat, poses: seq<Pose>)
    requires |poses| > 0 && index <= |buf| < index + PoseSize
    ensures var k := Fitted(|buf| - index, |poses|);
            SerializePose(buf, index, poses) == Written(Splice(buf, index, PoseBytes(poses)[..k]), index + k)
  {
    SerializePoseShort(buf, index, poses);
    if |buf| - index < Vector3Size {
      assert PoseBytes(poses)[..0] == [];
      SpliceNothing(buf, index);
    } else {
      assert PoseBytes(poses)[..Vector3Size] == Vector3Bytes(poses[0].position);
    }
  }

  datatype ClientStep = ClientStep(buffer: seq<byte>, sent: Option<seq<byte>>, thrown: bool)

  /**
   * The client `Tick`: nothing unless the sender is sending; otherwise the
   * timestamp at 0 (an uncaught overrun on a buffer under 4 bytes), the poses
   * after it, and the written prefix handed to the sender.
   */
  function Tick(isSending: bool, buf: seq<byte>, time: float32, poses: seq<Pose>): (r: ClientStep)
    ensures |r.buffer| == |buf|
    ensures !isSending ==> r == ClientStep(buf, None, false)
    ensures r.sent.Some? <==> isSending && |buf| >= FloatSize
    ensures r.thrown <==> isSending && |buf| < FloatSize
    ensures r.sent.Some? ==> |r.sent.value| <= |buf| && r.sent.value == r.buffer[..|r.sent.value|]
  {
    if !isSending then ClientStep(buf, None, false)
    else
      match WriteFloat(buf, 0, time)
      case Failure(_) => ClientStep(buf, None, true)
      case Success(w) =>
        var s := SerializePose(w.buffer, w.end, poses);
        SerializePoseLayout(w.buffer, w.end, poses);
        ClientStep(s.buffer, Some(s.buffer[..s.end]), false)
  }

  /**
   * What the client sends: the timestamp and the poses that fit; when all of
   * them fit, the datagram is 4 + 28·N bytes.
   */
  lemma {:induction false} TickPayload(buf: seq<byte>, time: float32, poses: seq<Pose>)
    requires |buf| >= FloatSize
    ensures var r := Tick(true, buf, time, poses);
            r.sent.Some?
            && r.sent.value == Float32Bytes(time) + PoseBytes(poses)[..Fitted(|buf| - FloatSize, |poses|)]
            && (FloatSize + 28 * |poses| <= |buf| ==> r.sent.value == Float32Bytes(time) + PoseBytes(poses))
  {
    var w := WriteFloat(buf, 0, time).value;
    assert w == Written(Splice(buf, 0, Float32Bytes(time)), FloatSize);
    var k := Fitted(|buf| - FloatSize, |poses|);
    var x := Float32Bytes(time) + PoseBytes(poses)[..k];
    SerializePoseLayout(w.buffer, FloatSize, poses);
    SpliceTwice(buf, 0, Float32Bytes(time), PoseBytes(poses)[..k]);
    assert Splice(buf, 0, x)[..|x|] == x;
    FittedClosedForm(|buf| - FloatSize, |poses|);
  }

  // ---------------------------------------------------------------- server

  datatype Server = Server(queue: Option<seq<seq<byte>>>, timeOffset: real, lastPoseTime: real,
                           timeOutSec: real, poses: seq<Pose>)

  /** `IsEmpty`: no queue yet, or nothing queued. */
  predicate IsEmpty(s: Server)
  {
    s.queue.None? || |s.queue.value| == 0
  }

  /** `IsTimeOut`: the last pose is more than the timeout older than `now`. */
  predicate IsTimeOut(s: Server, now: real)
  {
    now - s.lastPoseTime > s.timeOutSec
  }

  /** `Init`: a fresh queue and a zero offset; objects and last pose time untouched. */
  function Init(s: Server): (r: Server)
    ensures IsEmpty(r) && r.queue.Some? && r.timeOffset == 0.0
    ensures r.lastPoseTime == s.lastPoseTime && r.poses == s.poses && r.timeOutSec == s.timeOutSec
  {
    s.(queue := Some([]), timeOffset := 0.0)
  }

  /** The receive callback: the delivered datagram is queued. */
  function Receive(s: Server, data: seq<byte>): (r: Server)
    requires s.queue.Some?
    ensures !IsEmpty(r) && SeqUtil.DrainLast(r.queue.value) == Some(data)
    ensures r.(queue := s.queue) == s
  {
    s.(queue := Some(s.queue.value + [data]))
  }

  /**
   * The client timestamp of the last pose: the last pose time with the offset
   * it was stamped with taken off again (the offset changes only here and in
   * calibration, never between a stamp and a calibration).
   */
  function ClientTime(s: Server): real
  {
    s.lastPoseTime - s.timeOffset
  }

  /**
   * `CalibrateTime` as written: the new offset is taken against the last pose
   * time, which already carries the previous offset.
   */
  function CalibrateTimeAsWritten(s: Server, now: real): (r: Server)
    ensures r.(timeOffset := s.timeOffset) == s
  {
    s.(timeOffset := now - s.lastPoseTime)
  }

  /**
   * After a reconnection the pose seen at calibration is re-stamped the
   * previous offset before `now`, not at `now`: only a zero previous offset
   * (the first connection after `Init`) calibrates exactly.
   */
  lemma CalibrationLagsByPreviousOffset(s: Server, now: real)
    ensures ClientTime(s) + CalibrateTimeAsWritten(s, now).timeOffset == now - s.timeOffset
  {
  }

  /**
   * `CalibrateTime` corrected: the offset that re-stamps the pose seen at
   * calibration as `now`, whatever the previous offset was.
   */
  function CalibrateTime(s: Server, now: real): (r: Server)
    ensures ClientTime(s) + r.timeOffset == now
    ensures r.(timeOffset := s.timeOffset) == s
  {
    s.(timeOffset := now - ClientTime(s))
  }

  /** The pose stored in 28 bytes: x, y, z of the position, then x, y, z, w of the rotation. */
  function PoseOf(bs: seq<byte>): Pose
    requires |bs| == PoseSize
  {
    Pose(Vector3(Float32Of(bs[0..4]), Float32Of(bs[4..8]), Float32Of(bs[8..12])),
         Quaternion(Float32Of(bs[12..16]), Float32Of(bs[16..20]), Float32Of(bs[20..24]), Float32Of(bs[24..28])))
  }

  lemma PoseOfBytes(p: Pose)
    ensures PoseOf(OneBytes(p)) == p
  {
    var bs := OneBytes(p);
    assert bs[0..4] == Float32Bytes(p.position.x);
    assert bs[4..8] == Float32Bytes(p.position.y);
    assert bs[8..12] == Float32Bytes(p.position.z);
    assert bs[12..16] == Float32Bytes(p.rotation.x);
    assert bs[16..20] == Float32Bytes(p.rotation.y);
    assert bs[20..24] == Float32Bytes(p.rotation.z);
    assert bs[24..28] == Float32Bytes(p.rotation.w);
    Float32RoundTrip(p.position.x);
    Float32RoundTrip(p.position.y);
    Float32RoundTrip(p.position.z);
    Float32RoundTrip(p.rotation.x);
    Float32RoundTrip(p.rotation.y);
    Float32RoundTrip(p.rotation.z);
    Float32RoundTrip(p.rotation.w);
  }

  /**
   * `DeserializePose`: per object, a Vector3 and a Quaternion are read and only
   * then assigned; the first overrun is caught, so that object and every later
   * one keep their pose. Returns the new poses and the cursor reached.
   */
  function DeserializePose(buf: seq<byte>, index: int, poses: seq<Pose>): (r: (seq<Pose>, int))
    requires 0 <= index
    ensures |r.0| == |poses|
    decreases |poses|
  {
    if |poses| == 0 then (poses, index)
    else
      match ReadVector3(buf, index)
      case Failure(_) => (poses, index)
      case Success(v) =>
        match ReadQuaternion(buf, v.end)
        case Failure(_) => (poses, v.end)
        case Success(q) =>
          var rest := DeserializePose(buf, q.end, poses[1..]);
          ([Pose(v.value, q.value)] + rest.0, rest.1)
  }

  /** How many whole poses `room` bytes hold, at most n. */
  function Complete(room: nat, n: nat): (k: nat)
    ensures k <= n && 28 * k <= room
  {
    if n == 0 || room < PoseSize then 0 else 1 + Complete(room - PoseSize, n - 1)
  }

  lemma {:induction false} CompleteClosedForm(room: nat, n: nat)
    ensures Complete(room, n) == if room / 28 < n then room / 28 else n
    decreases n
  {
    if n > 0 && room >= 28 {
      CompleteClosedForm(room - 28, n - 1);
      assert (room - 28) / 28 == room / 28 - 1;
    }
  }

  lemma SliceOfSlice(buf: seq<byte>, a: nat, b: nat, c: nat, d: nat)
    requires a <= b <= |buf| && c <= d <= b - a
    ensures buf[a..b][c..d] == buf[a + c..a + d]
  {
    assert forall k :: 0 <= k < d - c ==> buf[a..b][c..d][k] == buf[a + c..a + d][k];
  }

  lemma ReadPose(buf: seq<byte>, index: nat)
    requires index + PoseSize <= |buf|
    ensures ReadVector3(buf, index).Success? && ReadQuaternion(buf, index + Vector3Size).Success?
    ensures var p := PoseOf(buf[index..index + PoseSize]);
            ReadVector3(buf, index).value.value == p.position
            && ReadQuaternion(buf, index + Vector3Size).value.value == p.rotation
  {
    var end := index + PoseSize;
    SliceOfSlice(buf, index, end, 0, 4);
    SliceOfSlice(buf, index, end, 4, 8);
    SliceOfSlice(buf, index, end, 8, 12);
    SliceOfSlice(buf, index, end, 12, 16);
    SliceOfSlice(buf, index, end, 16, 20);
    SliceOfSlice(buf, index, end, 20, 24);
    SliceOfSlice(buf, index, end, 24, 28);
  }

  /** A whole pose in the buffer is read and assigned before the objects after it. */
  lemma {:induction false} DeserializePoseStep(buf: seq<byte>, index: nat, poses: seq<Pose>, next: nat)
    requires |poses| > 0 && next == index + PoseSize && next <= |buf|
    ensures var rest := DeserializePose(buf, next, poses[1..]);
            DeserializePose(buf, index, poses) == ([PoseOf(buf[index..next])] + rest.0, rest.1)
  {
    ReadPose(buf, index);
  }

  /** Without room for a whole pose, nothing is assigned. */
  lemma DeserializePoseShort(buf: seq<byte>, index: nat, poses: seq<Pose>)
    requires index <= |buf| < index + PoseSize
    ensures DeserializePose(buf, index, poses).0 == poses
  {
  }

  /**
   * The objects updated are exactly the first `Complete` ones, each to the pose
   * stored at its slot; every later object keeps its pose.
   */
  lemma {:induction false} DeserializePoseUpdates(buf: seq<byte>, index: nat, poses: seq<Pose>)
    requires index <= |buf|
    ensures var r := DeserializePose(buf, index, poses);
            var k := Complete(|buf| - index, |poses|);
            && (forall i :: 0 <= i < k ==> r.0[i] == PoseOf(buf[index + 28 * i..index + 28 * i + 28]))
            && (forall i :: k <= i < |poses| ==> r.0[i] == poses[i])
    decreases |poses|
  {
    if |poses| > 0 && |buf| - index >= PoseSize {
      var next := index + PoseSize;
      var k := Complete(|buf| - index, |poses|);
      var k1 := Complete(|buf| - next, |poses[1..]|);
      var r := DeserializePose(buf, index, poses).0;
      var rest := DeserializePose(buf, next, poses[1..]).0;
      DeserializePoseStep(buf, index, poses, next);
      DeserializePoseUpdates(buf, next, poses[1..]);
      CompleteStep(buf, index, next, poses);
      UpdatesShift(buf, index, next, poses, r, rest, k, k1);
    } else if |poses| > 0 {
      DeserializePoseShort(buf, index, poses);
    }
  }

  /** With room for one more pose, the count of whole poses is one more than after it. */
  lemma CompleteStep(buf: seq<byte>, index: nat, next: nat, poses: seq<Pose>)
    requires |poses| > 0 && next == index + PoseSize && next <= |buf|
    ensures Complete(|buf| - index, |poses|) == Complete(|buf| - next, |poses[1..]|) + 1
  {
  }

  lemma UpdatesShift(buf: seq<byte>, index: nat, next: nat, poses: seq<Pose>, r: seq<Pose>, rest: seq<Pose>, k: nat, k1: nat)
    requires |poses| > 0 && next == index + PoseSize && k == k1 + 1 && k <= |poses| && index + 28 * k <= |buf|
    requires |r| == |poses| && |rest| == |poses[1..]|
    requires r == [PoseOf(buf[index..next])] + rest
    requires forall i :: 0 <= i < k1 ==> rest[i] == PoseOf(buf[next + 28 * i..next + 28 * i + 28])
    requires forall i :: k1 <= i < |poses[1..]| ==> rest[i] == poses[1..][i]
    ensures forall i :: 0 <= i < k ==> r[i] == PoseOf(buf[index + 28 * i..index + 28 * i + 28])
    ensures forall i :: k <= i < |poses| ==> r[i] == poses[i]
  {
    forall i | 1 <= i < k
      ensures r[i] == PoseOf(buf[index + 28 * i..index + 28 * i + 28])
    {
      assert r[i] == rest[i - 1];
      assert next + 28 * (i - 1) == index + 28 * i;
    }
    forall i | k <= i < |poses|
      ensures r[i] == poses[i]
    {
      assert r[i] == rest[i - 1];
    }
  }

  /** Reading back what was laid down: the objects take exactly the serialized poses. */
  lemma {:induction false} DeserializeSerialized(buf: seq<byte>, index: nat, end: nat, ps: seq<Pose>, prior: seq<Pose>)
    requires |prior| == |ps| && end == index + 28 * |ps|
    requires end <= |buf| && buf[index..end] == PoseBytes(ps)
    ensures DeserializePose(buf, index, prior) == (ps, end)
    decreases |ps|
  {
    if |ps| > 0 {
      var next := index + PoseSize;
      SerializedParts(buf, index, next, end, ps);
      DeserializePoseStep(buf, index, prior, next);
      PoseOfBytes(ps[0]);
      DeserializeSerialized(buf, next, end, ps[1..], prior[1..]);
      assert [ps[0]] + ps[1..] == ps;
    }
  }

  /** The bytes of a run of poses hold the first pose, then the bytes of the rest. */
  lemma SerializedParts(buf: seq<byte>, index: nat, next: nat, end: nat, ps: seq<Pose>)
    requires |ps| > 0 && next == index + PoseSize && end == index + 28 * |ps|
    requires end <= |buf| && buf[index..end] == PoseBytes(ps)
    ensures buf[index..next] == OneBytes(ps[0])
    ensures end == next + 28 * |ps[1..]| && buf[next..end] == PoseBytes(ps[1..])
  {
    assert buf[index..next] == buf[index..end][..PoseSize];
    assert buf[next..end] == buf[index..end][PoseSize..];
  }

  datatype ServerStep = ServerStep(server: Server, thrown: bool)

  /**
   * The server `Tick`: the queue is drained to its newest payload; with none,
   * nothing changes. Otherwise the timestamp (an uncaught overrun on a payload
   * under 4 bytes), stamped with the offset, then the poses after it.
   */
  function ServerTick(s: Server, seconds: float32 -> real): (r: ServerStep)
    requires s.queue.Some?
    ensures r.server.queue == Some([]) && r.server.timeOffset == s.timeOffset && r.server.timeOutSec == s.timeOutSec
    ensures IsEmpty(s) ==> r == ServerStep(s, false)
    ensures r.thrown ==> r.server == s.(queue := Some([]))
  {
    match SeqUtil.DrainLast(s.queue.value)
    case None => ServerStep(s, false)
    case Some(data) =>
      var drained := s.(queue := Some([]));
      match ReadFloat(data, 0)
      case Failure(_) => ServerStep(drained, true)
      case Success(t) =>
        ServerStep(drained.(lastPoseTime := seconds(t.value) + s.timeOffset,
                            poses := DeserializePose(data, t.end, s.poses).0), false)
  }

  /**
   * End to end: a client datagram carrying all N poses, the newest in the
   * server's queue, sets the server's N objects to the client's poses and its
   * last pose time to the client's timestamp plus the offset.
   */
  lemma PoseRoundTrip(s: Server, buf: seq<byte>, time: float32, poses: seq<Pose>, seconds: float32 -> real)
    requires s.queue.Some? && |s.poses| == |poses|
    requires FloatSize + 28 * |poses| <= |buf|
    ensures var sent := Tick(true, buf, time, poses).sent.value;
            var r := ServerTick(Receive(s, sent), seconds);
            !r.thrown && r.server.poses == poses && r.server.lastPoseTime == seconds(time) + s.timeOffset
  {
    TickPayload(buf, time, poses);
    var sent := Tick(true, buf, time, poses).sent.value;
    assert sent[0..4] == Float32Bytes(time);
    Float32RoundTrip(time);
    assert sent[4..4 + 28 * |poses|] == PoseBytes(poses);
    DeserializeSerialized(sent, 4, 4 + 28 * |poses|, poses, s.poses);
  }

  /**
   * After calibrating at `calibratedAt`, a pose whose timestamp is `elapsed`
   * seconds past the pose seen at calibration is timed out at `now` exactly
   * when more than `elapsed` plus the timeout has passed on the server since
   * calibration.
   */
  lemma TimeOutAfterCalibration(s: Server, calibratedAt: real, data: seq<byte>, elapsed: real, now: real,
                                seconds: float32 -> real)
    requires s.queue.Some? && |data| >= FloatSize
    requires seconds(Float32Of(data[..4])) == ClientTime(s) + elapsed
    ensures var r := ServerTick(Receive(CalibrateTime(s, calibratedAt), data), seconds);
            IsTimeOut(r.server, now) <==> now - calibratedAt > elapsed + s.timeOutSec
  {
    var c := CalibrateTime(s, calibratedAt);
    var t := ReadFloat(data, 0);
    assert t.Success? && t.value.value == Float32Of(data[..4]);
  }

  /**
   * With the calibration as written, a reconnection after a previous offset of
   * 5 s re-stamps a fresh pose 5 s in the past, so a 1 s timeout fires at the
   * very moment of calibration.
   */
  lemma CalibrationAsWrittenTimesOutFreshPose(data: seq<byte>, seconds: float32 -> real)
    requires |data| >= FloatSize && seconds(Float32Of(data[..4])) == 5.0
    ensures var s := Server(Some([]), 5.0, 10.0, 1.0, []);
            var c := CalibrateTimeAsWritten(s, 20.0);
            var r := ServerTick(Receive(c, data), seconds);
            IsTimeOut(r.server, 20.0)
            && !IsTimeOut(ServerTick(Receive(CalibrateTime(s, 20.0), data), seconds).server, 20.0)
  {
    var t := ReadFloat(data, 0);
    assert t.Success? && t.value.value == Float32Of(data[..4]);
  }
}
