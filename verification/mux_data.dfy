/**
 * `MuxData`: the registry a hand controller keeps for one data source. It
 * maps bone ordinals to rotation pairs and finger ordinals to flex values,
 * holds a per-sensor usage mask and a hand position. Quaternions and flex
 * values are only copied, so they are float32 bit patterns. The vendor
 * `SensorID` enum is not part of this model: its ordinals are a parameter.
 */
module MuxData {
  import opened Wrappers
  import opened Bytes
  import opened WireCodec

  /** Ordinals of the `SensorID` members the SDK names, and the number of members. */
  datatype SensorIds = SensorIds(
    count: nat, hand: nat,
    thumb1: nat, thumb2: nat,
    index: nat, index1: nat, index2: nat,
    middle: nat, middle1: nat, middle2: nat,
    ring: nat, ring1: nat, ring2: nat,
    pinky: nat, pinky1: nat, pinky2: nat)
  {
    function Named(): seq<nat>
    {
      [hand, thumb1, thumb2, index, index1, index2, middle, middle1, middle2,
       ring, ring1, ring2, pinky, pinky1, pinky2]
    }

    /** Enum ordinals: distinct and below the member count. */
    ghost predicate Valid()
    {
      InRange() && forall k, m :: 0 <= k < m < |Named()| ==> Named()[k] != Named()[m]
    }

    ghost predicate InRange()
    {
      hand < count && thumb1 < count && thumb2 < count
      && index < count && index1 < count && index2 < count
      && middle < count && middle1 < count && middle2 < count
      && ring < count && ring1 < count && ring2 < count
      && pinky < count && pinky1 < count && pinky2 < count
    }
  }

  /** Names every position of `Named`, so that the facts of `Valid` about them come into play. */
  lemma NamedPositions(ids: SensorIds)
    ensures var n := ids.Named();
            |n| == 15 && n[0] == ids.hand && n[1] == ids.thumb1 && n[2] == ids.thumb2
            && n[3] == ids.index && n[4] == ids.index1 && n[5] == ids.index2
            && n[6] == ids.middle && n[7] == ids.middle1 && n[8] == ids.middle2
            && n[9] == ids.ring && n[10] == ids.ring1 && n[11] == ids.ring2
            && n[12] == ids.pinky && n[13] == ids.pinky1 && n[14] == ids.pinky2
  {
  }

  /** 1.0f as a float32 bit pattern. */
  const One: float32 := 0x3F80_0000

  const Identity: Quaternion := Quaternion(0, 0, 0, One)

  const Origin: Vector3 := Vector3(0, 0, 0)

  /** A source's registry; `P` is the data provider it belongs to (None for the gestures registry). */
  datatype MuxData<P> = MuxData(
    source: Option<P>,
    isActive: bool,
    quat: map<int, seq<Quaternion>>,
    flex: map<int, float32>,
    useThis: seq<bool>,
    handPosition: Vector3)

  /** The constructor: every sensor masked out, active, and no stored data. */
  function New<P>(source: Option<P>, ids: SensorIds): (m: MuxData<P>)
    ensures m.source == source && m.isActive && m.handPosition == Origin
    ensures |m.useThis| == ids.count && forall i :: 0 <= i < ids.count ==> !m.useThis[i]
    ensures forall b :: GetSensorData(m, b) == [Identity, Identity] && GetFlexData(m, b) == 0
  {
    MuxData(source, true, map[], map[], ResetFingersMask(seq(ids.count, _ => true)), Origin)
  }

  /** The stored rotation pair of a bone, or two identities when none is stored (nothing is inserted). */
  function GetSensorData<P>(m: MuxData<P>, bone: int): seq<Quaternion>
  {
    if bone in m.quat then m.quat[bone] else [Identity, Identity]
  }

  /** The stored flex value of a finger, or 0 when none is stored. */
  function GetFlexData<P>(m: MuxData<P>, bone: int): float32
  {
    if bone in m.flex then m.flex[bone] else 0
  }

  /** Stores a rotation pair for one bone, inserting or replacing it. */
  function SetData<P>(m: MuxData<P>, bone: int, value: seq<Quaternion>): (r: MuxData<P>)
    ensures forall b :: GetSensorData(r, b) == if b == bone then value else GetSensorData(m, b)
    ensures r.quat.Keys == m.quat.Keys + {bone}
    ensures r == m.(quat := r.quat)
  {
    m.(quat := m.quat[bone := value])
  }

  /** `UpdateHandRotation`: the indexer store on the hand bone. */
  function UpdateHandRotation<P>(m: MuxData<P>, ids: SensorIds, rot: seq<Quaternion>): (r: MuxData<P>)
    ensures r == SetData(m, ids.hand, rot)
  {
    m.(quat := m.quat[ids.hand := rot])
  }

  /** Sets every mask entry to false. */
  function ResetFingersMask(mask: seq<bool>): (r: seq<bool>)
    ensures |r| == |mask| && forall i :: 0 <= i < |r| ==> !r[i]
  {
    seq(|mask|, _ => false)
  }

  /**
   * `SetFingersMask`: sets each listed entry, in order. An index outside the
   * mask throws, after the entries before it were set.
   */
  function SetFingersMask(mask: seq<bool>, fingers: seq<int>): (r: (seq<bool>, bool))
    ensures |r.0| == |mask|
    ensures !r.1 <==> forall k :: 0 <= k < |fingers| ==> 0 <= fingers[k] < |mask|
    ensures !r.1 ==> forall i :: 0 <= i < |mask| ==> r.0[i] == (mask[i] || i in fingers)
    decreases |fingers|
  {
    if |fingers| == 0 then (mask, false)
    else if !(0 <= fingers[0] < |mask|) then (mask, true)
    else
      var rest := SetFingersMask(mask[fingers[0] := true], fingers[1..]);
      assert forall k :: 1 <= k < |fingers| ==> fingers[k] == fingers[1..][k - 1];
      assert forall i :: i in fingers <==> i == fingers[0] || i in fingers[1..];
      rest
  }

  /** `FillSensorsData(quatValues)`: bones 0..n-1 take the given pairs, in order. */
  function FillSensorsData<P>(m: MuxData<P>, values: seq<seq<Quaternion>>): (r: MuxData<P>)
    ensures forall b :: GetSensorData(r, b) == if 0 <= b < |values| then values[b] else GetSensorData(m, b)
    ensures r == m.(quat := r.quat)
  {
    FillFrom(m, values, 0)
  }

  function FillFrom<P>(m: MuxData<P>, values: seq<seq<Quaternion>>, i: nat): (r: MuxData<P>)
    requires i <= |values|
    ensures forall b :: GetSensorData(r, b) == if i <= b < |values| then values[b] else GetSensorData(m, b)
    ensures r == m.(quat := r.quat)
    decreases |values| - i
  {
    if i == |values| then m else FillFrom(SetData(m, i, values[i]), values, i + 1)
  }

  /**
   * `FillSensorsData(other)`: every bone stored in `other` is copied over
   * (the copy order does not matter, the keys being distinct), and so is its
   * hand position.
   */
  function FillSensorsFrom<P>(m: MuxData<P>, other: MuxData<P>): (r: MuxData<P>)
    ensures forall b :: GetSensorData(r, b) == if b in other.quat then GetSensorData(other, b) else GetSensorData(m, b)
    ensures r.quat.Keys == m.quat.Keys + other.quat.Keys
    ensures r == m.(quat := r.quat, handPosition := other.handPosition)
  {
    m.(quat := m.quat + other.quat, handPosition := other.handPosition)
  }

  /** `FillSensorsData(quat, flex)`: the hand bone and flex entries 0..n-1; nothing else. */
  function FillHandAndFlex<P>(m: MuxData<P>, ids: SensorIds, handRot: seq<Quaternion>, flexValues: seq<float32>)
    : (r: MuxData<P>)
    ensures forall b :: GetSensorData(r, b) == if b == ids.hand then handRot else GetSensorData(m, b)
    ensures forall b :: GetFlexData(r, b) == if 0 <= b < |flexValues| then flexValues[b] else GetFlexData(m, b)
    ensures r == m.(quat := r.quat, flex := r.flex)
  {
    var withHand := SetData(m, ids.hand, handRot);
    withHand.(flex := FillFlex(m.flex, flexValues, 0))
  }

  function FillFlex(flex: map<int, float32>, values: seq<float32>, i: nat): (r: map<int, float32>)
    requires i <= |values|
    ensures forall b :: (b in r) <==> (b in flex || i <= b < |values|)
    ensures forall b :: b in r ==> r[b] == if i <= b < |values| then values[b] else flex[b]
    decreases |values| - i
  {
    if i == |values| then flex else FillFlex(flex[i := values[i]], values, i + 1)
  }

  /** Copying a registry into a fresh one reproduces its rotations and hand position. */
  lemma CopyIntoNew<P>(source: Option<P>, ids: SensorIds, other: MuxData<P>)
    ensures var r := FillSensorsFrom(New(source, ids), other);
            (forall b :: GetSensorData(r, b) == GetSensorData(other, b)) && r.handPosition == other.handPosition
  {
  }

  /** Filling is idempotent, and a later fill of the same bones overrides an earlier one. */
  lemma FillTwice<P>(m: MuxData<P>, a: seq<seq<Quaternion>>, b: seq<seq<Quaternion>>)
    requires |a| <= |b|
    ensures forall x :: GetSensorData(FillSensorsData(FillSensorsData(m, a), b), x) == GetSensorData(FillSensorsData(m, b), x)
  {
  }
}
