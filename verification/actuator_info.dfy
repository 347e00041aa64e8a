/**
 * `ActuatorInfo.SetActuator`: a finger part of the hand model chooses the
 * haptic actuator of that finger; every other part, or a missing axes
 * changer, leaves the actuator as it was.
 */
module ActuatorInfo {
  import opened Wrappers

  /** `NDModelAxesChanger.Parts`, with the ordinals the source gives them. */
  datatype Part = Hand | Thumb0 | Thumb1 | Index | Middle | Ring | Pinky | Chest | Arm | Forearm
  {
    function Ordinal(): nat
    {
      match this
      case Hand => 0
      case Thumb0 => 1
      case Thumb1 => 2
      case Index => 3
      case Middle => 4
      case Ring => 5
      case Pinky => 6
      case Chest => 7
      case Arm => 8
      case Forearm => 9
    }
  }

  /** The vendor `Actuator` enum: the five finger actuators, and every other one by ordinal. */
  datatype Actuator = ActThumb | ActIndex | ActMiddle | ActRing | ActPinky | OtherActuator(ordinal: nat)
  {
    predicate IsFinger()
    {
      !OtherActuator?
    }

    /** Thumb 0, index 1, middle 2, ring 3, pinky 4. */
    function Finger(): nat
      requires IsFinger()
    {
      match this
      case ActThumb => 0
      case ActIndex => 1
      case ActMiddle => 2
      case ActRing => 3
      case ActPinky => 4
    }
  }

  /** The parts `SetActuator` maps: the two thumb bones and the four fingers, ordinals 1 to 6. */
  predicate IsFingerPart(p: Part)
  {
    1 <= p.Ordinal() <= 6
  }

  /**
   * `SetActuator`; `axes` is the part of the attached axes changer, None
   * when there is none. Both thumb bones drive the thumb actuator, and the
   * fingers follow in ordinal order.
   */
  function SetActuator(axes: Option<Part>, current: Actuator): (r: Actuator)
    ensures axes.None? || !IsFingerPart(axes.value) ==> r == current
    ensures axes.Some? && IsFingerPart(axes.value) ==>
              r.IsFinger() && r.Finger() == if axes.value.Ordinal() <= 2 then 0 else axes.value.Ordinal() - 2
  {
    if axes.None? then current
    else
      match axes.value
      case Thumb0 => ActThumb
      case Thumb1 => ActThumb
      case Index => ActIndex
      case Middle => ActMiddle
      case Ring => ActRing
      case Pinky => ActPinky
      case _ => current
  }

  /** Two finger parts drive the same actuator exactly when they are the same finger. */
  lemma SameActuatorSameFinger(p: Part, q: Part, a: Actuator, b: Actuator)
    requires IsFingerPart(p) && IsFingerPart(q)
    ensures SetActuator(Some(p), a) == SetActuator(Some(q), b) <==> (p == q || (p.Ordinal() <= 2 && q.Ordinal() <= 2))
  {
  }

  /** Setting the actuator twice is the same as once. */
  lemma SetActuatorIdempotent(axes: Option<Part>, a: Actuator)
    ensures SetActuator(axes, SetActuator(axes, a)) == SetActuator(axes, a)
  {
  }
}
