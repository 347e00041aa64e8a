/**
 * The data providers that feed a hand controller's multiplexer
 * (`PCI_MUXDataProvider`) and the provider reading the glove itself
 * (`MUXDataProvider_Hand`): their priority sign rule, bone-control flags and
 * the binding to a hand controller. Scene look-ups become explicit lists.
 */
module MuxProvider {
  import opened Wrappers
  import opened Bytes
  import opened MuxData

  /** The vendor `Location` enum: the two hands, and every other body location by ordinal. */
  datatype Location = RightHand | LeftHand | OtherLocation(ordinal: nat)

  /** `Type_MUXValueType`. */
  datatype ValueType = LocalSpace | WorldSpace | DeltaLocalSpace | DeltaWorldSpace

  datatype Provider = Provider(
    sourceId: string,
    userId: int,
    location: Location,
    priorityPositive: int32,
    priority: int32,
    controlsPosition: seq<bool>,
    controlsRotation: seq<bool>,
    positionType: seq<ValueType>,
    rotationType: seq<ValueType>,
    /** The bound hand controller, as an index into the scene's controllers. */
    hmc: Option<nat>)

  /** A provider as configured, before Awake: priority 0 and no controller bound. */
  function Configured(sourceId: string, userId: int, location: Location, priorityPositive: int32,
                      controlsPosition: seq<bool>, controlsRotation: seq<bool>,
                      positionType: seq<ValueType>, rotationType: seq<ValueType>): (p: Provider)
    ensures GetPriority(p) == 0 && p.hmc.None?
  {
    Provider(sourceId, userId, location, priorityPositive, 0, controlsPosition, controlsRotation,
             positionType, rotationType, None)
  }

  /** C# int negation: wraps, so the most negative int32 is its own negation. */
  function Neg32(x: int32): (r: int32)
    ensures x != -Two31 ==> r == -x
    ensures x == -Two31 ==> r == x
  {
    if x == -Two31 then x else -x
  }

  /** `Awake`: a negative configured priority is negated. */
  function Awake(p: Provider): (r: Provider)
    ensures r == p.(priorityPositive := r.priorityPositive)
    ensures r.priorityPositive >= 0 <==> p.priorityPositive != -Two31
    ensures r.priorityPositive == p.priorityPositive || r.priorityPositive as int == -(p.priorityPositive as int)
  {
    if p.priorityPositive < 0 then p.(priorityPositive := Neg32(p.priorityPositive)) else p
  }

  function GetPriority(p: Provider): int32
  {
    p.priority
  }

  /**
   * The priority change of `SetActive`: +priorityPositive when activated and
   * its negation otherwise. Without a bound controller nothing happens.
   */
  function SetActivePriority(p: Provider, active: bool): (r: Provider)
    ensures p.hmc.None? ==> r == p
    ensures p.hmc.Some? ==> r == p.(priority := r.priority)
                            && GetPriority(r) == if active then p.priorityPositive else Neg32(p.priorityPositive)
  {
    if p.hmc.None? then p
    else p.(priority := if active then p.priorityPositive else Neg32(p.priorityPositive))
  }

  /** After Awake, activation gives a non-negative priority and deactivation its opposite. */
  lemma ActivationSign(p: Provider, active: bool)
    requires p.hmc.Some? && p.priorityPositive != -Two31
    ensures var r := SetActivePriority(Awake(p), active);
            (active ==> GetPriority(r) >= 0) && (!active ==> GetPriority(r) <= 0)
            && GetPriority(SetActivePriority(Awake(p), true)) == -GetPriority(SetActivePriority(Awake(p), false))
  {
  }

  /** `MustControlBoneRotation`: the configured flag; an index outside the array throws (None). */
  function MustControlBoneRotation(p: Provider, i: int): (r: Option<bool>)
    ensures r.Some? <==> 0 <= i < |p.controlsRotation|
    ensures r.Some? ==> r.value == p.controlsRotation[i]
  {
    if 0 <= i < |p.controlsRotation| then Some(p.controlsRotation[i]) else None
  }

  /** `MustControlBonePosition`: the configured flag; an index outside the array throws (None). */
  function MustControlBonePosition(p: Provider, i: int): (r: Option<bool>)
    ensures r.Some? <==> 0 <= i < |p.controlsPosition|
    ensures r.Some? ==> r.value == p.controlsPosition[i]
  {
    if 0 <= i < |p.controlsPosition| then Some(p.controlsPosition[i]) else None
  }

  /**
   * `GetHMC`: the first scene controller, given as (user, hand location), whose
   * user and hand both match the provider.
   */
  function FindHmc(p: Provider, hmcs: seq<(int, Location)>): (r: Option<nat>)
    ensures r.None? <==> forall k :: 0 <= k < |hmcs| ==> hmcs[k] != (p.userId, p.location)
    ensures r.Some? ==> r.value < |hmcs| && hmcs[r.value] == (p.userId, p.location)
                        && forall k :: 0 <= k < r.value ==> hmcs[k] != (p.userId, p.location)
    decreases |hmcs|
  {
    if |hmcs| == 0 then None
    else if hmcs[0] == (p.userId, p.location) then Some(0)
    else
      match FindHmc(p, hmcs[1..])
      case None => None
      case Some(k) => Some(k + 1)
  }

  /** Binds the controller `GetHMC` finds; when none matches the binding is left as it was. */
  function BindHmc(p: Provider, hmcs: seq<(int, Location)>): (r: Provider)
    ensures r == p.(hmc := r.hmc)
    ensures FindHmc(p, hmcs).Some? ==> r.hmc == FindHmc(p, hmcs)
    ensures FindHmc(p, hmcs).None? ==> r == p
  {
    match FindHmc(p, hmcs)
    case None => p
    case Some(k) => p.(hmc := Some(k))
  }

  // ---------------------------------------------------------------------
  // MUXDataProvider_Hand
  // ---------------------------------------------------------------------

  /**
   * `MUXDataProvider_Hand.Awake`: the base Awake, then the raw-source tag as
   * sourceId, and the user and hand of the attached controller when there is one.
   */
  function HandAwake(p: Provider, attached: Option<(int, Location)>, rawSourceTag: string): (r: Provider)
    ensures r.sourceId == rawSourceTag
    ensures attached.Some? ==> (r.userId, r.location) == attached.value
    ensures attached.None? ==> r.userId == p.userId && r.location == p.location
    ensures r.priorityPositive == Awake(p).priorityPositive
    ensures r == p.(sourceId := r.sourceId, userId := r.userId, location := r.location,
                    priorityPositive := r.priorityPositive)
  {
    var q := Awake(p).(sourceId := rawSourceTag);
    if attached.Some? then q.(userId := attached.value.0, location := attached.value.1) else q
  }

  /** The phalanx targets the propagation writes. */
  function Targets(ids: SensorIds): set<nat>
  {
    {ids.thumb2, ids.index1, ids.index2, ids.middle1, ids.middle2, ids.ring1, ids.ring2, ids.pinky1, ids.pinky2}
  }

  /** What the propagation relies on: the fingers' targets do not overlap and no source is a target. */
  ghost predicate PhalangesApart(ids: SensorIds)
  {
    ids.InRange() &&
    var thumb := {ids.thumb2};
    var index := {ids.index1, ids.index2};
    var middle := {ids.middle1, ids.middle2};
    var ring := {ids.ring1, ids.ring2};
    var pinky := {ids.pinky1, ids.pinky2};
    thumb !! index && thumb !! middle && thumb !! ring && thumb !! pinky
    && index !! middle && index !! ring && index !! pinky
    && middle !! ring && middle !! pinky && ring !! pinky
    && ids.thumb1 !in Targets(ids) && ids.index !in Targets(ids) && ids.middle !in Targets(ids)
    && ids.ring !in Targets(ids) && ids.pinky !in Targets(ids)
  }

  /** `x` is neither `a` nor `b`. */
  predicate Off2(x: nat, a: nat, b: nat)
  {
    x != a && x != b
  }

  /** `x` is none of the nine targets. */
  predicate OffTargets(x: nat, ids: SensorIds)
  {
    x != ids.thumb2 && Off2(x, ids.index1, ids.index2) && Off2(x, ids.middle1, ids.middle2)
    && Off2(x, ids.ring1, ids.ring2) && Off2(x, ids.pinky1, ids.pinky2)
  }

  /** `PhalangesApart` spelt out as the disequalities the propagation proofs use. */
  lemma ApartFacts(ids: SensorIds)
    requires PhalangesApart(ids)
    ensures Off2(ids.thumb2, ids.index1, ids.index2) && Off2(ids.thumb2, ids.middle1, ids.middle2)
            && Off2(ids.thumb2, ids.ring1, ids.ring2) && Off2(ids.thumb2, ids.pinky1, ids.pinky2)
    ensures Off2(ids.index1, ids.middle1, ids.middle2) && Off2(ids.index2, ids.middle1, ids.middle2)
            && Off2(ids.index1, ids.ring1, ids.ring2) && Off2(ids.index2, ids.ring1, ids.ring2)
            && Off2(ids.index1, ids.pinky1, ids.pinky2) && Off2(ids.index2, ids.pinky1, ids.pinky2)
    ensures Off2(ids.middle1, ids.ring1, ids.ring2) && Off2(ids.middle2, ids.ring1, ids.ring2)
            && Off2(ids.middle1, ids.pinky1, ids.pinky2) && Off2(ids.middle2, ids.pinky1, ids.pinky2)
    ensures Off2(ids.ring1, ids.pinky1, ids.pinky2) && Off2(ids.ring2, ids.pinky1, ids.pinky2)
    ensures OffTargets(ids.thumb1, ids) && OffTargets(ids.index, ids) && OffTargets(ids.middle, ids)
            && OffTargets(ids.ring, ids) && OffTargets(ids.pinky, ids)
  {
  }

  /** Outside the targets, as a set, is outside each of them. */
  lemma NotTarget(i: nat, ids: SensorIds)
    requires i !in Targets(ids)
    ensures OffTargets(i, ids)
  {
  }

  lemma ValidApart(ids: SensorIds)
    requires ids.Valid()
    ensures PhalangesApart(ids)
  {
    NamedPositions(ids);
  }

  /**
   * What the propagation leaves: Thumb2 holds Thumb1's flag, the two outer
   * phalanges of each other finger hold the finger's flag, and every other
   * bone keeps its own.
   */
  ghost predicate Propagated(flags: seq<bool>, ids: SensorIds, r: seq<bool>)
    requires ids.InRange() && |flags| == ids.count
  {
    && |r| == |flags|
    && r[ids.thumb2] == flags[ids.thumb1]
    && r[ids.index1] == flags[ids.index] && r[ids.index2] == flags[ids.index]
    && r[ids.middle1] == flags[ids.middle] && r[ids.middle2] == flags[ids.middle]
    && r[ids.ring1] == flags[ids.ring] && r[ids.ring2] == flags[ids.ring]
    && r[ids.pinky1] == flags[ids.pinky] && r[ids.pinky2] == flags[ids.pinky]
    && forall i :: 0 <= i < |flags| && i !in Targets(ids) ==> r[i] == flags[i]
  }

  /**
   * The flag propagation of `Start` and `UpdateRotations`: Thumb2 copies
   * Thumb1, and the two outer phalanges of each other finger copy the
   * finger's own flag, in source order.
   */
  function Propagate(flags: seq<bool>, ids: SensorIds): (r: seq<bool>)
    requires PhalangesApart(ids) && |flags| == ids.count
    ensures |r| == |flags|
  {
    var f1 := CopyFlag(flags, ids.thumb2, ids.thumb1);
    var f2 := CopyFinger(f1, ids.index1, ids.index2, ids.index);
    var f3 := CopyFinger(f2, ids.middle1, ids.middle2, ids.middle);
    var f4 := CopyFinger(f3, ids.ring1, ids.ring2, ids.ring);
    CopyFinger(f4, ids.pinky1, ids.pinky2, ids.pinky)
  }

  lemma PropagateThumb(flags: seq<bool>, ids: SensorIds)
    requires PhalangesApart(ids) && |flags| == ids.count
    ensures Propagate(flags, ids)[ids.thumb2] == flags[ids.thumb1]
  {
    ApartFacts(ids);
  }

  lemma PropagateIndex(flags: seq<bool>, ids: SensorIds)
    requires PhalangesApart(ids) && |flags| == ids.count
    ensures var r := Propagate(flags, ids);
            r[ids.index1] == flags[ids.index] && r[ids.index2] == flags[ids.index]
  {
    ApartFacts(ids);
  }

  lemma PropagateMiddle(flags: seq<bool>, ids: SensorIds)
    requires PhalangesApart(ids) && |flags| == ids.count
    ensures var r := Propagate(flags, ids);
            r[ids.middle1] == flags[ids.middle] && r[ids.middle2] == flags[ids.middle]
  {
    ApartFacts(ids);
  }

  lemma PropagateRing(flags: seq<bool>, ids: SensorIds)
    requires PhalangesApart(ids) && |flags| == ids.count
    ensures var r := Propagate(flags, ids);
            r[ids.ring1] == flags[ids.ring] && r[ids.ring2] == flags[ids.ring]
  {
    ApartFacts(ids);
  }

  lemma PropagatePinky(flags: seq<bool>, ids: SensorIds)
    requires PhalangesApart(ids) && |flags| == ids.count
    ensures var r := Propagate(flags, ids);
            r[ids.pinky1] == flags[ids.pinky] && r[ids.pinky2] == flags[ids.pinky]
  {
    ApartFacts(ids);
  }

  lemma PropagateKeeps(flags: seq<bool>, ids: SensorIds)
    requires PhalangesApart(ids) && |flags| == ids.count
    ensures var r := Propagate(flags, ids);
            forall i :: 0 <= i < |flags| && i !in Targets(ids) ==> r[i] == flags[i]
  {
  }

  /** The propagation does what the source's assignments say, given that no target is a source or another finger's target. */
  lemma PropagateSpec(flags: seq<bool>, ids: SensorIds)
    requires PhalangesApart(ids) && |flags| == ids.count
    ensures Propagated(flags, ids, Propagate(flags, ids))
  {
    PropagateThumb(flags, ids);
    PropagateIndex(flags, ids);
    PropagateMiddle(flags, ids);
    PropagateRing(flags, ids);
    PropagatePinky(flags, ids);
    PropagateKeeps(flags, ids);
  }

  /** `f[dst] = f[src]`. */
  function CopyFlag(f: seq<bool>, dst: nat, src: nat): (r: seq<bool>)
    requires dst < |f| && src < |f|
    ensures |r| == |f| && r[dst] == f[src]
    ensures forall i :: 0 <= i < |f| && i != dst ==> r[i] == f[i]
  {
    f[dst := f[src]]
  }

  /** `f[b] = f[a] = f[src]`: both outer phalanges take the finger's flag. */
  function CopyFinger(f: seq<bool>, a: nat, b: nat, src: nat): (r: seq<bool>)
    requires a < |f| && b < |f| && src < |f|
    ensures |r| == |f| && r[a] == f[src] && r[b] == f[src]
    ensures forall i :: 0 <= i < |f| && i != a && i != b ==> r[i] == f[i]
  {
    var g := CopyFlag(f, a, src);
    CopyFlag(g, b, a)
  }

  /** Propagating twice is propagating once: the sources are never targets. */
  lemma PropagateIdempotent(flags: seq<bool>, ids: SensorIds)
    requires PhalangesApart(ids) && |flags| == ids.count
    ensures Propagate(Propagate(flags, ids), ids) == Propagate(flags, ids)
  {
    var once := Propagate(flags, ids);
    PropagateSpec(flags, ids);
    PropagateSpec(once, ids);
    ApartFacts(ids);
    PropagatedUnique(flags, ids, once, Propagate(once, ids));
  }

  /** Two results of the propagation of the same flags agree, when the sources are not targets. */
  lemma PropagatedUnique(flags: seq<bool>, ids: SensorIds, a: seq<bool>, b: seq<bool>)
    requires PhalangesApart(ids) && |flags| == ids.count
    requires Propagated(flags, ids, a) && Propagated(a, ids, b)
    ensures b == a
  {
    forall i | 0 <= i < |flags|
      ensures b[i] == a[i]
    {
      if i !in Targets(ids) {
      }
    }
  }

  /** `MUXDataProvider_Hand.Start` before the base Start: propagation, and world space for the hand bone. */
  function HandStart(p: Provider, ids: SensorIds): (r: Provider)
    requires PhalangesApart(ids) && |p.controlsRotation| == ids.count && |p.rotationType| == ids.count
    ensures r.controlsRotation == Propagate(p.controlsRotation, ids)
    ensures |r.rotationType| == ids.count && r.rotationType[ids.hand] == WorldSpace
    ensures forall i :: 0 <= i < ids.count && i != ids.hand ==> r.rotationType[i] == p.rotationType[i]
    ensures r == p.(controlsRotation := r.controlsRotation, rotationType := r.rotationType)
  {
    NamedPositions(ids);
    p.(controlsRotation := Propagate(p.controlsRotation, ids),
       rotationType := p.rotationType[ids.hand := WorldSpace])
  }

  /** `UpdateRotations`: the same propagation; the controller recompute that follows is the hand model's. */
  function UpdateRotations(p: Provider, ids: SensorIds): (r: Provider)
    requires PhalangesApart(ids) && |p.controlsRotation| == ids.count
    ensures r.controlsRotation == Propagate(p.controlsRotation, ids)
    ensures r == p.(controlsRotation := r.controlsRotation)
  {
    p.(controlsRotation := Propagate(p.controlsRotation, ids))
  }

  /** Start then UpdateRotations leaves the flags as Start set them. */
  lemma UpdateAfterStartIsStable(p: Provider, ids: SensorIds)
    requires PhalangesApart(ids) && |p.controlsRotation| == ids.count && |p.rotationType| == ids.count
    ensures UpdateRotations(HandStart(p, ids), ids) == HandStart(p, ids)
  {
    PropagateIdempotent(p.controlsRotation, ids);
  }
}
