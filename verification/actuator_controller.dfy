/**
 * The client `TactileActuatorController`: one play/stop switch per glove
 * actuator, driven by the mean magnitude of a row of samples.
 *
 * Samples are reals here (float rounding of the running sum is not
 * modelled). The mean of an empty row is 0/0, a NaN, which compares false
 * with the threshold and therefore takes the play branch.
 */
module ActuatorController {
  import opened Wrappers

  /** The glove actuators of the vendor `Actuator` enum; palm actuators are numbered. */
  datatype Actuator = Thumb | Index | Middle | Ring | Pinky | Palm(n: nat)

  /** A float level: a real, or NaN. */
  datatype Level = Finite(v: real) | NaN

  datatype Effect = PlayValue(level: Level, actuator: Actuator) | StopActuator(actuator: Actuator)

  datatype Error = IndexOutOfRange

  /** The actuators in the order the server's detectors are sent. */
  const Actuators: seq<Actuator> := [Index, Middle, Ring]

  /** The actuator count the decoders size their caches with. */
  const ActuatorCount: nat := |Actuators|

  const Threshold: real := 0.01

  datatype PlayResult = PlayResult(states: seq<bool>, effects: seq<Effect>)

  /** The constructor: every actuator idle. */
  function Init(): (s: seq<bool>)
    ensures |s| == ActuatorCount && forall i :: 0 <= i < |s| ==> !s[i]
  {
    [false, false, false]
  }

  function Abs(x: real): (r: real)
    ensures r >= 0.0 && (r == x || r == -x)
  {
    if x < 0.0 then -x else x
  }

  function SumAbs(xs: seq<real>): (r: real)
    ensures r >= 0.0
  {
    if |xs| == 0 then 0.0 else Abs(xs[0]) + SumAbs(xs[1..])
  }

  /** The mean of |x| over the row. */
  function MeanAbs(xs: seq<real>): (r: Level)
    ensures r.NaN? <==> |xs| == 0
    ensures r.Finite? ==> r.v >= 0.0 && r.v * (|xs| as real) == SumAbs(xs)
  {
    if |xs| == 0 then NaN else Finite(SumAbs(xs) / |xs| as real)
  }

  predicate Below(l: Level)
  {
    l.Finite? && l.v < Threshold
  }

  /** A row with every |sample| below the threshold has a mean below it. */
  lemma {:induction false} QuietRowIsBelow(xs: seq<real>)
    requires |xs| > 0 && forall k :: 0 <= k < |xs| ==> Abs(xs[k]) < Threshold
    ensures Below(MeanAbs(xs))
  {
    SumBelow(xs);
  }

  lemma {:induction false} SumBelow(xs: seq<real>)
    requires forall k :: 0 <= k < |xs| ==> Abs(xs[k]) < Threshold
    ensures |xs| > 0 ==> SumAbs(xs) < Threshold * |xs| as real
    ensures SumAbs(xs) <= Threshold * |xs| as real
  {
    if |xs| > 0 {
      SumBelow(xs[1..]);
    }
  }

  /**
   * `Play(actuatorIdx, signals)`. Below the threshold an active actuator is
   * stopped and marked idle, an idle one is left alone; otherwise the level
   * is played and the actuator marked active. An index outside the actuator
   * table throws before anything happens.
   */
  function Play(states: seq<bool>, idx: int, signals: seq<real>): (r: Result<PlayResult, Error>)
    requires |states| == ActuatorCount
    ensures r.Failure? <==> !(0 <= idx < ActuatorCount)
    ensures r.Success? ==> |r.value.states| == ActuatorCount
    ensures r.Success? ==> forall j :: 0 <= j < ActuatorCount && j != idx ==> r.value.states[j] == states[j]
    ensures r.Success? && Below(MeanAbs(signals)) ==>
              !r.value.states[idx]
              && r.value.effects == (if states[idx] then [StopActuator(Actuators[idx])] else [])
    ensures r.Success? && !Below(MeanAbs(signals)) ==>
              r.value.states[idx] && r.value.effects == [PlayValue(MeanAbs(signals), Actuators[idx])]
  {
    if !(0 <= idx < ActuatorCount) then Failure(IndexOutOfRange)
    else
      var value := MeanAbs(signals);
      if Below(value) then
        if states[idx] then Success(PlayResult(states[idx := false], [StopActuator(Actuators[idx])]))
        else Success(PlayResult(states, []))
      else Success(PlayResult(states[idx := true], [PlayValue(value, Actuators[idx])]))
  }

  /** An actuator is active exactly when the last row played on it was at or above the threshold. */
  lemma ActiveIffLastLoud(states: seq<bool>, idx: int, signals: seq<real>)
    requires |states| == ActuatorCount && 0 <= idx < ActuatorCount
    ensures Play(states, idx, signals).value.states[idx] <==> !Below(MeanAbs(signals))
  {
  }

  /** Quiet rows never emit anything after the first: stopping is issued at most once. */
  lemma StopIssuedOnce(states: seq<bool>, idx: int, quiet1: seq<real>, quiet2: seq<real>)
    requires |states| == ActuatorCount && 0 <= idx < ActuatorCount
    requires Below(MeanAbs(quiet1)) && Below(MeanAbs(quiet2))
    ensures var first := Play(states, idx, quiet1).value;
            Play(first.states, idx, quiet2).value.effects == []
  {
  }
}
