/**
 * The client `TactileController`. Every tick it drains the receive queue to
 * its newest payload and hands it to the decoder (a null payload when the
 * queue was empty), then plays one row of the current batch: for each
 * actuator i the T samples at row `frameIdx` of cache i. A decode completion
 * (an event here; a callback from a worker thread in the source) replaces
 * the caches and restarts playback at row 0, whatever row was playing.
 */
module TactileClient {
  import opened Wrappers
  import opened SeqUtil
  import opened Bytes
  import AC = ActuatorController

  datatype Client = Client(
    caches: Option<seq<seq<real>>>,  // null until the first decode completes
    frameIdx: int,
    frameCount: int,
    taxelSize: nat,
    actuators: seq<bool>)            // the actuator controller's play states

  datatype TickResult = TickResult(
    state: Client,
    decodeRequest: Option<seq<byte>>,  // the payload passed to Decode (None: null)
    row: Option<int>,                  // the row played this tick, if any
    effects: seq<AC.Effect>,
    thrown: bool)

  ghost predicate Valid(c: Client)
  {
    c.frameCount >= 1 && 0 <= c.frameIdx && |c.actuators| == AC.ActuatorCount
  }

  /** `Init`: no caches yet, row 0, every actuator idle. */
  function Init(frameCount: int, taxelSize: nat): (c: Client)
    requires frameCount >= 1
    ensures Valid(c) && c.caches.None? && c.frameIdx == 0
  {
    Client(None, 0, frameCount, taxelSize, AC.Init())
  }

  /** `OnDecodeFinished`: the new caches replace the old ones and playback restarts. */
  function OnDecodeFinished(c: Client, caches: seq<seq<real>>): (c': Client)
    ensures c'.caches == Some(caches) && c'.frameIdx == 0
    ensures c'.frameCount == c.frameCount && c'.taxelSize == c.taxelSize && c'.actuators == c.actuators
  {
    c.(caches := Some(caches), frameIdx := 0)
  }

  /** Row `start .. start + T` of cache j exists and j names an actuator. */
  ghost predicate RowInCache(caches: seq<seq<real>>, j: nat, start: nat, taxelSize: nat)
    requires j < |caches|
  {
    start + taxelSize <= |caches[j]| && j < AC.ActuatorCount
  }

  /** Whether a row switches its actuator on: its mean magnitude is not below the threshold. */
  ghost predicate Loud(row: seq<real>)
  {
    !AC.Below(AC.MeanAbs(row))
  }

  /** The first actuator from i on whose row cannot be played, or |caches| when every one can. */
  ghost function Reach(caches: seq<seq<real>>, i: nat, start: nat, taxelSize: nat): (e: nat)
    requires i <= |caches|
    ensures i <= e <= |caches|
    ensures forall j :: i <= j < e ==> RowInCache(caches, j, start, taxelSize)
    ensures e < |caches| ==> !RowInCache(caches, e, start, taxelSize)
    decreases |caches| - i
  {
    if i == |caches| || !RowInCache(caches, i, start, taxelSize) then i
    else Reach(caches, i + 1, start, taxelSize)
  }

  /**
   * What playing rows lo .. hi - 1 emits, actuator by actuator: the level of a
   * loud row; a stop for a quiet row on an actuator that was active; nothing
   * for a quiet row on an idle one. Each actuator is played once, so `states`
   * are the states before the loop.
   */
  ghost function Emitted(states: seq<bool>, caches: seq<seq<real>>, lo: nat, hi: nat, start: nat, taxelSize: nat)
    : seq<AC.Effect>
    requires |states| == AC.ActuatorCount && lo <= hi <= |caches|
    requires forall j :: lo <= j < hi ==> RowInCache(caches, j, start, taxelSize)
    decreases hi - lo
  {
    if lo == hi then []
    else
      assert RowInCache(caches, lo, start, taxelSize);
      var row := caches[lo][start..start + taxelSize];
      (if Loud(row) then [AC.PlayValue(AC.MeanAbs(row), AC.Actuators[lo])]
       else if states[lo] then [AC.StopActuator(AC.Actuators[lo])]
       else [])
      + Emitted(states, caches, lo + 1, hi, start, taxelSize)
  }

  /** The actuator states after rows lo .. hi - 1 are played: each of those actuators is on iff its row is loud. */
  ghost function StatesAfter(states: seq<bool>, caches: seq<seq<real>>, lo: nat, hi: nat, start: nat, taxelSize: nat)
    : (r: seq<bool>)
    requires |states| == AC.ActuatorCount && lo <= hi <= |caches|
    requires forall j :: lo <= j < hi ==> RowInCache(caches, j, start, taxelSize)
    ensures |r| == |states|
  {
    seq(|states|, j requires 0 <= j < |states| =>
      if lo <= j < hi && RowInCache(caches, j, start, taxelSize) then Loud(caches[j][start..start + taxelSize])
      else states[j])
  }

  /**
   * The actuator loop of `UpdateTactile` from actuator i on, at sample offset
   * `start`: copy T samples of row i, then Play them on actuator i. Reading
   * past the end of a row, or playing on an index beyond the actuator table,
   * throws; the actuators already played keep their new state.
   */
  function PlayRows(states: seq<bool>, caches: seq<seq<real>>, i: nat, start: nat, taxelSize: nat)
    : (r: (seq<bool>, seq<AC.Effect>, bool))
    requires |states| == AC.ActuatorCount && i <= |caches|
    ensures |r.0| == AC.ActuatorCount
    ensures !r.2 <==> forall j :: i <= j < |caches| ==> RowInCache(caches, j, start, taxelSize)
    decreases |caches| - i
  {
    if i == |caches| then (states, [], false)
    else if start + taxelSize > |caches[i]| then
      assert !RowInCache(caches, i, start, taxelSize);
      (states, [], true)
    else match AC.Play(states, i, caches[i][start..start + taxelSize])
      case Failure(_) =>
        assert !RowInCache(caches, i, start, taxelSize);
        (states, [], true)
      case Success(p) =>
        assert RowInCache(caches, i, start, taxelSize);
        var rest := PlayRows(p.states, caches, i + 1, start, taxelSize);
        (rest.0, p.effects + rest.1, rest.2)
  }

  /**
   * The loop plays the rows of actuators i, i + 1, ... in order up to the
   * first one that cannot be played (all of them when none throws): the
   * effects are those rows' effects in order and exactly those actuators
   * change state, each to whether its row is loud.
   */
  lemma {:induction false} PlayRowsPlays(states: seq<bool>, caches: seq<seq<real>>, i: nat, start: nat, taxelSize: nat)
    requires |states| == AC.ActuatorCount && i <= |caches|
    ensures var r := PlayRows(states, caches, i, start, taxelSize);
            var e := Reach(caches, i, start, taxelSize);
            (r.2 <==> e < |caches|)
            && r.0 == StatesAfter(states, caches, i, e, start, taxelSize)
            && r.1 == Emitted(states, caches, i, e, start, taxelSize)
    decreases |caches| - i
  {
    var r := PlayRows(states, caches, i, start, taxelSize);
    var e := Reach(caches, i, start, taxelSize);
    if e == i {
      assert StatesAfter(states, caches, i, e, start, taxelSize) == states;
      if i < |caches| {
        assert r == (states, [], true);
      }
    } else {
      var row := caches[i][start..start + taxelSize];
      var p := AC.Play(states, i, row).value;
      PlayRowsPlays(p.states, caches, i + 1, start, taxelSize);
      EmittedFrame(p.states, states, caches, i + 1, e, start, taxelSize);
      assert StatesAfter(p.states, caches, i + 1, e, start, taxelSize) == StatesAfter(states, caches, i, e, start, taxelSize);
    }
  }

  /** The effects of rows lo .. hi - 1 depend only on the states of those actuators. */
  lemma {:induction false} EmittedFrame(s1: seq<bool>, s2: seq<bool>, caches: seq<seq<real>>, lo: nat, hi: nat,
                                        start: nat, taxelSize: nat)
    requires |s1| == |s2| == AC.ActuatorCount && lo <= hi <= |caches|
    requires forall j :: lo <= j < hi ==> RowInCache(caches, j, start, taxelSize)
    requires forall j :: lo <= j < hi && j < |s1| ==> s1[j] == s2[j]
    ensures Emitted(s1, caches, lo, hi, start, taxelSize) == Emitted(s2, caches, lo, hi, start, taxelSize)
    decreases hi - lo
  {
    if lo < hi {
      assert RowInCache(caches, lo, start, taxelSize);
      EmittedFrame(s1, s2, caches, lo + 1, hi, start, taxelSize);
    }
  }

  /** One row played by `UpdateTactile`: the loop's effects and states from actuator 0 at the row's offset. */
  ghost predicate PlaysCurrentRow(c: Client, r: TickResult)
    requires Valid(c) && c.caches.Some?
  {
    var start := c.frameIdx * c.taxelSize;
    var e := Reach(c.caches.value, 0, start, c.taxelSize);
    r.thrown == (e < |c.caches.value|)
    && r.state.actuators == StatesAfter(c.actuators, c.caches.value, 0, e, start, c.taxelSize)
    && r.effects == Emitted(c.actuators, c.caches.value, 0, e, start, c.taxelSize)
  }

  /** `UpdateTactile`: nothing without caches or past the last row; otherwise one row, then advance. */
  function UpdateTactile(c: Client): (r: TickResult)
    requires Valid(c)
    ensures Valid(r.state) && r.decodeRequest.None?
    ensures r.state.caches == c.caches && r.state.frameCount == c.frameCount && r.state.taxelSize == c.taxelSize
    ensures c.caches.None? || c.frameIdx >= c.frameCount ==> r == TickResult(c, None, None, [], false)
    ensures r.row.Some? <==> c.caches.Some? && c.frameIdx < c.frameCount
    ensures r.row.Some? ==> r.row.value == c.frameIdx
    ensures r.row.Some? && !r.thrown ==> r.state.frameIdx == c.frameIdx + 1
    ensures r.row.None? || r.thrown ==> r.state.frameIdx == c.frameIdx
    ensures r.row.Some? ==> PlaysCurrentRow(c, r)
  {
    if c.caches.None? || c.frameIdx >= c.frameCount then TickResult(c, None, None, [], false)
    else
      PlayRowsPlays(c.actuators, c.caches.value, 0, c.frameIdx * c.taxelSize, c.taxelSize);
      var (states, effects, thrown) := PlayRows(c.actuators, c.caches.value, 0, c.frameIdx * c.taxelSize, c.taxelSize);
      var next := if thrown then c.(actuators := states) else c.(actuators := states, frameIdx := c.frameIdx + 1);
      TickResult(next, None, Some(c.frameIdx), effects, thrown)
  }

  /** `Tick`: drain the queue to its newest payload, request a decode of it, then play a row if one is left. */
  function Tick(c: Client, queue: seq<seq<byte>>): (r: TickResult)
    requires Valid(c)
    ensures Valid(r.state) && r.state.caches == c.caches
    ensures r.state.frameCount == c.frameCount && r.state.taxelSize == c.taxelSize
    ensures r.decodeRequest == DrainLast(queue)
    ensures r.row.Some? <==> c.caches.Some? && c.frameIdx < c.frameCount
    ensures r.row.Some? ==> r.row.value == c.frameIdx
    ensures r.state.frameIdx == (if r.row.Some? && !r.thrown then c.frameIdx + 1 else c.frameIdx)
    ensures r.row.Some? ==> PlaysCurrentRow(c, r)
    ensures r.row.None? ==> r.effects == [] && r.state == c && !r.thrown
  {
    var data := DrainLast(queue);
    var u := if c.frameIdx < c.frameCount then UpdateTactile(c) else TickResult(c, None, None, [], false);
    u.(decodeRequest := data)
  }

  /** Caches the playback loop can read without throwing. */
  ghost predicate Playable(caches: seq<seq<real>>, frameCount: int, taxelSize: nat)
  {
    |caches| <= AC.ActuatorCount && forall i :: 0 <= i < |caches| ==> frameCount * taxelSize <= |caches[i]|
  }

  /** The rows played by k ticks in which no decode completes. */
  function Rows(c: Client, queues: seq<seq<seq<byte>>>): (rows: seq<int>)
    requires Valid(c)
    decreases |queues|
  {
    if |queues| == 0 then []
    else
      var t := Tick(c, queues[0]);
      (if t.row.Some? then [t.row.value] else []) + (if t.thrown then [] else Rows(t.state, queues[1..]))
  }

  lemma RowFits(row: int, frameCount: int, taxelSize: nat)
    requires 0 <= row < frameCount
    ensures row * taxelSize + taxelSize <= frameCount * taxelSize
  {
    var d := frameCount - (row + 1);
    assert frameCount * taxelSize == row * taxelSize + taxelSize + d * taxelSize;
  }

  /** On playable caches, a tick with a row left plays it without throwing and keeps the caches playable. */
  lemma TickPlaysRow(c: Client, queue: seq<seq<byte>>)
    requires Valid(c) && c.caches.Some? && Playable(c.caches.value, c.frameCount, c.taxelSize)
    requires c.frameIdx < c.frameCount
    ensures var t := Tick(c, queue);
            !t.thrown && t.row == Some(c.frameIdx) && t.state.frameIdx == c.frameIdx + 1
            && t.state.frameCount == c.frameCount && t.state.taxelSize == c.taxelSize
    ensures var t := Tick(c, queue);
            var caches, start := c.caches.value, c.frameIdx * c.taxelSize;
            PlayableAt(caches, start, c.taxelSize)
            && t.effects == Emitted(c.actuators, caches, 0, |caches|, start, c.taxelSize)
            && t.state.actuators == StatesAfter(c.actuators, caches, 0, |caches|, start, c.taxelSize)
  {
    RowFits(c.frameIdx, c.frameCount, c.taxelSize);
    var caches, start := c.caches.value, c.frameIdx * c.taxelSize;
    assert PlayableAt(caches, start, c.taxelSize);
  }

  /** Every actuator's row at `start` can be played. */
  ghost predicate PlayableAt(caches: seq<seq<real>>, start: nat, taxelSize: nat)
  {
    forall j :: 0 <= j < |caches| ==> RowInCache(caches, j, start, taxelSize)
  }

  /**
   * Between two decode completions the rows are played in increasing order
   * from the current one, each once, and never past the last: k ticks from
   * row n play rows n, n + 1, ..., min(n + k, F) - 1.
   */
  lemma {:induction false} PlaysConsecutiveRows(c: Client, queues: seq<seq<seq<byte>>>)
    requires Valid(c) && c.caches.Some? && Playable(c.caches.value, c.frameCount, c.taxelSize)
    ensures Rows(c, queues) == Range(c.frameIdx, Min(c.frameIdx + |queues|, c.frameCount))
    decreases |queues|
  {
    if |queues| > 0 {
      var next := Tick(c, queues[0]).state;
      RowsStep(c, queues, next);
      PlaysConsecutiveRows(next, queues[1..]);
      RangeStep(c.frameIdx, next.frameIdx, |queues|, |queues[1..]|, c.frameCount, next.frameCount);
    }
  }

  /**
   * One tick of a playable client: the current row, if one is left, followed
   * by the rows of the state it leaves, which is playable alike.
   */
  lemma RowsStep(c: Client, queues: seq<seq<seq<byte>>>, next: Client)
    requires Valid(c) && c.caches.Some? && Playable(c.caches.value, c.frameCount, c.taxelSize)
    requires |queues| > 0 && next == Tick(c, queues[0]).state
    ensures Valid(next) && next.caches == c.caches && next.frameCount == c.frameCount && next.taxelSize == c.taxelSize
    ensures next.frameIdx == if c.frameIdx < c.frameCount then c.frameIdx + 1 else c.frameIdx
    ensures Rows(c, queues) == (if c.frameIdx < c.frameCount then [c.frameIdx] else []) + Rows(next, queues[1..])
  {
    if c.frameIdx < c.frameCount {
      TickPlaysRow(c, queues[0]);
    }
  }

  /** Range(n, min(n + k, F)) starts with n when n < F and continues from the next row. */
  lemma RangeStep(n: int, n': int, k: nat, k': nat, f: int, f': int)
    requires k > 0 && k' == k - 1 && f' == f && n' == if n < f then n + 1 else n
    ensures Range(n, Min(n + k, f)) == (if n < f then [n] else []) + Range(n', Min(n' + k', f'))
  {
    if n < f {
      assert Range(n, Min(n + k, f)) == [n] + Range(n + 1, Min(n + k, f));
    }
  }

  function Min(a: int, b: int): int
  {
    if a < b then a else b
  }

  /** The effects of k ticks in which no decode completes. */
  function Effects(c: Client, queues: seq<seq<seq<byte>>>): seq<AC.Effect>
    requires Valid(c)
    decreases |queues|
  {
    if |queues| == 0 then []
    else
      var t := Tick(c, queues[0]);
      t.effects + (if t.thrown then [] else Effects(t.state, queues[1..]))
  }

  /** On playable caches every actuator's row n can be played. */
  lemma PlayableRow(caches: seq<seq<real>>, n: nat, frameCount: int, taxelSize: nat)
    requires Playable(caches, frameCount, taxelSize) && n < frameCount
    ensures PlayableAt(caches, n * taxelSize, taxelSize)
  {
    RowFits(n, frameCount, taxelSize);
  }

  /** The effects of row n on every actuator, from the actuator states `states`. */
  ghost function RowEffects(states: seq<bool>, caches: seq<seq<real>>, n: nat, frameCount: int, taxelSize: nat)
    : seq<AC.Effect>
    requires |states| == AC.ActuatorCount && Playable(caches, frameCount, taxelSize) && n < frameCount
  {
    PlayableRow(caches, n, frameCount, taxelSize);
    Emitted(states, caches, 0, |caches|, n * taxelSize, taxelSize)
  }

  /** The actuator states row n leaves, from the actuator states `states`. */
  ghost function RowStates(states: seq<bool>, caches: seq<seq<real>>, n: nat, frameCount: int, taxelSize: nat)
    : (r: seq<bool>)
    requires |states| == AC.ActuatorCount && Playable(caches, frameCount, taxelSize) && n < frameCount
    ensures |r| == AC.ActuatorCount
  {
    PlayableRow(caches, n, frameCount, taxelSize);
    StatesAfter(states, caches, 0, |caches|, n * taxelSize, taxelSize)
  }

  /**
   * Rows n .. m - 1 played in turn, each on every actuator, each starting
   * from the actuator states the previous row left.
   */
  ghost function RowsPlayed(states: seq<bool>, caches: seq<seq<real>>, n: nat, m: int, frameCount: int, taxelSize: nat)
    : seq<AC.Effect>
    requires |states| == AC.ActuatorCount && Playable(caches, frameCount, taxelSize) && m <= frameCount
    decreases m - n
  {
    if n >= m then []
    else
      RowEffects(states, caches, n, frameCount, taxelSize)
      + RowsPlayed(RowStates(states, caches, n, frameCount, taxelSize), caches, n + 1, m, frameCount, taxelSize)
  }

  /**
   * Between two decode completions, k ticks from row n emit exactly what
   * playing rows n, n + 1, ..., min(n + k, F) - 1 on every actuator emits:
   * the samples [r·T, r·T + T) of each cache, row after row.
   */
  lemma {:induction false} PlaysConsecutiveSamples(c: Client, queues: seq<seq<seq<byte>>>)
    requires Valid(c) && c.caches.Some? && Playable(c.caches.value, c.frameCount, c.taxelSize)
    ensures Effects(c, queues)
            == RowsPlayed(c.actuators, c.caches.value, c.frameIdx, Min(c.frameIdx + |queues|, c.frameCount),
                          c.frameCount, c.taxelSize)
    decreases |queues|
  {
    if |queues| > 0 {
      if c.frameIdx < c.frameCount {
        var next := Tick(c, queues[0]).state;
        EffectsStep(c, queues, next);
        PlaysConsecutiveSamples(next, queues[1..]);
        RowsPlayedStep(c.actuators, next.actuators, c.caches.value, next.caches.value, c.frameIdx, next.frameIdx,
                       |queues|, |queues[1..]|, c.frameCount, next.frameCount, c.taxelSize, next.taxelSize);
      } else {
        EffectsIdle(c, queues);
        PlaysConsecutiveSamples(c, queues[1..]);
      }
    }
  }

  /** A tick with a row left on playable caches emits that row's effects, then those of the state it leaves. */
  lemma EffectsStep(c: Client, queues: seq<seq<seq<byte>>>, next: Client)
    requires Valid(c) && c.caches.Some? && Playable(c.caches.value, c.frameCount, c.taxelSize)
    requires c.frameIdx < c.frameCount && |queues| > 0 && next == Tick(c, queues[0]).state
    ensures Valid(next) && next.caches == c.caches && next.frameCount == c.frameCount && next.taxelSize == c.taxelSize
    ensures next.frameIdx == c.frameIdx + 1
    ensures next.actuators == RowStates(c.actuators, c.caches.value, c.frameIdx, c.frameCount, c.taxelSize)
    ensures Effects(c, queues)
            == RowEffects(c.actuators, c.caches.value, c.frameIdx, c.frameCount, c.taxelSize) + Effects(next, queues[1..])
  {
    TickPlaysRow(c, queues[0]);
  }

  /** Past the last row a tick emits nothing and changes nothing. */
  lemma EffectsIdle(c: Client, queues: seq<seq<seq<byte>>>)
    requires Valid(c) && c.frameIdx >= c.frameCount && |queues| > 0
    ensures Effects(c, queues) == Effects(c, queues[1..])
  {
  }

  /** RowsPlayed over min(n + k, F), for n < F, starts with row n and continues from the states it leaves. */
  lemma RowsPlayedStep(states: seq<bool>, states': seq<bool>, caches: seq<seq<real>>, caches': seq<seq<real>>,
                       n: nat, n': nat, k: nat, k': nat, frameCount: int, frameCount': int, taxelSize: nat, taxelSize': nat)
    requires |states| == AC.ActuatorCount && Playable(caches, frameCount, taxelSize) && n < frameCount
    requires caches' == caches && frameCount' == frameCount && taxelSize' == taxelSize
    requires k > 0 && k' == k - 1 && n' == n + 1
    requires states' == RowStates(states, caches, n, frameCount, taxelSize)
    ensures |states'| == AC.ActuatorCount && Playable(caches', frameCount', taxelSize')
    ensures RowsPlayed(states, caches, n, Min(n + k, frameCount), frameCount, taxelSize)
            == RowEffects(states, caches, n, frameCount, taxelSize)
               + RowsPlayed(states', caches', n', Min(n' + k', frameCount'), frameCount', taxelSize')
  {
  }

  /** After a decode completion, k ticks play rows 0, 1, ..., min(k, F) - 1. */
  lemma {:induction false} PlaysBatchFromStart(c: Client, caches: seq<seq<real>>, queues: seq<seq<seq<byte>>>)
    requires Valid(c) && Playable(caches, c.frameCount, c.taxelSize)
    ensures Rows(OnDecodeFinished(c, caches), queues) == Range(0, Min(|queues|, c.frameCount))
  {
    PlaysConsecutiveRows(OnDecodeFinished(c, caches), queues);
  }

  /** After a decode completion, k ticks emit the samples of rows 0, 1, ..., min(k, F) - 1 of the new caches. */
  lemma {:induction false} PlaysBatchSamplesFromStart(c: Client, caches: seq<seq<real>>, queues: seq<seq<seq<byte>>>)
    requires Valid(c) && Playable(caches, c.frameCount, c.taxelSize)
    ensures Effects(OnDecodeFinished(c, caches), queues)
            == RowsPlayed(c.actuators, caches, 0, Min(|queues|, c.frameCount), c.frameCount, c.taxelSize)
  {
    PlaysConsecutiveSamples(OnDecodeFinished(c, caches), queues);
  }
}
