/**
 * The server `TactileController`: every fixed tick it copies one row of T
 * samples from each detector into that detector's cache at row `frameIdx`,
 * and once F rows are collected it hands the caches to the encoder. The
 * caches are reused: the next batch overwrites them row by row.
 *
 * Samples are only copied here, so their type is a parameter. A detector is
 * an abstract source: each tick it yields an array of samples or null.
 */
module TactileServer {
  import opened Wrappers
  import opened SeqUtil
  import Bytes
  import opened Arith

  datatype Controller<S> = Controller(caches: seq<seq<S>>, frameIdx: int, frameCount: int, taxelSize: nat)

  datatype TickResult<S> = TickResult(state: Controller<S>, send: bool, thrown: bool)

  /** Every cache row holds F·T samples and the row index is within [0, F]. */
  ghost predicate Valid<S>(c: Controller<S>)
  {
    c.frameCount >= 1
    && 0 <= c.frameIdx <= c.frameCount
    && forall i :: 0 <= i < |c.caches| ==> |c.caches[i]| == c.frameCount * c.taxelSize
  }

  /** `Init`: one zeroed row of F·T samples per detector, row index 0. */
  function Init<S>(detectorCount: nat, frameCount: int, taxelSize: nat, zero: S): (c: Controller<S>)
    requires frameCount >= 1
    ensures Valid(c) && c.frameIdx == 0 && |c.caches| == detectorCount
    ensures forall i, k :: 0 <= i < detectorCount && 0 <= k < |c.caches[i]| ==> c.caches[i][k] == zero
  {
    Controller(Fill(detectorCount, Fill(frameCount * taxelSize, zero)), 0, frameCount, taxelSize)
  }

  /**
   * What detector i contributes: its array, or T zeros for null. `Array.Copy`
   * of T elements throws when the array is shorter than T.
   */
  function Signals<S>(reading: Option<seq<S>>, taxelSize: nat, zero: S): (r: Option<seq<S>>)
    ensures r.Some? <==> reading.None? || |reading.value| >= taxelSize
    ensures r.Some? ==> |r.value| == taxelSize
    ensures r.Some? && reading.None? ==> r.value == Fill(taxelSize, zero)
    ensures r.Some? && reading.Some? ==> r.value == reading.value[..taxelSize]
  {
    match reading
    case None => Some(Fill(taxelSize, zero))
    case Some(a) => if |a| < taxelSize then None else Some(a[..taxelSize])
  }

  /**
   * The copy loop of `UpdateTactile` over detectors `from`.. at row `row`.
   * On a throw the rows before the failing detector are already written.
   */
  function CopyRows<S>(caches: seq<seq<S>>, readings: seq<Option<seq<S>>>, from: nat,
                       row: nat, taxelSize: nat, zero: S): (r: (seq<seq<S>>, bool))
    requires |readings| == |caches| && from <= |caches|
    requires forall i :: 0 <= i < |caches| ==> row * taxelSize + taxelSize <= |caches[i]|
    ensures |r.0| == |caches|
    ensures forall i :: 0 <= i < |caches| ==> |r.0[i]| == |caches[i]|
    ensures forall i :: 0 <= i < from ==> r.0[i] == caches[i]
    ensures !r.1 ==> forall i :: from <= i < |caches| ==>
              Signals(readings[i], taxelSize, zero).Some?
              && r.0[i] == Bytes.Splice(caches[i], row * taxelSize, Signals(readings[i], taxelSize, zero).value)
    ensures r.1 <==> exists i :: from <= i < |caches| && Signals(readings[i], taxelSize, zero).None?
    decreases |caches| - from
  {
    if from == |caches| then (caches, false)
    else match Signals(readings[from], taxelSize, zero)
      case None => (caches, true)
      case Some(s) =>
        var updated := caches[from := Bytes.Splice(caches[from], row * taxelSize, s)];
        CopyRows(updated, readings, from + 1, row, taxelSize, zero)
  }

  /** The row a tick writes: row 0 after a full batch, else the current row index. */
  function Row<S>(c: Controller<S>): (row: int)
    ensures Valid(c) ==> 0 <= row < c.frameCount
    ensures c.frameIdx != c.frameCount ==> row == c.frameIdx
  {
    if c.frameIdx == c.frameCount then 0 else c.frameIdx
  }

  /**
   * `Tick`: `UpdateTactile` (restart at row 0 after a full batch, copy the
   * row, advance), then a send exactly when the batch is full. A throw leaves
   * the row index where the restart put it and sends nothing.
   */
  function Tick<S>(c: Controller<S>, readings: seq<Option<seq<S>>>, zero: S): (r: TickResult<S>)
    requires Valid(c) && |readings| == |c.caches|
    ensures Valid(r.state) && |r.state.caches| == |c.caches|
    ensures r.state.frameCount == c.frameCount && r.state.taxelSize == c.taxelSize
    ensures !r.thrown ==> 1 <= r.state.frameIdx <= c.frameCount
    ensures !r.thrown ==> r.state.frameIdx == (if c.frameIdx == c.frameCount then 1 else c.frameIdx + 1)
    ensures r.send <==> !r.thrown && r.state.frameIdx == c.frameCount
    ensures r.thrown <==> exists i :: 0 <= i < |c.caches| && Signals(readings[i], c.taxelSize, zero).None?
  {
    var row := Row(c);
    RowFits(row, c.frameCount, c.taxelSize);
    var (caches, thrown) := CopyRows(c.caches, readings, 0, row, c.taxelSize, zero);
    if thrown then TickResult(c.(caches := caches, frameIdx := row), false, true)
    else
      var next := c.(caches := caches, frameIdx := row + 1);
      TickResult(next, next.frameIdx == c.frameCount, false)
  }

  /**
   * A tick that does not throw writes detector i's T samples into row
   * `frameIdx` (row 0 after a full batch) of cache i and nothing else.
   */
  lemma TickWritesRow<S>(c: Controller<S>, readings: seq<Option<seq<S>>>, zero: S, i: nat, k: nat)
    requires Valid(c) && |readings| == |c.caches| && i < |c.caches| && k < |c.caches[i]|
    requires !Tick(c, readings, zero).thrown
    ensures var row := Row(c);
            var after := Tick(c, readings, zero).state.caches[i];
            if row * c.taxelSize <= k < (row + 1) * c.taxelSize
            then after[k] == Signals(readings[i], c.taxelSize, zero).value[k - row * c.taxelSize]
            else after[k] == c.caches[i][k]
  {
    var row := Row(c);
    var lo := row * c.taxelSize;
    NextRow(row, c.taxelSize, lo);
    TickCache(c, readings, zero, i, lo);
    OverwriteAt(c.caches[i], lo, Signals(readings[i], c.taxelSize, zero).value, k);
  }

  /** Detector i's cache after a tick that does not throw: its reading written at the tick's row. */
  lemma TickCache<S>(c: Controller<S>, readings: seq<Option<seq<S>>>, zero: S, i: nat, lo: nat)
    requires Valid(c) && |readings| == |c.caches| && i < |c.caches|
    requires !Tick(c, readings, zero).thrown && lo == Row(c) * c.taxelSize
    ensures Signals(readings[i], c.taxelSize, zero).Some?
    ensures lo + c.taxelSize <= |c.caches[i]|
    ensures Tick(c, readings, zero).state.caches[i] == Bytes.Splice(c.caches[i], lo, Signals(readings[i], c.taxelSize, zero).value)
  {
    RowFits(Row(c), c.frameCount, c.taxelSize);
  }

  lemma NextRow(row: nat, taxelSize: nat, lo: nat)
    requires lo == row * taxelSize
    ensures (row + 1) * taxelSize == lo + taxelSize
  {
  }

  /** One sample of an overwritten row. */
  lemma OverwriteAt<S>(cache: seq<S>, at: nat, vals: seq<S>, k: nat)
    requires at + |vals| <= |cache| && k < |cache|
    ensures Bytes.Splice(cache, at, vals)[k] == if at <= k < at + |vals| then vals[k - at] else cache[k]
  {
    if at <= k < at + |vals| {
      var r := Bytes.Splice(cache, at, vals);
      assert r[k] == r[at..at + |vals|][k - at];
    }
  }

  lemma RowFits(row: nat, frameCount: int, taxelSize: nat)
    requires row < frameCount
    ensures (row + 1) * taxelSize <= frameCount * taxelSize
    ensures row * taxelSize + taxelSize <= frameCount * taxelSize
  {
    assert (row + 1) * taxelSize <= frameCount * taxelSize by {
      var d := frameCount - (row + 1);
      assert frameCount * taxelSize == (row + 1) * taxelSize + d * taxelSize;
    }
    assert (row + 1) * taxelSize == row * taxelSize + taxelSize;
  }

  /** k ticks with detectors that never throw. */
  function Run<S>(c: Controller<S>, ticks: seq<seq<Option<seq<S>>>>, zero: S): (r: (Controller<S>, seq<bool>))
    requires Valid(c)
    requires forall t :: 0 <= t < |ticks| ==> |ticks[t]| == |c.caches|
    ensures Valid(r.0) && |r.0.caches| == |c.caches| && r.0.frameCount == c.frameCount
    ensures |r.1| <= |ticks|
    decreases |ticks|
  {
    if |ticks| == 0 then (c, [])
    else
      var t := Tick(c, ticks[0], zero);
      if t.thrown then (t.state, [])
      else
        var rest := Run(t.state, ticks[1..], zero);
        (rest.0, [t.send] + rest.1)
  }

  /** Readings that never make `Array.Copy` throw. */
  ghost predicate WellFormed<S>(ticks: seq<seq<Option<seq<S>>>>, detectorCount: nat, taxelSize: nat)
  {
    forall t :: 0 <= t < |ticks| ==>
      (|ticks[t]| == detectorCount
       && forall i :: 0 <= i < detectorCount ==> ticks[t][i].None? || |ticks[t][i].value| >= taxelSize)
  }

  /** One well-formed tick: no throw, the row index advances cyclically, a send on batch completion. */
  lemma TickAdvances<S>(c: Controller<S>, readings: seq<Option<seq<S>>>, zero: S)
    requires Valid(c) && |readings| == |c.caches|
    requires forall i :: 0 <= i < |c.caches| ==> readings[i].None? || |readings[i].value| >= c.taxelSize
    ensures !Tick(c, readings, zero).thrown
    ensures Tick(c, readings, zero).state.frameIdx == c.frameIdx % c.frameCount + 1
    ensures Tick(c, readings, zero).send <==> (c.frameIdx + 1) % c.frameCount == 0
  {
    var n, f := c.frameIdx, c.frameCount;
    if n == f {
      ModUnique(n, f, 1, 0);
      if f == 1 { ModUnique(n + 1, f, 2, 0); } else { ModUnique(n + 1, f, 1, 1); }
    } else {
      ModUnique(n, f, 0, n);
      if n + 1 == f { ModUnique(n + 1, f, 1, 0); } else { ModUnique(n + 1, f, 0, n + 1); }
    }
  }

  /**
   * From any valid state with row index n, k well-formed ticks send on
   * exactly the ticks t (from 0) with F dividing n + t + 1, and leave the
   * row index at (n + k - 1) mod F + 1.
   */
  lemma {:induction false} SendsEveryFrameCount<S>(c: Controller<S>, ticks: seq<seq<Option<seq<S>>>>, zero: S)
    requires Valid(c) && WellFormed(ticks, |c.caches|, c.taxelSize)
    ensures var r := Run(c, ticks, zero);
            |r.1| == |ticks|
            && (forall t :: 0 <= t < |ticks| ==> (r.1[t] <==> (c.frameIdx + t + 1) % c.frameCount == 0))
            && r.0.frameIdx == (if |ticks| == 0 then c.frameIdx else (c.frameIdx + |ticks| - 1) % c.frameCount + 1)
    decreases |ticks|
  {
    if |ticks| > 0 {
      var n, f := c.frameIdx, c.frameCount;
      TickAdvances(c, ticks[0], zero);
      var t := Tick(c, ticks[0], zero);
      var rest := Run(t.state, ticks[1..], zero);
      assert Run(c, ticks, zero) == (rest.0, [t.send] + rest.1);
      assert WellFormed(ticks[1..], |c.caches|, c.taxelSize) by {
        forall u | 0 <= u < |ticks[1..]|
          ensures |ticks[1..][u]| == |c.caches|
        {
          assert ticks[1..][u] == ticks[u + 1];
        }
      }
      SendsEveryFrameCount(t.state, ticks[1..], zero);
      forall u | 0 <= u < |ticks|
        ensures (Run(c, ticks, zero).1[u] <==> (n + u + 1) % f == 0)
      {
        if u > 0 {
          ModOfSum(n, u + 1, f);
          assert Run(c, ticks, zero).1[u] == rest.1[u - 1];
        }
      }
      ModOfSum(n, |ticks| - 1, f);
    }
  }

  /** From `Init`, tick k (counting from 1) sends iff k is a multiple of F. */
  lemma InitSendsEveryFrameCount<S>(detectorCount: nat, frameCount: int, taxelSize: nat, zero: S,
                                    ticks: seq<seq<Option<seq<S>>>>)
    requires frameCount >= 1 && WellFormed(ticks, detectorCount, taxelSize)
    ensures var r := Run(Init(detectorCount, frameCount, taxelSize, zero), ticks, zero);
            |r.1| == |ticks| && forall k :: 1 <= k <= |ticks| ==> (r.1[k - 1] <==> k % frameCount == 0)
  {
    SendsEveryFrameCount(Init(detectorCount, frameCount, taxelSize, zero), ticks, zero);
  }
}
