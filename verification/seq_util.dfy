/** Generic sequence helpers shared by the controllers. */
module SeqUtil {
  import opened Wrappers

  /**
   * Draining a queue with `while (!q.IsEmpty) q.TryDequeue(out x)` starting
   * from `x = null`: the last element, or nothing for an empty queue.
   */
  function DrainLast<T>(queue: seq<T>): (r: Option<T>)
    ensures r.None? <==> |queue| == 0
    ensures r.Some? ==> r.value in queue
  {
    if |queue| == 0 then None else Some(queue[|queue| - 1])
  }

  /** Draining keeps exactly the newest element: pushing x and draining gives x. */
  lemma DrainKeepsNewest<T>(queue: seq<T>, x: T)
    ensures DrainLast(queue + [x]) == Some(x)
  {
  }

  /** n copies of x. */
  function Fill<T>(n: nat, x: T): (r: seq<T>)
    ensures |r| == n && forall k :: 0 <= k < n ==> r[k] == x
  {
    seq(n, _ => x)
  }

  /** [lo, lo + 1, ..., hi - 1]. */
  function Range(lo: int, hi: int): (r: seq<int>)
    ensures |r| == if lo <= hi then hi - lo else 0
    ensures forall k :: 0 <= k < |r| ==> r[k] == lo + k
    decreases hi - lo
  {
    if lo >= hi then [] else [lo] + Range(lo + 1, hi)
  }

  /** The rows laid end to end: the row-major order of the `for i`/`for j` loops. */
  function FlattenRows<T>(rows: seq<seq<T>>): (r: seq<T>)
  {
    if |rows| == 0 then [] else rows[0] + FlattenRows(rows[1..])
  }

  ghost predicate Uniform<T>(rows: seq<seq<T>>, width: nat)
  {
    forall i :: 0 <= i < |rows| ==> |rows[i]| == width
  }

  /** With rows of equal width L, element j of row i is at flat position i·L + j. */
  lemma {:induction false} FlattenRowsAt<T>(rows: seq<seq<T>>, width: nat, i: nat, j: nat)
    requires Uniform(rows, width) && i < |rows| && j < width
    ensures |FlattenRows(rows)| == |rows| * width
    ensures i * width + j < |FlattenRows(rows)| && FlattenRows(rows)[i * width + j] == rows[i][j]
  {
    FlattenRowsLength(rows, width);
    if i > 0 {
      FlattenRowsAt(rows[1..], width, i - 1, j);
      assert FlattenRows(rows) == rows[0] + FlattenRows(rows[1..]);
      assert i * width + j == width + ((i - 1) * width + j);
    }
  }

  lemma {:induction false} FlattenRowsLength<T>(rows: seq<seq<T>>, width: nat)
    requires Uniform(rows, width)
    ensures |FlattenRows(rows)| == |rows| * width
  {
    if |rows| > 0 {
      FlattenRowsLength(rows[1..], width);
    }
  }

  /** Flattening distributes over concatenation of the row lists. */
  lemma {:induction false} FlattenRowsAppend<T>(a: seq<seq<T>>, b: seq<seq<T>>)
    ensures FlattenRows(a + b) == FlattenRows(a) + FlattenRows(b)
    decreases |a|
  {
    if |a| == 0 {
      assert a + b == b;
    } else {
      FlattenRowsAppend(a[1..], b);
      assert (a + b)[1..] == a[1..] + b;
    }
  }

  /** Edges of a boolean state: each one flips it, starting from `state`. */
  ghost predicate Alternating(state: bool, edges: seq<bool>)
    decreases |edges|
  {
    |edges| == 0 || (edges[0] == !state && Alternating(edges[0], edges[1..]))
  }

  /**
   * At most one edge, away from the state, then an alternating run from
   * there: the whole run alternates, and its last edge (if any) is the final
   * state.
   */
  lemma AlternatingCons(state: bool, edges: seq<bool>, mid: bool, rest: seq<bool>, final: bool)
    requires |edges| <= 1
    requires if |edges| == 1 then edges[0] == !state && mid == edges[0] else mid == state
    requires Alternating(mid, rest) && final == (if |rest| == 0 then mid else rest[|rest| - 1])
    ensures Alternating(state, edges + rest)
    ensures final == (if |edges + rest| == 0 then state else (edges + rest)[|edges + rest| - 1])
  {
    if |edges| == 1 {
      assert (edges + rest)[1..] == rest;
    } else {
      assert edges + rest == rest;
    }
  }
}
