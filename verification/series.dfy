/**
 * A run of fixed-width Writes through the C# codec, as the encoders'
 * `for` loops issue them: each Write is all-or-nothing, so when the buffer
 * runs out the words that fit are written and the rest are not.
 */
module Series {
  import opened Wrappers
  import opened Bytes
  import WireCodec

  const WordSize: nat := 4

  datatype Series = Series(buffer: seq<byte>, result: Result<int, WireCodec.Error>)

  ghost predicate Words(ws: seq<seq<byte>>)
  {
    forall k :: 0 <= k < |ws| ==> |ws[k]| == WordSize
  }

  /** The words laid end to end. */
  function Flatten(ws: seq<seq<byte>>): (r: seq<byte>)
    requires Words(ws)
    ensures |r| == WordSize * |ws|
  {
    if |ws| == 0 then [] else ws[0] + Flatten(ws[1..])
  }

  /** Word k of the flattened run sits at bytes [4k, 4k + 4). */
  lemma {:induction false} FlattenWord(ws: seq<seq<byte>>, k: nat)
    requires Words(ws) && k < |ws|
    ensures Flatten(ws)[4 * k..4 * k + 4] == ws[k]
  {
    if k > 0 {
      FlattenWord(ws[1..], k - 1);
      assert |ws[0]| == 4;
      AppendSlice(ws[0], Flatten(ws[1..]), 4, 4 * (k - 1), 4 * (k - 1) + 4);
    }
  }

  /** How many 4-byte words fit in a buffer of `bufLength` bytes from `index` on. */
  function Fitting(bufLength: nat, index: nat): (n: nat)
    ensures index + WordSize * n <= bufLength || n == 0
    ensures index + WordSize * (n + 1) > bufLength
  {
    if index > bufLength then 0 else (bufLength - index) / WordSize
  }

  /**
   * What a run of Writes leaves behind: success exactly when every word
   * fits, with the cursor after the last; otherwise the out-of-range error
   * from the first word that does not fit, with the words before it written.
   */
  predicate Wrote(buf: seq<byte>, index: nat, ws: seq<seq<byte>>, r: Series)
    requires Words(ws) && index <= |buf|
  {
    && |r.buffer| == |buf|
    && (r.result.Success? <==> index + WordSize * |ws| <= |buf|)
    && (r.result.Success? ==>
          r.result.value == index + WordSize * |ws| && r.buffer == Splice(buf, index, Flatten(ws)))
    && (r.result.Failure? ==>
          var n := Fitting(|buf|, index);
          r.result == Failure(WireCodec.IndexOutOfRange) && n < |ws|
          && r.buffer == Splice(buf, index, Flatten(ws[..n])))
  }

  /** Writes `ws` one after another from `index` (a cursor the previous Write returned, so within the buffer). */
  function WriteWords(buf: seq<byte>, index: nat, ws: seq<seq<byte>>): (r: Series)
    requires Words(ws) && index <= |buf|
    ensures Wrote(buf, index, ws, r)
    decreases |ws|
  {
    if |ws| == 0 then
      assert Splice(buf, index, Flatten(ws)) == buf;
      Series(buf, Success(index))
    else if index + WordSize > |buf| then
      FirstWordFails(buf, index, ws);
      Series(buf, Failure(WireCodec.IndexOutOfRange))
    else
      assert |ws[0]| == WordSize;
      var rest := WriteWords(Splice(buf, index, ws[0]), index + WordSize, ws[1..]);
      NextWords(buf, index, ws, rest);
      rest
  }

  /** Each Write of the run is `WireCodec.Put` of one word. */
  lemma WriteWordsPuts(buf: seq<byte>, index: nat, ws: seq<seq<byte>>)
    requires Words(ws) && index <= |buf| && |ws| > 0
    ensures WireCodec.Put(buf, index, ws[0]).Failure? ==>
              WriteWords(buf, index, ws) == Series(buf, WireCodec.Put(buf, index, ws[0]).PropagateFailure())
    ensures WireCodec.Put(buf, index, ws[0]).Success? ==>
              var w := WireCodec.Put(buf, index, ws[0]).value;
              WriteWords(buf, index, ws) == WriteWords(w.buffer, w.end, ws[1..])
  {
  }

  /** When the first word does not fit, none does and the buffer is as it was. */
  lemma FirstWordFails(buf: seq<byte>, index: nat, ws: seq<seq<byte>>)
    requires Words(ws) && |ws| > 0 && index <= |buf| && index + WordSize > |buf|
    ensures Wrote(buf, index, ws, Series(buf, Failure(WireCodec.IndexOutOfRange)))
  {
    assert ws[..0] == [];
  }

  /** A run whose first word fits leaves what the rest of the run leaves after that word. */
  lemma NextWords(buf: seq<byte>, index: nat, ws: seq<seq<byte>>, rest: Series)
    requires Words(ws) && |ws| > 0 && index + WordSize <= |buf|
    requires Wrote(Splice(buf, index, ws[0]), index + WordSize, ws[1..], rest)
    ensures Wrote(buf, index, ws, rest)
  {
    StepWords(buf, index, ws, rest.result.Success?);
    if rest.result.Success? {
      assert ws[..|ws|] == ws;
    }
  }

  /** Splicing the first word and then the rest is splicing the run. */
  lemma StepWords(buf: seq<byte>, index: nat, ws: seq<seq<byte>>, ok: bool)
    requires Words(ws) && |ws| > 0 && index + WordSize <= |buf|
    requires ok ==> index + WordSize * |ws| <= |buf|
    requires !ok ==> Fitting(|buf|, index + WordSize) < |ws| - 1
    ensures var n := if ok then |ws| - 1 else Fitting(|buf|, index + WordSize);
            n + 1 <= |ws| && index + WordSize * (n + 1) <= |buf|
            && Splice(Splice(buf, index, ws[0]), index + WordSize, Flatten(ws[1..][..n]))
               == Splice(buf, index, Flatten(ws[..n + 1]))
            && (!ok ==> Fitting(|buf|, index) == n + 1)
  {
    var n := if ok then |ws| - 1 else Fitting(|buf|, index + WordSize);
    assert ws[..n + 1] == [ws[0]] + ws[1..][..n];
    assert Flatten(ws[..n + 1]) == ws[0] + Flatten(ws[1..][..n]);
    SpliceTwice(buf, index, ws[0], Flatten(ws[1..][..n]));
  }
}
