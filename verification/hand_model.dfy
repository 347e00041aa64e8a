/**
 * The source multiplexer of a `HandModelController`: its dictionary of data
 * sources (keyed by source id, iterated in insertion order, as a C#
 * `Dictionary` without removals is) and the priority-based choice of which
 * source controls each bone's rotation and the hand position. Also its
 * `CompareTo` ordering of controllers by user and hand.
 */
module HandModel {
  import opened Wrappers
  import opened Bytes
  import opened MuxData
  import opened MuxProvider

  // ---------------------------------------------------------------------
  // CompareTo
  // ---------------------------------------------------------------------

  /** `CompareTo`: by user, then the right hand before the left; any other pair of locations ties. */
  function CompareTo(aUser: int, aLoc: Location, bUser: int, bLoc: Location): (r: int)
    ensures r == -1 || r == 0 || r == 1
    ensures aUser < bUser ==> r == -1
    ensures aUser > bUser ==> r == 1
  {
    if aUser > bUser then 1
    else if aUser < bUser then -1
    else if aLoc == RightHand && bLoc == LeftHand then -1
    else if aLoc == LeftHand && bLoc == RightHand then 1
    else 0
  }

  lemma CompareAntisymmetric(aUser: int, aLoc: Location, bUser: int, bLoc: Location)
    ensures CompareTo(aUser, aLoc, bUser, bLoc) == -CompareTo(bUser, bLoc, aUser, aLoc)
  {
  }

  function Sign(x: int): int
  {
    if x < 0 then -1 else if x > 0 then 1 else 0
  }

  /** Where a hand controller sorts: user by user, and within a user right then left. */
  function HandKey(user: int, loc: Location): int
    requires loc == RightHand || loc == LeftHand
  {
    2 * user + (if loc == RightHand then 0 else 1)
  }

  /** Among hand controllers the ordering is the total order of `HandKey`. */
  lemma CompareHandsByKey(aUser: int, aLoc: Location, bUser: int, bLoc: Location)
    requires aLoc == RightHand || aLoc == LeftHand
    requires bLoc == RightHand || bLoc == LeftHand
    ensures CompareTo(aUser, aLoc, bUser, bLoc) == Sign(HandKey(aUser, aLoc) - HandKey(bUser, bLoc))
  {
  }

  /**
   * With a controller at any other location the ties are not transitive: it
   * ties with both hands of its user, which do not tie with each other.
   */
  lemma CompareTiesNotTransitive(user: int, ordinal: nat)
    ensures CompareTo(user, RightHand, user, OtherLocation(ordinal)) == 0
    ensures CompareTo(user, OtherLocation(ordinal), user, LeftHand) == 0
    ensures CompareTo(user, RightHand, user, LeftHand) == -1
  {
  }

  // ---------------------------------------------------------------------
  // The source dictionary
  // ---------------------------------------------------------------------

  type Sources = seq<(string, Provider)>

  function Keys(sources: Sources): set<string>
  {
    set k | 0 <= k < |sources| :: sources[k].0
  }

  ghost predicate DistinctKeys(sources: Sources)
  {
    forall j, k :: 0 <= j < k < |sources| ==> sources[j].0 != sources[k].0
  }

  /**
   * `CreateSourceInDictionary`: a fresh registry for the provider, added under
   * its source id; an id already present throws (None) and nothing is added.
   */
  function CreateSource(sources: Sources, p: Provider, ids: SensorIds): (r: (Sources, Option<MuxData<Provider>>))
    requires DistinctKeys(sources)
    ensures r.1.None? <==> p.sourceId in Keys(sources)
    ensures r.1.None? ==> r.0 == sources
    ensures r.1.Some? ==> r.0 == sources + [(p.sourceId, p)] && r.1.value == New(Some(p), ids)
    ensures Keys(r.0) == Keys(sources) + {p.sourceId}
    ensures DistinctKeys(r.0)
  {
    if p.sourceId in Keys(sources) then (sources, None)
    else
      var added := sources + [(p.sourceId, p)];
      assert Keys(added) == Keys(sources) + {p.sourceId} by {
        assert added[|sources|].0 == p.sourceId;
        forall x | x in Keys(added) ensures x in Keys(sources) + {p.sourceId} {
          var k :| 0 <= k < |added| && added[k].0 == x;
          if k < |sources| { assert sources[k].0 == x; }
        }
        forall x | x in Keys(sources) ensures x in Keys(added) {
          var k :| 0 <= k < |sources| && sources[k].0 == x;
          assert added[k].0 == x;
        }
      }
      assert forall k :: 0 <= k < |sources| ==> sources[k].0 in Keys(sources);
      (added, Some(New(Some(p), ids)))
  }

  // ---------------------------------------------------------------------
  // Choosing the controlling sources
  // ---------------------------------------------------------------------

  /** What one dictionary entry offers for one bone: its key, priority, control flag and value type. */
  datatype Candidate = Candidate(key: string, priority: int, controls: bool, vtype: ValueType)

  /** The best offer so far: the priority bar, the controlling tag (None is C#'s null) and its type. */
  datatype Choice = Choice(best: int, tag: Option<string>, vtype: ValueType)

  /** Provider arrays of their declared lengths: one flag and type per sensor, one for the position. */
  ghost predicate Shaped(p: Provider, n: nat)
  {
    |p.controlsRotation| >= n && |p.rotationType| >= n && |p.controlsPosition| >= 1 && |p.positionType| >= 1
  }

  ghost predicate AllShaped(sources: Sources, n: nat)
  {
    forall k :: 0 <= k < |sources| ==> Shaped(sources[k].1, n)
  }

  function RotationCandidates(sources: Sources, i: nat): (xs: seq<Candidate>)
    requires AllShaped(sources, i + 1)
    ensures |xs| == |sources|
  {
    seq(|sources|, k requires 0 <= k < |sources| =>
      Candidate(sources[k].0, sources[k].1.priority, sources[k].1.controlsRotation[i], sources[k].1.rotationType[i]))
  }

  function PositionCandidates(sources: Sources): (xs: seq<Candidate>)
    requires AllShaped(sources, 0)
    ensures |xs| == |sources|
  {
    seq(|sources|, k requires 0 <= k < |sources| =>
      Candidate(sources[k].0, sources[k].1.priority, sources[k].1.controlsPosition[0], sources[k].1.positionType[0]))
  }

  /**
   * One entry of the `foreach`: a controlling entry whose priority beats the
   * bar takes over. For rotations (`zeroRule`), a priority-0 entry that does
   * not control the bone, met while the bar is 0, clears the tag and lowers
   * the bar to -1.
   */
  function Step(c: Choice, x: Candidate, zeroRule: bool): Choice
  {
    if x.controls then
      if x.priority > c.best then Choice(x.priority, Some(x.key), x.vtype) else c
    else if zeroRule && c.best == 0 && x.priority == 0 then c.(best := -1, tag := None)
    else c
  }

  /** The entries in dictionary order. Without the zero rule the bar only rises, and an unchanged bar means nothing changed. */
  function Fold(c: Choice, xs: seq<Candidate>, zeroRule: bool): (r: Choice)
    ensures !zeroRule ==> r.best >= c.best && (r.best == c.best ==> r == c)
    decreases |xs|
  {
    if |xs| == 0 then c else Fold(Step(c, xs[0], zeroRule), xs[1..], zeroRule)
  }

  /** Entry k controls, has the highest priority among the controlling entries, and is the first with it. */
  ghost predicate FirstHighest(xs: seq<Candidate>, k: nat)
  {
    k < |xs| && xs[k].controls
    && (forall j :: 0 <= j < |xs| && xs[j].controls ==> xs[j].priority <= xs[k].priority)
    && (forall j :: 0 <= j < k && xs[j].controls ==> xs[j].priority < xs[k].priority)
  }

  /** Once the bar is at least every controlling priority (and cannot trigger the zero rule), nothing changes. */
  lemma {:induction false} FoldStays(c: Choice, xs: seq<Candidate>, zeroRule: bool)
    requires forall j :: 0 <= j < |xs| && xs[j].controls ==> xs[j].priority <= c.best
    requires zeroRule ==> c.best > 0
    ensures Fold(c, xs, zeroRule) == c
    decreases |xs|
  {
    if |xs| > 0 {
      assert Step(c, xs[0], zeroRule) == c;
      FoldStays(c, xs[1..], zeroRule);
    }
  }

  /** From any bar below it, the fold ends on the first highest controlling entry. */
  lemma {:induction false} FoldReachesFirstHighest(c: Choice, xs: seq<Candidate>, zeroRule: bool, k: nat)
    requires FirstHighest(xs, k) && xs[k].priority > c.best
    requires zeroRule ==> xs[k].priority > 0
    ensures Fold(c, xs, zeroRule) == Choice(xs[k].priority, Some(xs[k].key), xs[k].vtype)
    decreases k
  {
    var next := Step(c, xs[0], zeroRule);
    if k == 0 {
      FoldStays(next, xs[1..], zeroRule);
    } else {
      assert next.best < xs[k].priority;
      FoldReachesFirstHighest(next, xs[1..], zeroRule, k - 1);
    }
  }

  /** When every entry is deactivated (negative priority), the starting choice stands. */
  lemma {:induction false} FoldInactive(c: Choice, xs: seq<Candidate>, zeroRule: bool)
    requires c.best >= -1
    requires forall j :: 0 <= j < |xs| ==> xs[j].priority < 0
    ensures Fold(c, xs, zeroRule) == c
    decreases |xs|
  {
    if |xs| > 0 {
      FoldInactive(c, xs[1..], zeroRule);
    }
  }

  /** Bone i starts with the hand provider's tag and type and a bar of 0. */
  function RotationStart(hand: Provider, i: nat): Choice
    requires i < |hand.rotationType|
  {
    Choice(0, Some(hand.sourceId), hand.rotationType[i])
  }

  /** The position starts with the hand provider's tag and type and a bar of -1. */
  function PositionStart(hand: Provider): Choice
    requires |hand.positionType| >= 1
  {
    Choice(-1, Some(hand.sourceId), hand.positionType[0])
  }

  /** The hand-position bookkeeping: the choice, the last accepted tag, and the lerp flags. */
  datatype PositionState = PositionState(choice: Choice, previous: Option<string>, lerp: bool, placed: bool)

  /**
   * The position branch as written: at EVERY acceptance, `lerpHandPosition`
   * compares the accepted tag with the tag accepted just before, and the
   * previous tag is overwritten.
   */
  function PositionStepAsWritten(s: PositionState, x: Candidate): PositionState
  {
    if x.controls && x.priority > s.choice.best then
      var changed := Some(x.key) != s.previous;
      PositionState(Choice(x.priority, Some(x.key), x.vtype), Some(x.key), changed, if changed then false else s.placed)
    else s
  }

  function PositionFoldAsWritten(s: PositionState, xs: seq<Candidate>): PositionState
    decreases |xs|
  {
    if |xs| == 0 then s else PositionFoldAsWritten(PositionStepAsWritten(s, xs[0]), xs[1..])
  }

  /** The as-written loop ends on the same choice as the plain fold. */
  lemma {:induction false} AsWrittenSameChoice(s: PositionState, xs: seq<Candidate>)
    ensures PositionFoldAsWritten(s, xs).choice == Fold(s.choice, xs, false)
    decreases |xs|
  {
    if |xs| > 0 {
      AsWrittenSameChoice(PositionStepAsWritten(s, xs[0]), xs[1..]);
    }
  }

  /**
   * The position selection with the change test made once, against the tag
   * that controlled the position before this call: the lerp starts exactly
   * when the controlling source changes.
   */
  function SelectPosition(s: PositionState, xs: seq<Candidate>): (r: PositionState)
    ensures r.choice == Fold(s.choice, xs, false)
    ensures r.choice.best == s.choice.best ==> r == s
    ensures r.choice.best > s.choice.best ==>
              r.previous == r.choice.tag
              && (r.lerp <==> r.choice.tag != s.previous)
              && r.placed == (s.placed && r.choice.tag == s.previous)
  {
    var c := Fold(s.choice, xs, false);
    if c.best == s.choice.best then s
    else
      var changed := c.tag != s.previous;
      PositionState(c, c.tag, changed, if changed then false else s.placed)
  }

  /**
   * As written, a source that keeps control is reported as a change when a
   * lower-priority position source precedes it in the dictionary: the hand
   * position is re-initialised and lerped although nothing changed.
   */
  lemma LerpAsWrittenFlagsUnchangedSource()
    ensures var xs := [Candidate("raw", 0, true, LocalSpace), Candidate("ext", 5, true, WorldSpace)];
            var s := PositionState(Choice(-1, Some("raw"), LocalSpace), Some("ext"), false, true);
            var asWritten := PositionFoldAsWritten(s, xs);
            var corrected := SelectPosition(s, xs);
            asWritten.choice.tag == Some("ext") && asWritten.lerp && !asWritten.placed
            && corrected.choice.tag == Some("ext") && !corrected.lerp && corrected.placed
  {
    var xs := [Candidate("raw", 0, true, LocalSpace), Candidate("ext", 5, true, WorldSpace)];
    var s := PositionState(Choice(-1, Some("raw"), LocalSpace), Some("ext"), false, true);
    assert xs[1..][1..] == [];
    assert Fold(s.choice, xs, false) == Choice(5, Some("ext"), WorldSpace) by {
      FoldReachesFirstHighest(s.choice, xs, false, 1);
    }
  }

  // ---------------------------------------------------------------------
  // UpdateSourcesWithNewPriorities
  // ---------------------------------------------------------------------

  datatype Selection = Selection(
    rotationTag: seq<Option<string>>, rotationType: seq<ValueType>, position: PositionState)

  datatype Hmc = Hmc(user: int, location: Location, hand: Provider, sources: Sources, selection: Selection)

  /** A controller ready to choose: one rotation slot per sensor, and providers of their declared shape. */
  ghost predicate Ready(h: Hmc)
  {
    var n := |h.selection.rotationTag|;
    n >= 1 && |h.selection.rotationType| == n && Shaped(h.hand, n) && AllShaped(h.sources, n)
  }

  function RotationChoice(h: Hmc, i: nat): Choice
    requires Ready(h) && i < |h.selection.rotationTag|
  {
    Fold(RotationStart(h.hand, i), RotationCandidates(h.sources, i), true)
  }

  /**
   * `UpdateSourcesWithNewPriorities`, with the lerp test of `SelectPosition`.
   * Each bone's slot restarts from the hand provider, so nothing of the
   * previous choice survives except the position bookkeeping.
   */
  function UpdateSources(h: Hmc): (r: Hmc)
    requires Ready(h)
    ensures Ready(r) && r == h.(selection := r.selection)
    ensures |r.selection.rotationTag| == |h.selection.rotationTag|
    ensures forall i :: 0 <= i < |h.selection.rotationTag| ==>
              r.selection.rotationTag[i] == RotationChoice(h, i).tag
              && r.selection.rotationType[i] == RotationChoice(h, i).vtype
    ensures r.selection.position
            == SelectPosition(h.selection.position.(choice := PositionStart(h.hand)), PositionCandidates(h.sources))
  {
    var n := |h.selection.rotationTag|;
    var tags := seq(n, i requires 0 <= i < n => RotationChoice(h, i).tag);
    var types := seq(n, i requires 0 <= i < n => RotationChoice(h, i).vtype);
    var pos := SelectPosition(h.selection.position.(choice := PositionStart(h.hand)), PositionCandidates(h.sources));
    h.(selection := Selection(tags, types, pos))
  }

  /** The same with the position branch as written. */
  function UpdateSourcesAsWritten(h: Hmc): (r: Hmc)
    requires Ready(h)
    ensures r.selection.rotationTag == UpdateSources(h).selection.rotationTag
    ensures r.selection.position.choice == UpdateSources(h).selection.position.choice
    ensures r.selection.position
            == PositionFoldAsWritten(h.selection.position.(choice := PositionStart(h.hand)), PositionCandidates(h.sources))
  {
    var s := h.selection.position.(choice := PositionStart(h.hand));
    AsWrittenSameChoice(s, PositionCandidates(h.sources));
    UpdateSources(h).(selection := UpdateSources(h).selection.(position := PositionFoldAsWritten(s, PositionCandidates(h.sources))))
  }

  /**
   * A bone goes to the first entry, in dictionary order, with the highest
   * positive priority among those controlling it.
   */
  lemma RotationGoesToFirstHighest(h: Hmc, i: nat, k: nat)
    requires Ready(h) && i < |h.selection.rotationTag|
    requires FirstHighest(RotationCandidates(h.sources, i), k) && h.sources[k].1.priority > 0
    ensures UpdateSources(h).selection.rotationTag[i] == Some(h.sources[k].0)
    ensures UpdateSources(h).selection.rotationType[i] == h.sources[k].1.rotationType[i]
  {
    FoldReachesFirstHighest(RotationStart(h.hand, i), RotationCandidates(h.sources, i), true, k);
  }

  /**
   * The hand position goes to the first entry with the highest non-negative
   * priority among those controlling it; the lerp starts iff that differs
   * from the source that controlled it before.
   */
  lemma PositionGoesToFirstHighest(h: Hmc, k: nat)
    requires Ready(h)
    requires FirstHighest(PositionCandidates(h.sources), k) && h.sources[k].1.priority >= 0
    ensures var pos := UpdateSources(h).selection.position;
            pos.choice.tag == Some(h.sources[k].0) && pos.choice.vtype == h.sources[k].1.positionType[0]
            && pos.previous == Some(h.sources[k].0)
            && (pos.lerp <==> Some(h.sources[k].0) != h.selection.position.previous)
  {
    FoldReachesFirstHighest(PositionStart(h.hand), PositionCandidates(h.sources), false, k);
  }

  /** With every entry deactivated the hand provider controls every bone and the position. */
  lemma InactiveSourcesLeaveHand(h: Hmc)
    requires Ready(h)
    requires forall k :: 0 <= k < |h.sources| ==> h.sources[k].1.priority < 0
    ensures forall i :: 0 <= i < |h.selection.rotationTag| ==>
              UpdateSources(h).selection.rotationTag[i] == Some(h.hand.sourceId)
              && UpdateSources(h).selection.rotationType[i] == h.hand.rotationType[i]
    ensures UpdateSources(h).selection.position.choice == PositionStart(h.hand)
    ensures UpdateSources(h).selection.position.previous == h.selection.position.previous
  {
    forall i | 0 <= i < |h.selection.rotationTag|
      ensures RotationChoice(h, i) == RotationStart(h.hand, i)
    {
      FoldInactive(RotationStart(h.hand, i), RotationCandidates(h.sources, i), true);
    }
    FoldInactive(PositionStart(h.hand), PositionCandidates(h.sources), false);
  }

  /**
   * The priority-0 rule makes the outcome depend on dictionary order: a
   * controlling and a non-controlling priority-0 entry give the controlling
   * one the bone in one order, and no source at all in the other.
   */
  lemma ZeroPriorityDependsOnOrder(hand: string, t: ValueType)
    ensures var on := Candidate("on", 0, true, t);
            var off := Candidate("off", 0, false, t);
            var c := Choice(0, Some(hand), t);
            Fold(c, [off, on], true).tag == Some("on") && Fold(c, [on, off], true).tag == None
  {
    var on := Candidate("on", 0, true, t);
    var off := Candidate("off", 0, false, t);
    var c := Choice(0, Some(hand), t);
    assert [off, on][1..] == [on] && [on][1..] == [];
    assert [on, off][1..] == [off] && [off][1..] == [];
    assert Fold(c, [off, on], true) == Fold(Step(Choice(-1, None, t), on, true), [], true);
    assert Fold(c, [on, off], true) == Fold(Step(c, off, true), [], true);
  }

  // ---------------------------------------------------------------------
  // SetActive
  // ---------------------------------------------------------------------

  /**
   * `SetActive` on the provider of dictionary entry k: its priority takes the
   * sign of `active` and the controller recomputes its sources with
   * `UpdateSourcesWithNewPriorities` as written. A provider without a bound
   * controller changes nothing.
   */
  function SetActive(h: Hmc, k: nat, active: bool): (r: Hmc)
    requires Ready(h) && k < |h.sources|
    ensures h.sources[k].1.hmc.None? ==> r == h
    ensures h.sources[k].1.hmc.Some? ==>
              var p := SetActivePriority(h.sources[k].1, active);
              r == UpdateSourcesAsWritten(h.(sources := h.sources[k := (h.sources[k].0, p)]))
  {
    var p := h.sources[k].1;
    if p.hmc.None? then h
    else
      var q := SetActivePriority(p, active);
      var h' := h.(sources := h.sources[k := (h.sources[k].0, q)]);
      assert AllShaped(h'.sources, |h.selection.rotationTag|);
      UpdateSourcesAsWritten(h')
  }

  /** Deactivating the only active source hands every bone back to the hand provider. */
  lemma DeactivateLastSource(h: Hmc, k: nat)
    requires Ready(h) && k < |h.sources| && h.sources[k].1.hmc.Some?
    requires 0 < h.sources[k].1.priorityPositive
    requires forall j :: 0 <= j < |h.sources| && j != k ==> h.sources[j].1.priority < 0
    ensures forall i :: 0 <= i < |h.selection.rotationTag| ==>
              SetActive(h, k, false).selection.rotationTag[i] == Some(h.hand.sourceId)
  {
    var q := SetActivePriority(h.sources[k].1, false);
    var h' := h.(sources := h.sources[k := (h.sources[k].0, q)]);
    assert AllShaped(h'.sources, |h.selection.rotationTag|);
    InactiveSourcesLeaveHand(h');
  }
}
