/**
 * The IK target multiplexer: `MuxIKController` keeps a list of
 * `PCI_MuxIKDataProvider`s and, every frame, hands the IK target to the one
 * with the highest priority, telling each provider whether it was picked.
 * Providers are referred to by their index in a provider table, so that one
 * provider registered twice appears twice in the list, as in a C# `List`.
 */
module IkMux {
  import opened Wrappers
  import opened Bytes
  import opened WireCodec
  import SeqUtil

  /** A provider: `priorityValue`, `useLerp`, the last selection status it was told, and its IK position. */
  datatype IkProvider = IkProvider(priority: int32, useLerp: bool, previousStatus: bool, position: Vector3)

  /** A freshly created provider has not been picked. */
  function NewProvider(priority: int32, useLerp: bool, position: Vector3): (p: IkProvider)
    ensures !p.previousStatus && p.priority == priority
  {
    IkProvider(priority, useLerp, false, position)
  }

  // ---------------------------------------------------------------------
  // PCI_MuxIKDataProvider
  // ---------------------------------------------------------------------

  /**
   * `SetActive`: the priority takes the sign of `active` and keeps its
   * magnitude. The integer `Mathf.Abs` overflows on -2^31 and throws (the
   * second component), leaving the provider as it was.
   */
  function SetActive(p: IkProvider, active: bool): (r: (IkProvider, bool))
    ensures r.1 <==> p.priority == -Two31
    ensures r.1 ==> r.0 == p
    ensures !r.1 ==> (r.0 == p.(priority := r.0.priority)
                      && (r.0.priority == p.priority || r.0.priority == -p.priority)
                      && (if active then r.0.priority >= 0 else r.0.priority <= 0))
  {
    if p.priority == -Two31 then (p, true)
    else
      var magnitude := if p.priority < 0 then -p.priority else p.priority;
      (p.(priority := if active then magnitude else -magnitude), false)
  }

  /** Setting the same activity twice is the same as once, and deactivating then activating restores a non-negative priority. */
  lemma SetActiveIdempotent(p: IkProvider, active: bool)
    requires p.priority != -Two31
    ensures var once := SetActive(p, active).0;
            SetActive(once, active) == (once, false)
    ensures p.priority >= 0 ==> SetActive(SetActive(p, false).0, true) == (p, false)
  {
  }

  /** `MuxSelectionStatus`: records the status, and calls `NewPickedByMuxStatus` (second component) only on a change. */
  function SelectionStatus(p: IkProvider, status: bool): (r: (IkProvider, bool))
    ensures r.0 == p.(previousStatus := status)
    ensures r.1 <==> status != p.previousStatus
  {
    (p.(previousStatus := status), p.previousStatus != status)
  }

  /** The values `NewPickedByMuxStatus` receives over a series of calls. */
  function StatusRun(p: IkProvider, statuses: seq<bool>): (r: (IkProvider, seq<bool>))
    ensures r.0 == p.(previousStatus := if |statuses| == 0 then p.previousStatus else statuses[|statuses| - 1])
    decreases |statuses|
  {
    if |statuses| == 0 then (p, [])
    else
      var s := SelectionStatus(p, statuses[0]);
      var rest := StatusRun(s.0, statuses[1..]);
      (rest.0, (if s.1 then [statuses[0]] else []) + rest.1)
  }

  /**
   * The notifications are edges: picked and dropped alternate, starting with
   * the opposite of the recorded status (so a new provider's first
   * notification is a pick), and the last one is the recorded status.
   */
  lemma {:induction false} StatusEdgesAlternate(p: IkProvider, statuses: seq<bool>)
    ensures var r := StatusRun(p, statuses);
            SeqUtil.Alternating(p.previousStatus, r.1)
            && r.0.previousStatus == (if |r.1| == 0 then p.previousStatus else r.1[|r.1| - 1])
    decreases |statuses|
  {
    if |statuses| > 0 {
      var s := SelectionStatus(p, statuses[0]);
      StatusEdgesAlternate(s.0, statuses[1..]);
      var rest := StatusRun(s.0, statuses[1..]).1;
      var edge: seq<bool> := if s.1 then [statuses[0]] else [];
      assert StatusRun(p, statuses).1 == edge + rest;
      if s.1 {
        assert (edge + rest)[0] == statuses[0] && (edge + rest)[1..] == rest;
      } else {
        assert edge + rest == rest;
      }
    }
  }

  // ---------------------------------------------------------------------
  // MuxIKController
  // ---------------------------------------------------------------------

  /** `Register`: appends. */
  function Register(list: seq<nat>, id: nat): (r: seq<nat>)
    ensures |r| == |list| + 1 && r[..|list|] == list && r[|list|] == id
  {
    list + [id]
  }

  /** Position of the first occurrence of `id`. */
  function IndexOf(list: seq<nat>, id: nat): (k: nat)
    requires id in list
    ensures k < |list| && list[k] == id && id !in list[..k]
  {
    if list[0] == id then 0
    else
      var k := IndexOf(list[1..], id);
      assert list[1..][..k] == list[1..k + 1];
      k + 1
  }

  /** `Unregister`: `List.Remove`, which removes the first occurrence, if any. */
  function Unregister(list: seq<nat>, id: nat): (r: seq<nat>)
    ensures id !in list ==> r == list
    ensures id in list ==> r == list[..IndexOf(list, id)] + list[IndexOf(list, id) + 1..]
    ensures multiset(r) == multiset(list) - multiset{id}
  {
    if id !in list then list
    else
      var k := IndexOf(list, id);
      assert list == list[..k] + [id] + list[k + 1..];
      list[..k] + list[k + 1..]
  }

  /** Registering a provider that was not registered, then unregistering it, gives the list back. */
  lemma UnregisterAfterRegister(list: seq<nat>, id: nat)
    requires id !in list
    ensures Unregister(Register(list, id), id) == list
  {
    var r := Register(list, id);
    assert r[|list|] == id;
    assert id !in r[..|list|];
    assert IndexOf(r, id) == |list|;
  }

  function Priorities(list: seq<nat>, providers: seq<IkProvider>): (ps: seq<int>)
    requires forall k :: 0 <= k < |list| ==> list[k] < |providers|
    ensures |ps| == |list|
  {
    seq(|list|, k requires 0 <= k < |list| => providers[list[k]].priority as int)
  }

  /** The first position of a highest value: the first element always beats -infinity, later ones must be strictly greater. */
  function SelectIndex(ps: seq<int>): (k: nat)
    requires |ps| > 0
    ensures k < |ps|
    ensures forall j :: 0 <= j < |ps| ==> ps[j] <= ps[k]
    ensures forall j :: 0 <= j < k ==> ps[j] < ps[k]
  {
    SelectFrom(ps, 1, 0)
  }

  function SelectFrom(ps: seq<int>, i: nat, best: nat): (k: nat)
    requires best < i <= |ps|
    requires forall j :: 0 <= j < i ==> ps[j] <= ps[best]
    requires forall j :: 0 <= j < best ==> ps[j] < ps[best]
    ensures best <= k < |ps|
    ensures forall j :: 0 <= j < |ps| ==> ps[j] <= ps[k]
    ensures forall j :: 0 <= j < k ==> ps[j] < ps[k]
    decreases |ps| - i
  {
    if i == |ps| then best
    else if ps[i] > ps[best] then SelectFrom(ps, i + 1, i)
    else SelectFrom(ps, i + 1, best)
  }

  ghost predicate Distinct(list: seq<nat>)
  {
    forall j, k :: 0 <= j < k < |list| ==> list[j] != list[k]
  }

  /** The positions after `i` are the tail of the list from `i`; in a distinct list the head is not among them. */
  lemma ListTail(list: seq<nat>, i: nat)
    requires i < |list|
    ensures forall k :: i < k < |list| ==> list[k] in list[i + 1..]
    ensures forall x :: x in list[i..] <==> x == list[i] || x in list[i + 1..]
    ensures Distinct(list) ==> list[i] !in list[i + 1..]
  {
    forall k | i < k < |list| ensures list[k] in list[i + 1..] { assert list[i + 1..][k - i - 1] == list[k]; }
    assert list[i..] == [list[i]] + list[i + 1..];
  }

  /** Sends `MuxSelectionStatus(k == sel)` to the providers at positions i.. of the list, in order. */
  function Notify(providers: seq<IkProvider>, list: seq<nat>, sel: nat, i: nat): (r: (seq<IkProvider>, seq<(nat, bool)>))
    requires i <= |list| && forall k :: 0 <= k < |list| ==> list[k] < |providers|
    ensures |r.0| == |providers|
    ensures forall id :: 0 <= id < |providers| ==> r.0[id] == providers[id].(previousStatus := r.0[id].previousStatus)
    ensures forall id :: 0 <= id < |providers| && id !in list[i..] ==> r.0[id] == providers[id]
    ensures Distinct(list) ==>
              forall k :: i <= k < |list| ==> r.0[list[k]].previousStatus == (k == sel)
    ensures Distinct(list) ==>
              forall k :: i <= k < |list| ==>
                ((list[k], k == sel) in r.1 <==> providers[list[k]].previousStatus != (k == sel))
    ensures forall n :: n in r.1 ==> n.0 in list[i..]
    decreases |list| - i
  {
    if i == |list| then (providers, [])
    else
      var id := list[i];
      var s := SelectionStatus(providers[id], i == sel);
      var rest := Notify(providers[id := s.0], list, sel, i + 1);
      ListTail(list, i);
      (rest.0, (if s.1 then [(id, i == sel)] else []) + rest.1)
  }

  /** What one `Update` did: the providers' new state, the notifications sent, and the position handed on with its lerp flag. */
  datatype IkUpdate = IkUpdate(providers: seq<IkProvider>, notified: seq<(nat, bool)>, target: Option<(Vector3, bool)>)

  /**
   * `Update`: selects the first provider of highest priority, tells every
   * listed provider whether it is the one, and forwards the selected one's
   * position and lerp flag. With an empty list the index of the forwarding
   * step is out of range, so it throws (no target) after notifying nobody.
   */
  function Update(list: seq<nat>, providers: seq<IkProvider>): (r: IkUpdate)
    requires forall k :: 0 <= k < |list| ==> list[k] < |providers|
    ensures r.target.None? <==> |list| == 0
    ensures |list| == 0 ==> r == IkUpdate(providers, [], None)
    ensures |list| > 0 ==>
              var sel := SelectIndex(Priorities(list, providers));
              r.target == Some((providers[list[sel]].position, providers[list[sel]].useLerp))
              && (forall k :: 0 <= k < |list| ==> providers[list[k]].priority <= providers[list[sel]].priority)
              && (forall k :: 0 <= k < sel ==> providers[list[k]].priority < providers[list[sel]].priority)
  {
    if |list| == 0 then IkUpdate(providers, [], None)
    else
      var ps := Priorities(list, providers);
      var sel := SelectIndex(ps);
      assert forall k :: 0 <= k < |list| ==> ps[k] == providers[list[k]].priority;
      var n := Notify(providers, list, sel, 0);
      IkUpdate(n.0, n.1, Some((providers[list[sel]].position, providers[list[sel]].useLerp)))
  }

  /**
   * With each provider listed once, afterwards exactly the selected provider
   * has status true, and a provider is notified iff its status changed.
   */
  lemma UpdateMarksSelected(list: seq<nat>, providers: seq<IkProvider>)
    requires forall k :: 0 <= k < |list| ==> list[k] < |providers|
    requires |list| > 0 && Distinct(list)
    ensures var r := Update(list, providers);
            var sel := SelectIndex(Priorities(list, providers));
            (forall k :: 0 <= k < |list| ==> r.providers[list[k]].previousStatus == (k == sel))
            && (forall k :: 0 <= k < |list| ==>
                  ((list[k], k == sel) in r.notified <==> providers[list[k]].previousStatus != (k == sel)))
  {
    assert list[0..] == list;
  }

  /** `RegisterMux`: registers with the controller when there is one. */
  function RegisterMux(controller: Option<seq<nat>>, id: nat): (r: Option<seq<nat>>)
    ensures r.None? <==> controller.None?
    ensures r.Some? ==> r.value == Register(controller.value, id)
  {
    if controller.None? then None else Some(controller.value + [id])
  }

  /** `OnDestroy`: unregisters from the controller when there is one. */
  function OnDestroy(controller: Option<seq<nat>>, id: nat): (r: Option<seq<nat>>)
    ensures r.None? <==> controller.None?
    ensures r.Some? ==> r.value == Unregister(controller.value, id)
  {
    if controller.None? then None else Some(Unregister(controller.value, id))
  }

  /** A provider created and destroyed leaves the controller's list as it found it. */
  lemma CreateDestroy(controller: Option<seq<nat>>, id: nat)
    requires controller.Some? ==> id !in controller.value
    ensures OnDestroy(RegisterMux(controller, id), id) == controller
  {
    if controller.Some? {
      UnregisterAfterRegister(controller.value, id);
    }
  }
}
