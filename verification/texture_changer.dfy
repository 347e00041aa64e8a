/**
 * `TextureChanger`: the up and down arrows step cyclically through the
 * materials of the texture plane.
 */
module TextureChanger {
  import opened Wrappers

  datatype Changer = Changer(index: int, count: nat)

  predicate Valid(c: Changer)
  {
    0 <= c.index < c.count
  }

  /** `Start` shows material 0; with no materials the lookup throws. */
  function Start(count: nat): (r: Option<Changer>)
    ensures r.Some? <==> count > 0
    ensures r.Some? ==> Valid(r.value) && r.value.index == 0 && r.value.count == count
  {
    if count == 0 then None else Some(Changer(0, count))
  }

  /** The up arrow: the next material, wrapping to the first after the last. */
  function Up(c: Changer): (r: Changer)
    requires Valid(c)
    ensures Valid(r) && r.count == c.count
    ensures r.index == c.index + 1 || (c.index == c.count - 1 && r.index == 0)
  {
    c.(index := (c.index + 1) % c.count)
  }

  /** The down arrow: the previous material, wrapping to the last below the first. */
  function Down(c: Changer): (r: Changer)
    requires Valid(c)
    ensures Valid(r) && r.count == c.count
    ensures r.index == c.index - 1 || (c.index == 0 && r.index == c.count - 1)
  {
    var i := c.index - 1;
    c.(index := if i < 0 then c.count - 1 else i)
  }

  /** One frame: the up arrow is handled before the down arrow. */
  function Update(c: Changer, up: bool, down: bool): (r: Changer)
    requires Valid(c)
    ensures Valid(r) && r.count == c.count
    ensures up && down ==> r == c
  {
    var afterUp := if up then Up(c) else c;
    if down then Down(afterUp) else afterUp
  }

  lemma DownUndoesUp(c: Changer)
    requires Valid(c)
    ensures Down(Up(c)) == c
  {
  }

  lemma UpUndoesDown(c: Changer)
    requires Valid(c)
    ensures Up(Down(c)) == c
  {
  }

  function UpTimes(c: Changer, k: nat): (r: Changer)
    requires Valid(c)
    ensures Valid(r) && r.count == c.count
    decreases k
  {
    if k == 0 then c else Up(UpTimes(c, k - 1))
  }

  /** `k` presses of the up arrow, at most one round, advance the index by `k` and wrap once past the last. */
  lemma {:induction false} UpTimesAdvances(c: Changer, k: nat)
    requires Valid(c) && k <= c.count
    ensures UpTimes(c, k).index == if c.index + k < c.count then c.index + k else c.index + k - c.count
    decreases k
  {
    if k > 0 {
      UpTimesAdvances(c, k - 1);
    }
  }

  /** A full round of up presses comes back to the same material. */
  lemma UpRoundTrip(c: Changer)
    requires Valid(c)
    ensures UpTimes(c, c.count) == c
  {
    UpTimesAdvances(c, c.count);
  }
}
