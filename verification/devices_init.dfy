/**
 * `NDDevicesInit`: pairing the physical gloves with the hand slots of a
 * scene. `Init` counts the gloves per hand, builds one slot per hand model
 * (or, without hand models, one or two per glove) and `WaitForDevice` moves
 * to the first slot whose hand has a glove, prompting its player. Each frame
 * `Update` gives the current slot the first glove that is pinching or, in
 * small setups, the first glove of the right hand at all; Escape omits the
 * slot. Vendor calls (creating the device, starting the hand model, the
 * all-assigned notification) are recorded in the state.
 */
module DevicesInit {
  import opened Wrappers
  import Text
  import MuxProvider

  type Location = MuxProvider.Location

  /** A hand model in the scene: its user, its hand location and its game-object name. */
  datatype Hmc = Hmc(user: int, location: Location, name: string)

  /** A slot: its hand model (None when the scene has none), whether it is settled, and the glove given to it. */
  datatype Device = Device(hmc: Option<Hmc>, isAssigned: bool, deviceId: int)

  /** A physical glove as the SDK reports it on one frame. */
  datatype Glove = Glove(deviceId: int, location: Location, pinching: bool)

  /** A device created for a glove: the glove, the user, and whether the slot's hand model was started with it. */
  datatype Created = Created(deviceId: int, user: int, started: bool)

  /** Gloves and hand models per hand. */
  datatype Counts = Counts(right: nat, left: nat, rightHmcs: nat, leftHmcs: nat)

  datatype State = State(
    devices: seq<Device>,
    counts: Counts,
    index: nat,
    location: Option<Location>,
    allAssigned: bool,
    user: int,
    message: string,
    created: seq<Created>,
    notified: bool)

  datatype Outcome = Outcome(state: State, thrown: bool)

  const NoDeviceMessage := "Please, connect any suitable device (Gloveone or AvatarVR)"
  const AllAssignedMessage := "All controllers are assigned, have fun :)"

  /** The prompt template, cut where its two placeholders sit. */
  const Lead := "Player <b>"
  const Mid := "</b>, perform the pinch" + " gesture with your <b>"
  const Tail := " hand</b> to assign" + " that device," + " or press <b>Esc</b>" + " button to omit it"
  const Template := Lead + "{1}" + Mid + "{2}" + Tail

  /**
   * `CheckGameObjectName`: a name not already carrying a player suffix gets
   * "_P" and the user appended. `isDigit` is `Char.IsDigit`, the Unicode
   * decimal-digit class, which takes in '0' to '9' and the other scripts'
   * decimal digits.
   */
  function CheckName(name: string, user: int, isDigit: char -> bool): (r: string)
    ensures Text.Contains(r, "_P") && |r| > 0
    ensures r == name <==> Text.Contains(name, "_P") && |name| > 0 && isDigit(name[|name| - 1])
    ensures r != name ==> r == name + "_P" + Text.Decimal(user) && Text.IsDigit(r[|r| - 1])
  {
    if Text.Contains(name, "_P") && isDigit(name[|name| - 1]) then name
    else
      var r := name + "_P" + Text.Decimal(user);
      assert Text.OccursAt(r, "_P", |name|) by { assert r[|name|..|name| + 2] == "_P"; }
      assert r[|r| - 1] == Text.Decimal(user)[|Text.Decimal(user)| - 1];
      r
  }

  /** `Char.IsDigit` accepts the ASCII digits. */
  ghost predicate TakesAsciiDigits(isDigit: char -> bool)
  {
    forall c :: Text.IsDigit(c) ==> isDigit(c)
  }

  /** A checked name passes the check again, whatever user it is checked for. */
  lemma CheckNameIdempotent(name: string, user: int, other: int, isDigit: char -> bool)
    requires TakesAsciiDigits(isDigit)
    ensures CheckName(CheckName(name, user, isDigit), other, isDigit) == CheckName(name, user, isDigit)
  {
  }

  /** A name ending in a non-ASCII decimal digit after "_P", such as ARABIC-INDIC DIGIT THREE, is kept. */
  lemma CheckNameKeepsOtherDigits(user: int, isDigit: char -> bool)
    requires isDigit('\U{0663}')
    ensures CheckName("Hand_P\U{0663}", user, isDigit) == "Hand_P\U{0663}"
  {
    assert Text.OccursAt("Hand_P\U{0663}", "_P", 4);
  }

  /** The number of entries on one side. */
  function Count(locs: seq<Location>, side: Location): (n: nat)
    ensures n == multiset(locs)[side]
    decreases |locs|
  {
    if |locs| == 0 then 0
    else
      assert locs == [locs[0]] + locs[1..];
      (if locs[0] == side then 1 else 0) + Count(locs[1..], side)
  }

  function HmcLocations(hmcs: seq<Hmc>): (r: seq<Location>)
    ensures |r| == |hmcs| && forall k :: 0 <= k < |hmcs| ==> r[k] == hmcs[k].location
  {
    seq(|hmcs|, k requires 0 <= k < |hmcs| => hmcs[k].location)
  }

  predicate IsHand(loc: Location)
  {
    loc == MuxProvider.RightHand || loc == MuxProvider.LeftHand
  }

  /** The slots take their location from the hand models whenever some hand model is on a hand. */
  predicate HmcMode(c: Counts)
  {
    c.leftHmcs != 0 || c.rightHmcs != 0
  }

  /** Gloves on one hand only. */
  predicate OneSided(c: Counts)
  {
    (c.left == 0 && c.right > 0) || (c.left > 0 && c.right == 0)
  }

  /** A hand with no glove: its slots cannot be filled. */
  predicate Unplaceable(c: Counts, loc: Location)
  {
    (loc == MuxProvider.LeftHand && c.left == 0) || (loc == MuxProvider.RightHand && c.right == 0)
  }

  /** The hand slot `k` asks for. */
  function SlotLocation(c: Counts, slot: Device, k: nat): (loc: Location)
    requires HmcMode(c) ==> slot.hmc.Some?
    ensures !HmcMode(c) ==> IsHand(loc)
    ensures !HmcMode(c) && !OneSided(c) ==> (loc == MuxProvider.LeftHand <==> k % 2 == 1)
    ensures !HmcMode(c) && OneSided(c) ==> !Unplaceable(c, loc)
  {
    if HmcMode(c) then slot.hmc.value.location
    else if c.left == 0 && c.right > 0 then MuxProvider.RightHand
    else if c.left > 0 && c.right == 0 then MuxProvider.LeftHand
    else if (k + 1) % 2 == 0 then MuxProvider.LeftHand
    else MuxProvider.RightHand
  }

  /**
   * The player the prompt for slot `k` names. With gloves on both hands and
   * no hand models, slots pair up per player: the source rounds
   * `(k + 1) / 2` half away from zero, which is the ceiling.
   */
  function UserFor(c: Counts, slot: Device, k: nat): (u: int)
    requires HmcMode(c) ==> slot.hmc.Some?
    ensures !HmcMode(c) && !OneSided(c) ==> 2 * u - 1 <= k + 1 <= 2 * u
    ensures !HmcMode(c) && OneSided(c) ==> u == k + 1
    ensures HmcMode(c) ==> u == slot.hmc.value.user
  {
    if !HmcMode(c) then
      if OneSided(c) then k + 1 else (k + 2) / 2
    else slot.hmc.value.user
  }

  /** With gloves on both hands and no hand models, player `j + 1` fills slot `2j` with the right hand, then `2j + 1` with the left. */
  lemma PairedSlots(c: Counts, d: Device, j: nat)
    requires !HmcMode(c) && c.right > 0 && c.left > 0
    ensures SlotLocation(c, d, 2 * j) == MuxProvider.RightHand && SlotLocation(c, d, 2 * j + 1) == MuxProvider.LeftHand
    ensures UserFor(c, d, 2 * j) == j + 1 == UserFor(c, d, 2 * j + 1)
  {
  }

  /** The name of a hand as the prompt shows it. */
  function HandName(right: bool): string
  {
    if right then "right" else "left"
  }

  /** The prompt for a player and a hand: the template's text around them. */
  function Prompt(user: int, right: bool): string
  {
    Lead + Text.Decimal(user) + Mid + HandName(right) + Tail
  }

  /** The message built from the template: `{1}` replaced by the user, then `{2}` by the hand. */
  function Fill(user: int, right: bool): (r: string)
    ensures r == Prompt(user, right)
  {
    PromptText(user, right);
    var withUser := Text.ReplaceAll(Template, "{1}", Text.Decimal(user));
    Text.ReplaceAll(withUser, "{2}", HandName(right))
  }

  /** Filling the template's placeholders gives the prompt. */
  lemma PromptText(user: int, right: bool)
    ensures Text.ReplaceAll(Text.ReplaceAll(Template, "{1}", Text.Decimal(user)), "{2}", HandName(right)) == Prompt(user, right)
  {
    TemplatePieces();
    DecimalAvoids(user);
    Text.FillTwo(Lead, Mid, Tail, "{1}", "{2}", Text.Decimal(user), HandName(right));
  }

  /** The opening brace of a placeholder. */
  const Brace: char := 123 as char

  /** The fixed parts of the template hold no opening brace, and the two placeholders differ after it. */
  lemma TemplatePieces()
    ensures Text.Avoids(Lead, Brace) && Text.Avoids(Mid, Brace) && Text.Avoids(Tail, Brace)
    ensures "{1}"[0] == "{2}"[0] == Brace && "{1}" != "{2}" && Text.Avoids("{2}"[1..], Brace)
  {
    LeadAvoids();
    MidAvoids();
    TailAvoids();
  }

  lemma LeadAvoids()
    ensures Text.Avoids(Lead, Brace)
  {
  }

  lemma MidAvoids()
    ensures Text.Avoids(Mid, Brace)
  {
    assert Text.Avoids("</b>, perform the pinch", Brace);
    assert Text.Avoids(" gesture with your <b>", Brace);
  }

  lemma TailAvoids()
    ensures Text.Avoids(Tail, Brace)
  {
    assert Text.Avoids(" hand</b> to assign", Brace);
    assert Text.Avoids(" that device,", Brace);
    assert Text.Avoids(" or press <b>Esc</b>", Brace);
    assert Text.Avoids(" button to omit it", Brace);
  }

  lemma DecimalAvoids(n: int)
    ensures Text.Avoids(Text.Decimal(n), Brace)
  {
    var d := Text.Decimal(n);
    assert forall k :: 0 <= k < |d| ==> d[k] != Brace;
  }

  /** Slot hand models are present wherever the slots take their location from them. */
  ghost predicate HmcsBound(s: State)
  {
    HmcMode(s.counts) ==> forall k :: 0 <= k < |s.devices| ==> s.devices[k].hmc.Some?
  }

  /** The current slot's prompt: its player and hand. */
  ghost predicate Prompting(s: State)
    requires HmcsBound(s) && s.index < |s.devices|
  {
    s.user == UserFor(s.counts, s.devices[s.index], s.index)
    && s.message == Prompt(s.user, s.location == Some(MuxProvider.RightHand))
  }

  /** Between frames: either every slot is settled, or the current slot is a real one and its prompt is shown. */
  ghost predicate Formed(s: State)
  {
    HmcsBound(s)
    && (!s.allAssigned ==>
          s.index < |s.devices|
          && s.location == Some(SlotLocation(s.counts, s.devices[s.index], s.index))
          && Prompting(s))
  }

  /** The message and user are those `ShowUIMessage` leaves. */
  ghost predicate Shown(s: State)
    requires HmcsBound(s) && (s.allAssigned || s.index < |s.devices|)
  {
    if s.allAssigned then s.message == AllAssignedMessage else Prompting(s)
  }

  /** `ShowUIMessage`: the prompt for the current slot, or the all-assigned message. */
  function ShowUIMessage(s: State): (r: State)
    requires HmcsBound(s) && (s.allAssigned || s.index < |s.devices|)
    ensures r == s.(user := r.user, message := r.message)
    ensures Shown(r)
  {
    if s.allAssigned then s.(message := AllAssignedMessage)
    else
      var user := UserFor(s.counts, s.devices[s.index], s.index);
      s.(user := user, message := Fill(user, s.location == Some(MuxProvider.RightHand)))
  }

  /** Showing the message again changes nothing. */
  lemma ShowIdempotent(s: State)
    requires HmcsBound(s) && (s.allAssigned || s.index < |s.devices|) && Shown(s)
    ensures ShowUIMessage(s) == s
  {
  }

  /**
   * `WaitForDevice`: settles every slot from the current one on whose hand has
   * no glove, stops at the first that has one and prompts for it; past the
   * last slot everything is assigned and the service is told so.
   */
  function WaitForDevice(s: State): (r: State)
    requires HmcsBound(s)
    ensures Formed(r) && r.counts == s.counts && |r.devices| == |s.devices| && r.created == s.created
    ensures r.index == s.index || s.index < r.index <= |s.devices|
    ensures forall k :: 0 <= k < |s.devices| ==>
              r.devices[k] == if s.index <= k < r.index then s.devices[k].(isAssigned := true) else s.devices[k]
    ensures forall k :: s.index <= k < r.index ==> Unplaceable(s.counts, SlotLocation(s.counts, s.devices[k], k))
    ensures r.index < |r.devices| ==> !Unplaceable(s.counts, SlotLocation(s.counts, s.devices[r.index], r.index))
    ensures r.allAssigned <==> s.allAssigned || r.index >= |s.devices|
    ensures r.notified <==> s.notified || r.index >= |s.devices|
    ensures Shown(r)
    decreases |s.devices| - s.index
  {
    if s.index >= |s.devices| then
      ShowUIMessage(s.(allAssigned := true, notified := true))
    else
      var loc := SlotLocation(s.counts, s.devices[s.index], s.index);
      var t := s.(location := Some(loc));
      if Unplaceable(s.counts, loc) then
        var u := WaitForDevice(Settle(t, -1).(index := s.index + 1));
        ShowIdempotent(u);
        ShowUIMessage(u)
      else
        ShowUIMessage(t)
  }

  /** A hand model's name is checked when it is on a hand. */
  function Renamed(h: Hmc, isDigit: char -> bool): (r: Hmc)
    ensures r.user == h.user && r.location == h.location
    ensures IsHand(h.location) ==> Text.Contains(r.name, "_P")
    ensures !IsHand(h.location) ==> r == h
  {
    if IsHand(h.location) then h.(name := CheckName(h.name, h.user, isDigit)) else h
  }

  /** One unsettled slot per hand model, in order, with checked names. */
  function Slots(hmcs: seq<Hmc>, isDigit: char -> bool): (r: seq<Device>)
    ensures |r| == |hmcs| && forall k :: 0 <= k < |hmcs| ==> r[k] == Device(Some(Renamed(hmcs[k], isDigit)), false, -1)
    decreases |hmcs|
  {
    if |hmcs| == 0 then [] else [Device(Some(Renamed(hmcs[0], isDigit)), false, -1)] + Slots(hmcs[1..], isDigit)
  }

  /**
   * `Init`: `controllers` are the locations of the connected gloves and
   * `hmcs` the scene's hand models in the order their sort leaves them;
   * `isDigit` is `Char.IsDigit`, as in `CheckName`.
   */
  function Init(controllers: seq<Location>, hmcs: seq<Hmc>, isDigit: char -> bool): (s: State)
    ensures Formed(s)
    ensures s.counts.right == multiset(controllers)[MuxProvider.RightHand]
    ensures s.counts.left == multiset(controllers)[MuxProvider.LeftHand]
    ensures s.counts.right + s.counts.left == 0 ==>
              s.allAssigned && s.devices == [] && s.message == NoDeviceMessage && !s.notified
    ensures s.counts.right + s.counts.left > 0 && |hmcs| > 0 ==>
              |s.devices| == |hmcs| && forall k :: 0 <= k < |hmcs| ==> s.devices[k].hmc == Some(Renamed(hmcs[k], isDigit))
    ensures s.counts.right + s.counts.left > 0 && |hmcs| == 0 ==>
              |s.devices| == |controllers| * (if OneSided(s.counts) then 1 else 2)
  {
    var right := Count(controllers, MuxProvider.RightHand);
    var left := Count(controllers, MuxProvider.LeftHand);
    var start := State([], Counts(right, left, 0, 0), 0, None, false, 0, "", [], false);
    if right + left == 0 then
      start.(allAssigned := true, message := NoDeviceMessage)
    else if |hmcs| > 0 then
      var locs := HmcLocations(hmcs);
      var counts := Counts(right, left, Count(locs, MuxProvider.RightHand), Count(locs, MuxProvider.LeftHand));
      var slots := Slots(hmcs, isDigit);
      WaitForDevice(start.(devices := slots, counts := counts))
    else
      var slots := seq(|controllers| * (if left > 0 && right > 0 then 2 else 1), _ => Device(None, false, -1));
      WaitForDevice(start.(devices := slots))
  }

  /** `IsAssigned`: some settled slot holds the glove. */
  function IsAssigned(devices: seq<Device>, id: int): (r: bool)
    ensures r <==> exists k :: 0 <= k < |devices| && devices[k].isAssigned && devices[k].deviceId == id
    decreases |devices|
  {
    if |devices| == 0 then false
    else
      assert forall k :: 1 <= k < |devices| ==> devices[k] == devices[1..][k - 1];
      (devices[0].isAssigned && devices[0].deviceId == id) || IsAssigned(devices[1..], id)
  }

  /** `Device.AssignGlove`: the slot is settled with the glove, and a device is created for the current user. */
  function AssignGlove(d: Device, id: int, user: int): (r: (Device, Created))
    ensures r.0.isAssigned && r.0.deviceId == id && r.0.hmc == d.hmc
    ensures r.1 == Created(id, user, d.hmc.Some?)
  {
    (d.(isAssigned := true, deviceId := id), Created(id, user, d.hmc.Some?))
  }

  /** After `AssignGlove` on one slot, the glove counts as assigned. */
  lemma AssignGloveIsAssigned(devices: seq<Device>, i: nat, id: int, user: int)
    requires i < |devices|
    ensures IsAssigned(devices[i := AssignGlove(devices[i], id, user).0], id)
  {
    var after := devices[i := AssignGlove(devices[i], id, user).0];
    assert after[i].isAssigned && after[i].deviceId == id;
  }

  /**
   * The setups in which a glove of the current hand is taken without a
   * pinch: at most one glove and one hand model per hand, some glove, and
   * not a single glove whose hand lacks the only hand model.
   */
  function Direct(c: Counts): (r: bool)
    ensures r <==>
      c.right <= 1 && c.left <= 1 && c.rightHmcs <= 1 && c.leftHmcs <= 1 && c.right + c.left >= 1
      && !(c.right + c.left == 1 && c.rightHmcs + c.leftHmcs == 1 && (c.right == 1) != (c.rightHmcs == 1))
  {
    (c.right == 1 && c.rightHmcs == 1 && c.left == 0 && c.leftHmcs == 1)
    || (c.left == 1 && c.leftHmcs == 1 && c.rightHmcs == 0 && c.right == 1)
    || (c.right == 1 && c.rightHmcs == 1 && c.left == 1 && c.leftHmcs == 0)
    || (c.left == 1 && c.leftHmcs == 1 && c.rightHmcs == 1 && c.right == 0)
    || (c.right == 1 && c.rightHmcs == 1 && c.left == 0 && c.leftHmcs == 0)
    || (c.left == 1 && c.leftHmcs == 1 && c.rightHmcs == 0 && c.right == 0)
    || (c.right == 1 && c.rightHmcs == 1 && c.left == 1 && c.leftHmcs == 1)
    || (c.left == 1 && c.leftHmcs == 0 && c.rightHmcs == 0 && c.right == 0)
    || (c.left == 0 && c.leftHmcs == 0 && c.rightHmcs == 0 && c.right == 1)
    || (c.left == 1 && c.leftHmcs == 0 && c.rightHmcs == 0 && c.right == 1)
  }

  /**
   * Whether the current slot takes glove `g`: a free pinching glove of the
   * slot's hand, or in a direct setup any glove of that hand. With
   * `checkAssigned` false (the source as written) the direct path does not
   * ask whether the glove is already assigned.
   */
  predicate Accepts(s: State, g: Glove, checkAssigned: bool)
    requires s.location.Some?
  {
    g.location == s.location.value
    && ((g.pinching && !IsAssigned(s.devices, g.deviceId))
        || (Direct(s.counts) && (!checkAssigned || !IsAssigned(s.devices, g.deviceId))))
  }

  /** The glove loop of `Update`: the first glove the slot takes. */
  function Scan(s: State, gloves: seq<Glove>, checkAssigned: bool): (r: Option<int>)
    requires s.location.Some?
    ensures r.None? <==> forall k :: 0 <= k < |gloves| ==> !Accepts(s, gloves[k], checkAssigned)
    ensures r.Some? ==> exists k :: 0 <= k < |gloves| && Accepts(s, gloves[k], checkAssigned) && gloves[k].deviceId == r.value
                                   && forall j :: 0 <= j < k ==> !Accepts(s, gloves[j], checkAssigned)
    decreases |gloves|
  {
    if |gloves| == 0 then None
    else if Accepts(s, gloves[0], checkAssigned) then Some(gloves[0].deviceId)
    else
      var r := Scan(s, gloves[1..], checkAssigned);
      assert forall k :: 1 <= k < |gloves| ==> gloves[k] == gloves[1..][k - 1];
      r
  }

  /** A found glove settles the current slot (a glove id of -1 only marks it) and the next slot is prepared. */
  function Accept(s: State, id: int): (r: State)
    requires Formed(s) && !s.allAssigned
    ensures Formed(r) && r.counts == s.counts && |r.devices| == |s.devices| && s.index < r.index <= |s.devices|
    ensures r.created == if id != -1 then s.created + [Created(id, s.user, s.devices[s.index].hmc.Some?)] else s.created
    ensures r.devices[s.index].isAssigned && r.devices[s.index].hmc == s.devices[s.index].hmc
    ensures r.devices[s.index].deviceId == if id != -1 then id else s.devices[s.index].deviceId
    ensures forall k :: 0 <= k < |s.devices| && k != s.index ==>
              r.devices[k] == if s.index < k < r.index then s.devices[k].(isAssigned := true) else s.devices[k]
    ensures forall k :: s.index < k < r.index ==> Unplaceable(s.counts, SlotLocation(s.counts, s.devices[k], k))
  {
    var t := Settle(s, id);
    WaitForDevice(t.(index := s.index + 1))
  }

  /** The current slot settled: with the glove and a created device, or only marked when the id is -1. */
  function Settle(s: State, id: int): (t: State)
    requires HmcsBound(s) && s.index < |s.devices|
    ensures HmcsBound(t) && t == s.(devices := t.devices, created := t.created) && |t.devices| == |s.devices|
    ensures t.created == if id != -1 then s.created + [Created(id, s.user, s.devices[s.index].hmc.Some?)] else s.created
    ensures t.devices[s.index].isAssigned && t.devices[s.index].hmc == s.devices[s.index].hmc
    ensures t.devices[s.index].deviceId == if id != -1 then id else s.devices[s.index].deviceId
    ensures forall k :: 0 <= k < |s.devices| && k != s.index ==> t.devices[k] == s.devices[k]
  {
    var i := s.index;
    var t := if id != -1 then
               var a := AssignGlove(s.devices[i], id, s.user);
               s.(devices := s.devices[i := a.0], created := s.created + [a.1])
             else s.(devices := s.devices[i := s.devices[i].(isAssigned := true)]);
    assert forall k :: 0 <= k < |t.devices| ==> t.devices[k].hmc == s.devices[k].hmc;
    t
  }

  /** Escape: the current slot is settled without a glove and the next slot is prepared. */
  function Omit(s: State): (r: State)
    requires HmcsBound(s) && s.index < |s.devices|
    ensures Formed(r) && r.counts == s.counts && |r.devices| == |s.devices| && r.created == s.created
    ensures s.index < r.index <= |s.devices|
    ensures forall k :: 0 <= k < |s.devices| ==>
              r.devices[k] == if s.index <= k < r.index then s.devices[k].(isAssigned := true) else s.devices[k]
    ensures forall k :: s.index < k < r.index ==> Unplaceable(s.counts, SlotLocation(s.counts, s.devices[k], k))
  {
    WaitForDevice(Settle(s, -1).(index := s.index + 1))
  }

  /**
   * One frame of `Update`. The Escape branch runs even when the found glove
   * settled the last slot in the same frame; the slot lookup then throws.
   */
  function Tick(s: State, gloves: seq<Glove>, escape: bool, checkAssigned: bool): (r: Outcome)
    requires Formed(s)
    ensures Formed(r.state) && r.state.counts == s.counts && |r.state.devices| == |s.devices|
    ensures s.allAssigned ==> r == Outcome(s, false)
    ensures r.thrown ==> escape && r.state.allAssigned && r.state.index >= |s.devices|
    ensures r.state.created ==
              if !s.allAssigned && Scan(s, gloves, checkAssigned).Some? && Scan(s, gloves, checkAssigned).value != -1
              then s.created + [Created(Scan(s, gloves, checkAssigned).value, s.user, s.devices[s.index].hmc.Some?)]
              else s.created
  {
    if s.allAssigned then Outcome(s, false)
    else
      var found := Scan(s, gloves, checkAssigned);
      var s1 := if found.Some? then Accept(s, found.value) else s;
      if !escape then Outcome(s1, false)
      else if s1.index < |s1.devices| then Outcome(Omit(s1), false)
      else Outcome(s1, true)
  }

  /** `Update` as written: the direct path takes a glove even when it is already assigned. */
  function UpdateAsWritten(s: State, gloves: seq<Glove>, escape: bool): (r: Outcome)
    requires Formed(s)
    ensures Formed(r.state)
  {
    Tick(s, gloves, escape, false)
  }

  /** `Update`, with the direct path skipping gloves already assigned, as the pinch path does. */
  function Update(s: State, gloves: seq<Glove>, escape: bool): (r: Outcome)
    requires Formed(s)
    ensures Formed(r.state)
  {
    Tick(s, gloves, escape, true)
  }

  /**
   * Each glove settles at most one slot: unsettled slots hold no glove, no
   * two settled slots hold the same glove, and no slot from the current one
   * on is settled yet.
   */
  ghost predicate Unique(s: State)
  {
    (forall k :: 0 <= k < |s.devices| && !s.devices[k].isAssigned ==> s.devices[k].deviceId == -1)
    && (forall j, k :: (0 <= j < k < |s.devices| && s.devices[j].isAssigned && s.devices[k].isAssigned
                        && s.devices[j].deviceId == s.devices[k].deviceId) ==> s.devices[j].deviceId == -1)
    && (forall k :: s.index <= k < |s.devices| ==> !s.devices[k].isAssigned)
  }

  /** Slots no glove has settled yet. */
  ghost predicate AllOpen(devices: seq<Device>)
  {
    forall k :: 0 <= k < |devices| ==> !devices[k].isAssigned && devices[k].deviceId == -1
  }

  lemma InitUnique(controllers: seq<Location>, hmcs: seq<Hmc>, isDigit: char -> bool)
    ensures Unique(Init(controllers, hmcs, isDigit))
  {
    var right := Count(controllers, MuxProvider.RightHand);
    var left := Count(controllers, MuxProvider.LeftHand);
    var start := State([], Counts(right, left, 0, 0), 0, None, false, 0, "", [], false);
    if right + left > 0 {
      if |hmcs| > 0 {
        var locs := HmcLocations(hmcs);
        var counts := Counts(right, left, Count(locs, MuxProvider.RightHand), Count(locs, MuxProvider.LeftHand));
        var t := start.(devices := Slots(hmcs, isDigit), counts := counts);
        assert AllOpen(t.devices);
        WaitKeepsUnique(t);
      } else {
        var slots := seq(|controllers| * (if left > 0 && right > 0 then 2 else 1), _ => Device(None, false, -1));
        var t := start.(devices := slots);
        assert AllOpen(t.devices);
        WaitKeepsUnique(t);
      }
    }
  }

  /** `WaitForDevice` only marks open slots, so it keeps every glove in at most one slot. */
  lemma WaitKeepsUnique(s: State)
    requires HmcsBound(s) && Unique(s)
    ensures Unique(WaitForDevice(s))
  {
    MarkOpenKeepsUnique(s, WaitForDevice(s));
  }

  /**
   * Marking the open slots from the current one up to the new current one
   * as settled, without touching any glove id, keeps every glove in at most
   * one slot: those slots hold no glove.
   */
  lemma MarkOpenKeepsUnique(s: State, r: State)
    requires Unique(s) && |r.devices| == |s.devices| && s.index <= r.index
    requires forall k :: 0 <= k < |s.devices| ==>
               r.devices[k] == if s.index <= k < r.index then s.devices[k].(isAssigned := true) else s.devices[k]
    ensures Unique(r)
  {
    assert forall k :: 0 <= k < |r.devices| ==> r.devices[k].deviceId == s.devices[k].deviceId;
    assert forall k :: 0 <= k < |r.devices| && r.devices[k].isAssigned && !s.devices[k].isAssigned ==>
             r.devices[k].deviceId == -1;
  }

  /** The corrected `Update` keeps every glove in at most one slot. */
  lemma UpdateKeepsUnique(s: State, gloves: seq<Glove>, escape: bool)
    requires Formed(s) && Unique(s)
    ensures Unique(Update(s, gloves, escape).state)
  {
    if !s.allAssigned {
      var found := Scan(s, gloves, true);
      var s1 := if found.Some? then Accept(s, found.value) else s;
      if found.Some? {
        var id := found.value;
        assert id == -1 || !IsAssigned(s.devices, id);
        AcceptKeepsUnique(s, id);
      }
      if escape && s1.index < |s1.devices| {
        OmitKeepsUnique(s1);
      }
    }
  }

  lemma AcceptKeepsUnique(s: State, id: int)
    requires Formed(s) && !s.allAssigned && Unique(s)
    requires id == -1 || !IsAssigned(s.devices, id)
    ensures Unique(Accept(s, id))
  {
    var t := Settle(s, id).(index := s.index + 1);
    SettleKeepsUnique(s, id);
    WaitKeepsUnique(t);
  }

  /** Settling the current slot with a glove no slot holds, then moving on, keeps every glove in at most one slot. */
  lemma SettleKeepsUnique(s: State, id: int)
    requires HmcsBound(s) && s.index < |s.devices| && Unique(s)
    requires id == -1 || !IsAssigned(s.devices, id)
    ensures Unique(Settle(s, id).(index := s.index + 1))
  {
    assert forall j :: 0 <= j < |s.devices| && s.devices[j].isAssigned && id != -1 ==> s.devices[j].deviceId != id;
  }

  lemma OmitKeepsUnique(s: State)
    requires HmcsBound(s) && s.index < |s.devices| && Unique(s)
    ensures Unique(Omit(s))
  {
    MarkOpenKeepsUnique(s, Omit(s));
  }

  /** The concrete setup of the finding: one right and one left glove, no hand models. */
  function TwoGloves(): seq<Glove>
  {
    [Glove(1, MuxProvider.RightHand, false), Glove(2, MuxProvider.LeftHand, false)]
  }

  const Pair := Counts(1, 1, 0, 0)
  const Empty := Device(None, false, -1)

  /** The two-glove setup after `i` frames: slot `i` prompts player `i / 2 + 1` for the hand of its parity. */
  ghost predicate TwoGlovesAt(s: State, i: nat, devices: seq<Device>, created: seq<Created>)
  {
    Formed(s) && !s.allAssigned && s.counts == Pair && s.devices == devices && s.index == i && s.created == created
    && s.location == Some(if i % 2 == 0 then MuxProvider.RightHand else MuxProvider.LeftHand) && s.user == (i + 2) / 2
  }

  /** `Init` with those two gloves: four empty slots, the first prompting player 1's right hand. */
  lemma InitTwoGloves()
    ensures TwoGlovesAt(Init([MuxProvider.RightHand, MuxProvider.LeftHand], [], Text.IsDigit), 0, [Empty, Empty, Empty, Empty], [])
  {
    var s := Init([MuxProvider.RightHand, MuxProvider.LeftHand], [], Text.IsDigit);
    assert s.counts == Pair;
    assert |s.devices| == 4;
    assert SlotLocation(Pair, Empty, 0) == MuxProvider.RightHand;
    assert s.devices == [Empty, Empty, Empty, Empty];
  }

  /** One frame of the two-glove setup in which glove `id` is found for the current slot. */
  lemma TwoGlovesStep(s: State, id: int, checkAssigned: bool, devices: seq<Device>, created: seq<Created>)
    requires Formed(s) && !s.allAssigned && s.counts == Pair && |s.devices| == 4 && s.index < 3
    requires s.devices[s.index] == Empty && Scan(s, TwoGloves(), checkAssigned) == Some(id) && id != -1
    requires devices == s.devices[s.index := Device(None, true, id)] && created == s.created + [Created(id, s.user, false)]
    ensures TwoGlovesAt(Tick(s, TwoGloves(), false, checkAssigned).state, s.index + 1, devices, created)
  {
    var r := Accept(s, id);
    assert r.devices == s.devices[s.index := Device(None, true, id)];
  }

  const Right1 := Device(None, true, 1)
  const Left2 := Device(None, true, 2)

  lemma FirstFrame(s: State, checkAssigned: bool)
    requires TwoGlovesAt(s, 0, [Empty, Empty, Empty, Empty], [])
    ensures TwoGlovesAt(Tick(s, TwoGloves(), false, checkAssigned).state, 1, [Right1, Empty, Empty, Empty], [Created(1, 1, false)])
  {
    var g := TwoGloves();
    OpenNotAssigned(s.devices, 1);
    assert Accepts(s, g[0], checkAssigned);
    assert Scan(s, g, checkAssigned) == Some(1);
    assert s.devices[0 := Device(None, true, 1)] == [Right1, Empty, Empty, Empty];
    TwoGlovesStep(s, 1, checkAssigned, [Right1, Empty, Empty, Empty], [Created(1, 1, false)]);
  }

  lemma OpenNotAssigned(devices: seq<Device>, id: int)
    requires AllOpen(devices) && id != -1
    ensures !IsAssigned(devices, id)
  {
  }

  lemma SecondFrame(s: State, checkAssigned: bool)
    requires TwoGlovesAt(s, 1, [Right1, Empty, Empty, Empty], [Created(1, 1, false)])
    ensures TwoGlovesAt(Tick(s, TwoGloves(), false, checkAssigned).state, 2, [Right1, Left2, Empty, Empty],
                        [Created(1, 1, false), Created(2, 1, false)])
  {
    var g := TwoGloves();
    assert !IsAssigned(s.devices, 2);
    assert !Accepts(s, g[0], checkAssigned) && Accepts(s, g[1], checkAssigned);
    assert Scan(s, g, checkAssigned) == Some(2);
    assert s.devices[1 := Device(None, true, 2)] == [Right1, Left2, Empty, Empty];
    TwoGlovesStep(s, 2, checkAssigned, [Right1, Left2, Empty, Empty], [Created(1, 1, false), Created(2, 1, false)]);
  }

  /**
   * With one right and one left glove and no hand models there are four
   * slots, and the direct path hands the right glove to player 1 and then,
   * on the third frame, to player 2 as well.
   */
  lemma AsWrittenAssignsGloveTwice()
    ensures var s0 := Init([MuxProvider.RightHand, MuxProvider.LeftHand], [], Text.IsDigit);
            var s3 := UpdateAsWritten(UpdateAsWritten(UpdateAsWritten(s0, TwoGloves(), false).state, TwoGloves(), false).state,
                                      TwoGloves(), false).state;
            s3.devices[0].isAssigned && s3.devices[2].isAssigned
            && s3.devices[0].deviceId == 1 && s3.devices[2].deviceId == 1
            && s3.created == [Created(1, 1, false), Created(2, 1, false), Created(1, 2, false)]
  {
    var g := TwoGloves();
    var s0 := Init([MuxProvider.RightHand, MuxProvider.LeftHand], [], Text.IsDigit);
    InitTwoGloves();
    FirstFrame(s0, false);
    var s1 := UpdateAsWritten(s0, g, false).state;
    SecondFrame(s1, false);
    var s2 := UpdateAsWritten(s1, g, false).state;
    assert Accepts(s2, g[0], false);
    TwoGlovesStep(s2, 1, false, s2.devices[2 := Device(None, true, 1)], s2.created + [Created(1, 2, false)]);
  }

  /** In the same setup the corrected `Update` leaves player 2's right slot waiting: the right glove is taken. */
  lemma CorrectedKeepsGloveOnce()
    ensures var s0 := Init([MuxProvider.RightHand, MuxProvider.LeftHand], [], Text.IsDigit);
            var s2 := Update(Update(s0, TwoGloves(), false).state, TwoGloves(), false).state;
            s2.created == [Created(1, 1, false), Created(2, 1, false)]
            && Update(s2, TwoGloves(), false).state == s2
  {
    var g := TwoGloves();
    var s0 := Init([MuxProvider.RightHand, MuxProvider.LeftHand], [], Text.IsDigit);
    InitTwoGloves();
    FirstFrame(s0, true);
    var s1 := Update(s0, g, false).state;
    SecondFrame(s1, true);
    var s2 := Update(s1, g, false).state;
    assert IsAssigned(s2.devices, 1) by { assert s2.devices[0].isAssigned && s2.devices[0].deviceId == 1; }
    assert !Accepts(s2, g[0], true) && !Accepts(s2, g[1], true);
    assert Scan(s2, g, true) == None;
  }
}
