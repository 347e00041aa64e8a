/**
 * `InGameCalibration`: recalibration of a glove by performing a gesture
 * sequence within a time window. Two sequences are watched, soft and hard;
 * the first expected gesture of either opens the window, each further
 * expected gesture advances that sequence's index, and a sequence whose index
 * has reached its end completes and schedules a recalibration. The haptic
 * ramp and the device subscription are effects and are not modelled beyond
 * a flag saying that the ramp was played.
 */
module Calibration {
  import Wrappers

  /** The vendor `Gesture` enum; `NoGesture` is its `None`. */
  datatype Gesture = NoGesture | IndexPinch | MiddlePinch | Gun | Ok | ThreePinch | PinchFist

  /** The inspector configuration, as `Start` leaves it. */
  datatype Config = Config(
    soft: seq<Gesture>, hard: seq<Gesture>,
    softEnabled: bool, hardEnabled: bool, enabled: bool, timeToPerform: real)

  /** The gesture window: open or not, its remaining time, the two indices and the two completion flags. */
  datatype Window = Window(checking: bool, timer: real, softIndex: nat, hardIndex: nat, softDone: bool, hardDone: bool)

  datatype Calibrator = Calibrator(config: Config, window: Window, current: Gesture, previous: Gesture, gestureSeen: bool)

  /** `ResetWindow`: full timer, window closed, both indices at 0, both completion flags cleared. */
  function ResetWindow(timeToPerform: real): (w: Window)
    ensures !w.checking && w.softIndex == 0 && w.hardIndex == 0 && !w.softDone && !w.hardDone
    ensures w.timer == timeToPerform
  {
    Window(false, timeToPerform, 0, 0, false, false)
  }

  /** `Awake`: no gesture seen, a full timer, the window closed. */
  function Awake(soft: seq<Gesture>, hard: seq<Gesture>, softEnabled: bool, hardEnabled: bool, timeToPerform: real)
    : (c: Calibrator)
    ensures c.config.enabled && c.window == ResetWindow(timeToPerform) && !c.gestureSeen
  {
    Calibrator(Config(soft, hard, softEnabled, hardEnabled, true, timeToPerform), ResetWindow(timeToPerform),
               NoGesture, NoGesture, false)
  }

  /** The sequence with every `None` removed, in order. */
  function WithoutNone(s: seq<Gesture>): (r: seq<Gesture>)
    ensures |r| <= |s|
    ensures forall i :: 0 <= i < |r| ==> r[i] != NoGesture
    ensures forall g :: g != NoGesture ==> multiset(r)[g] == multiset(s)[g]
    decreases |s|
  {
    if |s| == 0 then []
    else
      var rest := WithoutNone(s[1..]);
      assert s == [s[0]] + s[1..];
      (if s[0] == NoGesture then [] else [s[0]]) + rest
  }

  /** Filtering distributes over concatenation, so it keeps the order of the kept gestures. */
  lemma {:induction false} WithoutNoneAppend(a: seq<Gesture>, b: seq<Gesture>)
    ensures WithoutNone(a + b) == WithoutNone(a) + WithoutNone(b)
    decreases |a|
  {
    if |a| == 0 {
      assert a + b == b;
    } else {
      assert (a + b)[1..] == a[1..] + b;
      WithoutNoneAppend(a[1..], b);
    }
  }

  /** A sequence without `None` is left as it is. */
  lemma {:induction false} WithoutNoneKeeps(s: seq<Gesture>)
    requires forall i :: 0 <= i < |s| ==> s[i] != NoGesture
    ensures WithoutNone(s) == s
    decreases |s|
  {
    if |s| > 0 {
      WithoutNoneKeeps(s[1..]);
      assert s == [s[0]] + s[1..];
    }
  }

  /**
   * `Start`: removes `None` from both sequences. An empty soft sequence
   * disables soft calibration and the whole component (so hard calibration
   * never runs either); an empty hard sequence disables hard calibration.
   */
  function Start(c: Calibrator): (r: Calibrator)
    ensures r.config.soft == WithoutNone(c.config.soft) && r.config.hard == WithoutNone(c.config.hard)
    ensures r.config.softEnabled <==> c.config.softEnabled && |r.config.soft| > 0
    ensures r.config.hardEnabled <==> c.config.hardEnabled && |r.config.hard| > 0
    ensures r.config.enabled <==> c.config.enabled && |r.config.soft| > 0
    ensures r == c.(config := r.config) && r.config.timeToPerform == c.config.timeToPerform
  {
    var cfg := c.config.(soft := WithoutNone(c.config.soft), hard := WithoutNone(c.config.hard));
    var softChecked := if |cfg.soft| == 0 then cfg.(softEnabled := false, enabled := false) else cfg;
    var hardChecked := if |softChecked.hard| == 0 then softChecked.(hardEnabled := false) else softChecked;
    c.(config := hardChecked)
  }

  /** A gesture event from the device: it becomes the current gesture and raises its flag. */
  function OnGesture(c: Calibrator, g: Gesture): Calibrator
    requires g != NoGesture
  {
    c.(current := g, gestureSeen := true)
  }

  /** The index-th gesture of a sequence is being performed: it is new (differs from the previous one) and matches. */
  predicate Expected(c: Calibrator, s: seq<Gesture>, index: nat)
  {
    index < |s| && c.previous != c.current && c.current == s[index]
  }

  /**
   * An index stayed, advanced by one on its expected gesture, went back to 0,
   * or restarted at 1 on the sequence's first gesture.
   */
  predicate Moved(before: nat, after: nat, expected: bool, expectedFirst: bool)
  {
    after == before || (after == before + 1 && expected) || after == 0 || (after == 1 && expectedFirst)
  }

  /** The hard check inside the window: advance on the expected gesture, or complete when the index is at the end. */
  function HardCheck(c: Calibrator, w: Window): (r: Window)
    ensures !c.config.hardEnabled ==> r == w
    ensures c.config.hardEnabled && w.hardIndex >= |c.config.hard| ==>
              r == ResetWindow(c.config.timeToPerform).(hardDone := true)
    ensures c.config.hardEnabled && w.hardIndex < |c.config.hard| ==>
              r == w.(hardIndex := if Expected(c, c.config.hard, w.hardIndex) then w.hardIndex + 1 else w.hardIndex)
  {
    if !c.config.hardEnabled then w
    else if w.hardIndex < |c.config.hard| then
      if c.previous != c.current && c.current == c.config.hard[w.hardIndex] then w.(hardIndex := w.hardIndex + 1) else w
    else ResetWindow(c.config.timeToPerform).(hardDone := true)
  }

  /** The soft check inside the window. */
  function SoftCheck(c: Calibrator, w: Window): (r: Window)
    ensures !c.config.softEnabled ==> r == w
    ensures c.config.softEnabled && w.softIndex >= |c.config.soft| ==>
              r == ResetWindow(c.config.timeToPerform).(softDone := true)
    ensures c.config.softEnabled && w.softIndex < |c.config.soft| ==>
              r == w.(softIndex := if Expected(c, c.config.soft, w.softIndex) then w.softIndex + 1 else w.softIndex)
  {
    if !c.config.softEnabled then w
    else if w.softIndex < |c.config.soft| then
      if c.previous != c.current && c.current == c.config.soft[w.softIndex] then w.(softIndex := w.softIndex + 1) else w
    else ResetWindow(c.config.timeToPerform).(softDone := true)
  }

  /**
   * The open-window part of `Update`: count the time down, check hard, then
   * soft. With `hardPrecedes` the soft check is skipped in the update where
   * the hard sequence completes.
   */
  function InWindow(c: Calibrator, dt: real, hardPrecedes: bool): (r: Window)
    ensures Moved(c.window.softIndex, r.softIndex, Expected(c, c.config.soft, c.window.softIndex), Expected(c, c.config.soft, 0))
    ensures Moved(c.window.hardIndex, r.hardIndex, Expected(c, c.config.hard, c.window.hardIndex), Expected(c, c.config.hard, 0))
    ensures !r.softDone && !r.hardDone ==> r.checking == c.window.checking
  {
    var counted := c.window.(timer := c.window.timer - dt);
    var hardCompletes := c.config.hardEnabled && counted.hardIndex >= |c.config.hard|;
    var h := HardCheck(c, counted);
    if hardPrecedes && hardCompletes then h else SoftCheck(c, h)
  }

  /** What one `Update` did: the new state, whether the haptic ramp played, whether a recalibration was scheduled, and whether it threw. */
  datatype Tick = Tick(c: Calibrator, buzz: bool, scheduled: bool, thrown: bool)

  /**
   * The window-opening part of `Update`, reached with a gesture seen and the
   * window closed: each enabled sequence whose gesture at its index is newly
   * performed advances and opens the window. The gesture at the index is
   * looked up whenever the gesture is new, so an index at the end of its
   * sequence throws there.
   */
  function Open(c: Calibrator, buzz: bool): (r: Tick)
    ensures Moved(c.window.softIndex, r.c.window.softIndex, Expected(c, c.config.soft, c.window.softIndex), false)
    ensures Moved(c.window.hardIndex, r.c.window.hardIndex, Expected(c, c.config.hard, c.window.hardIndex), false)
    ensures !r.scheduled && r.c.config == c.config
    ensures r.c.window == c.window.(checking := r.c.window.checking, softIndex := r.c.window.softIndex,
                                    hardIndex := r.c.window.hardIndex)
  {
    var w := c.window;
    var softLooks := c.config.softEnabled && c.previous != c.current;
    if softLooks && w.softIndex >= |c.config.soft| then Tick(c, buzz, false, true)
    else
      var s := if softLooks && c.current == c.config.soft[w.softIndex] then w.(softIndex := w.softIndex + 1, checking := true) else w;
      var hardLooks := c.config.hardEnabled && c.previous != c.current;
      if hardLooks && s.hardIndex >= |c.config.hard| then Tick(c.(window := s), buzz, false, true)
      else
        var h := if hardLooks && c.current == c.config.hard[s.hardIndex] then s.(hardIndex := s.hardIndex + 1, checking := true) else s;
        Tick(c.(window := h, previous := c.current), buzz, false, false)
  }

  /** The tail of `Update`: without a gesture the current gesture is reset, otherwise a closed window may open. */
  function Finish(c: Calibrator, seen: bool, buzz: bool): (r: Tick)
    ensures Moved(c.window.softIndex, r.c.window.softIndex, Expected(c, c.config.soft, c.window.softIndex), false)
    ensures Moved(c.window.hardIndex, r.c.window.hardIndex, Expected(c, c.config.hard, c.window.hardIndex), false)
    ensures !r.scheduled && r.c.config == c.config
    ensures r.c.window == c.window.(checking := r.c.window.checking, softIndex := r.c.window.softIndex,
                                    hardIndex := r.c.window.hardIndex)
  {
    if !seen then Tick(c.(current := NoGesture, previous := NoGesture), buzz, false, false)
    else if !c.window.checking then Open(c, buzz)
    else Tick(c.(previous := c.current), buzz, false, false)
  }

  /**
   * One `Update`. Unity does not update a disabled component, and `Start`
   * disables this one when its soft sequence is empty, so such a calibrator
   * is left as it is, as is one with neither sequence enabled.
   */
  function Advance(c: Calibrator, dt: real, hardPrecedes: bool): (r: Tick)
  {
    if !c.config.enabled || (!c.config.softEnabled && !c.config.hardEnabled) then Tick(c, false, false, false)
    else
      var seen := c.gestureSeen;
      var cleared := c.(gestureSeen := false);
      var buzz := c.window.softDone || c.window.hardDone;
      if c.window.checking then
        var w := InWindow(cleared, dt, hardPrecedes);
        if w.softDone || w.hardDone then Tick(cleared.(window := w), buzz, true, false)
        else Finish(cleared.(window := if w.timer <= 0.0 then ResetWindow(c.config.timeToPerform) else w), seen, buzz)
      else Finish(cleared, seen, buzz)
  }

  /** `Update` as written: the soft check also runs in the update where the hard sequence completes. */
  function UpdateAsWritten(c: Calibrator, dt: real): (r: Tick)
    ensures !c.config.enabled || (!c.config.softEnabled && !c.config.hardEnabled) ==> r == Tick(c, false, false, false)
  {
    Advance(c, dt, false)
  }

  /** `Update`, with the hard completion taking precedence over the soft check in that update. */
  function Update(c: Calibrator, dt: real): (r: Tick)
    ensures !c.config.enabled || (!c.config.softEnabled && !c.config.hardEnabled) ==> r == Tick(c, false, false, false)
  {
    Advance(c, dt, true)
  }

  /**
   * The state every `Update` expects: an enabled sequence is non-empty, the
   * indices are within their sequences, and a closed window has both
   * indices at 0 (which `ResetWindow` establishes).
   */
  ghost predicate Consistent(c: Calibrator)
  {
    (c.config.softEnabled ==> |c.config.soft| > 0) && (c.config.hardEnabled ==> |c.config.hard| > 0)
    && WindowFits(c.config, c.window)
  }

  ghost predicate WindowFits(cfg: Config, w: Window)
  {
    w.softIndex <= |cfg.soft| && w.hardIndex <= |cfg.hard| && (!w.checking ==> w.softIndex == 0 && w.hardIndex == 0)
  }

  /** `Start` establishes it on any freshly awoken component. */
  lemma StartConsistent(soft: seq<Gesture>, hard: seq<Gesture>, softEnabled: bool, hardEnabled: bool, time: real)
    ensures Consistent(Start(Awake(soft, hard, softEnabled, hardEnabled, time)))
  {
  }

  lemma OpenKeepsConsistent(c: Calibrator, buzz: bool)
    requires Consistent(c) && !c.window.checking
    ensures !Open(c, buzz).thrown && Consistent(Open(c, buzz).c)
  {
  }

  lemma FinishKeepsConsistent(c: Calibrator, seen: bool, buzz: bool)
    requires Consistent(c)
    ensures !Finish(c, seen, buzz).thrown && Consistent(Finish(c, seen, buzz).c)
  {
    if seen && !c.window.checking {
      OpenKeepsConsistent(c, buzz);
    }
  }

  lemma InWindowKeepsConsistent(c: Calibrator, dt: real)
    requires Consistent(c) && c.window.checking
    ensures WindowFits(c.config, InWindow(c, dt, true))
  {
    var counted := c.window.(timer := c.window.timer - dt);
    var h := HardCheck(c, counted);
    assert WindowFits(c.config, h);
    if !(c.config.hardEnabled && counted.hardIndex >= |c.config.hard|) {
      assert h.checking;
      assert WindowFits(c.config, SoftCheck(c, h));
    }
  }

  /** With hard precedence, `Update` keeps the state consistent and never throws. */
  lemma UpdateKeepsConsistent(c: Calibrator, dt: real)
    requires Consistent(c)
    ensures !Update(c, dt).thrown && Consistent(Update(c, dt).c)
  {
    if c.config.enabled && (c.config.softEnabled || c.config.hardEnabled) {
      var cleared := c.(gestureSeen := false);
      var buzz := c.window.softDone || c.window.hardDone;
      if c.window.checking {
        InWindowKeepsConsistent(cleared, dt);
        var w := InWindow(cleared, dt, true);
        if !(w.softDone || w.hardDone) {
          FinishKeepsConsistent(cleared.(window := if w.timer <= 0.0 then ResetWindow(c.config.timeToPerform) else w),
                                c.gestureSeen, buzz);
        }
      } else {
        FinishKeepsConsistent(cleared, c.gestureSeen, buzz);
      }
    }
  }

  /** A gesture event keeps the state consistent. */
  lemma OnGestureKeepsConsistent(c: Calibrator, g: Gesture)
    requires Consistent(c) && g != NoGesture
    ensures Consistent(OnGesture(c, g))
  {
  }

  /** The one-gesture sequences of the example runs below, after `Start`. */
  function ExampleStart(): (c: Calibrator)
    ensures c.config.soft == [Ok] && c.config.hard == [Gun] && c.config.softEnabled && c.config.hardEnabled
    ensures c.window == ResetWindow(10.0) && c.previous == NoGesture && Consistent(c)
  {
    WithoutNoneKeeps([Ok]);
    WithoutNoneKeeps([Gun]);
    Start(Awake([Ok], [Gun], true, true, 10.0))
  }

  /**
   * As written, a soft gesture performed in the update where the hard
   * sequence completes advances the soft index after the window was reset;
   * the window is then closed with the soft index at the end of a one-gesture
   * sequence, and the next new gesture throws while opening the window. Since
   * only an open window resets the index, no sequence can start again.
   */
  lemma AsWrittenSoftIndexEscapes()
    ensures var c1 := UpdateAsWritten(OnGesture(ExampleStart(), Gun), 0.1).c;
            var c2 := UpdateAsWritten(OnGesture(c1, Ok), 0.1).c;
            var c3 := UpdateAsWritten(c2, 0.1).c;
            Consistent(c1) && c2.window.hardDone && !c2.window.checking && c2.window.softIndex == 1
            && !Consistent(c2) && UpdateAsWritten(OnGesture(c3, Ok), 0.1).thrown
  {
    var c0 := ExampleStart();
    var c1 := UpdateAsWritten(OnGesture(c0, Gun), 0.1).c;
    assert c1.window.checking && c1.window.hardIndex == 1 && c1.window.softIndex == 0 && c1.previous == Gun;
    var c2 := UpdateAsWritten(OnGesture(c1, Ok), 0.1).c;
    assert c2.window.hardDone && !c2.window.checking && c2.window.softIndex == 1;
    var c3 := UpdateAsWritten(c2, 0.1).c;
    assert c3.previous == NoGesture && c3.window.softIndex == 1 && !c3.window.checking;
  }

  /** With hard precedence the same run completes the hard sequence, and the next gesture opens a new window. */
  lemma HardPrecedenceRecovers()
    ensures var c1 := Update(OnGesture(ExampleStart(), Gun), 0.1).c;
            var c2 := Update(OnGesture(c1, Ok), 0.1).c;
            var c3 := Update(c2, 0.1).c;
            c2.window.hardDone && !c2.window.checking && c2.window.softIndex == 0
            && !Update(OnGesture(c3, Ok), 0.1).thrown && Update(OnGesture(c3, Ok), 0.1).c.window.checking
  {
    var c0 := ExampleStart();
    var c1 := Update(OnGesture(c0, Gun), 0.1).c;
    assert c1.window.checking && c1.window.hardIndex == 1 && c1.window.softIndex == 0 && c1.previous == Gun;
    var c2 := Update(OnGesture(c1, Ok), 0.1).c;
    assert c2.window.hardDone && !c2.window.checking && c2.window.softIndex == 0;
  }

  /**
   * Per update, a sequence index stays, advances by one on its expected
   * gesture, goes back to 0 (a window reset), or restarts at 1 on the
   * sequence's first gesture (a reset and a new window in the same update).
   */
  lemma IndexAdvancesByOne(c: Calibrator, dt: real, hardPrecedes: bool)
    ensures var r := Advance(c, dt, hardPrecedes).c.window;
            Moved(c.window.softIndex, r.softIndex, Expected(c, c.config.soft, c.window.softIndex), Expected(c, c.config.soft, 0))
            && Moved(c.window.hardIndex, r.hardIndex, Expected(c, c.config.hard, c.window.hardIndex), Expected(c, c.config.hard, 0))
  {
    if c.config.enabled && (c.config.softEnabled || c.config.hardEnabled) {
      var cleared := c.(gestureSeen := false);
      var buzz := c.window.softDone || c.window.hardDone;
      if c.window.checking {
        WindowMoves(c, cleared, dt, hardPrecedes, buzz);
      } else {
        assert forall s, k :: Expected(cleared, s, k) == Expected(c, s, k);
        assert Advance(c, dt, hardPrecedes) == Finish(cleared, c.gestureSeen, buzz);
      }
    }
  }

  lemma WindowMoves(c: Calibrator, cleared: Calibrator, dt: real, hardPrecedes: bool, buzz: bool)
    requires c.config.enabled && (c.config.softEnabled || c.config.hardEnabled)
    requires c.window.checking && cleared == c.(gestureSeen := false) && buzz == (c.window.softDone || c.window.hardDone)
    ensures var r := Advance(c, dt, hardPrecedes).c.window;
            Moved(c.window.softIndex, r.softIndex, Expected(c, c.config.soft, c.window.softIndex), Expected(c, c.config.soft, 0))
            && Moved(c.window.hardIndex, r.hardIndex, Expected(c, c.config.hard, c.window.hardIndex), Expected(c, c.config.hard, 0))
  {
    assert forall s, k :: Expected(cleared, s, k) == Expected(c, s, k);
    var w := InWindow(cleared, dt, hardPrecedes);
    if !(w.softDone || w.hardDone) {
      var reset := cleared.(window := if w.timer <= 0.0 then ResetWindow(c.config.timeToPerform) else w);
      assert Advance(c, dt, hardPrecedes) == Finish(reset, c.gestureSeen, buzz);
      FinishMoves(c, reset, c.gestureSeen, buzz);
    }
  }

  /** The index movement of the window part followed by `Finish`. */
  lemma FinishMoves(c: Calibrator, reset: Calibrator, seen: bool, buzz: bool)
    requires reset.config == c.config && reset.current == c.current && reset.previous == c.previous
    requires reset.window.checking || (reset.window.softIndex == 0 && reset.window.hardIndex == 0)
    requires Moved(c.window.softIndex, reset.window.softIndex, Expected(c, c.config.soft, c.window.softIndex), Expected(c, c.config.soft, 0))
    requires Moved(c.window.hardIndex, reset.window.hardIndex, Expected(c, c.config.hard, c.window.hardIndex), Expected(c, c.config.hard, 0))
    ensures var r := Finish(reset, seen, buzz).c.window;
            Moved(c.window.softIndex, r.softIndex, Expected(c, c.config.soft, c.window.softIndex), Expected(c, c.config.soft, 0))
            && Moved(c.window.hardIndex, r.hardIndex, Expected(c, c.config.hard, c.window.hardIndex), Expected(c, c.config.hard, 0))
  {
    assert forall s, k :: Expected(reset, s, k) == Expected(c, s, k);
  }

  /**
   * A hard sequence found complete in an open window resets the window, sets
   * hard completion, clears soft completion and schedules a recalibration.
   */
  lemma HardCompletion(c: Calibrator, dt: real, hardPrecedes: bool)
    requires Consistent(c) && c.config.enabled && c.window.checking && c.config.hardEnabled && c.window.hardIndex == |c.config.hard|
    ensures var t := Advance(c, dt, hardPrecedes);
            t.scheduled && t.c.window.hardDone && !t.c.window.softDone && !t.c.window.checking
            && t.c.window.timer == c.config.timeToPerform && t.c.window.hardIndex == 0
  {
  }

  /** A soft sequence found complete (the hard one not) resets the window, sets soft completion and schedules a recalibration. */
  lemma SoftCompletion(c: Calibrator, dt: real, hardPrecedes: bool)
    requires Consistent(c) && c.config.enabled && c.window.checking && c.config.softEnabled && c.window.softIndex == |c.config.soft|
    requires !(c.config.hardEnabled && c.window.hardIndex == |c.config.hard|)
    ensures var t := Advance(c, dt, hardPrecedes);
            t.scheduled && t.c.window == ResetWindow(c.config.timeToPerform).(softDone := true)
  {
  }

  /**
   * A window whose time runs out without completion is reset: full timer,
   * completion flags cleared, and at most the first gesture of each sequence
   * counted (a new window may open in the same update).
   */
  lemma TimeoutResets(c: Calibrator, dt: real)
    requires Consistent(c) && c.window.checking && c.config.enabled && (c.config.softEnabled || c.config.hardEnabled)
    requires !c.window.softDone && !c.window.hardDone
    requires !(c.config.hardEnabled && c.window.hardIndex == |c.config.hard|)
    requires !(c.config.softEnabled && c.window.softIndex == |c.config.soft|)
    requires c.window.timer - dt <= 0.0
    ensures var t := Update(c, dt);
            !t.scheduled && !t.thrown && t.c.window.timer == c.config.timeToPerform
            && !t.c.window.softDone && !t.c.window.hardDone && t.c.window.softIndex <= 1 && t.c.window.hardIndex <= 1
  {
    UpdateKeepsConsistent(c, dt);
  }

  /**
   * An update in an open window that neither completes a sequence nor runs
   * out of time counts the time down and advances each enabled sequence by
   * exactly one on its expected gesture, and by nothing otherwise; the window
   * stays open, nothing is scheduled, and the gesture seen (if any) becomes
   * the previous one.
   */
  lemma UpdateAdvancesExactly(c: Calibrator, dt: real)
    requires c.window.checking && !c.window.softDone && !c.window.hardDone
    requires c.config.softEnabled ==> c.window.softIndex < |c.config.soft|
    requires c.config.hardEnabled ==> c.window.hardIndex < |c.config.hard|
    requires c.config.enabled && (c.config.softEnabled || c.config.hardEnabled)
    requires c.window.timer - dt > 0.0
    ensures var t := Update(c, dt);
            var g := if c.gestureSeen then c.current else NoGesture;
            !t.scheduled && !t.thrown && t.c.config == c.config
            && t.c.window == c.window.(
                 timer := c.window.timer - dt,
                 softIndex := c.window.softIndex
                   + (if c.config.softEnabled && Expected(c, c.config.soft, c.window.softIndex) then 1 else 0),
                 hardIndex := c.window.hardIndex
                   + (if c.config.hardEnabled && Expected(c, c.config.hard, c.window.hardIndex) then 1 else 0))
            && t.c.current == g && t.c.previous == g && !t.c.gestureSeen
  {
    var cleared := c.(gestureSeen := false);
    assert forall s, k :: Expected(cleared, s, k) == Expected(c, s, k);
  }

  /**
   * The update as written and the corrected one differ only in an update
   * where an open window finds the hard sequence complete; everywhere else
   * what is proved of `Update` holds of `UpdateAsWritten`.
   */
  lemma AsWrittenAgreesWithoutHardCompletion(c: Calibrator, dt: real)
    requires !(c.window.checking && c.config.hardEnabled && c.window.hardIndex >= |c.config.hard|)
    ensures UpdateAsWritten(c, dt) == Update(c, dt)
  {
  }

  /** The sequence a run performs: the hard one or the soft one. */
  function Target(cfg: Config, hard: bool): seq<Gesture>
  {
    if hard then cfg.hard else cfg.soft
  }

  /** Only the performed sequence is enabled. */
  predicate OnlyTarget(cfg: Config, hard: bool)
  {
    if hard then cfg.hardEnabled && !cfg.softEnabled else cfg.softEnabled && !cfg.hardEnabled
  }

  /** A sequence that can be performed gesture by gesture: no `None`, and no gesture repeated back to back. */
  predicate Performable(s: seq<Gesture>)
  {
    |s| > 0 && (forall i :: 0 <= i < |s| ==> s[i] != NoGesture) && (forall i :: 0 < i < |s| ==> s[i - 1] != s[i])
  }

  /** The gestures of `gs` performed one per update, each update `dt` after the previous one. */
  function Perform(c: Calibrator, gs: seq<Gesture>, dt: real): Calibrator
    requires forall i :: 0 <= i < |gs| ==> gs[i] != NoGesture
    decreases |gs|
  {
    if |gs| == 0 then c
    else Update(OnGesture(Perform(c, gs[..|gs| - 1], dt), gs[|gs| - 1]), dt).c
  }

  /** The state after the first k gestures of the target sequence, starting from a closed window. */
  function Performed(c: Calibrator, dt: real, hard: bool, k: nat): Calibrator
    requires 0 < k <= |Target(c.config, hard)|
  {
    var g := Target(c.config, hard)[k - 1];
    c.(window := Window(true, c.window.timer - (k - 1) as real * dt, if hard then 0 else k, if hard then k else 0, false, false),
       current := g, previous := g, gestureSeen := false)
  }

  /** The run's start: a consistent closed window without pending completions, and a sequence that can be performed. */
  ghost predicate ReadyFor(c: Calibrator, dt: real, hard: bool)
  {
    var s := Target(c.config, hard);
    Consistent(c) && c.config.enabled && !c.window.checking && !c.window.softDone && !c.window.hardDone
    && OnlyTarget(c.config, hard) && Performable(s) && c.previous != s[0]
    && 0.0 <= dt && (|s| - 1) as real * dt < c.window.timer
  }

  lemma {:induction false} PerformPrefix(c: Calibrator, dt: real, hard: bool, k: nat)
    requires ReadyFor(c, dt, hard) && 0 < k <= |Target(c.config, hard)|
    ensures Perform(c, Target(c.config, hard)[..k], dt) == Performed(c, dt, hard, k)
    decreases k
  {
    var s := Target(c.config, hard);
    var gs := s[..k];
    assert gs[..k - 1] == s[..k - 1] && gs[k - 1] == s[k - 1];
    if k == 1 {
      assert gs[..0] == [];
      PerformFirst(c, dt, hard);
    } else {
      PerformPrefix(c, dt, hard, k - 1);
      PerformNext(c, dt, hard, k - 1);
    }
  }

  /** The first gesture opens the window with the target index at 1. */
  lemma PerformFirst(c: Calibrator, dt: real, hard: bool)
    requires ReadyFor(c, dt, hard)
    ensures Update(OnGesture(c, Target(c.config, hard)[0]), dt).c == Performed(c, dt, hard, 1)
  {
    var s := Target(c.config, hard);
    var o := OnGesture(c, s[0]);
    assert Expected(o, s, 0);
  }

  /** Each later gesture comes with time left and advances the target index by one. */
  lemma PerformNext(c: Calibrator, dt: real, hard: bool, k: nat)
    requires ReadyFor(c, dt, hard) && 0 < k < |Target(c.config, hard)|
    ensures Update(OnGesture(Performed(c, dt, hard, k), Target(c.config, hard)[k]), dt).c == Performed(c, dt, hard, k + 1)
  {
    var s := Target(c.config, hard);
    var p := Performed(c, dt, hard, k);
    var o := OnGesture(p, s[k]);
    assert o.config == c.config && o.current == s[k] && o.previous == s[k - 1] && o.gestureSeen;
    assert s[k - 1] != s[k];
    assert Expected(o, s, k);
    TimeLeft(c.window.timer, dt, k, |s| - 1);
    UpdateAdvancesExactly(o, dt);
    var t := Update(o, dt);
    assert t.c.window == Window(true, c.window.timer - k as real * dt, if hard then 0 else k + 1, if hard then k + 1 else 0, false, false);
    assert t.c == Calibrator(c.config, t.c.window, s[k], s[k], false);
  }

  lemma MulMonotone(a: nat, b: nat, x: real)
    requires a <= b && 0.0 <= x
    ensures a as real * x <= b as real * x
  {
  }

  /** After the k-th of n + 1 gestures, each dt apart within the timer, time is still left. */
  lemma TimeLeft(timer: real, dt: real, k: nat, n: nat)
    requires 0 < k <= n && 0.0 <= dt && n as real * dt < timer
    ensures timer - (k - 1) as real * dt - dt == timer - k as real * dt
    ensures timer - k as real * dt > 0.0
  {
    MulMonotone(k, n, dt);
  }

  /**
   * The purpose of the component: a sequence performed gesture by gesture
   * within the time to perform it (the first gesture opens the window, each
   * later one comes while time is left) completes in the next update, which
   * resets the window, sets that sequence's completion flag and schedules a
   * recalibration. Stated with only the performed sequence enabled.
   */
  lemma PerformedSequenceSchedules(c: Calibrator, dt: real, hard: bool)
    requires ReadyFor(c, dt, hard)
    ensures var t := Update(Perform(c, Target(c.config, hard), dt), dt);
            t.scheduled && !t.thrown
            && t.c.window == ResetWindow(c.config.timeToPerform).(hardDone := hard, softDone := !hard)
  {
    var s := Target(c.config, hard);
    PerformPrefix(c, dt, hard, |s|);
    assert s[..|s|] == s;
  }

  /**
   * `Recalibrate`: the hard completion takes precedence and recalibrates
   * with a forced initial pose; otherwise the soft completion recalibrates
   * with the controller's setting. Only the flag acted on is cleared.
   * The second component is the argument passed on, if any.
   */
  function Recalibrate(c: Calibrator, forceInitialPose: bool): (r: (Calibrator, Wrappers.Option<bool>))
    ensures r.0 == c.(window := c.window.(softDone := r.0.window.softDone, hardDone := false))
    ensures r.0.window.softDone <==> c.window.softDone && c.window.hardDone
    ensures r.1.Some? <==> c.window.hardDone || c.window.softDone
    ensures r.1.Some? ==> r.1.value == (c.window.hardDone || forceInitialPose)
  {
    if c.window.hardDone then (c.(window := c.window.(hardDone := false)), Wrappers.Some(true))
    else if c.window.softDone then (c.(window := c.window.(softDone := false)), Wrappers.Some(forceInitialPose))
    else (c, Wrappers.None)
  }

  /**
   * The recalibration scheduled by a hard completion forces the initial pose
   * and leaves no completion flag set.
   */
  lemma RecalibrateAfterHardCompletion(c: Calibrator, dt: real, hardPrecedes: bool, forceInitialPose: bool)
    requires Consistent(c) && c.config.enabled && c.window.checking && c.config.hardEnabled && c.window.hardIndex == |c.config.hard|
    ensures var t := Advance(c, dt, hardPrecedes);
            var r := Recalibrate(t.c, forceInitialPose);
            t.scheduled && r.1 == Wrappers.Some(true) && !r.0.window.hardDone && !r.0.window.softDone
  {
    HardCompletion(c, dt, hardPrecedes);
  }

  /**
   * The recalibration scheduled by a soft completion passes the controller's
   * setting on and leaves the window as `ResetWindow` left it.
   */
  lemma RecalibrateAfterSoftCompletion(c: Calibrator, dt: real, hardPrecedes: bool, forceInitialPose: bool)
    requires Consistent(c) && c.config.enabled && c.window.checking && c.config.softEnabled && c.window.softIndex == |c.config.soft|
    requires !(c.config.hardEnabled && c.window.hardIndex == |c.config.hard|)
    ensures var t := Advance(c, dt, hardPrecedes);
            var r := Recalibrate(t.c, forceInitialPose);
            t.scheduled && r.1 == Wrappers.Some(forceInitialPose)
            && r.0.window == ResetWindow(c.config.timeToPerform)
  {
    SoftCompletion(c, dt, hardPrecedes);
  }
}
