/**
 * The server `App.FixedUpdate` session state machine. Pose traffic drives the
 * session: the first pose after silence connects (calibrates the clock and
 * starts video and tactile streaming), and a timed-out pose stream while
 * sending disconnects (stops them). Video and tactile ticks are recorded as
 * effects; their behaviour is modelled in their own modules.
 */
module App {
  import opened Wrappers
  import opened Bytes
  import P = Pose
  import W = WireCodec
  import SeqUtil

  /** What one fixed update does to the other controllers, in order. */
  datatype Effect = StartVideo | StartTactile | TickVideo | TickTactile | StopVideo | StopTactile

  datatype App = App(pose: P.Server, isSending: bool)

  datatype Update = Update(app: App, effects: seq<Effect>, connected: bool, timedOut: bool, thrown: bool)

  /**
   * `FixedUpdate` at time `now`. With nothing queued: a timeout while sending
   * stops streaming; otherwise nothing. With a pose queued: the pose ticks (a
   * throw there ends the update), a first pose connects (calibrating the
   * clock with `CalibrateTime` as written), then video and tactile tick.
   */
  function FixedUpdate(a: App, now: real, seconds: float32 -> real): (r: Update)
    requires a.pose.queue.Some?
    ensures r.app.pose.queue.Some?
    ensures r.connected <==> !a.isSending && !P.IsEmpty(a.pose) && !r.thrown
    ensures r.timedOut <==> a.isSending && P.IsEmpty(a.pose) && P.IsTimeOut(a.pose, now)
    ensures r.connected ==> r.app.isSending && r.effects == [StartVideo, StartTactile, TickVideo, TickTactile]
    ensures r.timedOut ==> !r.app.isSending && r.effects == [StopVideo, StopTactile]
    ensures !r.connected && !r.timedOut ==> r.app.isSending == a.isSending
    ensures P.IsEmpty(a.pose) && !r.timedOut ==> r.app == a && r.effects == []
  {
    if P.IsEmpty(a.pose) then
      if a.isSending && P.IsTimeOut(a.pose, now) then
        Update(a.(isSending := false), [StopVideo, StopTactile], false, true, false)
      else Update(a, [], false, false, false)
    else
      var t := P.ServerTick(a.pose, seconds);
      if t.thrown then Update(a.(pose := t.server), [], false, false, true)
      else if !a.isSending then
        Update(App(P.CalibrateTimeAsWritten(t.server, now), true), [StartVideo, StartTactile, TickVideo, TickTactile],
               true, false, false)
      else Update(a.(pose := t.server), [TickVideo, TickTactile], false, false, false)
  }

  /** Session edges over a run: `true` for a connection, `false` for a timeout. */
  function Run(a: App, events: seq<Option<seq<byte>>>, times: seq<real>, seconds: float32 -> real)
    : (r: (App, seq<bool>))
    requires a.pose.queue.Some? && |times| == |events|
    ensures r.0.pose.queue.Some?
    decreases |events|
  {
    if |events| == 0 then (a, [])
    else
      var a0 := if events[0].Some? then a.(pose := P.Receive(a.pose, events[0].value)) else a;
      var u := FixedUpdate(a0, times[0], seconds);
      var rest := Run(u.app, events[1..], times[1..], seconds);
      var edges := if u.connected then [true] else if u.timedOut then [false] else [];
      (rest.0, edges + rest.1)
  }

  /**
   * OnConnected fires only on a false-to-true change of `_isSending` and
   * OnTimeout only on true-to-false, so over any run the two alternate and the
   * last one tells the final state.
   */
  lemma {:induction false} EdgesAlternate(a: App, events: seq<Option<seq<byte>>>, times: seq<real>,
                                          seconds: float32 -> real)
    requires a.pose.queue.Some? && |times| == |events|
    ensures var r := Run(a, events, times, seconds);
            SeqUtil.Alternating(a.isSending, r.1)
            && r.0.isSending == (if |r.1| == 0 then a.isSending else r.1[|r.1| - 1])
    decreases |events|
  {
    if |events| > 0 {
      var a0 := if events[0].Some? then a.(pose := P.Receive(a.pose, events[0].value)) else a;
      var u := FixedUpdate(a0, times[0], seconds);
      EdgesAlternate(u.app, events[1..], times[1..], seconds);
      var r := Run(u.app, events[1..], times[1..], seconds);
      var edges := if u.connected then [true] else if u.timedOut then [false] else [];
      assert Run(a, events, times, seconds) == (r.0, edges + r.1);
      assert a0.isSending == a.isSending;
      SeqUtil.AlternatingCons(a.isSending, edges, u.app.isSending, r.1, r.0.isSending);
    }
  }

  /** While nothing arrives and no timeout occurs, no controller is touched. */
  lemma QuietWhileEmpty(a: App, now: real, seconds: float32 -> real)
    requires a.pose.queue == Some([]) && !(a.isSending && P.IsTimeOut(a.pose, now))
    ensures FixedUpdate(a, now, seconds) == Update(a, [], false, false, false)
  {
  }

  /**
   * A connection calibrates the clock on the pose just received. As written,
   * the pose is re-stamped the previous offset before `now`: exactly `now` while
   * the offset is still the zero `Init` leaves, and 5 s early after a reconnection
   * that follows a 5 s offset.
   */
  lemma ConnectCalibrates(a: App, data: seq<byte>, now: real, seconds: float32 -> real)
    requires a.pose.queue.Some? && !a.isSending && |data| >= W.FloatSize
    ensures var u := FixedUpdate(a.(pose := P.Receive(a.pose, data)), now, seconds);
            u.connected && u.app.isSending && seconds(Float32Of(data[..4])) + u.app.pose.timeOffset == now - a.pose.timeOffset
    ensures a.pose.timeOffset == 0.0 ==>
              var u := FixedUpdate(a.(pose := P.Receive(a.pose, data)), now, seconds);
              seconds(Float32Of(data[..4])) + u.app.pose.timeOffset == now
  {
    assert W.ReadFloat(data, 0).Success? && W.ReadFloat(data, 0).value.value == Float32Of(data[..4]);
  }
}
