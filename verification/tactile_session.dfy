/**
 * The client `TactileController` next to its decoder. Both decoders hand
 * their own cache arrays to the completion callback, and the client keeps
 * that reference: from the first completion on, the rows the client plays
 * are the rows the decoder writes into. Every later decode rewrites them in
 * place, and its writes show in playback even when it throws before
 * completing, while the client keeps playing from the row it was at.
 *
 * A decode is one event between two ticks here; a decode that runs while a
 * tick reads the rows is not modelled.
 */
module TactileSession {
  import opened Wrappers
  import opened Bytes
  import opened SeqUtil
  import TC = TactileClient
  import M = MpegCodec
  import DH = DecodeHelper

  /** The client, and the cache arrays the decoder owns. */
  datatype Session = Session(client: TC.Client, decoder: seq<seq<real>>)

  /** The client holds no caches yet, or holds the decoder's own arrays. */
  ghost predicate Shared(s: Session)
  {
    s.client.caches.Some? ==> s.client.caches.value == s.decoder
  }

  /** A fresh client next to a fresh decoder: nothing is shared yet. */
  function Init(frameCount: int, taxelSize: nat, decoder: seq<seq<real>>): (s: Session)
    requires frameCount >= 1
    ensures Shared(s) && TC.Valid(s.client) && s.client.caches.None? && s.decoder == decoder
  {
    Session(TC.Init(frameCount, taxelSize), decoder)
  }

  /**
   * A decode left the decoder's arrays as `decoded`. A client holding them
   * sees the new contents at once and stays on its row; a completion hands
   * the arrays over and restarts playback at row 0.
   */
  function Decoded(s: Session, decoded: seq<seq<real>>, finished: bool): (r: Session)
    requires Shared(s)
    ensures Shared(r) && r.decoder == decoded
    ensures TC.Valid(s.client) ==> TC.Valid(r.client)
    ensures finished ==> r.client == TC.OnDecodeFinished(s.client, decoded)
    ensures !finished ==>
              r.client.frameIdx == s.client.frameIdx && r.client.actuators == s.client.actuators
              && r.client.frameCount == s.client.frameCount && r.client.taxelSize == s.client.taxelSize
              && (r.client.caches.Some? <==> s.client.caches.Some?)
  {
    var client := if finished then TC.OnDecodeFinished(s.client, decoded)
                  else if s.client.caches.Some? then s.client.(caches := Some(decoded))
                  else s.client;
    Session(client, decoded)
  }

  /** A decode by the MPEG decoder, which owns the shared arrays. */
  function MpegDecode(s: Session, width: nat, useCompression: bool, data: Option<seq<byte>>,
                      decode: seq<byte> -> seq<real>, value: float32 -> real): (r: Session)
    requires Shared(s) && Uniform(s.decoder, width)
    ensures Shared(r) && Uniform(r.decoder, width) && |r.decoder| == |s.decoder|
    ensures TC.Valid(s.client) ==> TC.Valid(r.client)
    ensures var d := M.Decode(s.decoder, width, useCompression, data, decode, value);
            r.decoder == d.caches && r.client.frameIdx == (if d.finished then 0 else s.client.frameIdx)
  {
    var d := M.Decode(s.decoder, width, useCompression, data, decode, value);
    Decoded(s, d.caches, d.finished)
  }

  /**
   * An MPEG decode whose first block fits and a later block throws: the
   * callback never runs, so the client stays on its row, yet actuator 0's
   * row already holds the newly decoded samples. The client goes on playing
   * new samples for actuator 0 and old ones for the actuators after the
   * failing block.
   */
  lemma ThrownDecodeShowsInPlayback(s: Session, width: nat, data: seq<byte>, blocks: seq<seq<byte>>,
                                    decode: seq<byte> -> seq<real>, value: float32 -> real)
    requires Shared(s) && Uniform(s.decoder, width) && s.client.caches.Some?
    requires M.Parse(data) == Success(blocks) && 0 < |blocks| && 0 < |s.decoder|
    requires |decode(blocks[0])| <= width && M.DecodeBlocks(s.decoder, blocks, 0, decode).1.Some?
    ensures var r := MpegDecode(s, width, true, Some(data), decode, value);
            r.client.frameIdx == s.client.frameIdx && r.client.caches.Some?
            && r.client.caches.value[0] == M.CopyFront(s.decoder[0], decode(blocks[0])).value
            && r.client.caches.value[0][..|decode(blocks[0])|] == decode(blocks[0])
  {
    M.DecodeParsed(s.decoder, width, data, blocks, decode, value);
    M.FirstBlockWritten(s.decoder, blocks, decode);
  }

  /** A decode by the request/reply decoder, which owns the shared arrays. */
  function HelperDecode(s: Session, h: DH.Helper, data: Option<seq<byte>>, reply: Option<seq<byte>>,
                        value: float32 -> real): (r: (Session, DH.Helper))
    requires Shared(s) && h.Valid() && h.caches == s.decoder
    ensures Shared(r.0) && r.1.Valid() && r.1.caches == r.0.decoder
    ensures TC.Valid(s.client) ==> TC.Valid(r.0.client)
    ensures var d := DH.Decode(h, data, reply, value);
            r.1 == d.helper && r.0.client.frameIdx == (if d.finished then 0 else s.client.frameIdx)
  {
    var d := DH.Decode(h, data, reply, value);
    (Decoded(s, d.helper.caches, d.finished), d.helper)
  }

  /**
   * The request/reply decoder writes its arrays only on the way to a
   * completion: a decode that does not complete leaves the session as it
   * was, so with this decoder the sharing shows only through completions.
   */
  lemma HelperUnfinishedKeepsSession(s: Session, h: DH.Helper, data: Option<seq<byte>>, reply: Option<seq<byte>>,
                                     value: float32 -> real)
    requires Shared(s) && h.Valid() && h.caches == s.decoder
    requires !DH.Decode(h, data, reply, value).finished
    ensures HelperDecode(s, h, data, reply, value).0 == s
  {
  }
}
