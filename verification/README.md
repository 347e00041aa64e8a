# V-Touching: a Dafny model of the tactile telepresence core

V-Touching is a Unity client/server pair: the client streams a user's hand pose to the server, and the server streams video and tactile (haptic) data back. A Python service sits beside them and runs the MATLAB tactile codec. The glove SDK on the client side combines data sources, chooses IK targets, calibrates gestures and pairs gloves with hand slots. Everything travels in UDP datagrams as little-endian binary.

This project models the sequential logic of that system as pure Dafny functions over immutable values, and proves properties of each piece:

- **Wire formats.** The C# `BinarySerializer` extension methods and the Python `BinarySerializer` (`wire_codec.dfy`, `py_serializer.dfy`, `bytes.dfy`, `series.dfy`). Bounds checks, round trips, "only these bytes change", and the Python partial-write behaviour.
- **Datagram reassembly.** The per-datagram step of the server `UdpReceiver` (`reassembly.dfy`).
- **The tactile pipeline.**
  - Server batching and client playback (`tactile_server.dfy`, `tactile_client.dfy`).
  - The client playing the decoder's own cache arrays, which every later decode rewrites in place (`tactile_session.dfy`).
  - The quantised and raw float32 codecs (`encode_helper.dfy`, `decode_helper.dfy`, `quantize.dfy`).
  - The framed MPEG variant around the opaque native codec (`mpeg_codec.dfy`).
  - The per-actuator play/stop switch (`actuator_controller.dfy`).
  - The Python service's framing and bit packing (`py_codec.dfy`, `bit_packing.dfy`).
  - The reference-data parser of `TactileObject` (`tactile_object.dfy`).
- **Session controllers.**
  - Pose streaming, with drain-to-last queues, timeout and clock calibration (`pose.dfy`).
  - Video scheduling, with the size gate and garbage-collection counters (`video.dfy`).
  - The server `App` connected/timed-out state machine (`app.dfy`).
- **Glove SDK logic.**
  - The `MuxData` registry (`mux_data.dfy`).
  - The data providers' priority and control rules (`mux_provider.dfy`).
  - `HandModelController` source multiplexing and `CompareTo` (`hand_model.dfy`).
  - The IK multiplexer (`ik_mux.dfy`).
  - `InGameCalibration` (`calibration.dfy`).
  - `NDDevicesInit` slot assignment and naming (`devices_init.dfy`, `text.dfy`).
  - The part-to-actuator map (`actuator_info.dfy`).
  - The numpad, texture and test-table demo controllers (`numpad.dfy`, `texture_changer.dfy`, `full_test.dfy`).

I/O is replaced by values and events:

- Sockets become the byte sequences they would carry.
- A queue becomes a `seq` of payloads.
- A decode completion, a codec service reply or a pose arrival becomes an event function applied to the state.
- Clocks become `real` time parameters.
- The vendor `SensorID` ordinals, the IEEE interpretation of a float32 bit pattern, `Mathf.Lerp`, the native `HapticCodec` and the MATLAB codec become function parameters.

C# exceptions become explicit error results. Where the source mutates a buffer before it throws, the partially written buffer is returned with the error.

Values that are only copied (float32 samples, quaternions, flex values) are modelled as bit patterns. Values the code does arithmetic on (quantisation, times, the mean magnitude) are reals.

Where the documented design and the code disagree, the model follows the code:

- **Quantisation truncates.** The server's `(int)(f * (1 << 15))` truncates toward zero (`EncodeHelper.cs:73`); it does not round.
- **Playback restarts on every decode.** The client's decode completion resets the playback row to 0 every time (`TactileController.cs:87-95`), even when the previous batch has not finished playing.
- **The Python packer right-aligns the last group.** Its final group of fewer than eight bits is packed right-aligned, while the unpacker reads it left-aligned (see Findings).
- **The client never resets its render counter.** Once it reaches 1000, the client `VideoController` forces a garbage collection on every render, for the next 2^31 - 1000 renders; then the C# `int` counter wraps to int.MinValue and no render collects for the 2^31 + 1000 renders after that (see Findings).

The operations the program runs (`App.FixedUpdate`, `Video.ClientTick`, `PyCodec.EncodePy`, `HandModel.SetActive`) call the code as written. Each finding's corrected definition is a separate member, named in Findings, with its intended property proved.

## Model

| member | source | states |
|---|---|---|
| `ActuatorController.Init` | TouchMaterialClient/Assets/_Project/Scripts/Adapters/TactileActuatorController.cs:14-24 | one switch per entry of the index/middle/ring actuator table, every one idle |
| `ActuatorController.MeanAbs` | TouchMaterialClient/Assets/_Project/Scripts/Adapters/TactileActuatorController.cs:29-34 | the mean is NaN exactly for an empty row; otherwise it is non-negative and, times the row length, gives the sum of the magnitudes |
| `ActuatorController.QuietRowIsBelow` | TouchMaterialClient/Assets/_Project/Scripts/Adapters/TactileActuatorController.cs:29-35 | a non-empty row whose every magnitude is under 0.01 has a mean under the threshold |
| `ActuatorController.Play` | TouchMaterialClient/Assets/_Project/Scripts/Adapters/TactileActuatorController.cs:27-54 | an index outside the table throws; a quiet row stops an active actuator once and marks it idle; a loud row plays its mean on that actuator and marks it active; no other switch changes |
| `ActuatorController.ActiveIffLastLoud` | TouchMaterialClient/Assets/_Project/Scripts/Adapters/TactileActuatorController.cs:35-47 | after a row is played, the actuator is active if and only if that row's mean reached the threshold |
| `ActuatorController.StopIssuedOnce` | TouchMaterialClient/Assets/_Project/Scripts/Adapters/TactileActuatorController.cs:35-42 | a second quiet row in a row emits nothing: the stop is issued at most once |
| `App.FixedUpdate` | TouchMaterialServer/Assets/_Project/Scripts/Controllers/App.cs:61-95 | a first pose after silence connects, calibrating the clock with `CalibrateTime` as written, and starts then ticks video and tactile; a timed-out empty queue while sending disconnects and stops both; an empty queue otherwise touches nothing |
| `App.EdgesAlternate` | TouchMaterialServer/Assets/_Project/Scripts/Controllers/App.cs:63-78 | over any run the connection and timeout events alternate, starting opposite to the initial state, and the last one gives the final sending state |
| `App.QuietWhileEmpty` | TouchMaterialServer/Assets/_Project/Scripts/Controllers/App.cs:63-71 | with nothing queued and no timeout, the update changes nothing and emits nothing |
| `App.ConnectCalibrates` | TouchMaterialServer/Assets/_Project/Scripts/Controllers/App.cs:73-86 | connecting on a pose re-stamps it, as the program runs, at the current time minus the previous offset: exactly the current time only while the offset is still zero |
| `Bytes.SignedTwos` | TactileCompression/binary_serializer.py:11-20 | the signed little-endian reading of the n-byte two's complement of a value in range is that value |
| `Bytes.TwosSigned` | TactileCompression/binary_serializer.py:11-20 | re-encoding the signed reading of a non-empty byte string in as many bytes gives the string back |
| `Bytes.Int32RoundTrip` | TouchMaterialServer/Assets/_Project/Scripts/Utils/Serialization/BinarySerializer.cs:153-162 | the four bytes GetBytes lays down for an int read back through ToInt32 as that int |
| `Bytes.Int32BytesRoundTrip` | TouchMaterialServer/Assets/_Project/Scripts/Utils/Serialization/BinarySerializer.cs:23-33 | every four bytes ToInt32 reads are the bytes GetBytes gives for the int read |
| `Bytes.Int64RoundTrip` | TouchMaterialServer/Assets/_Project/Scripts/Utils/Serialization/BinarySerializer.cs:164-173 | the eight bytes of a long read back through ToInt64 as that long |
| `Bytes.Float32RoundTrip` | TouchMaterialServer/Assets/_Project/Scripts/Utils/Serialization/BinarySerializer.cs:175-184 | the four bytes of a float's bit pattern read back through ToSingle as that pattern |
| `Bytes.Float64RoundTrip` | TouchMaterialServer/Assets/_Project/Scripts/Utils/Serialization/BinarySerializer.cs:186-195 | the eight bytes of a double's bit pattern read back through ToDouble as that pattern |
| `Bytes.Splice` | TouchMaterialServer/Assets/_Project/Scripts/Utils/Serialization/BinarySerializer.cs:160 | a CopyTo leaves the copied bytes at the offset, keeps the length and keeps every byte outside the copied range |
| `PySerializer.PySlice` | TactileCompression/binary_serializer.py:31 | for bounds 0 <= i <= j <= len the Python slice is the plain subsequence, and never longer than the buffer |
| `PySerializer.StoreIsSplice` | TactileCompression/binary_serializer.py:21-22 | for a non-negative cursor the byte-by-byte store loop is a splice of the bytes at the cursor |
| `PySerializer.ReadInt` | TactileCompression/binary_serializer.py:7-12 | fails with IndexError exactly when the field's end passes the buffer (a negative cursor is not rejected); otherwise returns the end and the signed little-endian value of the four bytes |
| `PySerializer.WriteInt` | TactileCompression/binary_serializer.py:15-23 | IndexError exactly when the end passes the buffer or the cursor lies below minus the length, OverflowError exactly for a value outside int32 that passed the bounds check; a failure leaves the buffer unchanged; success splices the four bytes at a non-negative cursor |
| `PySerializer.ReadBytes` | TactileCompression/binary_serializer.py:26-32 | a short header fails; otherwise the count decides: the read fails exactly when the body's end passes the buffer, returns that end, and for a non-negative count returns the body bytes |
| `PySerializer.WriteBytes` | TactileCompression/binary_serializer.py:35-43 | succeeds exactly when the cursor is not below minus the length, count and body fit, and the count is an int32; returns the end after the body and splices count then body at a non-negative cursor |
| `PySerializer.WriteBytesFailure` | TactileCompression/binary_serializer.py:35-40 | a failing count write is the whole failure; a body that does not fit raises IndexError with the count bytes already in the buffer |
| `PySerializer.IntRoundTrip` | TactileCompression/binary_serializer.py:7-23 | read_int at the cursor of a successful write_int returns the written value and the same end |
| `PySerializer.BytesRoundTrip` | TactileCompression/binary_serializer.py:26-43 | read_bytes at the cursor of a successful write_bytes returns the written bytes and the same end |
| `WireCodec.Span` | TouchMaterialServer/Assets/_Project/Scripts/Utils/Serialization/BinarySerializer.cs:23-33 | a fixed-width read throws IndexOutOfRange exactly when the field's end passes the buffer, rejects a negative cursor otherwise, and reads the bytes of the field |
| `WireCodec.Put` | TouchMaterialServer/Assets/_Project/Scripts/Utils/Serialization/BinarySerializer.cs:153-162 | a write throws IndexOutOfRange exactly when its end passes the buffer, rejects a negative cursor otherwise, and on success puts the bytes at the cursor, changes nothing else and returns the end |
| `WireCodec.ReadBool` | TouchMaterialServer/Assets/_Project/Scripts/Utils/Serialization/BinarySerializer.cs:11-21 | reads one byte, true exactly when it is non-zero, with IndexOutOfRange exactly past the end |
| `WireCodec.ReadInt` | TouchMaterialServer/Assets/_Project/Scripts/Utils/Serialization/BinarySerializer.cs:23-33 | IndexOutOfRange exactly when four bytes do not fit; success exactly for a non-negative cursor that fits, advancing by four |
| `WireCodec.ReadLong` | TouchMaterialServer/Assets/_Project/Scripts/Utils/Serialization/BinarySerializer.cs:35-45 | IndexOutOfRange exactly when eight bytes do not fit; success exactly for a non-negative cursor that fits, advancing by eight |
| `WireCodec.ReadFloat` | TouchMaterialServer/Assets/_Project/Scripts/Utils/Serialization/BinarySerializer.cs:47-57 | IndexOutOfRange exactly when four bytes do not fit; success exactly for a non-negative cursor that fits, advancing by four |
| `WireCodec.ReadDouble` | TouchMaterialServer/Assets/_Project/Scripts/Utils/Serialization/BinarySerializer.cs:59-69 | IndexOutOfRange exactly when eight bytes do not fit; success exactly for a non-negative cursor that fits, advancing by eight |
| `WireCodec.ReadVector3` | TouchMaterialServer/Assets/_Project/Scripts/Utils/Serialization/BinarySerializer.cs:109-122 | checks all twelve bytes first, then reads x, y and z as the floats at offsets 0, 4 and 8 |
| `WireCodec.ReadQuaternion` | TouchMaterialServer/Assets/_Project/Scripts/Utils/Serialization/BinarySerializer.cs:124-138 | checks all sixteen bytes first, then reads x, y, z and w as the floats at offsets 0, 4, 8 and 12 |
| `WireCodec.ReadBytes` | TouchMaterialServer/Assets/_Project/Scripts/Utils/Serialization/BinarySerializer.cs:90-107 | a short header throws IndexOutOfRange and a negative cursor is rejected; the field's end is `lengthEnd + n` wrapped to int32 and only that end is checked, so a negative length yields no bytes and a cursor before the body, a length that wraps yields the rest of the buffer with the wrapped cursor, and otherwise the body bytes come back |
| `WireCodec.ReadString` | TouchMaterialServer/Assets/_Project/Scripts/Utils/Serialization/BinarySerializer.cs:71-88 | the same wrapped end check; past it, a negative length or one that runs off the buffer is rejected by the UTF-8 decoder, and otherwise the body bytes and the cursor after them come back |
| `WireCodec.LengthPrefixWraps` | TouchMaterialServer/Assets/_Project/Scripts/Utils/Serialization/BinarySerializer.cs:90-107 | a length prefix of 2^31 - 1 in an 8-byte buffer: ReadBytes returns the last four bytes with the cursor -2147483645, and ReadString fails in the decoder |
| `Bytes.Wrap32` | TouchMaterialServer/Assets/_Project/Scripts/Utils/Serialization/BinarySerializer.cs:99 | C# `int` addition wraps modulo 2^32 and leaves every int32 sum as it is |
| `WireCodec.WriteBool` | TouchMaterialServer/Assets/_Project/Scripts/Utils/Serialization/BinarySerializer.cs:142-151 | one byte written, IndexOutOfRange exactly past the end, nothing outside the field changed |
| `WireCodec.WriteInt` | TouchMaterialServer/Assets/_Project/Scripts/Utils/Serialization/BinarySerializer.cs:153-162 | four bytes written, IndexOutOfRange exactly past the end, nothing outside the field changed |
| `WireCodec.WriteLong` | TouchMaterialServer/Assets/_Project/Scripts/Utils/Serialization/BinarySerializer.cs:164-173 | eight bytes written, IndexOutOfRange exactly past the end, nothing outside the field changed |
| `WireCodec.WriteFloat` | TouchMaterialServer/Assets/_Project/Scripts/Utils/Serialization/BinarySerializer.cs:175-184 | four bytes written, IndexOutOfRange exactly past the end, nothing outside the field changed |
| `WireCodec.WriteDouble` | TouchMaterialServer/Assets/_Project/Scripts/Utils/Serialization/BinarySerializer.cs:186-195 | eight bytes written, IndexOutOfRange exactly past the end, nothing outside the field changed |
| `WireCodec.WriteString` | TouchMaterialServer/Assets/_Project/Scripts/Utils/Serialization/BinarySerializer.cs:197-209 | the whole extent of length and bytes is checked before anything is written; nothing outside it changes |
| `WireCodec.WriteBytes` | TouchMaterialServer/Assets/_Project/Scripts/Utils/Serialization/BinarySerializer.cs:211-222 | the whole extent of length and body is checked before anything is written; nothing outside it changes |
| `WireCodec.WriteVector3` | TouchMaterialServer/Assets/_Project/Scripts/Utils/Serialization/BinarySerializer.cs:224-235 | all twelve bytes are checked before the three floats are written; nothing outside them changes |
| `WireCodec.WriteQuaternion` | TouchMaterialServer/Assets/_Project/Scripts/Utils/Serialization/BinarySerializer.cs:237-249 | all sixteen bytes are checked before the four floats are written; nothing outside them changes |
| `WireCodec.BoolRoundTrip` | TouchMaterialServer/Assets/_Project/Scripts/Utils/Serialization/BinarySerializer.cs:142-151 | ReadBool at the cursor of a successful WriteBool returns the value and the same end |
| `WireCodec.IntRoundTrip` | TouchMaterialServer/Assets/_Project/Scripts/Utils/Serialization/BinarySerializer.cs:153-162 | ReadInt at the cursor of a successful WriteInt returns the value and the same end |
| `WireCodec.LongRoundTrip` | TouchMaterialServer/Assets/_Project/Scripts/Utils/Serialization/BinarySerializer.cs:164-173 | ReadLong at the cursor of a successful WriteLong returns the value and the same end |
| `WireCodec.FloatRoundTrip` | TouchMaterialServer/Assets/_Project/Scripts/Utils/Serialization/BinarySerializer.cs:175-184 | ReadFloat at the cursor of a successful WriteFloat returns the value and the same end |
| `WireCodec.DoubleRoundTrip` | TouchMaterialServer/Assets/_Project/Scripts/Utils/Serialization/BinarySerializer.cs:186-195 | ReadDouble at the cursor of a successful WriteDouble returns the value and the same end |
| `WireCodec.Vector3RoundTrip` | TouchMaterialServer/Assets/_Project/Scripts/Utils/Serialization/BinarySerializer.cs:224-235 | ReadVector3 at the cursor of a successful WriteVector3 returns the vector and the same end |
| `WireCodec.QuaternionRoundTrip` | TouchMaterialServer/Assets/_Project/Scripts/Utils/Serialization/BinarySerializer.cs:237-249 | ReadQuaternion at the cursor of a successful WriteQuaternion returns the quaternion and the same end |
| `WireCodec.BytesRoundTrip` | TouchMaterialServer/Assets/_Project/Scripts/Utils/Serialization/BinarySerializer.cs:211-222 | ReadBytes at the cursor of a successful WriteBytes returns the array and the same end |
| `WireCodec.StringRoundTrip` | TouchMaterialServer/Assets/_Project/Scripts/Utils/Serialization/BinarySerializer.cs:197-209 | ReadString at the cursor of a successful WriteString returns the encoded string and the same end |
| `BitPacking.ValueOfBits` | TactileCompression/encoder.py:63-64 | the n binary digits of a value below 2^n read back as that value |
| `BitPacking.BitsOfValue` | TactileCompression/decoder.py:55 | reading a digit list as a binary number and writing it with as many digits gives the list back |
| `BitPacking.MergeAsWritten` | TactileCompression/encoder.py:58-66 | one byte per group of up to eight bits, as the encoder writes it |
| `BitPacking.Merge` | TactileCompression/encoder.py:58-66 | the corrected packing also gives one byte per group of up to eight bits |
| `BitPacking.SignedOf` | TactileCompression/decoder.py:52 | the signed char read from a byte lies in -128..127 and agrees with the byte modulo 256 |
| `BitPacking.UnsignedOf` | TactileCompression/decoder.py:55 | adding 256 modulo 256 gives a byte that agrees with the signed char modulo 256 |
| `BitPacking.UnsignedSigned` | TactileCompression/decoder.py:52-55 | reading a byte as a signed char and bringing it back to 0..255 gives the byte |
| `BitPacking.Expand` | TactileCompression/decoder.py:54-61 | each byte expands to eight bits |
| `BitPacking.Unpack` | TactileCompression/decoder.py:59-62 | when the bit count is within the expansion the decoder keeps exactly that many bits |
| `BitPacking.ExpandMerge` | TactileCompression/decoder.py:54-61 | expanding the corrected packing gives the bits followed by the zero padding to whole bytes |
| `BitPacking.MergeRoundTrip` | TactileCompression/decoder.py:54-62 | the decoder's unpacking of the corrected packing, cut to the bit count sent, returns every bit list |
| `BitPacking.ExpandMergeAsWritten` | TactileCompression/encoder.py:61-65 | for a list of whole bytes the expansion of the packing as written is the list |
| `BitPacking.MergeAsWrittenWholeBytes` | TactileCompression/decoder.py:54-62 | the packing as written round-trips the lists whose length is a multiple of eight |
| `BitPacking.MergeAgreesOnWholeBytes` | TactileCompression/encoder.py:61-65 | on lists of whole bytes the packing as written and the corrected packing coincide |
| `BitPacking.MergeAsWrittenLosesShortGroup` | TactileCompression/encoder.py:61-64 | the single bit 1 packs to the byte 1, which the decoder unpacks to the bit 0 |
| `Calibration.ResetWindow` | TouchMaterialClient/Assets/Plugins/GloveSDK/_Scripts/Utils/InGameCalibration.cs:372-380 | the window closes with a full timer, both indices at 0 and both completion flags cleared |
| `Calibration.Awake` | TouchMaterialClient/Assets/Plugins/GloveSDK/_Scripts/Utils/InGameCalibration.cs:111-120 | the component starts enabled, with no gesture seen and a reset window |
| `Calibration.WithoutNone` | TouchMaterialClient/Assets/Plugins/GloveSDK/_Scripts/Utils/InGameCalibration.cs:128-136 | the filtered sequence holds no None, is no longer than the original and keeps every other gesture as often as it occurs |
| `Calibration.WithoutNoneAppend` | TouchMaterialClient/Assets/Plugins/GloveSDK/_Scripts/Utils/InGameCalibration.cs:128-136 | filtering distributes over concatenation, so the kept gestures stay in their order |
| `Calibration.WithoutNoneKeeps` | TouchMaterialClient/Assets/Plugins/GloveSDK/_Scripts/Utils/InGameCalibration.cs:128-136 | a sequence without None is left as it is |
| `Calibration.Start` | TouchMaterialClient/Assets/Plugins/GloveSDK/_Scripts/Utils/InGameCalibration.cs:122-160 | both sequences lose their None entries; an empty soft sequence disables soft calibration and the whole component, an empty hard sequence disables hard calibration; nothing else changes |
| `Calibration.HardCheck` | TouchMaterialClient/Assets/Plugins/GloveSDK/_Scripts/Utils/InGameCalibration.cs:272-290 | disabled, nothing changes; at the end of the sequence the window resets with hard completion set and soft completion cleared; otherwise the index advances exactly on the new expected gesture |
| `Calibration.SoftCheck` | TouchMaterialClient/Assets/Plugins/GloveSDK/_Scripts/Utils/InGameCalibration.cs:292-309 | disabled, nothing changes; at the end of the sequence the window resets with soft completion set; otherwise the index advances exactly on the new expected gesture |
| `Calibration.InWindow` | TouchMaterialClient/Assets/Plugins/GloveSDK/_Scripts/Utils/InGameCalibration.cs:267-321 | each index stays, advances by one on its expected gesture, returns to 0 or restarts at 1; without a completion the window stays open or closed as it was |
| `Calibration.Open` | TouchMaterialClient/Assets/Plugins/GloveSDK/_Scripts/Utils/InGameCalibration.cs:331-344 | opening a closed window only advances indices on their new expected gestures and opens the window; it schedules nothing and touches no configuration |
| `Calibration.Finish` | TouchMaterialClient/Assets/Plugins/GloveSDK/_Scripts/Utils/InGameCalibration.cs:323-346 | the tail of an update resets the current gesture without a gesture event, and may otherwise only open a closed window |
| `Calibration.UpdateAsWritten` | TouchMaterialClient/Assets/Plugins/GloveSDK/_Scripts/Utils/InGameCalibration.cs:245-347 | a disabled component, or one with both sequences disabled, is left unchanged by an update; in every update where an open window does not find the hard sequence complete it agrees with the corrected update (`AsWrittenAgreesWithoutHardCompletion`), so `UpdateAdvancesExactly` holds of it too |
| `Calibration.Update` | TouchMaterialClient/Assets/Plugins/GloveSDK/_Scripts/Utils/InGameCalibration.cs:245-347 | the corrected update also leaves a disabled component, or one with both sequences disabled, unchanged; its exact advance is `UpdateAdvancesExactly` and its scheduling of a performed sequence is `PerformedSequenceSchedules` |
| `Calibration.StartConsistent` | TouchMaterialClient/Assets/Plugins/GloveSDK/_Scripts/Utils/InGameCalibration.cs:111-160 | awaking then starting gives a state with non-empty enabled sequences, indices inside them and a closed window at 0 |
| `Calibration.OpenKeepsConsistent` | TouchMaterialClient/Assets/Plugins/GloveSDK/_Scripts/Utils/InGameCalibration.cs:331-344 | from a consistent state the window opening never throws and keeps the state consistent |
| `Calibration.FinishKeepsConsistent` | TouchMaterialClient/Assets/Plugins/GloveSDK/_Scripts/Utils/InGameCalibration.cs:323-346 | from a consistent state the update's tail never throws and keeps the state consistent |
| `Calibration.InWindowKeepsConsistent` | TouchMaterialClient/Assets/Plugins/GloveSDK/_Scripts/Utils/InGameCalibration.cs:267-321 | with hard precedence the open-window checks keep both indices within their sequences |
| `Calibration.UpdateKeepsConsistent` | TouchMaterialClient/Assets/Plugins/GloveSDK/_Scripts/Utils/InGameCalibration.cs:245-347 | with hard precedence every update from a consistent state keeps it consistent and never throws |
| `Calibration.OnGestureKeepsConsistent` | TouchMaterialClient/Assets/Plugins/GloveSDK/_Scripts/Utils/InGameCalibration.cs:186-235 | a gesture event keeps the state consistent |
| `Calibration.AsWrittenSoftIndexEscapes` | TouchMaterialClient/Assets/Plugins/GloveSDK/_Scripts/Utils/InGameCalibration.cs:282-344 | as written, the hard sequence completing in the update that also sees the soft gesture leaves a closed window with soft index 1 at the end of a one-gesture sequence, and the next new gesture throws |
| `Calibration.HardPrecedenceRecovers` | TouchMaterialClient/Assets/Plugins/GloveSDK/_Scripts/Utils/InGameCalibration.cs:282-344 | with hard precedence the same run completes the hard sequence with the soft index at 0, and the next gesture opens a new window without throwing |
| `Calibration.IndexAdvancesByOne` | TouchMaterialClient/Assets/Plugins/GloveSDK/_Scripts/Utils/InGameCalibration.cs:267-344 | per update an index stays, advances by one on its expected gesture, returns to 0, or restarts at 1 on the sequence's first gesture |
| `Calibration.HardCompletion` | TouchMaterialClient/Assets/Plugins/GloveSDK/_Scripts/Utils/InGameCalibration.cs:282-315 | a complete hard sequence in an open window schedules a recalibration and resets the window with hard completion set and soft completion cleared |
| `Calibration.SoftCompletion` | TouchMaterialClient/Assets/Plugins/GloveSDK/_Scripts/Utils/InGameCalibration.cs:302-315 | a complete soft sequence, with the hard one not complete, schedules a recalibration and resets the window with soft completion set |
| `Calibration.TimeoutResets` | TouchMaterialClient/Assets/Plugins/GloveSDK/_Scripts/Utils/InGameCalibration.cs:317-344 | a window whose time runs out without completion resets: full timer, completion flags cleared, at most the first gesture of each sequence counted |
| `Calibration.Recalibrate` | TouchMaterialClient/Assets/Plugins/GloveSDK/_Scripts/Utils/InGameCalibration.cs:352-367 | only the completion flags change: hard is cleared, soft stays set only alongside hard; an argument is passed exactly when a sequence completed, and it is `true` after a hard completion and the controller's setting otherwise |
| `Calibration.RecalibrateAfterHardCompletion` | TouchMaterialClient/Assets/Plugins/GloveSDK/_Scripts/Utils/InGameCalibration.cs:282-289 | the recalibration scheduled by a hard completion forces the initial pose and leaves no completion flag set, as written or corrected |
| `Calibration.RecalibrateAfterSoftCompletion` | TouchMaterialClient/Assets/Plugins/GloveSDK/_Scripts/Utils/InGameCalibration.cs:302-308 | the recalibration scheduled by a soft completion passes the controller's setting and leaves the reset window without completion flags |
| `Calibration.UpdateAdvancesExactly` | TouchMaterialClient/Assets/Plugins/GloveSDK/_Scripts/Utils/InGameCalibration.cs:267-321 | in an open window with time left and no completion, each enabled sequence advances by exactly one on its expected new gesture and by nothing otherwise; the timer counts down, the window stays open, nothing is scheduled, and the gesture seen becomes the previous one |
| `Calibration.AsWrittenAgreesWithoutHardCompletion` | TouchMaterialClient/Assets/Plugins/GloveSDK/_Scripts/Utils/InGameCalibration.cs:282-309 | the update as written and the corrected one agree on every update in which an open window does not find the hard sequence complete |
| `Calibration.PerformNext` | TouchMaterialClient/Assets/Plugins/GloveSDK/_Scripts/Utils/InGameCalibration.cs:270-321 | a later gesture of the sequence, performed while time is left, advances its index by one and keeps the window open |
| `Calibration.TimeLeft` | TouchMaterialClient/Assets/Plugins/GloveSDK/_Scripts/Utils/InGameCalibration.cs:268-271 | when n + 1 gestures dt apart fit in the timer, the timer counted down k times (0 < k <= n) is still positive |
| `Calibration.PerformPrefix` | TouchMaterialClient/Assets/Plugins/GloveSDK/_Scripts/Utils/InGameCalibration.cs:245-347 | after the first k gestures of the sequence the window is open with the index at k and the timer counted down k - 1 times |
| `Calibration.PerformedSequenceSchedules` | TouchMaterialClient/Assets/Plugins/GloveSDK/_Scripts/Utils/InGameCalibration.cs:245-321 | a sequence performed gesture by gesture within the time to perform it completes in the next update: the window is reset, that sequence's completion flag set and a recalibration scheduled |
| `DecodeHelper.Create` | TouchMaterialClient/Assets/_Project/Scripts/Adapters/DecodeHelper.cs:24-49 | one zero row of frameCount times taxel-size samples per actuator; a buffer of the configured size only with compression |
| `DecodeHelper.SampleAt` | TouchMaterialClient/Assets/_Project/Scripts/Adapters/DecodeHelper.cs:111-125 | a sample whose word passes the end keeps its stale value; otherwise it is the dequantised int (compressed) or the float (raw) at byte 4p |
| `DecodeHelper.Deserialize` | TouchMaterialClient/Assets/_Project/Scripts/Adapters/DecodeHelper.cs:97-134 | the caches become the reference decoding of the reply, row i starting at sample i times the row width; a warning is logged exactly when the reply is shorter than all the samples |
| `DecodeHelper.DeserializeRow` | TouchMaterialClient/Assets/_Project/Scripts/Adapters/DecodeHelper.cs:109-127 | one row comes out as the reference has it, and the reads succeed exactly when the whole row fits in the reply |
| `DecodeHelper.LaterRowsStale` | TouchMaterialClient/Assets/_Project/Scripts/Adapters/DecodeHelper.cs:105-133 | once a row is cut short, every later row keeps its previous samples |
| `DecodeHelper.Request` | TouchMaterialClient/Assets/_Project/Scripts/Adapters/DecodeHelper.cs:84-85 | the request is the reused buffer with tag 1 in its first four bytes and the received bytes minus their last four after it, the rest stale; a buffer under four bytes throws IndexOutOfRange and one too short for the copy throws Argument |
| `DecodeHelper.Decode` | TouchMaterialClient/Assets/_Project/Scripts/Adapters/DecodeHelper.cs:75-95 | no data does nothing; without compression the caches are the decoding of the data and the callback runs; with compression the whole buffer is sent, a cancelled wait leaves the caches and still completes, a reply is decoded; a throw leaves the helper unchanged and skips the callback |
| `DecodeHelper.RawRoundTrip` | TouchMaterialClient/Assets/_Project/Scripts/Adapters/DecodeHelper.cs:122-126 | the raw float layout of a batch decodes back to that batch when the float interpretation inverts the encoding |
| `DecodeHelper.CompressedRoundTrip` | TouchMaterialClient/Assets/_Project/Scripts/Adapters/DecodeHelper.cs:111-119 | the ints the server sends after its tag, returned unchanged by a lossless codec, decode to each sample quantised then dequantised |
| `EncodeHelper.Create` | TouchMaterialServer/Assets/_Project/Scripts/Adapters/EncodeHelper.cs:18-36 | a zeroed send buffer of the configured size, the service channel closed |
| `EncodeHelper.Start` | TouchMaterialServer/Assets/_Project/Scripts/Adapters/EncodeHelper.cs:38-47 | with compression the service channel opens; without it nothing changes |
| `EncodeHelper.Stop` | TouchMaterialServer/Assets/_Project/Scripts/Adapters/EncodeHelper.cs:49-60 | with compression the service channel closes; without it nothing changes |
| `EncodeHelper.UncompressedNeverOpens` | TouchMaterialServer/Assets/_Project/Scripts/Adapters/EncodeHelper.cs:38-60 | without compression Start and Stop in any order leave the helper as it was |
| `EncodeHelper.QuantizedWords` | TouchMaterialServer/Assets/_Project/Scripts/Adapters/EncodeHelper.cs:69-76 | one four-byte word per sample of the batch, row-major |
| `EncodeHelper.FloatWords` | TouchMaterialServer/Assets/_Project/Scripts/Adapters/EncodeHelper.cs:88-95 | one four-byte word per sample of the batch, row-major |
| `EncodeHelper.EncodeCompressed` | TouchMaterialServer/Assets/_Project/Scripts/Adapters/EncodeHelper.cs:64-84 | succeeds exactly when the tag and all the quantised samples fit; then the buffer holds tag 0 and the quantised words from offset 0, and the service's reply is returned with length -1 |
| `EncodeHelper.EncodeRaw` | TouchMaterialServer/Assets/_Project/Scripts/Adapters/EncodeHelper.cs:85-97 | succeeds exactly when all the float samples fit; then the buffer holds them from offset 0 and is returned with the number of bytes written |
| `EncodeHelper.Encode` | TouchMaterialServer/Assets/_Project/Scripts/Adapters/EncodeHelper.cs:62-98 | compression selects the compressed branch, otherwise the raw branch |
| `EncodeHelper.CompressedLayout` | TouchMaterialServer/Assets/_Project/Scripts/Adapters/EncodeHelper.cs:66-76 | in the compressed request the tag reads back at offset 0 and sample k reads back at offset 4 + 4k as its truncated quantisation |
| `Quantize.Trunc` | TouchMaterialServer/Assets/_Project/Scripts/Adapters/EncodeHelper.cs:73 | the cast truncates toward zero: the integer lies within one of the real, on the side of zero |
| `Quantize.Quantize` | TouchMaterialServer/Assets/_Project/Scripts/Adapters/EncodeHelper.cs:73 | a scaled sample inside the int range is truncated toward zero |
| `Quantize.Dequantize` | TouchMaterialClient/Assets/_Project/Scripts/Adapters/DecodeHelper.cs:114-118 | the sample lies strictly inside (-1, 1); it is 0 exactly for a clamped int; an int inside the range maps to itself divided by 2^15 |
| `Quantize.QuantizeRoundTrip` | TouchMaterialClient/Assets/_Project/Scripts/Adapters/DecodeHelper.cs:113-119 | a sample strictly inside (-1, 1) comes back within one quantisation step, truncated toward zero; one of magnitude 1 or more comes back as 0 |
| `Series.WriteWords` | TouchMaterialServer/Assets/_Project/Scripts/Adapters/EncodeHelper.cs:88-95 | a run of four-byte writes succeeds exactly when every word fits, with the cursor after the last; otherwise it fails with the words that fit written and the rest of the buffer unchanged |
| `DevicesInit.CheckName` | TouchMaterialClient/Assets/Plugins/GloveSDK/_Scripts/Core/NDDevicesInit.cs:201-207 | with `Char.IsDigit` as a parameter: the checked name carries "_P"; it is unchanged exactly when it already carried "_P" and ended in a digit of that class, otherwise it is the name with "_P" and the user appended, which ends in an ASCII digit |
| `DevicesInit.CheckNameIdempotent` | TouchMaterialClient/Assets/Plugins/GloveSDK/_Scripts/Core/NDDevicesInit.cs:201-207 | a checked name passes the check again unchanged, whichever user it is checked for |
| `DevicesInit.CheckNameKeepsOtherDigits` | TouchMaterialClient/Assets/Plugins/GloveSDK/_Scripts/Core/NDDevicesInit.cs:201-207 | a name ending in "_P" and a non-ASCII decimal digit such as U+0663 is kept, as `Char.IsDigit` accepts it |
| `DevicesInit.Count` | TouchMaterialClient/Assets/Plugins/GloveSDK/_Scripts/Core/NDDevicesInit.cs:140-148 | the per-hand glove count is the multiplicity of that hand among the connected gloves |
| `DevicesInit.SlotLocation` | TouchMaterialClient/Assets/Plugins/GloveSDK/_Scripts/Core/NDDevicesInit.cs:242-263 | without hand models a slot asks for a hand; with gloves on both hands odd slots ask for the left hand; with gloves on one hand every slot asks for a hand that has gloves |
| `DevicesInit.UserFor` | TouchMaterialClient/Assets/Plugins/GloveSDK/_Scripts/Core/NDDevicesInit.cs:287-301 | with gloves on both hands and no hand models the player is the ceiling of (slot + 1) / 2; with gloves on one hand it is slot + 1; with hand models it is the hand model's user |
| `DevicesInit.PairedSlots` | TouchMaterialClient/Assets/Plugins/GloveSDK/_Scripts/Core/NDDevicesInit.cs:287-301 | with gloves on both hands and no hand models, player j + 1 fills slot 2j with the right hand and slot 2j + 1 with the left |
| `DevicesInit.PromptText` | TouchMaterialClient/Assets/Plugins/GloveSDK/_Scripts/Core/NDDevicesInit.cs:115 | filling the template's first placeholder with the player and its second with the hand gives the prompt text: the template's fixed parts around the player and the hand |
| `DevicesInit.Fill` | TouchMaterialClient/Assets/Plugins/GloveSDK/_Scripts/Core/NDDevicesInit.cs:303-311 | the message built by the two placeholder replacements is the prompt for that player and hand |
| `DevicesInit.ShowUIMessage` | TouchMaterialClient/Assets/Plugins/GloveSDK/_Scripts/Core/NDDevicesInit.cs:281-322 | only the user and the message change, and they are the current slot's prompt, or the all-assigned message once every slot is settled |
| `DevicesInit.ShowIdempotent` | TouchMaterialClient/Assets/Plugins/GloveSDK/_Scripts/Core/NDDevicesInit.cs:281-322 | showing the message a second time changes nothing |
| `DevicesInit.WaitForDevice` | TouchMaterialClient/Assets/Plugins/GloveSDK/_Scripts/Core/NDDevicesInit.cs:227-274 | the slots from the current one up to the new current one are settled, and exactly those, each on a hand with no glove; the new current slot's hand has a glove; everything is assigned, and the service told, exactly when the slots run out |
| `DevicesInit.Renamed` | TouchMaterialClient/Assets/Plugins/GloveSDK/_Scripts/Core/NDDevicesInit.cs:163-187 | a hand model on a hand gets a checked name; one that is not on a hand is left as it is |
| `DevicesInit.Slots` | TouchMaterialClient/Assets/Plugins/GloveSDK/_Scripts/Core/NDDevicesInit.cs:163-187 | one unsettled slot per hand model, in order, holding the renamed hand model and no glove |
| `DevicesInit.Init` | TouchMaterialClient/Assets/Plugins/GloveSDK/_Scripts/Core/NDDevicesInit.cs:132-199 | the glove counts are the multiplicities of each hand; without gloves everything is assigned, with no slot and the no-device message; with hand models there is one slot per hand model; without them one slot per glove, or two when gloves are on both hands |
| `DevicesInit.IsAssigned` | TouchMaterialClient/Assets/Plugins/GloveSDK/_Scripts/Core/NDDevicesInit.cs:214-222 | true exactly when some settled slot holds the glove |
| `DevicesInit.AssignGlove` | TouchMaterialClient/Assets/Plugins/GloveSDK/_Scripts/Core/NDDevicesInit.cs:69-76 | the slot is settled with the glove and keeps its hand model; the created device records the glove, the current user and whether a hand model was started |
| `DevicesInit.AssignGloveIsAssigned` | TouchMaterialClient/Assets/Plugins/GloveSDK/_Scripts/Core/NDDevicesInit.cs:69-76 | after a slot takes a glove, the glove counts as assigned |
| `DevicesInit.Direct` | TouchMaterialClient/Assets/Plugins/GloveSDK/_Scripts/Core/NDDevicesInit.cs:349-361 | the no-pinch path applies exactly with at most one glove and one hand model per hand, some glove, and not a single glove whose hand lacks the only hand model |
| `DevicesInit.Scan` | TouchMaterialClient/Assets/Plugins/GloveSDK/_Scripts/Core/NDDevicesInit.cs:336-361 | no glove is found exactly when no glove is accepted; a found glove is the first one the current slot accepts |
| `DevicesInit.Accept` | TouchMaterialClient/Assets/Plugins/GloveSDK/_Scripts/Core/NDDevicesInit.cs:368-381 | the current slot is settled with the found glove and a device is created for the current user (a glove id of -1 only marks the slot); the following slots on gloveless hands are settled and the next open one is prompted |
| `DevicesInit.Omit` | TouchMaterialClient/Assets/Plugins/GloveSDK/_Scripts/Core/NDDevicesInit.cs:384-390 | Escape settles the current slot without a glove or device, then moves on as after a found glove |
| `DevicesInit.Tick` | TouchMaterialClient/Assets/Plugins/GloveSDK/_Scripts/Core/NDDevicesInit.cs:324-392 | once everything is assigned a frame changes nothing; a device is created exactly when a glove other than -1 is found; the frame throws only when Escape is pressed after the last slot was settled |
| `DevicesInit.InitUnique` | TouchMaterialClient/Assets/Plugins/GloveSDK/_Scripts/Core/NDDevicesInit.cs:132-199 | after setup no glove sits in two slots and no open slot holds a glove |
| `DevicesInit.WaitKeepsUnique` | TouchMaterialClient/Assets/Plugins/GloveSDK/_Scripts/Core/NDDevicesInit.cs:227-274 | skipping gloveless slots keeps every glove in at most one slot |
| `DevicesInit.UpdateKeepsUnique` | TouchMaterialClient/Assets/Plugins/GloveSDK/_Scripts/Core/NDDevicesInit.cs:324-392 | a frame of the corrected update keeps every glove in at most one slot |
| `DevicesInit.AcceptKeepsUnique` | TouchMaterialClient/Assets/Plugins/GloveSDK/_Scripts/Core/NDDevicesInit.cs:368-381 | settling the current slot with a glove no slot holds keeps every glove in at most one slot |
| `DevicesInit.OmitKeepsUnique` | TouchMaterialClient/Assets/Plugins/GloveSDK/_Scripts/Core/NDDevicesInit.cs:384-390 | omitting a slot keeps every glove in at most one slot |
| `DevicesInit.MarkOpenKeepsUnique` | TouchMaterialClient/Assets/Plugins/GloveSDK/_Scripts/Core/NDDevicesInit.cs:265-270 | marking the open slots from the current one onward as assigned, with their glove ids untouched, keeps every glove in at most one slot |
| `DevicesInit.InitTwoGloves` | TouchMaterialClient/Assets/Plugins/GloveSDK/_Scripts/Core/NDDevicesInit.cs:188-196 | one right and one left glove with no hand models give four open slots, the first prompting player 1 for the right hand |
| `DevicesInit.AsWrittenAssignsGloveTwice` | TouchMaterialClient/Assets/Plugins/GloveSDK/_Scripts/Core/NDDevicesInit.cs:349-361 | with one right and one left glove and no hand models, the no-pinch path gives the right glove to player 1 and, on the third frame, to player 2 as well |
| `DevicesInit.CorrectedKeepsGloveOnce` | TouchMaterialClient/Assets/Plugins/GloveSDK/_Scripts/Core/NDDevicesInit.cs:349-361 | in the same setup the corrected frame leaves player 2's right slot waiting, because the right glove is already taken |
| `Text.Decimal` | TouchMaterialClient/Assets/Plugins/GloveSDK/_Scripts/Core/NDDevicesInit.cs:206 | the rendering of an int is a non-empty run of digits, led by a minus sign exactly when the int is negative |
| `Text.DecimalRoundTrip` | TouchMaterialClient/Assets/Plugins/GloveSDK/_Scripts/Core/NDDevicesInit.cs:206 | reading the rendered int back gives the int |
| `Text.ReplaceOnce` | TouchMaterialClient/Assets/Plugins/GloveSDK/_Scripts/Core/NDDevicesInit.cs:303-311 | replacing a placeholder that occurs once, with no other possible start around it, puts the replacement in its place and keeps the rest |
| `Numpad.Split` | TouchMaterialClient/Assets/Plugins/GloveSDK/_Scripts/Tests/FullTest/Numpad/NumpadInput.cs:85 | splitting gives at least one piece and no piece holds the separator |
| `Numpad.SplitDisplay` | TouchMaterialClient/Assets/Plugins/GloveSDK/_Scripts/Tests/FullTest/Numpad/NumpadInput.cs:39-51 | splitting the display text at its spaces gives the slots back, when no slot holds a space |
| `Numpad.DisplaySplit` | TouchMaterialClient/Assets/Plugins/GloveSDK/_Scripts/Tests/FullTest/Numpad/NumpadInput.cs:82-86 | joining the pieces of a split with spaces gives the text back |
| `Numpad.Reset` | TouchMaterialClient/Assets/Plugins/GloveSDK/_Scripts/Tests/FullTest/Numpad/NumpadInput.cs:82-86 | the reset text splits into four free slots, which the display shows as the reset text again |
| `Numpad.Lower` | TouchMaterialClient/Assets/Plugins/GloveSDK/_Scripts/Tests/FullTest/Numpad/NumpadInput.cs:59 | lower-casing keeps the length, maps each ASCII capital to its small letter and keeps every other character |
| `Numpad.FirstFree` | TouchMaterialClient/Assets/Plugins/GloveSDK/_Scripts/Tests/FullTest/Numpad/NumpadInput.cs:71-78 | the position of the first free slot: no free slot before it, and it equals the slot count exactly when none is free |
| `Numpad.FillFirst` | TouchMaterialClient/Assets/Plugins/GloveSDK/_Scripts/Tests/FullTest/Numpad/NumpadInput.cs:71-78 | the first free slot takes the key and every other slot is kept; with no free slot nothing changes |
| `Numpad.FillAfter` | TouchMaterialClient/Assets/Plugins/GloveSDK/_Scripts/Tests/FullTest/Numpad/NumpadInput.cs:71-78 | a key lands in the free slot right after the taken ones |
| `Numpad.FourKeysFill` | TouchMaterialClient/Assets/Plugins/GloveSDK/_Scripts/Tests/FullTest/Numpad/NumpadInput.cs:71-78 | four keys from a fresh entry fill the four slots in order |
| `Numpad.FillFirstKey` | TouchMaterialClient/Assets/Plugins/GloveSDK/_Scripts/Tests/FullTest/Numpad/NumpadInput.cs:71-86 | the first key after a reset lands in slot 0 and leaves the other three free |
| `Numpad.FourKeysThenEnter` | TouchMaterialClient/Assets/Plugins/GloveSDK/_Scripts/Tests/FullTest/Numpad/NumpadInput.cs:57-80 | four ordinary keys then "Enter" hand their concatenation to the chest and reset the slots |
| `Numpad.FullIgnoresKeys` | TouchMaterialClient/Assets/Plugins/GloveSDK/_Scripts/Tests/FullTest/Numpad/NumpadInput.cs:71-78 | with every slot taken an ordinary key changes nothing and opens nothing |
| `TextureChanger.Start` | TouchMaterialClient/Assets/Plugins/GloveSDK/_Scripts/Tests/FullTest/Texture/TextureChanger.cs:34-40 | with materials the changer starts at material 0; with none it fails |
| `TextureChanger.Up` | TouchMaterialClient/Assets/Plugins/GloveSDK/_Scripts/Tests/FullTest/Texture/TextureChanger.cs:46-50 | the up arrow moves to the next material, or wraps from the last to the first |
| `TextureChanger.Down` | TouchMaterialClient/Assets/Plugins/GloveSDK/_Scripts/Tests/FullTest/Texture/TextureChanger.cs:51-58 | the down arrow moves to the previous material, or wraps from the first to the last |
| `TextureChanger.Update` | TouchMaterialClient/Assets/Plugins/GloveSDK/_Scripts/Tests/FullTest/Texture/TextureChanger.cs:43-59 | a frame keeps the index in range; both arrows together cancel out |
| `TextureChanger.DownUndoesUp` | TouchMaterialClient/Assets/Plugins/GloveSDK/_Scripts/Tests/FullTest/Texture/TextureChanger.cs:43-59 | the down arrow undoes the up arrow |
| `TextureChanger.UpUndoesDown` | TouchMaterialClient/Assets/Plugins/GloveSDK/_Scripts/Tests/FullTest/Texture/TextureChanger.cs:43-59 | the up arrow undoes the down arrow |
| `TextureChanger.UpTimesAdvances` | TouchMaterialClient/Assets/Plugins/GloveSDK/_Scripts/Tests/FullTest/Texture/TextureChanger.cs:46-50 | k up presses, at most one round, advance the index by k and wrap once past the last |
| `TextureChanger.UpRoundTrip` | TouchMaterialClient/Assets/Plugins/GloveSDK/_Scripts/Tests/FullTest/Texture/TextureChanger.cs:46-50 | a full round of up presses comes back to the same material |
| `FullTest.Start` | TouchMaterialClient/Assets/Plugins/GloveSDK/_Scripts/Tests/FullTest/FullTestController.cs:49-57 | the tester starts at the first table |
| `FullTest.Arrive` | TouchMaterialClient/Assets/Plugins/GloveSDK/_Scripts/Tests/FullTest/FullTestController.cs:73-94 | arriving at a table enables the gun only at table 3, clears the haptic cube away from table 0, resets the numpad away from the next-to-last table, and throws for a table out of range |
| `FullTest.Right` | TouchMaterialClient/Assets/Plugins/GloveSDK/_Scripts/Tests/FullTest/FullTestController.cs:66-95 | the right arrow moves to the next table, or stays at the last; a valid tester stays valid and nothing throws |
| `FullTest.Left` | TouchMaterialClient/Assets/Plugins/GloveSDK/_Scripts/Tests/FullTest/FullTestController.cs:96-125 | the left arrow moves to the previous table, or stays at the first; a valid tester stays valid and nothing throws |
| `FullTest.NoTablesThrows` | TouchMaterialClient/Assets/Plugins/GloveSDK/_Scripts/Tests/FullTest/FullTestController.cs:94 | with no tables the first press of either arrow throws on the table lookup |
| `FullTest.LeftUndoesRight` | TouchMaterialClient/Assets/Plugins/GloveSDK/_Scripts/Tests/FullTest/FullTestController.cs:66-125 | left undoes right everywhere but at the last table |
| `FullTest.RightUndoesLeft` | TouchMaterialClient/Assets/Plugins/GloveSDK/_Scripts/Tests/FullTest/FullTestController.cs:66-125 | right undoes left everywhere but at the first table |
| `FullTest.RightTimesClamps` | TouchMaterialClient/Assets/Plugins/GloveSDK/_Scripts/Tests/FullTest/FullTestController.cs:66-95 | k right presses advance by k and stop at the last table |
| `ActuatorInfo.SetActuator` | TouchMaterialClient/Assets/Plugins/GloveSDK/_Scripts/Haptic/ActuatorInfo.cs:77-111 | a finger part selects its finger's actuator, both thumb bones the thumb; any other part or no axes changer leaves the actuator as it was |
| `ActuatorInfo.SameActuatorSameFinger` | TouchMaterialClient/Assets/Plugins/GloveSDK/_Scripts/Haptic/ActuatorInfo.cs:84-109 | two finger parts select the same actuator exactly when they are the same finger, counting both thumb bones as the thumb |
| `ActuatorInfo.SetActuatorIdempotent` | TouchMaterialClient/Assets/Plugins/GloveSDK/_Scripts/Haptic/ActuatorInfo.cs:77-111 | setting the actuator twice is the same as setting it once |
| `MpegCodec.LengthWords` | TouchMaterialServer/Assets/_Project/Scripts/Adapters/MPEGEncodeHelper.cs:52-55 | one four-byte word per block, holding that block's length |
| `MpegCodec.Header` | TouchMaterialServer/Assets/_Project/Scripts/Adapters/MPEGEncodeHelper.cs:47-55 | the header takes one int32 for the count and one per block |
| `MpegCodec.Frame` | TouchMaterialServer/Assets/_Project/Scripts/Adapters/MPEGEncodeHelper.cs:42-62 | the frame is as long as the header plus the blocks; it starts with the block count, followed by each block's length in order |
| `MpegCodec.EncodeCompressed` | TouchMaterialServer/Assets/_Project/Scripts/Adapters/MPEGEncodeHelper.cs:28-62 | the compressed output is the frame of the natively encoded rows, and the reported length is the frame's length |
| `MpegCodec.EncodeRaw` | TouchMaterialServer/Assets/_Project/Scripts/Adapters/MPEGEncodeHelper.cs:64-78 | without rows the buffer sizing throws; rows of one width give their float32s row-major, with the length 4 x rows x width |
| `MpegCodec.ReadLengths` | TouchMaterialClient/Assets/_Project/Scripts/Adapters/MPEGDecodeHelper.cs:52-57 | reading n lengths succeeds exactly when the 4n bytes are there; on success the i-th length is the int32 at offset 4i |
| `MpegCodec.ReadBodies` | TouchMaterialClient/Assets/_Project/Scripts/Adapters/MPEGDecodeHelper.cs:58-64 | cut bodies have the listed lengths and lie inside the data; any negative length fails |
| `MpegCodec.Parse` | TouchMaterialClient/Assets/_Project/Scripts/Adapters/MPEGDecodeHelper.cs:51-64 | data shorter than a word throws index-out-of-range, a negative count throws overflow, and a parsed frame has as many blocks as its count says |
| `MpegCodec.LengthsOfFrame` | TouchMaterialClient/Assets/_Project/Scripts/Adapters/MPEGDecodeHelper.cs:52-57 | the lengths read from a header are the lengths of the framed blocks |
| `MpegCodec.BodiesOfFrame` | TouchMaterialClient/Assets/_Project/Scripts/Adapters/MPEGDecodeHelper.cs:58-64 | the bodies cut with those lengths are the framed blocks |
| `MpegCodec.ParseFrame` | TouchMaterialClient/Assets/_Project/Scripts/Adapters/MPEGDecodeHelper.cs:51-64 | the client parses exactly the blocks the server framed |
| `MpegCodec.CopyFront` | TouchMaterialClient/Assets/_Project/Scripts/Adapters/MPEGDecodeHelper.cs:76 | the copy succeeds exactly when the samples fit the row; then they replace its front and the rest of the row is kept |
| `MpegCodec.DecodeBlocks` | TouchMaterialClient/Assets/_Project/Scripts/Adapters/MPEGDecodeHelper.cs:66-78 | row shapes are kept; decoding succeeds exactly when every decoded block fits its row, and then each row from the first block on gets its block's samples over its front while the other rows are kept |
| `MpegCodec.DecodeBlocksKeepsEarlier` | TouchMaterialClient/Assets/_Project/Scripts/Adapters/MPEGDecodeHelper.cs:66-78 | decoding from block i on leaves the rows before i as they are |
| `MpegCodec.FirstBlockWritten` | TouchMaterialClient/Assets/_Project/Scripts/Adapters/MPEGDecodeHelper.cs:66-78 | when block 0 fits row 0, that row holds block 0's decoded samples afterwards, even when a later block throws |
| `MpegCodec.Decode` | TouchMaterialClient/Assets/_Project/Scripts/Adapters/MPEGDecodeHelper.cs:42-87 | the caches keep their shape; the callback runs exactly when data arrived and nothing threw; no data leaves the caches alone; the raw path is the raw float32 decode; a frame that fails to parse leaves the caches alone and throws |
| `MpegCodec.CompressedRoundTrip` | TouchMaterialClient/Assets/_Project/Scripts/Adapters/MPEGDecodeHelper.cs:42-87 | with a lossless native codec, a batch the compressed server frames is restored exactly in the client caches, whatever they held before |
| `MpegCodec.DecodeParsed` | TouchMaterialClient/Assets/_Project/Scripts/Adapters/MPEGDecodeHelper.cs:66-79 | a frame that parses is decoded block by block into the caches |
| `PyCodec.PackDoubles` | TactileCompression/encoder.py:35 | packing takes eight bytes per double |
| `PyCodec.UnpackDoubles` | TactileCompression/decoder.py:32-33 | unpacking succeeds exactly when the length is a multiple of eight, giving one double per eight bytes |
| `PyCodec.UnpackPack` | TactileCompression/decoder.py:32-39 | unpacking packed doubles gives them back |
| `PyCodec.EncodePy` | TactileCompression/encoder.py:49-56 | the point keeps the MATLAB extrema, packs the bits with the packer as written, and records the bit count; unpacking that many bits gives the codes back when their count is a multiple of eight |
| `PyCodec.EncodePyLosesShortGroup` | TactileCompression/encoder.py:49-56 | a point whose codes are the single bit 1 reaches the decoder as the bit 0 |
| `PyCodec.Framed` | TactileCompression/encoder.py:31 | a length-prefixed field takes four bytes more than its content |
| `PyCodec.WriteFieldsLayout` | TactileCompression/encoder.py:31-44 | the field writes succeed exactly when the framed fields fit after the cursor, and then lay them down there with the cursor after them |
| `PyCodec.WriteFieldsStops` | TactileCompression/encoder.py:31-44 | a field write that raises stops the point's writes |
| `PyCodec.EncodePointLayout` | TactileCompression/encoder.py:25-46 | a point's four writes succeed exactly when its bytes fit, and then lay them down with the cursor after them |
| `PyCodec.EncodePointFits` | TactileCompression/encoder.py:25-46 | a point whose bytes fit from the cursor is laid down there, nothing else in the buffer changes, and the cursor moves past it |
| `PyCodec.EncodePointOverflows` | TactileCompression/encoder.py:25-46 | a point whose bytes do not fit from the cursor makes one of its writes raise |
| `PyCodec.WriteFramed` | TactileCompression/encoder.py:31 | a field written where it fits lays down its length prefix and content, with the cursor after them |
| `PyCodec.EncodeFromLayout` | TactileCompression/encoder.py:19-47 | the point loop succeeds exactly when all points fit after the cursor, and then lays them down in order |
| `PyCodec.Lift` | TactileCompression/decoder.py:25-41 | a serializer result passes through, its exception wrapped |
| `PyCodec.Scaled` | TactileCompression/decoder.py:46 | every sample is scaled by 2^15 and truncated toward zero |
| `PyCodec.DecodeFrom` | TactileCompression/decoder.py:24-48 | a successful loop yields one list per requested point, none for a count of zero or less |
| `PyCodec.DeserializeAndDecode` | TactileCompression/decoder.py:19-48 | a successful decode yields one list per point, none for a count of zero or less |
| `PyCodec.ReadFramed` | TactileCompression/decoder.py:25-27 | a length-prefixed field is read back, with the cursor after it |
| `PyCodec.DecodePointBytes` | TactileCompression/decoder.py:24-41 | the decoder reads back exactly the four fields of a point the encoder laid down, with the cursor after them |
| `PyCodec.PointReads` | TactileCompression/decoder.py:25-41 | the four serializer reads over a point's fields return those fields and the bit count, each with the cursor after it |
| `PyCodec.DecodeEach` | TactileCompression/decoder.py:45-47 | one scaled decoded list per point, in order |
| `PyCodec.DecodeAllBytes` | TactileCompression/decoder.py:19-48 | points laid end to end decode one by one, in order |
| `PyCodec.EncodeDecodeRoundTrip` | TactileCompression/decoder.py:19-48 | what the encoder writes, the decoder reads back as the MATLAB decoder applied to the encoder's extrema and to the bits the packer as written lets through, then scaled; for a point whose bit count is a multiple of eight those are exactly the encoder's bits |
| `Reassembly.ReceiveBuffer` | TouchMaterialServer/Assets/_Project/Scripts/Utils/Socket/UdpReceiver.cs:60-62 | the receive buffer has the configured size and starts with the datagram |
| `Reassembly.Step` | TouchMaterialServer/Assets/_Project/Scripts/Utils/Socket/UdpReceiver.cs:57-101 | a datagram is logged exactly when it overflows the buffer or is shorter than the tag, and then nothing changes; a tag-0 datagram's body is kept pending; any other tag delivers the pending bodies then this body, in order, and clears the pending list |
| `Reassembly.DeliveredLength` | TouchMaterialServer/Assets/_Project/Scripts/Utils/Socket/UdpReceiver.cs:77-92 | a delivered message is as long as the pending bodies and this body together |
| `Reassembly.Start` | TouchMaterialServer/Assets/_Project/Scripts/Utils/Socket/UdpReceiver.cs:34-51 | starting keeps the pending list and sets receiving when the socket binds |
| `Reassembly.Close` | TouchMaterialServer/Assets/_Project/Scripts/Utils/Socket/UdpReceiver.cs:105-111 | closing stops receiving and keeps the pending list |
| `Reassembly.Loop` | TouchMaterialServer/Assets/_Project/Scripts/Utils/Socket/UdpReceiver.cs:53-103 | the loop delivers at most one message per datagram and does not change whether it is receiving |
| `Reassembly.ClosedDeliversNothing` | TouchMaterialServer/Assets/_Project/Scripts/Utils/Socket/UdpReceiver.cs:55 | a closed receiver delivers nothing |
| `Reassembly.ChunksAccumulate` | TouchMaterialServer/Assets/_Project/Scripts/Utils/Socket/UdpReceiver.cs:66-70 | tag-0 chunks only add their bodies to the pending list, in order |
| `Reassembly.MessageReassembled` | TouchMaterialServer/Assets/_Project/Scripts/Utils/Socket/UdpReceiver.cs:53-103 | k tag-0 chunks then one final datagram give exactly one delivery: the pending bodies, the chunk bodies and the final body, in order, with nothing left pending |
| `Reassembly.LoopSplit` | TouchMaterialServer/Assets/_Project/Scripts/Utils/Socket/UdpReceiver.cs:53-103 | the loop over two runs of datagrams is the loop over the first, then over the second from where it left off |
| `Video.Advance` | TouchMaterialServer/Assets/_Project/Scripts/Controllers/VideoController.cs:49 | the frame counter stays within the interval |
| `Video.CaptureCount` | TouchMaterialServer/Assets/_Project/Scripts/Controllers/VideoController.cs:54-75 | after a capture the texture is set up and a counter below 1000 stays below it; a collection is forced exactly when the count reaches 1000, counting from zero on the first capture |
| `Video.ServerTick` | TouchMaterialServer/Assets/_Project/Scripts/Controllers/VideoController.cs:39-50 | the frame counter advances; only on a zero counter is anything captured, and the capture is sent whole exactly when it is shorter than the buffer |
| `Video.ServerRun` | TouchMaterialServer/Assets/_Project/Scripts/Controllers/VideoController.cs:39-50 | a run of ticks gives one send decision per tick and keeps the interval and buffer size |
| `Video.ServerSendsEveryInterval` | TouchMaterialServer/Assets/_Project/Scripts/Controllers/VideoController.cs:39-50 | from a counter inside the interval, tick u sends its capture exactly when the counter plus u is a multiple of the interval and the capture is shorter than the buffer |
| `Video.CaptureRun` | TouchMaterialServer/Assets/_Project/Scripts/Controllers/VideoController.cs:70-75 | n captures give n collection decisions |
| `Video.CaptureCollectsPeriodically` | TouchMaterialServer/Assets/_Project/Scripts/Controllers/VideoController.cs:70-75 | once the texture is set up, capture u forces a collection exactly when it is the 1000th since the count last started |
| `Video.Take` | TouchMaterialClient/Assets/_Project/Scripts/Controllers/VideoController.cs:31 | taking keeps the first bytes, as many as asked for up to the data's length and none for a negative count |
| `Video.Receive` | TouchMaterialClient/Assets/_Project/Scripts/Controllers/VideoController.cs:27-32 | a received datagram queues its first length bytes and changes nothing else |
| `Video.DeserializeVideo` | TouchMaterialClient/Assets/_Project/Scripts/Controllers/VideoController.cs:55-68 | the queue is emptied; the result is the newest queued frame, or nothing exactly when the queue was empty |
| `Video.RenderAsWritten` | TouchMaterialClient/Assets/_Project/Scripts/Controllers/VideoController.cs:70-88 | without data nothing changes; with data it is shown on a set-up texture, a new texture starts the count at 1, a collection is forced exactly when the count is at least 1000, and the int32 count grows by one on an existing texture except at int.MaxValue, where it wraps to int.MinValue and no collection is forced |
| `Video.RenderRunAsWritten` | TouchMaterialClient/Assets/_Project/Scripts/Controllers/VideoController.cs:70-88 | n renders as written give n collection decisions |
| `Video.RenderAsWrittenCollectsEveryFrame` | TouchMaterialClient/Assets/_Project/Scripts/Controllers/VideoController.cs:83-87 | as written, once the count has reached 999 every later render forces a collection, up to the render that brings the count to int.MaxValue |
| `Video.RenderAsWrittenQuietBelow` | TouchMaterialClient/Assets/_Project/Scripts/Controllers/VideoController.cs:83-87 | as written, no render forces a collection while the int32 count stays below 1000, negative counts included |
| `Video.RenderAsWrittenStopsAtWrap` | TouchMaterialClient/Assets/_Project/Scripts/Controllers/VideoController.cs:83-87 | as written, from int.MaxValue the next render wraps the count to int.MinValue, and neither it nor the following 2^31 + 999 renders force a collection |
| `Video.RenderFrame` | TouchMaterialClient/Assets/_Project/Scripts/Controllers/VideoController.cs:70-88 | corrected: without data nothing changes; with data it is shown and a counter below 1000 stays below it |
| `Video.RenderRun` | TouchMaterialClient/Assets/_Project/Scripts/Controllers/VideoController.cs:70-88 | n corrected renders give n collection decisions |
| `Video.RenderRunIsCaptureRun` | TouchMaterialClient/Assets/_Project/Scripts/Controllers/VideoController.cs:83-87 | corrected renders collect exactly as the server's captures do |
| `Video.RenderCollectsPeriodically` | TouchMaterialClient/Assets/_Project/Scripts/Controllers/VideoController.cs:83-87 | corrected, render u forces a collection exactly when it is the 1000th since the count last started |
| `Video.ClientTick` | TouchMaterialClient/Assets/_Project/Scripts/Controllers/VideoController.cs:45-53 | the frame counter advances; off a zero counter nothing else happens; on a zero counter the queue is emptied and its newest frame rendered with the render counter as written |
| `Video.ClientShowsNewest` | TouchMaterialClient/Assets/_Project/Scripts/Controllers/VideoController.cs:29-53 | the frame shown is the first length bytes of the newest datagram received since the last render |
| `Video.ClientCollectsEveryRenderAfter999` | TouchMaterialClient/Assets/_Project/Scripts/Controllers/VideoController.cs:70-88 | once the client's counter has reached 999 and is below int.MaxValue, a tick that renders forces a collection and the counter grows by one |
| `Video.ClientSkipsCollectionAtWrap` | TouchMaterialClient/Assets/_Project/Scripts/Controllers/VideoController.cs:70-88 | a tick that renders with the counter at int.MaxValue wraps it to int.MinValue and forces no collection |
| `SeqUtil.DrainLast` | TouchMaterialClient/Assets/_Project/Scripts/Controllers/VideoController.cs:55-68 | draining a queue yields one of its entries, or nothing exactly when it is empty |
| `SeqUtil.DrainKeepsNewest` | TouchMaterialClient/Assets/_Project/Scripts/Controllers/VideoController.cs:55-68 | draining after an enqueue yields the enqueued entry, whatever the queue held |
| `TactileClient.Init` | TouchMaterialClient/Assets/_Project/Scripts/Controllers/TactileController.cs:32-48 | the client starts with no caches, at row 0 |
| `TactileClient.OnDecodeFinished` | TouchMaterialClient/Assets/_Project/Scripts/Controllers/TactileController.cs:87-95 | a decode completion makes the arrays it is handed the client's caches and restarts playback at row 0, whatever row was playing, and keeps everything else (`TactileSession` supplies the decoder's own arrays) |
| `TactileClient.PlayRows` | TouchMaterialClient/Assets/_Project/Scripts/Controllers/TactileController.cs:109-117 | the actuator loop throws exactly when some remaining row is too short for the samples or its index lies beyond the actuator table |
| `TactileClient.PlayRowsPlays` | TouchMaterialClient/Assets/_Project/Scripts/Controllers/TactileController.cs:109-117 | the loop plays, for actuators i, i + 1, ... in order up to the first row it cannot read (all of them when it does not throw), the samples [start, start + T) of that actuator's cache: the effects are exactly those rows' effects in order (a loud row's mean level, a stop for a quiet row on an active actuator, nothing for a quiet row on an idle one), and exactly those actuators change state, each to whether its row is loud |
| `TactileClient.EmittedFrame` | TouchMaterialClient/Assets/_Project/Scripts/Controllers/TactileController.cs:109-117 | the effects of a run of rows depend only on the states of the actuators those rows play on |
| `TactileClient.UpdateTactile` | TouchMaterialClient/Assets/_Project/Scripts/Controllers/TactileController.cs:98-119 | without caches or past the last row nothing happens; otherwise every actuator i plays the samples [frameIdx·T, frameIdx·T + T) of cache i, in order, up to the first row that cannot be read, with the effects and actuator states `PlayRowsPlays` gives, and unless that loop threw the row index advances by one |
| `TactileClient.Tick` | TouchMaterialClient/Assets/_Project/Scripts/Controllers/TactileController.cs:72-84 | the decoder is handed the newest queued payload, or null for an empty queue; the caches are kept; a row is played exactly when caches exist and rows remain, and then its samples are played as in `UpdateTactile`; otherwise the tick emits nothing and the client is unchanged |
| `TactileClient.TickPlaysRow` | TouchMaterialClient/Assets/_Project/Scripts/Controllers/TactileController.cs:72-119 | with caches long enough for every row and a row left, a tick plays the current row's samples on every actuator without throwing, emits exactly those rows' effects, leaves each actuator on iff its row is loud, and moves to the next row |
| `TactileClient.PlaysConsecutiveRows` | TouchMaterialClient/Assets/_Project/Scripts/Controllers/TactileController.cs:72-119 | between decode completions, k ticks from row n play rows n, n + 1, ... up to the smaller of n + k and the frame count, each once |
| `TactileClient.PlaysBatchFromStart` | TouchMaterialClient/Assets/_Project/Scripts/Controllers/TactileController.cs:87-119 | after a decode completion, k ticks play rows 0 up to the smaller of k and the frame count |
| `TactileClient.PlayableRow` | TouchMaterialClient/Assets/_Project/Scripts/Controllers/TactileController.cs:109-116 | on caches holding every row, the samples of row n of every actuator can be read |
| `TactileClient.PlaysConsecutiveSamples` | TouchMaterialClient/Assets/_Project/Scripts/Controllers/TactileController.cs:72-119 | between decode completions, k ticks from row n emit exactly what playing rows n, n + 1, ... up to the smaller of n + k and the frame count emits: for each row, the samples [r·T, r·T + T) of every cache in actuator order, each row starting from the actuator states the previous row left |
| `TactileClient.EffectsStep` | TouchMaterialClient/Assets/_Project/Scripts/Controllers/TactileController.cs:72-119 | a tick with a row left on playable caches emits that row's effects, leaves the actuator states that row sets, and is followed by the effects of the state it leaves |
| `TactileClient.EffectsIdle` | TouchMaterialClient/Assets/_Project/Scripts/Controllers/TactileController.cs:81-84 | past the last row a tick emits nothing and changes nothing |
| `TactileClient.RowsPlayedStep` | TouchMaterialClient/Assets/_Project/Scripts/Controllers/TactileController.cs:98-119 | the reference run of rows starts with row n and continues from the states it leaves |
| `TactileClient.PlaysBatchSamplesFromStart` | TouchMaterialClient/Assets/_Project/Scripts/Controllers/TactileController.cs:87-119 | after a decode completion, k ticks emit the samples of rows 0 up to the smaller of k and the frame count of the new caches, row after row |
| `TactileSession.Init` | TouchMaterialClient/Assets/_Project/Scripts/Controllers/TactileController.cs:32-48 | a fresh client next to a fresh decoder holds no caches, so it shares nothing yet |
| `TactileSession.Decoded` | TouchMaterialClient/Assets/_Project/Scripts/Controllers/TactileController.cs:87-95 | after a decode, a client holding the decoder's arrays sees their new contents at once and stays on its row; a completion hands the arrays over and restarts at row 0; either way the client holds nothing or the decoder's own arrays |
| `TactileSession.MpegDecode` | TouchMaterialClient/Assets/_Project/Scripts/Adapters/MPEGDecodeHelper.cs:42-87 | an MPEG decode rewrites the shared arrays as the decoder does; the client's row restarts exactly when the callback runs, and the client still holds nothing or the decoder's arrays |
| `TactileSession.ThrownDecodeShowsInPlayback` | TouchMaterialClient/Assets/_Project/Scripts/Adapters/MPEGDecodeHelper.cs:66-79 | an MPEG decode whose first block fits and a later block throws never calls back, so the client stays on its row, yet actuator 0's cache row already starts with the newly decoded samples |
| `TactileSession.HelperDecode` | TouchMaterialClient/Assets/_Project/Scripts/Adapters/DecodeHelper.cs:75-95 | a decode by the request/reply decoder rewrites the shared arrays as that decoder does; the row restarts exactly when the callback runs, and sharing is kept |
| `TactileSession.HelperUnfinishedKeepsSession` | TouchMaterialClient/Assets/_Project/Scripts/Adapters/DecodeHelper.cs:75-95 | with the request/reply decoder, a decode that does not call back leaves client and arrays as they were |
| `TactileServer.Init` | TouchMaterialServer/Assets/_Project/Scripts/Controllers/TactileController.cs:29-47 | one zeroed cache of frame count x taxel size samples per detector, row index 0 |
| `TactileServer.Signals` | TouchMaterialServer/Assets/_Project/Scripts/Controllers/TactileController.cs:88-93 | a null reading contributes T zeros; an array contributes its first T samples and throws when shorter than T |
| `TactileServer.CopyRows` | TouchMaterialServer/Assets/_Project/Scripts/Controllers/TactileController.cs:86-94 | the copy loop throws exactly when some detector's reading is too short; otherwise each cache gets its detector's samples at the row and keeps the rest |
| `TactileServer.Row` | TouchMaterialServer/Assets/_Project/Scripts/Controllers/TactileController.cs:81-84 | the row written is the current row index, or 0 after a full batch |
| `TactileServer.Tick` | TouchMaterialServer/Assets/_Project/Scripts/Controllers/TactileController.cs:70-96 | the row index advances, wrapping to 1 after a full batch; a send happens exactly when the batch completes without a throw; a throw happens exactly when some reading is too short |
| `TactileServer.TickWritesRow` | TouchMaterialServer/Assets/_Project/Scripts/Controllers/TactileController.cs:79-96 | a tick that does not throw writes each detector's T samples into its cache at the tick's row and changes no other sample |
| `TactileServer.TickCache` | TouchMaterialServer/Assets/_Project/Scripts/Controllers/TactileController.cs:79-96 | after a tick that does not throw, each cache is its old contents with its reading written at the tick's row |
| `TactileServer.Run` | TouchMaterialServer/Assets/_Project/Scripts/Controllers/TactileController.cs:70-77 | a run of ticks keeps the controller valid and the cache count |
| `TactileServer.TickAdvances` | TouchMaterialServer/Assets/_Project/Scripts/Controllers/TactileController.cs:70-96 | a tick whose readings are long enough does not throw, advances the row index cyclically, and sends exactly on completing a batch |
| `TactileServer.SendsEveryFrameCount` | TouchMaterialServer/Assets/_Project/Scripts/Controllers/TactileController.cs:70-96 | from row index n, k well-formed ticks send on exactly the ticks t with the frame count dividing n + t + 1, and leave the row index at (n + k - 1) mod F + 1 |
| `TactileServer.InitSendsEveryFrameCount` | TouchMaterialServer/Assets/_Project/Scripts/Controllers/TactileController.cs:29-96 | from the initial state, tick k sends exactly when k is a multiple of the frame count |
| `TactileObject.Pick` | TouchMaterialServer/Assets/_Project/Scripts/TouchComponents/TactileObject.cs:93-96 | a downsample position lies in the raw cell and is at least the output position |
| `TactileObject.RawToFixed` | TouchMaterialServer/Assets/_Project/Scripts/TouchComponents/TactileObject.cs:84-123 | the result has the fixed size; a cell of that size is kept; an empty cell gives zeros; a one-sample cell repeats its sample |
| `TactileObject.PickIncreasing` | TouchMaterialServer/Assets/_Project/Scripts/TouchComponents/TactileObject.cs:93-96 | downsampling picks strictly increasing raw positions |
| `TactileObject.DownsampleSelects` | TouchMaterialServer/Assets/_Project/Scripts/TouchComponents/TactileObject.cs:91-97 | a downsampled cell starts with the first raw sample and takes raw samples in order, none twice |
| `TactileObject.CellCount` | TouchMaterialServer/Assets/_Project/Scripts/TouchComponents/TactileObject.cs:48 | an accepted header holds exactly two words plus one per cell |
| `TactileObject.ReadSamples` | TouchMaterialServer/Assets/_Project/Scripts/TouchComponents/TactileObject.cs:66-73 | reading a range succeeds exactly when it is empty or lies inside the data file, and then gives the floats of that range |
| `TactileObject.ReadCells` | TouchMaterialServer/Assets/_Project/Scripts/TouchComponents/TactileObject.cs:62-76 | the cells are read in row-major order; reading succeeds exactly when every cell reads, and then gives each cell's samples |
| `TactileObject.Rows` | TouchMaterialServer/Assets/_Project/Scripts/TouchComponents/TactileObject.cs:61-76 | h rows of w cells that flatten back to the cells in row-major order |
| `TactileObject.RowsAt` | TouchMaterialServer/Assets/_Project/Scripts/TouchComponents/TactileObject.cs:66 | grid entry (i, j) is cell i x w + j |
| `TactileObject.Resample` | TouchMaterialServer/Assets/_Project/Scripts/TouchComponents/TactileObject.cs:74 | every cell is resampled to the fixed size |
| `TactileObject.Parse` | TouchMaterialServer/Assets/_Project/Scripts/TouchComponents/TactileObject.cs:39-81 | a header shorter than two words throws; a rejected header is not a valid one; parsing succeeds exactly when the header has positive sizes and one offset per cell and every cell reads, giving a height x width grid of fixed-size cells |
| `TactileObject.ParseRejects` | TouchMaterialServer/Assets/_Project/Scripts/TouchComponents/TactileObject.cs:43-54 | a header is rejected exactly when a size is not positive or its length differs from (h·w + 2)·4 computed in int32; every valid header passes that check; a header that passes only because the int32 product wrapped throws |
| `TactileObject.WrappedHeaderThrows` | TouchMaterialServer/Assets/_Project/Scripts/TouchComponents/TactileObject.cs:43-54 | the eight-byte header of a 98304 x 32768 grid passes the length check, because (h·w + 2)·4 wraps to 8, and the load then throws |
| `TactileObject.Grid` | TouchMaterialServer/Assets/_Project/Scripts/TouchComponents/TactileObject.cs:61-76 | the resampled cells form an h x w grid of fixed-size cells |
| `TactileObject.ParseCell` | TouchMaterialServer/Assets/_Project/Scripts/TouchComponents/TactileObject.cs:62-76 | grid cell (i, j) of a parsed file is raw cell i x w + j resampled |
| `TactileObject.ParseGrid` | TouchMaterialServer/Assets/_Project/Scripts/TouchComponents/TactileObject.cs:62-76 | an accepted file pair is its raw cells, every one of them read without error, resampled and cut into rows of the header's width |
| `TactileObject.AcceptedOffsetsOrdered` | TouchMaterialServer/Assets/_Project/Scripts/TouchComponents/TactileObject.cs:54-73 | an accepted file pair has non-decreasing offsets, ending at the sentinel |
| `TactileObject.Load` | TouchMaterialServer/Assets/_Project/Scripts/TouchComponents/TactileObject.cs:28-82 | a missing file fails with nothing changed; any failure changes nothing; loading succeeds exactly when both files exist and parse, and then the grid, height and width are replaced together |
| `TactileObject.OffsetBounds` | TouchMaterialServer/Assets/_Project/Scripts/TouchComponents/TactileObject.cs:54-59 | cell offsets grow with the cell index, up to the total sample count |
| `TactileObject.OffsetSample` | TouchMaterialServer/Assets/_Project/Scripts/TouchComponents/TactileObject.cs:72 | sample j of cell k sits at flat position offset(k) + j |
| `TactileObject.BuildHeader` | TouchMaterialServer/Assets/_Project/Scripts/TouchComponents/TactileObject.cs:41-59 | the header file of a grid holds two words plus one per cell |
| `TactileObject.BuildData` | TouchMaterialServer/Assets/_Project/Scripts/TouchComponents/TactileObject.cs:72 | the data file holds four bytes per sample |
| `TactileObject.BuildHeaderFields` | TouchMaterialServer/Assets/_Project/Scripts/TouchComponents/TactileObject.cs:41-59 | the built header holds the height, the width and each cell's offset, and the loader accepts it |
| `TactileObject.BuildCell` | TouchMaterialServer/Assets/_Project/Scripts/TouchComponents/TactileObject.cs:66-73 | each built cell reads back as the raw cell that was stored |
| `TactileObject.ParseBuilt` | TouchMaterialServer/Assets/_Project/Scripts/TouchComponents/TactileObject.cs:28-82 | the files built from an h x w grid of raw cells, with a header shorter than 2^31 bytes, load as that grid, every cell resampled to the fixed size |
| `Pose.Fitted` | TouchMaterialClient/Assets/_Project/Scripts/Controllers/PoseController.cs:42-60 | the bytes of n poses written into a room never exceed the room or the poses' bytes |
| `Pose.FittedClosedForm` | TouchMaterialClient/Assets/_Project/Scripts/Controllers/PoseController.cs:42-60 | the bytes written are all the poses, or every whole pose that fits plus the next position when its 12 bytes still fit |
| `Pose.SerializePoseStep` | TouchMaterialClient/Assets/_Project/Scripts/Controllers/PoseController.cs:48-52 | a pose that fits is written whole before the poses after it |
| `Pose.SerializePoseShort` | TouchMaterialClient/Assets/_Project/Scripts/Controllers/PoseController.cs:48-57 | without room for a whole pose only the position is written, and only when it fits; the overrun is caught |
| `Pose.SerializePoseLayout` | TouchMaterialClient/Assets/_Project/Scripts/Controllers/PoseController.cs:42-60 | from a cursor inside the buffer the poses that fit are written, whole field by whole field, nothing else changes, and the cursor after them is returned |
| `Pose.Tick` | TouchMaterialClient/Assets/_Project/Scripts/Controllers/PoseController.cs:30-40 | nothing happens unless the sender is sending; a buffer under four bytes throws on the timestamp; otherwise the written prefix of the buffer is sent |
| `Pose.TickPayload` | TouchMaterialClient/Assets/_Project/Scripts/Controllers/PoseController.cs:30-60 | the datagram is the timestamp and the pose bytes that fit; when all fit it is the timestamp and every pose |
| `Pose.Init` | TouchMaterialServer/Assets/_Project/Scripts/Controllers/PoseController.cs:25-33 | a fresh empty queue and a zero offset; the objects and last pose time are kept |
| `Pose.Receive` | TouchMaterialServer/Assets/_Project/Scripts/Controllers/PoseController.cs:28-31 | a received datagram becomes the newest queued entry and nothing else changes |
| `Pose.CalibrateTimeAsWritten` | TouchMaterialServer/Assets/_Project/Scripts/Controllers/PoseController.cs:84-87 | as written, calibration changes only the offset |
| `Pose.CalibrationLagsByPreviousOffset` | TouchMaterialServer/Assets/_Project/Scripts/Controllers/PoseController.cs:84-87 | as written, the pose seen at calibration is re-stamped the previous offset before the calibration time, not at it |
| `Pose.CalibrateTime` | TouchMaterialServer/Assets/_Project/Scripts/Controllers/PoseController.cs:84-87 | corrected, calibration changes only the offset, and re-stamps the pose seen at calibration exactly as the calibration time |
| `Pose.PoseOfBytes` | TouchMaterialServer/Assets/_Project/Scripts/Controllers/PoseController.cs:70-73 | the 28 bytes of a pose read back as that pose |
| `Pose.DeserializePose` | TouchMaterialServer/Assets/_Project/Scripts/Controllers/PoseController.cs:62-82 | one pose per object comes back |
| `Pose.Complete` | TouchMaterialServer/Assets/_Project/Scripts/Controllers/PoseController.cs:66-79 | at most n whole poses, and no more than the room holds |
| `Pose.CompleteClosedForm` | TouchMaterialServer/Assets/_Project/Scripts/Controllers/PoseController.cs:66-79 | the poses assigned number the whole poses the room holds, capped at the object count |
| `Pose.ReadPose` | TouchMaterialServer/Assets/_Project/Scripts/Controllers/PoseController.cs:70-71 | a pose inside the buffer is read as its position then its rotation |
| `Pose.DeserializePoseStep` | TouchMaterialServer/Assets/_Project/Scripts/Controllers/PoseController.cs:68-74 | a whole pose in the buffer is assigned before the objects after it |
| `Pose.DeserializePoseShort` | TouchMaterialServer/Assets/_Project/Scripts/Controllers/PoseController.cs:70-79 | without room for a whole pose no object is assigned; the overrun is caught |
| `Pose.DeserializePoseUpdates` | TouchMaterialServer/Assets/_Project/Scripts/Controllers/PoseController.cs:62-82 | exactly the first objects with a whole pose in the buffer take the pose stored at their slot; every later object keeps its pose |
| `Pose.DeserializeSerialized` | TouchMaterialServer/Assets/_Project/Scripts/Controllers/PoseController.cs:62-82 | reading back laid-down poses assigns exactly those poses and returns the cursor after them |
| `Pose.ServerTick` | TouchMaterialServer/Assets/_Project/Scripts/Controllers/PoseController.cs:45-60 | the queue is drained; with nothing queued nothing changes; a payload under four bytes throws with the objects kept; the offset and timeout are kept |
| `Pose.PoseRoundTrip` | TouchMaterialServer/Assets/_Project/Scripts/Controllers/PoseController.cs:45-82 | a client datagram carrying all poses, newest in the queue, sets the server's objects to the client's poses and the last pose time to the client's timestamp plus the offset |
| `Pose.TimeOutAfterCalibration` | TouchMaterialServer/Assets/_Project/Scripts/Controllers/PoseController.cs:22 | after a corrected calibration, a pose stamped some time after the calibrated one times out exactly when more than that time plus the timeout has passed since calibration |
| `Pose.CalibrationAsWrittenTimesOutFreshPose` | TouchMaterialServer/Assets/_Project/Scripts/Controllers/PoseController.cs:84-87 | as written, a reconnection after a 5 s offset re-stamps a fresh pose 5 s in the past, so a 1 s timeout fires at once; corrected, it does not |
| `HandModel.CompareTo` | TouchMaterialClient/Assets/Plugins/GloveSDK/_Scripts/Controllers/HandModelController.cs:1368-1393 | the comparison is -1, 0 or 1, and a lower user sorts first and a higher user last |
| `HandModel.CompareAntisymmetric` | TouchMaterialClient/Assets/Plugins/GloveSDK/_Scripts/Controllers/HandModelController.cs:1368-1393 | swapping the two controllers negates the comparison |
| `HandModel.CompareHandsByKey` | TouchMaterialClient/Assets/Plugins/GloveSDK/_Scripts/Controllers/HandModelController.cs:1368-1393 | between hand controllers the comparison is the total order by user, then right before left |
| `HandModel.CompareTiesNotTransitive` | TouchMaterialClient/Assets/Plugins/GloveSDK/_Scripts/Controllers/HandModelController.cs:1388-1391 | a controller at any other location ties with both hands of its user, which do not tie with each other |
| `HandModel.CreateSource` | TouchMaterialClient/Assets/Plugins/GloveSDK/_Scripts/Controllers/HandModelController.cs:326-336 | a new id is added last with a fresh registry; an id already present throws and nothing is added; the ids stay distinct |
| `HandModel.RotationCandidates` | TouchMaterialClient/Assets/Plugins/GloveSDK/_Scripts/Controllers/HandModelController.cs:679-703 | one offer per dictionary entry for each bone |
| `HandModel.PositionCandidates` | TouchMaterialClient/Assets/Plugins/GloveSDK/_Scripts/Controllers/HandModelController.cs:705-730 | one position offer per dictionary entry |
| `HandModel.Fold` | TouchMaterialClient/Assets/Plugins/GloveSDK/_Scripts/Controllers/HandModelController.cs:679-731 | without the priority-0 rule the bar only rises, and an unchanged bar means nothing changed |
| `HandModel.FoldStays` | TouchMaterialClient/Assets/Plugins/GloveSDK/_Scripts/Controllers/HandModelController.cs:686-701 | once the bar is at least every controlling priority, and above 0 under the zero rule, nothing changes |
| `HandModel.FoldReachesFirstHighest` | TouchMaterialClient/Assets/Plugins/GloveSDK/_Scripts/Controllers/HandModelController.cs:679-731 | from any lower bar the loop ends on the first entry with the highest controlling priority |
| `HandModel.FoldInactive` | TouchMaterialClient/Assets/Plugins/GloveSDK/_Scripts/Controllers/HandModelController.cs:679-731 | with every entry deactivated the starting choice stands |
| `HandModel.AsWrittenSameChoice` | TouchMaterialClient/Assets/Plugins/GloveSDK/_Scripts/Controllers/HandModelController.cs:705-730 | the position loop as written ends on the same source as the plain priority choice |
| `HandModel.SelectPosition` | TouchMaterialClient/Assets/Plugins/GloveSDK/_Scripts/Controllers/HandModelController.cs:705-730 | corrected: the position goes to the plain priority choice; nothing changes unless the bar rises; the lerp starts exactly when the controlling source differs from the one before this call |
| `HandModel.LerpAsWrittenFlagsUnchangedSource` | TouchMaterialClient/Assets/Plugins/GloveSDK/_Scripts/Controllers/HandModelController.cs:715-728 | as written, a source that keeps control is reported as a change when a lower-priority position source precedes it; corrected, it is not |
| `HandModel.UpdateSources` | TouchMaterialClient/Assets/Plugins/GloveSDK/_Scripts/Controllers/HandModelController.cs:660-732 | each bone goes to its priority choice, restarted from the hand provider, and the position to the corrected position choice; nothing else changes |
| `HandModel.UpdateSourcesAsWritten` | TouchMaterialClient/Assets/Plugins/GloveSDK/_Scripts/Controllers/HandModelController.cs:660-732 | as written, the bones and the position source are the same as corrected, and the position bookkeeping is that of the as-written loop |
| `HandModel.RotationGoesToFirstHighest` | TouchMaterialClient/Assets/Plugins/GloveSDK/_Scripts/Controllers/HandModelController.cs:683-703 | a bone goes to the first entry with the highest positive priority among those controlling it, with that entry's type |
| `HandModel.PositionGoesToFirstHighest` | TouchMaterialClient/Assets/Plugins/GloveSDK/_Scripts/Controllers/HandModelController.cs:705-730 | corrected: the position goes to the first entry with the highest non-negative priority among those controlling it, and the lerp starts exactly when that differs from the source before |
| `HandModel.InactiveSourcesLeaveHand` | TouchMaterialClient/Assets/Plugins/GloveSDK/_Scripts/Controllers/HandModelController.cs:665-672 | with every entry deactivated the hand provider controls every bone and the position |
| `HandModel.ZeroPriorityDependsOnOrder` | TouchMaterialClient/Assets/Plugins/GloveSDK/_Scripts/Controllers/HandModelController.cs:695-701 | with the priority-0 rule, a controlling and a non-controlling priority-0 entry give the bone to the controlling one in one order and to no source in the other |
| `HandModel.SetActive` | TouchMaterialClient/Assets/Plugins/GloveSDK/_Scripts/ExternalData/PCI_MUXDataProvider.cs:112-128 | a provider without a bound controller changes nothing; otherwise its priority takes the sign of the flag and the controller recomputes its sources with the as-written update |
| `HandModel.DeactivateLastSource` | TouchMaterialClient/Assets/Plugins/GloveSDK/_Scripts/ExternalData/PCI_MUXDataProvider.cs:112-128 | deactivating the only active source hands every bone back to the hand provider |
| `MuxProvider.Configured` | TouchMaterialClient/Assets/Plugins/GloveSDK/_Scripts/ExternalData/PCI_MUXDataProvider.cs:27-37 | a provider as configured has priority 0 and no controller bound |
| `MuxProvider.Neg32` | TouchMaterialClient/Assets/Plugins/GloveSDK/_Scripts/ExternalData/PCI_MUXDataProvider.cs:52 | int32 negation negates every value but the most negative, which wraps to itself |
| `MuxProvider.Awake` | TouchMaterialClient/Assets/Plugins/GloveSDK/_Scripts/ExternalData/PCI_MUXDataProvider.cs:50-53 | only the configured priority changes; it ends non-negative unless it was the most negative int32, and it is either kept or negated |
| `MuxProvider.SetActivePriority` | TouchMaterialClient/Assets/Plugins/GloveSDK/_Scripts/ExternalData/PCI_MUXDataProvider.cs:112-128 | without a bound controller nothing changes; otherwise only the priority changes, to the configured value when activated and its negation otherwise |
| `MuxProvider.ActivationSign` | TouchMaterialClient/Assets/Plugins/GloveSDK/_Scripts/ExternalData/PCI_MUXDataProvider.cs:50-128 | after Awake, activation gives a non-negative priority, deactivation a non-positive one, and the two are opposites |
| `MuxProvider.MustControlBoneRotation` | TouchMaterialClient/Assets/Plugins/GloveSDK/_Scripts/ExternalData/PCI_MUXDataProvider.cs:137-140 | the configured flag of the bone, and a throw exactly for an index outside the flags |
| `MuxProvider.MustControlBonePosition` | TouchMaterialClient/Assets/Plugins/GloveSDK/_Scripts/ExternalData/PCI_MUXDataProvider.cs:142-145 | the configured position flag, and a throw exactly for an index outside the flags |
| `MuxProvider.FindHmc` | TouchMaterialClient/Assets/Plugins/GloveSDK/_Scripts/ExternalData/PCI_MUXDataProvider.cs:79-93 | nothing exactly when no controller matches the provider's user and hand; otherwise the first that does |
| `MuxProvider.BindHmc` | TouchMaterialClient/Assets/Plugins/GloveSDK/_Scripts/ExternalData/PCI_MUXDataProvider.cs:79-93 | the first matching controller is bound; when none matches the binding is left as it was; nothing else changes |
| `MuxProvider.HandAwake` | TouchMaterialClient/Assets/Plugins/GloveSDK/_Scripts/ExternalData/MUXDataProvider_Hand.cs:25-40 | the source id becomes the raw-source tag, the user and hand are taken from the attached controller when there is one, the priority follows the base Awake, and nothing else changes |
| `MuxProvider.PropagateThumb` | TouchMaterialClient/Assets/Plugins/GloveSDK/_Scripts/ExternalData/MUXDataProvider_Hand.cs:45 | the second thumb phalanx takes the first one's flag |
| `MuxProvider.PropagateIndex` | TouchMaterialClient/Assets/Plugins/GloveSDK/_Scripts/ExternalData/MUXDataProvider_Hand.cs:46 | both outer index phalanges take the index finger's flag |
| `MuxProvider.PropagateMiddle` | TouchMaterialClient/Assets/Plugins/GloveSDK/_Scripts/ExternalData/MUXDataProvider_Hand.cs:47 | both outer middle phalanges take the middle finger's flag |
| `MuxProvider.PropagateRing` | TouchMaterialClient/Assets/Plugins/GloveSDK/_Scripts/ExternalData/MUXDataProvider_Hand.cs:48 | both outer ring phalanges take the ring finger's flag |
| `MuxProvider.PropagatePinky` | TouchMaterialClient/Assets/Plugins/GloveSDK/_Scripts/ExternalData/MUXDataProvider_Hand.cs:49 | both outer pinky phalanges take the pinky's flag |
| `MuxProvider.PropagateKeeps` | TouchMaterialClient/Assets/Plugins/GloveSDK/_Scripts/ExternalData/MUXDataProvider_Hand.cs:44-49 | every bone that is not a propagation target keeps its flag |
| `MuxProvider.PropagateSpec` | TouchMaterialClient/Assets/Plugins/GloveSDK/_Scripts/ExternalData/MUXDataProvider_Hand.cs:44-49 | the propagation does what the assignments say, given that no target is a source or another finger's target |
| `MuxProvider.PropagateIdempotent` | TouchMaterialClient/Assets/Plugins/GloveSDK/_Scripts/ExternalData/MUXDataProvider_Hand.cs:76-80 | propagating twice is propagating once |
| `MuxProvider.PropagatedUnique` | TouchMaterialClient/Assets/Plugins/GloveSDK/_Scripts/ExternalData/MUXDataProvider_Hand.cs:44-49 | two propagations of the same flags agree |
| `MuxProvider.HandStart` | TouchMaterialClient/Assets/Plugins/GloveSDK/_Scripts/ExternalData/MUXDataProvider_Hand.cs:42-55 | the rotation flags are propagated and the hand bone takes world space; every other field and type is kept |
| `MuxProvider.UpdateRotations` | TouchMaterialClient/Assets/Plugins/GloveSDK/_Scripts/ExternalData/MUXDataProvider_Hand.cs:74-86 | only the rotation flags change, and they are propagated |
| `MuxProvider.UpdateAfterStartIsStable` | TouchMaterialClient/Assets/Plugins/GloveSDK/_Scripts/ExternalData/MUXDataProvider_Hand.cs:42-86 | updating the rotations after Start leaves the flags as Start set them |
| `MuxData.NamedPositions` | TouchMaterialClient/Assets/Plugins/GloveSDK/_Scripts/Controllers/MuxData.cs:60 | the named sensor ordinals sit at their fixed positions of the list |
| `MuxData.New` | TouchMaterialClient/Assets/Plugins/GloveSDK/_Scripts/Controllers/MuxData.cs:55-63 | a fresh registry keeps its source, is active, has the hand at the origin, masks every sensor out, and reads identities and zero flex everywhere |
| `MuxData.SetData` | TouchMaterialClient/Assets/Plugins/GloveSDK/_Scripts/Controllers/MuxData.cs:109-116 | the bone reads the new pair, every other bone is kept, the bone becomes a key, and nothing else changes |
| `MuxData.UpdateHandRotation` | TouchMaterialClient/Assets/Plugins/GloveSDK/_Scripts/Controllers/MuxData.cs:179-182 | the hand bone is stored like any other bone |
| `MuxData.ResetFingersMask` | TouchMaterialClient/Assets/Plugins/GloveSDK/_Scripts/Controllers/MuxData.cs:98-102 | every mask entry is cleared and the length kept |
| `MuxData.SetFingersMask` | TouchMaterialClient/Assets/Plugins/GloveSDK/_Scripts/Controllers/MuxData.cs:87-93 | the call throws exactly when some listed index lies outside the mask; otherwise exactly the listed entries are set in addition |
| `MuxData.FillSensorsData` | TouchMaterialClient/Assets/Plugins/GloveSDK/_Scripts/Controllers/MuxData.cs:149-159 | bones 0 to n - 1 read the given pairs, every other bone is kept, and nothing else changes |
| `MuxData.FillSensorsFrom` | TouchMaterialClient/Assets/Plugins/GloveSDK/_Scripts/Controllers/MuxData.cs:166-174 | every bone stored in the other registry is copied, every other bone kept; the hand position is copied and nothing else changes |
| `MuxData.FillHandAndFlex` | TouchMaterialClient/Assets/Plugins/GloveSDK/_Scripts/Controllers/MuxData.cs:207-226 | the hand bone and flex entries 0 to n - 1 take the given values, and nothing else changes |
| `MuxData.FillFlex` | TouchMaterialClient/Assets/Plugins/GloveSDK/_Scripts/Controllers/MuxData.cs:219-225 | the flex map gains the given entries, which override the old ones, and keeps the rest |
| `MuxData.CopyIntoNew` | TouchMaterialClient/Assets/Plugins/GloveSDK/_Scripts/Controllers/MuxData.cs:166-174 | copying a registry into a fresh one reproduces its rotations and hand position |
| `MuxData.FillTwice` | TouchMaterialClient/Assets/Plugins/GloveSDK/_Scripts/Controllers/MuxData.cs:149-159 | a later fill of at least the same bones overrides an earlier one |
| `IkMux.NewProvider` | TouchMaterialClient/Assets/Plugins/GloveSDK/_Scripts/IK/PCI_MuxIKDataProvider.cs:43 | a fresh provider has not been picked and has its configured priority |
| `IkMux.SetActive` | TouchMaterialClient/Assets/Plugins/GloveSDK/_Scripts/IK/PCI_MuxIKDataProvider.cs:79-86 | the call throws exactly on the most negative int32, changing nothing; otherwise only the priority changes, keeping its magnitude and taking the sign of the flag |
| `IkMux.SetActiveIdempotent` | TouchMaterialClient/Assets/Plugins/GloveSDK/_Scripts/IK/PCI_MuxIKDataProvider.cs:79-86 | setting the same activity twice is the same as once; deactivating then activating restores a non-negative priority |
| `IkMux.SelectionStatus` | TouchMaterialClient/Assets/Plugins/GloveSDK/_Scripts/IK/PCI_MuxIKDataProvider.cs:92-98 | the status is recorded, and the provider is notified exactly when it changed |
| `IkMux.StatusRun` | TouchMaterialClient/Assets/Plugins/GloveSDK/_Scripts/IK/PCI_MuxIKDataProvider.cs:92-98 | after a series of statuses the last one is recorded |
| `IkMux.StatusEdgesAlternate` | TouchMaterialClient/Assets/Plugins/GloveSDK/_Scripts/IK/PCI_MuxIKDataProvider.cs:92-98 | the notifications alternate between picked and dropped, starting with the opposite of the recorded status, and the last one is the recorded status |
| `IkMux.Register` | TouchMaterialClient/Assets/Plugins/GloveSDK/_Scripts/IK/MuxIKController.cs:46-49 | registering appends the provider and keeps the list before it |
| `IkMux.Unregister` | TouchMaterialClient/Assets/Plugins/GloveSDK/_Scripts/IK/MuxIKController.cs:51-55 | unregistering removes the first occurrence, if any, and exactly one copy of the provider |
| `IkMux.UnregisterAfterRegister` | TouchMaterialClient/Assets/Plugins/GloveSDK/_Scripts/IK/MuxIKController.cs:46-55 | registering a provider that was not listed, then unregistering it, gives the list back |
| `IkMux.SelectIndex` | TouchMaterialClient/Assets/Plugins/GloveSDK/_Scripts/IK/MuxIKController.cs:59-68 | the selected position holds a highest priority and no position before it holds one as high |
| `IkMux.Notify` | TouchMaterialClient/Assets/Plugins/GloveSDK/_Scripts/IK/MuxIKController.cs:71-72 | only the listed providers' recorded statuses change; with each provider listed once, each records whether it is the selected one and is notified exactly when that changed |
| `IkMux.Update` | TouchMaterialClient/Assets/Plugins/GloveSDK/_Scripts/IK/MuxIKController.cs:57-75 | with an empty list the frame throws after notifying nobody; otherwise the target is the position and lerp flag of the first provider of highest priority |
| `IkMux.UpdateMarksSelected` | TouchMaterialClient/Assets/Plugins/GloveSDK/_Scripts/IK/MuxIKController.cs:57-75 | with each provider listed once, exactly the selected provider ends with status true, and a provider is notified exactly when its status changed |
| `IkMux.RegisterMux` | TouchMaterialClient/Assets/Plugins/GloveSDK/_Scripts/IK/PCI_MuxIKDataProvider.cs:68-73 | a provider registers with its controller when there is one |
| `IkMux.OnDestroy` | TouchMaterialClient/Assets/Plugins/GloveSDK/_Scripts/IK/PCI_MuxIKDataProvider.cs:62-66 | a provider unregisters from its controller when there is one |
| `IkMux.CreateDestroy` | TouchMaterialClient/Assets/Plugins/GloveSDK/_Scripts/IK/PCI_MuxIKDataProvider.cs:54-73 | a provider created and destroyed leaves the controller's list as it found it |
| `DevicesInit.UpdateAsWritten` | TouchMaterialClient/Assets/Plugins/GloveSDK/_Scripts/Core/NDDevicesInit.cs:324-392 | as written, a frame keeps the slots formed: all settled, or the current one open and prompted |
| `DevicesInit.Update` | TouchMaterialClient/Assets/Plugins/GloveSDK/_Scripts/Core/NDDevicesInit.cs:324-392 | corrected, a frame keeps the slots formed: all settled, or the current one open and prompted |
| `DevicesInit.Settle` | TouchMaterialClient/Assets/Plugins/GloveSDK/_Scripts/Core/NDDevicesInit.cs:368-381 | the current slot is settled, with the glove and a created device or only marked for id -1; every other slot and field is kept |
| `Text.DigitsRoundTrip` | TouchMaterialClient/Assets/Plugins/GloveSDK/_Scripts/Core/NDDevicesInit.cs:206 | reading the digits of a natural number back gives the number |
| `Text.ReplaceAll` | TouchMaterialClient/Assets/Plugins/GloveSDK/_Scripts/Core/NDDevicesInit.cs:303-311 | a text holding no first character of the placeholder is left unchanged |
| `Text.ReplaceSkips` | TouchMaterialClient/Assets/Plugins/GloveSDK/_Scripts/Core/NDDevicesInit.cs:303-311 | a prefix holding no first character of the placeholder passes through the replacement untouched |
| `Text.ReplaceFront` | TouchMaterialClient/Assets/Plugins/GloveSDK/_Scripts/Core/NDDevicesInit.cs:303-311 | a placeholder at the front is replaced and the scan resumes after it |
| `PyCodec.EncodeAndSerialize` | TactileCompression/encoder.py:19-47 | with the points packed as the service packs them: when every encoded point fits the serializer's int32, the call succeeds exactly when all points fit in the buffer, and then the buffer starts with the points laid end to end and the returned cursor is just past them; the buffer keeps its length |

## Left out

- Sockets, threads, `async`/`await` and the Unity scene (cameras, textures, colliders, UI, audio) are left out. Their observable effects are events or values passed to the model.
- The MATLAB codec and the native `HapticCodec` are left out: they are foreign code, and the model takes them as function parameters. The properties proved about the layouts around them hold for every such function.
- The Python service's main loop, its socket handling and its MATLAB engine start-up are left out: they are I/O only.
- JPEG capture and texture loading in the video controllers are left out: the captured JPEG is a parameter, and a render is recorded by the frame it shows.
- The interpolating branch of `RawToFixedArray`, taken when a cell is shorter than the fixed size, is a parameter. It calls a curve-fitting routine that is not part of this model.
- The `TactileObject` raycast look-up (`GetTactile`) is left out: it depends on Unity physics.
- The cursor a caller passes is unbounded. The C# `index + size` could wrap around past 2^31 - 1 before the bounds check, but only for a cursor within a few bytes of that bound, which no caller passes. A length read from the wire is another matter: `lengthEnd + n` in the length-prefixed reads is wrapped to int32 (`Bytes.Wrap32`).
- WireCodec.ReadString: the string is modelled by its UTF-8 bytes. `Encoding.UTF8.GetString` replaces each invalid byte sequence with U+FFFD, so the model's result is the source's string only for valid UTF-8, and the string round trip holds only for such payloads.
- WireCodec.BytesRoundTrip: stated for buffers shorter than 2^31 bytes, the bound on a C# array's length, so that the written end cannot wrap.
- WireCodec.StringRoundTrip: stated for buffers shorter than 2^31 bytes, for the same reason.
- Video.RenderAsWrittenCollectsEveryFrame: stated for runs that end before the int32 counter reaches int.MaxValue. The render after that wraps the counter and collects nothing, which `Video.RenderAsWrittenStopsAtWrap` states.
- Video.ClientCollectsEveryRenderAfter999: stated for a counter below int.MaxValue; the tick at int.MaxValue is `Video.ClientSkipsCollectionAtWrap`.
- Calibration.UpdateAdvancesExactly: like the other calibration lemmas about an update that does something, it is stated for an enabled component. Unity never updates a disabled one, and `Update` leaves it unchanged.
- Calibration.PerformedSequenceSchedules: stated with only the performed sequence enabled. With both enabled, the other sequence may advance on the same gestures or complete first and reset the window.
- Float rounding is not modelled anywhere. The float32 and float64 values that are only copied are bit patterns. The interpretation of a bit pattern as a number is a parameter.
- TactileObject.Parse: a header that passes the length check only because the int32 product (h·w + 2)·4 wrapped is modelled as a throw. The source then allocates `new int[h * w + 1]` with a wrapped length, or reads offsets past the end of the header, or allocates an h × w reference array larger than the runtime's array size limit. The last case assumes that limit, which the C# code does not state.
- TactileObject.Parse: the header is a `Bytes.ByteArray`, shorter than 2^31 bytes, because a .NET byte array's length is an `int`.
- TactileObject.ParseBuilt: stated for grids whose header file is shorter than 2^31 bytes, so that the int32 length check does not wrap. A larger header cannot be a C# byte array, and the load of such a grid throws.
- TactileSession.MpegDecode: a decode is one event between two ticks. In the source it runs on a worker task, and its in-place writes can land while a tick reads the same rows. That interleaving is left out.
- TactileObject.Pick: the downsample position is the exact ⌊i·len/size⌋. The source computes it in float32, whose rounding could move a position by one for very long cells.
- IkMux.SelectIndex: priorities are compared as exact integers. The source compares them as floats starting from negative infinity, which agrees for every int priority below 2^24.
- ActuatorController.MeanAbs: the mean magnitude is computed over reals. The source sums float32 values, so a row whose exact mean lies within rounding of the 0.01 threshold may switch the other way.
- Pose.IsTimeOut: times are reals. The source compares float32 `Time.time` values, whose resolution shrinks as the session runs.
- Quantize.Quantize: a scaled sample outside the int32 range converts to int.MinValue, the x86 result of the unchecked cast. The C# language leaves that result unspecified. No sample the detectors produce comes near the range, and the round-trip lemma covers only samples inside (-1, 1).
- HandModel.UpdateSources: the position's value type comes from the hand provider's declared shape. The source reads it from the temporary provider it last touched. The model requires at least one rotation slot, which every glove has.
- The vendor `Gesture` and `SensorID` enums are not part of this model. Their ordinals are parameters, and the default gesture is taken to be `None`.
- Logging (`Debug.Log`, Python `print`) is left out: it has no effect on the state.

## Findings

| source | as written | input that shows it | evidently intended | confidence | as-written member | corrected member |
|---|---|---|---|---|---|---|
| TactileCompression/encoder.py:61-64 | a final group of fewer than eight bits is packed as a right-aligned number, while `decode_py` unpacks every byte to eight bits and keeps the first `l` | the single bit [1] packs to byte 1, which unpacks to [0] | the short group is padded on the right, so that unpacking and truncating to `l` bits gives the bits back | high (not executed) | `BitPacking.MergeAsWritten`, `BitPacking.MergeAsWrittenLosesShortGroup` | `BitPacking.Merge`, `BitPacking.MergeRoundTrip` |
| TouchMaterialClient/Assets/_Project/Scripts/Controllers/VideoController.cs:83-87 | `_gcCounter` is compared with 1000 but never reset | any run of renders starting at counter 999 forces a collection on every render, for the next 2^31 - 1000 renders; at int.MaxValue the counter wraps and the next 2^31 + 1000 renders force none | reset the counter after each forced collection, as the server controller does | high (not executed) | `Video.RenderAsWritten`, `Video.RenderAsWrittenCollectsEveryFrame`, `Video.RenderAsWrittenStopsAtWrap` | `Video.RenderFrame`, `Video.RenderCollectsPeriodically` |
| TouchMaterialServer/Assets/_Project/Scripts/Controllers/PoseController.cs:84-87 | the new offset is `now - lastPoseTime`, where the last pose time already includes the previous offset | previous offset 5 s, client stamp 5 s, calibration at 20 s: the pose is re-stamped at 15 s and a 1 s timeout fires at once | the offset is taken against the client's own stamp, so the calibrated pose time equals `now` | medium (not executed) | `Pose.CalibrateTimeAsWritten`, `Pose.CalibrationAsWrittenTimesOutFreshPose` | `Pose.CalibrateTime`, `Pose.TimeOutAfterCalibration` |
| TouchMaterialClient/Assets/Plugins/GloveSDK/_Scripts/Controllers/HandModelController.cs:715-728 | the "position source changed" test runs at every acceptance inside the loop, so a higher source that follows a lower one is compared with the lower one | previous source "ext" (priority 5) after "raw" (priority 0): the position is re-initialised and lerped although "ext" keeps control | compare only the final choice with the previous source | medium (not executed) | `HandModel.PositionFoldAsWritten`, `HandModel.LerpAsWrittenFlagsUnchangedSource` | `HandModel.SelectPosition`, `HandModel.PositionGoesToFirstHighest` |
| TouchMaterialClient/Assets/Plugins/GloveSDK/_Scripts/Utils/InGameCalibration.cs:282-344 | when the hard sequence completes, the window is reset, and then the soft sequence is checked in the same update and may advance its index | soft sequence [Ok], hard sequence [Gun]: Gun, then Ok in the update where the hard sequence completes, leaves the window closed with the soft index 1, and the next gesture throws while opening the window, forever | a completed sequence ends the update, so the indices stay consistent with the window | medium (not executed) | `Calibration.UpdateAsWritten`, `Calibration.AsWrittenSoftIndexEscapes` | `Calibration.Update`, `Calibration.UpdateKeepsConsistent`, `Calibration.HardPrecedenceRecovers` |
| TouchMaterialClient/Assets/Plugins/GloveSDK/_Scripts/Core/NDDevicesInit.cs:349-361 | in a setup of at most two gloves, the direct path takes the first right glove without checking whether it is already assigned | one right and one left glove and no hand models: the right glove goes to player 1 and again to player 2 | skip assigned gloves, as the pinch path does | medium (not executed) | `DevicesInit.UpdateAsWritten`, `DevicesInit.AsWrittenAssignsGloveTwice` | `DevicesInit.Update`, `DevicesInit.UpdateKeepsUnique`, `DevicesInit.CorrectedKeepsGloveOnce` |
