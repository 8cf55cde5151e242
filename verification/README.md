# Per-stream Opus decoder state machine (JDA-concentus `Decoder`)

This project models, in Dafny, the per-stream decoder of the JDA voice receive path
(`net.dv8tion.jda.internal.audio.Decoder`). Each decoder belongs to one RTP stream
(its SSRC). It tracks the last sequence number and timestamp it saw. It answers two
classifier questions for an incoming frame: `isInOrder` and `wasPacketLost`. It turns a
frame, or a `null` loss signal, into PCM samples through a Concentus `OpusDecoder`
session. `close` drops that session.

The model follows the Java code literally:

- `lastSeq` is a Java `char` (0..65535). The "unset" value is `(char) -1`, which is 65535,
  and that is also a legitimate RTP sequence number (section 5.1 of RFC 3550).
- The classifiers compare after promotion to `int`. `lastSeq - newSeq` and `lastSeq + 1`
  are therefore plain integer arithmetic, with no wrap modulo 2^16.
- On a frame, the tracked values are updated before the codec is called, so they stay
  updated when the codec throws. On a loss signal, they are reset only after the codec
  has returned.
- Java exceptions are values of `JavaTypes.Fault`:
  - `CodecFailure`: an `OpusException` rethrown as a `RuntimeException`.
  - `NullHandle`: a `NullPointerException` from decoding after `close`.
  - `NegativeArraySize`: `new short[result]` with a negative result.
  - `IndexOutOfBounds`: `System.arraycopy` with a result above 4096.

The Concentus codec is an oracle, `Opus.Codec = CodecCall -> CodecReply`. Each decode step
receives the codec's behaviour at that moment. The step reports the exact call it made, so
the payload handed to the codec is stated on that call. `OPUS_FRAME_SIZE` is an
unconstrained parameter `frameSize`.

RTP sequence numbers are 16-bit counters that wrap (section 5.1 of RFC 3550), so a
wrap-aware comparison would work modulo 2^16. The code compares promoted `int`s instead,
and the model follows the code. `SequenceProperties` states exactly where the two
readings agree and where they part:

- `isInOrder` agrees with the wrapping reading except when 65535 is tracked.
- `wasPacketLost` agrees with it except when 65535 is tracked, where the code never
  reports a loss.

One would expect the tracked sequence number and timestamp to be both set or both unset.
`SequenceProperties.SentinelCollision` shows a tracked frame 65535 whose timestamp stays set.

Modules: `JavaTypes` (Java primitive ranges, faults), `JavaArrays` (`System.arraycopy`),
`Buffers` (the heap `ByteBuffer` slice), `Opus` (codec interface), `StreamDecoder` (the
state machine), `DecodeMethod` (`decodeFromOpus` statement by statement), `DecoderSession`
(a decoder driven through any sequence of requests), `SequenceProperties` (classifier
properties and frame scenarios).

## Model

| member | source | states |
|---|---|---|
| JavaTypes.ToChar | src/main/java/net/dv8tion/jda/internal/audio/Decoder.java:38 | the cast `(char) v` yields the one `char` congruent to `v` modulo 2^16, so `(char) -1` is 65535 |
| JavaArrays.ArrayCopy | src/main/java/net/dv8tion/jda/internal/audio/Decoder.java:87-89 | `System.arraycopy` succeeds exactly when both ranges lie inside their arrays; otherwise it raises `IndexOutOfBounds`; on success, the copied window holds the source elements in order and the rest of the destination is unchanged |
| JavaTypes.NewArray | src/main/java/net/dv8tion/jda/internal/audio/Decoder.java:64 | a fresh Java array `new T[n]` has length `n` and every element is the type's default value; used for the 4096-sample work buffer (:64), the payload copy (:87) and the output array (:102) |
| Buffers.ByteBuffer.Remaining | src/main/java/net/dv8tion/jda/internal/audio/Decoder.java:85 | `remaining()` is the number of bytes from `position` up to `limit`: position plus remaining equals limit |
| Buffers.Payload | src/main/java/net/dv8tion/jda/internal/audio/Decoder.java:84-89 | the payload has `remaining()` bytes; byte `i` is the backing array's element at `arrayOffset() + position() + i` |
| StreamDecoder.Create | src/main/java/net/dv8tion/jda/internal/audio/Decoder.java:35-49 | a fresh decoder has the given ssrc, `lastSeq` 65535, `lastTimestamp` -1 and an open codec session; construction fails with a codec failure exactly when the session cannot be opened |
| StreamDecoder.IsInOrder | src/main/java/net/dv8tion/jda/internal/audio/Decoder.java:51-54 | a frame is out of order exactly when the tracked number is not 65535 and the frame is at most ten behind it or equal to it, compared as integers |
| StreamDecoder.WasPacketLost | src/main/java/net/dv8tion/jda/internal/audio/Decoder.java:56-59 | a loss is reported exactly when the frame is at least two ahead, compared as integers; hence never with 65534 or 65535 tracked, and never for a frame behind the tracked one |
| StreamDecoder.Trim | src/main/java/net/dv8tion/jda/internal/audio/Decoder.java:100-104 | a codec result `r` with 0 <= r <= 4096 yields exactly the first `r` work-buffer samples; a negative `r` raises `NegativeArraySize`; `r` above 4096 raises `IndexOutOfBounds` |
| StreamDecoder.DecodeStep | src/main/java/net/dv8tion/jda/internal/audio/Decoder.java:61-105 | a frame is tracked whatever the codec then does; a loss signal resets to 65535 / -1 exactly when the codec answers, and otherwise leaves the decoder unchanged; after close the codec is not called and the call fails; the codec receives exactly the frame's payload bytes; when the codec answers, the output is `Trim` of its reply (the first `count` samples, or `NegativeArraySize` / `IndexOutOfBounds` for a count outside 0..4096); ssrc and handle never change |
| StreamDecoder.Close | src/main/java/net/dv8tion/jda/internal/audio/Decoder.java:107-113 | after close the handle is gone and ssrc, `lastSeq` and `lastTimestamp` are untouched |
| DecodeMethod.DecodeFromOpus | src/main/java/net/dv8tion/jda/internal/audio/Decoder.java:61-105 | the statement-by-statement rendering (zeroed work buffer, state update, `arraycopy` of the payload, codec call, `arraycopy` of the output) agrees with `DecodeStep` on every input |
| DecoderSession.RunKeepsSsrc | src/main/java/net/dv8tion/jda/internal/audio/Decoder.java:35-39 | across any sequence of requests the stream's ssrc never changes |
| DecoderSession.ClassifiersArePure | src/main/java/net/dv8tion/jda/internal/audio/Decoder.java:51-59 | any sequence of `isInOrder` / `wasPacketLost` requests leaves the decoder unchanged, and each is answered against the initial decoder |
| DecoderSession.UseAfterCloseFails | src/main/java/net/dv8tion/jda/internal/audio/Decoder.java:107-113 | once closed, a decoder stays closed and every later decode fails with a null handle |
| DecoderSession.TrackedComesFromFrames | src/main/java/net/dv8tion/jda/internal/audio/Decoder.java:76-82 | after any sequence of requests, the tracked (sequence, timestamp) pair is the initial one, the sentinels (65535, -1), or the pair of a frame handed to decode |
| DecoderSession.CloseIsIdempotent | src/main/java/net/dv8tion/jda/internal/audio/Decoder.java:107-113 | closing twice gives the same decoder and replies as closing once |
| SequenceProperties.LossImpliesInOrder | src/main/java/net/dv8tion/jda/internal/audio/Decoder.java:51-59 | every frame reported as following a loss is also judged in order |
| SequenceProperties.InOrderIsWrappingWhileTracking | src/main/java/net/dv8tion/jda/internal/audio/Decoder.java:51-54 | with a tracked number other than 65535, `isInOrder` equals the unsigned 16-bit wrapping reading |
| SequenceProperties.InOrderAtSentinel | src/main/java/net/dv8tion/jda/internal/audio/Decoder.java:53 | with 65535 tracked every frame is in order, while the wrapping reading rejects exactly 65525..65535 |
| SequenceProperties.LossIsWrappingBelowMax | src/main/java/net/dv8tion/jda/internal/audio/Decoder.java:58 | below 65535 `wasPacketLost` equals the wrapping reading; at 65535 it is always false, while the wrapping reading is true for every frame but 0 |
| SequenceProperties.GapIsReported | src/main/java/net/dv8tion/jda/internal/audio/Decoder.java:51-59 | after frames 5 and 6, frame 8 is in order and reports a loss, frame 7 does not, and a duplicate 6 is rejected |
| SequenceProperties.ConcealedLossForgetsOrder | src/main/java/net/dv8tion/jda/internal/audio/Decoder.java:65-78 | after a loss decode the codec answers, every frame is in order and none reports a loss |
| SequenceProperties.FailedConcealmentKeepsOrder | src/main/java/net/dv8tion/jda/internal/audio/Decoder.java:65-75 | a loss decode the codec rejects fails and keeps the old reference, so a duplicate of the tracked frame is still rejected |
| SequenceProperties.SentinelCollision | src/main/java/net/dv8tion/jda/internal/audio/Decoder.java:81-82 | after a real frame 65535, its duplicate and frames up to ten behind it are judged in order, and the timestamp stays set while the sequence reads as unset |
| SequenceProperties.WrapIsInOrder | src/main/java/net/dv8tion/jda/internal/audio/Decoder.java:51-54 | with 65534 tracked, frames 65535, 0 and 1 in turn are each judged in order |
| SequenceProperties.WrapGapIsMissed | src/main/java/net/dv8tion/jda/internal/audio/Decoder.java:56-59 | with 65534 tracked, frame 1 (two numbers skipped across the wrap) is in order but not reported as a loss |

## Left out

- `AudioNatives` (src/main/java/net/dv8tion/jda/api/audio/AudioNatives.java): both flags are hard-coded `true` and `ensureOpus` only returns `true`. It has no logic beyond `synchronized`, which is a concurrency concern.
- The Concentus `OpusDecoder` internals: Opus decoding and packet-loss concealment (RFC 6716) are foreign DSP code. They are an oracle returning a sample count and filled work buffer, or a failure. The codec's internal state is hidden in the oracle supplied at each step.
- `finalize`: its timing depends on the garbage collector.
- `synchronized` on `close`: concurrency is not modelled.
- The `OpusPacket` constants (sample rate, channel count, `OPUS_FRAME_SIZE`) and the `AudioPacket` class are not part of this model. The frame size is a parameter. A packet is its sequence number, timestamp and payload buffer.
- StreamDecoder.Create: the session opening is reduced to a boolean parameter, because whether `new OpusDecoder(rate, channels)` succeeds depends on constants that are not part of this model.
- Buffers.Payload: only heap buffers are modelled. A direct or read-only buffer, where `array()` throws, is not modelled. Capacity is folded into "the window lies inside the backing array".
- JavaArrays.ArrayCopy: null arguments and copies within one array are not modelled; the decoder never makes either.
- The exact exception classes are reduced to the four `Fault` values.
