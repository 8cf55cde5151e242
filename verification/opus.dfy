/**
 The interface of the Opus decoding session the stream decoder drives. Its
 decoding and loss concealment are not modelled: a call is answered by an
 oracle with either a sample count and the filled work buffer, or a failure.
 */
module Opus {
  import opened JavaTypes

  /** Capacity of the sample work buffer handed to the codec on every call. */
  const WORK_BUFFER_SIZE: nat := 4096

  /** The sample work buffer after a codec call: a Java `short[4096]`. */
  type WorkBuffer = s: seq<Short> | |s| == WORK_BUFFER_SIZE witness NewArray<Short>(WORK_BUFFER_SIZE, 0)

  /** One call into the codec. `Conceal` passes no payload (a `null` array of
      length 0), asking the codec to synthesise the missing frame;
      `DecodeFrame` passes the encoded payload. Both write from offset 0 of the
      work buffer, ask for at most `frameSize` samples and disable forward
      error correction. */
  datatype CodecCall =
    | Conceal(frameSize: int)
    | DecodeFrame(payload: seq<Byte>, frameSize: int)

  /** The codec's answer: the returned `int` together with the work buffer it
      filled, or the `OpusException` it threw. */
  datatype CodecReply =
    | Decoded(count: Int, work: WorkBuffer)
    | Failed

  /** The codec session's behaviour at the moment of one call. */
  type Codec = CodecCall -> CodecReply
}
