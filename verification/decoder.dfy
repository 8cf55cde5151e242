/**
 The per-stream decoder: the sequence number and timestamp it last tracked,
 the ordering and loss classifiers over them, the decode step that moves them
 on a frame or on a loss signal, and the release of the codec handle.

 The tracked sequence number is a Java `char` and the "unset" value is
 `(char) -1`, which is 65535 and therefore also a legitimate RTP sequence
 number. The classifiers compare after promotion to `int`, so nothing in them
 wraps modulo 2^16.
 */
module StreamDecoder {
  import opened JavaTypes
  import opened Buffers
  import opened Opus

  /** `(char) -1`: the tracked sequence number of a decoder that tracks nothing. */
  const UNSET_SEQ: Char := ToChar(-1)

  /** The tracked timestamp of a decoder that tracks nothing. */
  const UNSET_TIMESTAMP: Int := -1

  /** How far behind the tracked sequence number a frame may be and still be
      judged a duplicate or reordered frame. */
  const REORDER_WINDOW: int := 10

  /** A decoded RTP audio frame: sequence number, timestamp and encoded payload. */
  datatype AudioPacket = AudioPacket(sequence: Char, timestamp: Int, encodedAudio: HeapBuffer)

  /** The state of one stream's decoder; `open` is whether it still holds its codec handle. */
  datatype Decoder = Decoder(ssrc: Int, lastSeq: Char, lastTimestamp: Int, open: bool)

  /** The outcome of one `decodeFromOpus` call: the decoder afterwards, the codec
      call it made (none when the handle was already released) and the samples
      returned or the fault raised. */
  datatype StepResult = StepResult(next: Decoder, call: Option<CodecCall>, output: Result<seq<Short>>)

  /** The constructor: tracks nothing and opens a codec session, which fails
      only when the codec rejects its configuration. */
  function Create(ssrc: Int, sessionOk: bool): (r: Result<Decoder>)
    ensures r.Ok? <==> sessionOk
    ensures r.Err? ==> r.fault == CodecFailure
    ensures r.Ok? ==> r.value.ssrc == ssrc && r.value.open
    ensures r.Ok? ==> r.value.lastSeq == 0xFFFF && r.value.lastTimestamp == -1
  {
    if sessionOk then Ok(Decoder(ssrc, UNSET_SEQ, UNSET_TIMESTAMP, true))
    else Err(CodecFailure)
  }

  /** `isInOrder`: false exactly for a frame at most ten behind the tracked one
      (a duplicate or a short backward jump), unless the tracked number reads
      as unset, in which case every frame is in order. */
  function IsInOrder(d: Decoder, newSeq: Char): (r: bool)
    ensures !r <==> d.lastSeq != 0xFFFF && d.lastSeq - REORDER_WINDOW <= newSeq <= d.lastSeq
  {
    d.lastSeq == UNSET_SEQ || newSeq > d.lastSeq || d.lastSeq - newSeq > REORDER_WINDOW
  }

  /** `wasPacketLost`: true when at least one sequence number was skipped going
      forward, compared as plain integers, so never across a wrap of the
      counter and never when the tracked number is 65535. */
  function WasPacketLost(d: Decoder, newSeq: Char): (r: bool)
    ensures r <==> newSeq >= d.lastSeq + 2
    ensures r ==> d.lastSeq <= 0xFFFF - 2 && newSeq > d.lastSeq
  {
    newSeq > d.lastSeq + 1
  }

  /** The tail of `decodeFromOpus`: copies the first `count` samples of the work
      buffer into a new array of that length. */
  function Trim(work: WorkBuffer, count: Int): (r: Result<seq<Short>>)
    ensures r.Ok? <==> 0 <= count <= WORK_BUFFER_SIZE
    ensures count < 0 ==> r == Err(NegativeArraySize)
    ensures count > WORK_BUFFER_SIZE ==> r == Err(IndexOutOfBounds)
    ensures r.Ok? ==> |r.value| == count && forall i :: 0 <= i < count ==> r.value[i] == work[i]
  {
    if count < 0 then Err(NegativeArraySize)
    else if count > WORK_BUFFER_SIZE then Err(IndexOutOfBounds)
    else Ok(work[..count])
  }

  /** The decoder with both tracked values back at their "unset" sentinels. */
  function Untracked(d: Decoder): Decoder
  {
    d.(lastSeq := UNSET_SEQ, lastTimestamp := UNSET_TIMESTAMP)
  }

  /** `decodeFromOpus`. A loss signal (`None`) asks the codec to conceal the gap
      and only when it answers are the tracked values reset. A frame is tracked
      first, then its payload is handed to the codec, so the frame stays tracked
      whatever the codec does. On a released handle the codec is never reached. */
  function DecodeStep(d: Decoder, packet: Option<AudioPacket>, frameSize: int, codec: Codec): (r: StepResult)
    // nothing but the two tracked values ever changes
    ensures r.next.ssrc == d.ssrc && r.next.open == d.open
    // a frame is tracked whatever happens afterwards
    ensures packet.Some? ==>
      r.next.lastSeq == packet.value.sequence && r.next.lastTimestamp == packet.value.timestamp
    // a loss signal resets the tracked values exactly when the codec answered
    ensures packet.None? && d.open && codec(Conceal(frameSize)).Decoded? ==>
      r.next.lastSeq == 0xFFFF && r.next.lastTimestamp == -1
    ensures packet.None? && !(d.open && codec(Conceal(frameSize)).Decoded?) ==> r.next == d
    // after close the codec is not called and the call fails
    ensures !d.open ==> r.call.None? && r.output == Err(NullHandle)
    // the codec receives exactly the payload bytes of the frame, in order
    ensures d.open && packet.None? ==> r.call == Some(Conceal(frameSize))
    ensures d.open && packet.Some? ==>
      && r.call.Some? && r.call.value.DecodeFrame? && r.call.value.frameSize == frameSize
      && var b := packet.value.encodedAudio;
         |r.call.value.payload| == b.Remaining()
         && forall i :: 0 <= i < |r.call.value.payload| ==>
              r.call.value.payload[i] == b.backing[b.arrayOffset + b.position + i]
    // the samples returned are the first `count` entries of the work buffer
    ensures r.call.Some? && codec(r.call.value).Failed? ==> r.output == Err(CodecFailure)
    ensures r.output.Ok? <==>
      r.call.Some? && codec(r.call.value).Decoded? && 0 <= codec(r.call.value).count <= WORK_BUFFER_SIZE
    ensures r.call.Some? && codec(r.call.value).Decoded? ==>
      r.output == Trim(codec(r.call.value).work, codec(r.call.value).count)
    ensures r.output.Ok? ==>
      var reply := codec(r.call.value);
      |r.output.value| == reply.count
      && forall i :: 0 <= i < reply.count ==> r.output.value[i] == reply.work[i]
  {
    match packet
    case None =>
      if !d.open then StepResult(d, None, Err(NullHandle))
      else
        var call := Conceal(frameSize);
        (match codec(call)
         case Failed => StepResult(d, Some(call), Err(CodecFailure))
         case Decoded(count, work) => StepResult(Untracked(d), Some(call), Trim(work, count)))
    case Some(p) =>
      var tracked := d.(lastSeq := p.sequence, lastTimestamp := p.timestamp);
      if !d.open then StepResult(tracked, None, Err(NullHandle))
      else
        var call := DecodeFrame(Payload(p.encodedAudio), frameSize);
        (match codec(call)
         case Failed => StepResult(tracked, Some(call), Err(CodecFailure))
         case Decoded(count, work) => StepResult(tracked, Some(call), Trim(work, count)))
  }

  /** `close`: drops the codec handle if it is still held; nothing else changes. */
  function Close(d: Decoder): (r: Decoder)
    ensures !r.open
    ensures r.ssrc == d.ssrc && r.lastSeq == d.lastSeq && r.lastTimestamp == d.lastTimestamp
  {
    if d.open then d.(open := false) else d
  }
}
