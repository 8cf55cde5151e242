/**
 `decodeFromOpus` statement by statement: a zeroed work buffer, the state
 update, the payload copy with `System.arraycopy`, the codec call, and the
 copy of the produced samples into an array of exactly that length. It agrees
 with `StreamDecoder.DecodeStep` on every input.
 */
module DecodeMethod {
  import opened JavaTypes
  import opened JavaArrays
  import opened Buffers
  import opened Opus
  import opened StreamDecoder

  method DecodeFromOpus(d: Decoder, packet: Option<AudioPacket>, frameSize: int, codec: Codec)
    returns (next: Decoder, call: Option<CodecCall>, output: Result<seq<Short>>)
    ensures StepResult(next, call, output) == DecodeStep(d, packet, frameSize, codec)
  {
    next := d;
    var decoded: seq<Short> := NewArray<Short>(WORK_BUFFER_SIZE, 0);
    var result: Int;
    if packet.None? {
      // loss signal: conceal first, reset only once the codec has answered
      if !next.open {
        return next, None, Err(NullHandle);
      }
      call := Some(Conceal(frameSize));
      var reply := codec(call.value);
      if reply.Failed? {
        return next, call, Err(CodecFailure);
      }
      result, decoded := reply.count, reply.work;
      next := next.(lastSeq := UNSET_SEQ, lastTimestamp := UNSET_TIMESTAMP);
    } else {
      // a frame: track it first, then copy its payload and decode
      var p := packet.value;
      next := next.(lastSeq := p.sequence, lastTimestamp := p.timestamp);
      var encodedAudio := p.encodedAudio;
      var length := encodedAudio.Remaining();
      var offset := encodedAudio.arrayOffset + encodedAudio.position;
      var copied := ArrayCopy(encodedAudio.backing, offset, NewArray<Byte>(length, 0), 0, length);
      var buf := copied.value;
      assert buf == Payload(encodedAudio);
      if !next.open {
        return next, None, Err(NullHandle);
      }
      call := Some(DecodeFrame(buf, frameSize));
      var reply := codec(call.value);
      if reply.Failed? {
        return next, call, Err(CodecFailure);
      }
      result, decoded := reply.count, reply.work;
    }
    if result < 0 {
      return next, call, Err(NegativeArraySize);
    }
    output := ArrayCopy(decoded, 0, NewArray<Short>(result, 0), 0, result);
    if output.Ok? {
      assert output.value == decoded[..result];
    }
  }
}
