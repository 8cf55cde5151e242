/**
 What the classifiers decide, set against the 16-bit wrapping reading of
 RTP sequence numbers (section 5.1 of RFC 3550), and the sequences of frames
 where the two readings part: the "unset" sentinel 65535 colliding with a
 real sequence number, and the counter wrapping from 65535 to 0.
 */
module SequenceProperties {
  import opened JavaTypes
  import opened Buffers
  import opened Opus
  import opened StreamDecoder

  /** The ordering test read with unsigned 16-bit subtraction: in order when
      ahead, or when more than ten behind modulo 2^16. */
  predicate WrappingInOrder(last: Char, newSeq: Char)
  {
    newSeq > last || (last - newSeq) % 0x1_0000 > REORDER_WINDOW
  }

  /** The loss test read with unsigned 16-bit addition: lost when beyond the
      successor of `last` modulo 2^16. */
  predicate WrappingLost(last: Char, newSeq: Char)
  {
    newSeq > (last + 1) % 0x1_0000
  }

  /** A frame ahead of the tracked one by at least two is also in order. */
  lemma LossImpliesInOrder(d: Decoder, newSeq: Char)
    requires WasPacketLost(d, newSeq)
    ensures IsInOrder(d, newSeq)
  {
  }

  /** While a number other than 65535 is tracked, the ordering test is exactly
      its wrapping reading. */
  lemma InOrderIsWrappingWhileTracking(d: Decoder, newSeq: Char)
    requires d.lastSeq != 0xFFFF
    ensures IsInOrder(d, newSeq) <==> WrappingInOrder(d.lastSeq, newSeq)
  {
  }

  /** With 65535 tracked, every frame is in order, although under the wrapping
      reading exactly the eleven numbers 65525..65535 are not. */
  lemma InOrderAtSentinel(d: Decoder, newSeq: Char)
    requires d.lastSeq == 0xFFFF
    ensures IsInOrder(d, newSeq)
    ensures !WrappingInOrder(d.lastSeq, newSeq) <==> 0xFFFF - REORDER_WINDOW <= newSeq
  {
  }

  /** Below 65535 the loss test is exactly its wrapping reading; at 65535 it
      never fires, while the wrapping reading fires for every frame but 0. */
  lemma LossIsWrappingBelowMax(d: Decoder, newSeq: Char)
    ensures d.lastSeq < 0xFFFF ==> (WasPacketLost(d, newSeq) <==> WrappingLost(d.lastSeq, newSeq))
    ensures d.lastSeq == 0xFFFF ==> !WasPacketLost(d, newSeq)
    ensures d.lastSeq == 0xFFFF ==> (WrappingLost(d.lastSeq, newSeq) <==> newSeq != 0)
  {
  }

  /** A frame with the given sequence number, timestamp and payload buffer. */
  function Frame(sequence: Char, timestamp: Int, audio: HeapBuffer): Option<AudioPacket>
  {
    Some(AudioPacket(sequence, timestamp, audio))
  }

  /** Frames 5 and 6 arrive, 7 is dropped: frame 8 is in order and reports the
      loss, frame 7 alone would not, and a duplicate of 6 is rejected. */
  lemma GapIsReported(ssrc: Int, audio: HeapBuffer, frameSize: int, codec: Codec)
    ensures var d0 := Create(ssrc, true).value;
      var d1 := DecodeStep(d0, Frame(5, 960, audio), frameSize, codec).next;
      var d2 := DecodeStep(d1, Frame(6, 1920, audio), frameSize, codec).next;
      && WasPacketLost(d2, 8) && IsInOrder(d2, 8)
      && !WasPacketLost(d2, 7) && IsInOrder(d2, 7)
      && !IsInOrder(d2, 6)
  {
  }

  /** A loss decode the codec answers puts the decoder back to tracking
      nothing: every following frame is in order and none reports a loss. */
  lemma ConcealedLossForgetsOrder(d: Decoder, frameSize: int, codec: Codec, newSeq: Char)
    requires d.open && codec(Conceal(frameSize)).Decoded?
    ensures var next := DecodeStep(d, None, frameSize, codec).next;
      IsInOrder(next, newSeq) && !WasPacketLost(next, newSeq)
  {
  }

  /** A loss decode the codec rejects keeps the old reference: a duplicate of
      the tracked frame is still rejected afterwards. */
  lemma FailedConcealmentKeepsOrder(d: Decoder, frameSize: int, codec: Codec)
    requires d.open && codec(Conceal(frameSize)).Failed? && d.lastSeq != 0xFFFF
    ensures var r := DecodeStep(d, None, frameSize, codec);
      r.output == Err(CodecFailure) && !IsInOrder(r.next, d.lastSeq)
  {
  }

  /** A real frame numbered 65535 reads as "unset": a duplicate of it, or any
      frame up to ten behind it, is judged in order, and the tracked
      timestamp stays set while the sequence number reads as unset. */
  lemma SentinelCollision(d: Decoder, timestamp: Int, audio: HeapBuffer, frameSize: int, codec: Codec)
    requires timestamp != -1
    ensures var next := DecodeStep(d, Frame(0xFFFF, timestamp, audio), frameSize, codec).next;
      && IsInOrder(next, 0xFFFF) && IsInOrder(next, 0xFFFF - REORDER_WINDOW)
      && next.lastSeq == UNSET_SEQ && next.lastTimestamp != UNSET_TIMESTAMP
  {
  }

  /** With 65534 tracked, frames 65535, 0 and 1 in turn are each judged in
      order when they arrive; 0 passes the "unset" test first, and would pass
      the backward-distance test as well, since 65535 - 0 > 10. */
  lemma WrapIsInOrder(d: Decoder, audio: HeapBuffer, frameSize: int, codec: Codec)
    requires d.lastSeq == 0xFFFF - 1
    ensures var d1 := DecodeStep(d, Frame(0xFFFF, 0, audio), frameSize, codec).next;
      var d2 := DecodeStep(d1, Frame(0, 960, audio), frameSize, codec).next;
      && IsInOrder(d, 0xFFFF) && IsInOrder(d1, 0) && IsInOrder(d2, 1)
  {
  }

  /** Skipping 65535 and 0 across the wrap goes unreported: after 65534 the
      frame 1 lies three ahead modulo 2^16 and is in order, yet it is not a
      loss, neither as written nor under the wrapping reading. */
  lemma WrapGapIsMissed(d: Decoder)
    requires d.lastSeq == 0xFFFF - 1
    ensures (1 - d.lastSeq) % 0x1_0000 == 3
    ensures IsInOrder(d, 1) && !WasPacketLost(d, 1) && !WrappingLost(d.lastSeq, 1)
  {
  }
}
