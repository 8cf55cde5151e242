/**
 A decoder driven by its caller through a sequence of requests: the two
 classifiers, decode calls (each answered by the codec's behaviour at that
 moment) and close. The lemmas here hold for every such sequence.
 */
module DecoderSession {
  import opened JavaTypes
  import opened Opus
  import opened StreamDecoder

  datatype Request =
    | CheckOrder(newSeq: Char)
    | CheckLoss(newSeq: Char)
    | Decode(packet: Option<AudioPacket>, frameSize: int, codec: Codec)
    | Release

  datatype Reply = Flag(flag: bool) | Audio(output: Result<seq<Short>>) | Closed

  /** One request against the decoder: the decoder afterwards and the caller's answer. */
  function Apply(d: Decoder, req: Request): (Decoder, Reply)
  {
    match req
    case CheckOrder(n) => (d, Flag(IsInOrder(d, n)))
    case CheckLoss(n) => (d, Flag(WasPacketLost(d, n)))
    case Decode(packet, frameSize, codec) =>
      var step := DecodeStep(d, packet, frameSize, codec);
      (step.next, Audio(step.output))
    case Release => (Close(d), Closed)
  }

  /** Serves the requests in order; one reply per request. */
  function Run(d: Decoder, reqs: seq<Request>): (r: (Decoder, seq<Reply>))
    ensures |r.1| == |reqs|
    decreases |reqs|
  {
    if |reqs| == 0 then (d, [])
    else
      var (d1, reply) := Apply(d, reqs[0]);
      var (dn, replies) := Run(d1, reqs[1..]);
      (dn, [reply] + replies)
  }

  /** The (sequence, timestamp) pairs carried by the frames among the requests. */
  function Offered(reqs: seq<Request>): set<(Char, Int)>
    decreases |reqs|
  {
    if |reqs| == 0 then {}
    else
      var here := if reqs[0].Decode? && reqs[0].packet.Some?
        then {(reqs[0].packet.value.sequence, reqs[0].packet.value.timestamp)} else {};
      here + Offered(reqs[1..])
  }

  function Tracked(d: Decoder): (Char, Int)
  {
    (d.lastSeq, d.lastTimestamp)
  }

  /** The stream identifier never changes. */
  lemma {:induction false} RunKeepsSsrc(d: Decoder, reqs: seq<Request>)
    ensures Run(d, reqs).0.ssrc == d.ssrc
    decreases |reqs|
  {
    if |reqs| > 0 {
      RunKeepsSsrc(Apply(d, reqs[0]).0, reqs[1..]);
    }
  }

  /** Classifier requests change nothing, and each is answered against the
      decoder as it was. */
  lemma {:induction false} ClassifiersArePure(d: Decoder, reqs: seq<Request>)
    requires forall i :: 0 <= i < |reqs| ==> reqs[i].CheckOrder? || reqs[i].CheckLoss?
    ensures Run(d, reqs).0 == d
    ensures forall i :: 0 <= i < |reqs| && reqs[i].CheckOrder? ==>
      Run(d, reqs).1[i] == Flag(IsInOrder(d, reqs[i].newSeq))
    ensures forall i :: 0 <= i < |reqs| && reqs[i].CheckLoss? ==>
      Run(d, reqs).1[i] == Flag(WasPacketLost(d, reqs[i].newSeq))
    decreases |reqs|
  {
    if |reqs| > 0 {
      ClassifiersArePure(d, reqs[1..]);
      var replies := Run(d, reqs).1;
      assert replies == [Apply(d, reqs[0]).1] + Run(d, reqs[1..]).1;
      forall i | 1 <= i < |reqs|
        ensures replies[i] == Run(d, reqs[1..]).1[i - 1]
      {
      }
    }
  }

  /** Once closed, a decoder stays closed and every later decode fails with a
      null handle; the codec is never reached. */
  lemma {:induction false} UseAfterCloseFails(d: Decoder, reqs: seq<Request>)
    requires !d.open
    ensures !Run(d, reqs).0.open
    ensures forall i :: 0 <= i < |reqs| && reqs[i].Decode? ==>
      Run(d, reqs).1[i] == Audio(Err(NullHandle))
    decreases |reqs|
  {
    if |reqs| > 0 {
      var d1 := Apply(d, reqs[0]).0;
      UseAfterCloseFails(d1, reqs[1..]);
      var replies := Run(d, reqs).1;
      forall i | 1 <= i < |reqs|
        ensures replies[i] == Run(d1, reqs[1..]).1[i - 1]
      {
      }
    }
  }

  /** The tracked pair only ever moves to the pair of a frame handed to decode,
      or back to the "unset" sentinels: it is what it was, the sentinels, or
      the pair of some frame among the requests. */
  lemma {:induction false} TrackedComesFromFrames(d: Decoder, reqs: seq<Request>)
    ensures var t := Tracked(Run(d, reqs).0);
      t == Tracked(d) || t == (0xFFFF, -1) || t in Offered(reqs)
    decreases |reqs|
  {
    if |reqs| > 0 {
      var d1 := Apply(d, reqs[0]).0;
      TrackedComesFromFrames(d1, reqs[1..]);
      assert Run(d, reqs).0 == Run(d1, reqs[1..]).0;
      assert Offered(reqs[1..]) <= Offered(reqs);
      if reqs[0].Decode? && reqs[0].packet.Some? {
        assert Tracked(d1) in Offered(reqs);
      }
    }
  }

  /** Closing twice is the same as closing once. */
  lemma CloseIsIdempotent(d: Decoder)
    ensures Run(d, [Release, Release]) == (Close(d), [Closed, Closed])
    ensures Close(Close(d)) == Close(d)
  {
    var once: seq<Request> := [Release];
    var twice: seq<Request> := [Release, Release];
    assert once[1..] == [] && twice[1..] == once;
    assert [Closed] + [] == [Closed];
    assert Run(Close(d), once) == (Close(d), [Closed]);
    assert Run(d, twice) == (Close(d), [Closed] + [Closed]);
    assert [Closed] + [Closed] == [Closed, Closed];
  }
}
