/** Which values are performatives (AMQP 1.0 Part 2, section 2.7), on the way in and on the way out, and where a frame has them. */
module Performatives {
  import opened Octets
  import opened Options
  import opened AmqpValues
  import opened AmqpEncoding
  import opened DecoderSpec
  import opened Chunking
  import opened RoundTripSpec
  import opened ValueStream
  import opened WireFormat
  import opened WireDecoding
  import opened WireEncoding
  import opened FrameEncoding
  import opened FrameLayout
  import opened AmqpFraming

  /** A described value whose descriptor is one of these nine numbers. */
  predicate IsOneOfTheNine(v: Value) {
    (v.Described? || v.Composite?) && v.descriptor.ULong? &&
    (var n := v.descriptor.ul;
     n == 0x10 || n == 0x11 || n == 0x12 || n == 0x13 || n == 0x14 || n == 0x15 || n == 0x16 || n == 0x17 || n == 0x18)
  }

  lemma TheNine(v: Value)
    ensures IsPerformative(v) <==> IsOneOfTheNine(v)
  {
  }

  lemma HearAnother(v: Value)
    requires !IsPerformative(v)
    ensures Hear(Heard(false, None), [v]).failed
  {
    assert [v][1..] == [];
  }

  /** The first value called back decides: anything but a performative fails the body. */
  lemma {:induction false} AnotherValueFails(d: Decoder, enc: Bytes, v: Value, payload: Bytes)
    requires WellFormed(d, 0, true) && !IsPerformative(v)
    requires Feed(d, 0, true, enc).Ran? && Feed(d, 0, true, enc).calls == [v]
    ensures SplitBody(d, enc + payload) == Split(Start, true, None, [])
    decreases |enc|
  {
    hide Feed, WellFormed, IsPerformative;
    FeedNothing(d, 0, true);
    assert enc != [];
    var b, tail := enc[0], enc[1..];
    assert enc == [b] + tail;
    FeedSplit(d, 0, true, [b], tail);
    var r := Feed(d, 0, true, [b]);
    assert (enc + payload)[0] == b && (enc + payload)[1..] == tail + payload;
    OutermostNotDone(r.state, 0);
    var r2 := Feed(r.state, 0, true, tail);
    assert r.calls + r2.calls == [v];
    HearAnother(v);
    if r.calls != [] {
      assert |r.calls| + |r2.calls| == 1;
      assert r.calls[0] == (r.calls + r2.calls)[0] && r.calls == [v];
    } else {
      assert r.calls + r2.calls == r2.calls;
      HearNone(r.calls);
      AnotherValueFails(r.state, tail, v, payload);
    }
  }

  /** Octets that denote a value call it back, if it is within the limits, and nothing else. */
  lemma CalledBack(bs: Bytes, v: Value)
    requires Denotes(bs, v)
    ensures var r := Feed(Start, 0, true, bs);
      if Fits(v, 0) then r.Ran? && r.calls == [v] && (!EmptyContent(v) ==> r == Ran(Start, [], [v])) else r == Broke([])
  {
    hide Feed, Denotes, Fits;
    assert bs + [] == bs;
    DecodeDenoted(bs, v, 0, []);
    OutermostFollows(Start, 0, bs);
    FeedNothing(Start, 0, true);
    assert [v] + [] == [v];
  }

  /**
   A frame whose body begins with a value, in any of its forms: it is delivered with this value and the rest as payload
   exactly when the value is within the limits and is one of the nine; otherwise the error is all there is, for ever.
   */
  lemma DeliveredExactlyWhen(high: Byte, low: Byte, more: Bytes, bs: Bytes, v: Value, payload: Bytes)
    requires Denotes(bs, v)
    ensures OnFrame(Splitter(Start, false), [high, low] + more, bs + payload) ==
      if Fits(v, 0) && IsOneOfTheNine(v) then
        Heeded(Splitter(Start, false), [FrameReceived((high as int) * 256 + low, Some(v), payload)])
      else Heeded(Splitter(Start, true), [AmqpCodecError])
  {
    hide Feed, Denotes, Fits, SplitBody, IsPerformative, IsOneOfTheNine, WellFormed;
    StartIsWellFormed(0);
    DenotesNotEmpty(bs, v);
    assert bs + payload != [];
    CalledBack(bs, v);
    TheNine(v);
    if !Fits(v, 0) {
      BrokenBody(Start, bs, payload);
    } else if IsPerformative(v) {
      NotEmptyContent(v);
      PayloadStartsAfter(Start, bs, v, payload);
    } else {
      AnotherValueFails(Start, bs, v, payload);
    }
  }

  lemma NotEmptyContent(v: Value)
    requires IsPerformative(v)
    ensures !EmptyContent(v)
  {
  }

  /** What the encoder takes: one of the nine that can be encoded, payloads that are not empty, and no more octets than the limit. */
  lemma AcceptedExactlyWhen(channel: UShortInt, v: Value, payloads: seq<Bytes>, max: nat)
    ensures Acceptable(Message(channel, v, payloads), max) <==>
      && IsOneOfTheNine(v) && Encodable(v) && (forall k :: 0 <= k < |payloads| ==> payloads[k] != [])
      && 8 + |Encode(v)| + |Join(payloads)| <= max
  {
    hide Encodable, Encode, IsPerformative, IsOneOfTheNine;
    TheNine(v);
    ChannelComesBack(channel);
    var all := [Encode(v)] + payloads;
    assert all[1..] == payloads;
    assert forall k :: 0 <= k < |payloads| ==> all[k + 1] == payloads[k];
    if Encodable(v) {
      NonEmptyEncoding(v);
    }
  }

  /** The octets of a message: size, an offset of 2, type 0, the channel, the performative and the payloads. */
  lemma MessageByPosition(m: OutMessage, max: nat)
    requires Acceptable(m, max) && max < U32
    ensures var bs := EncodedFrame(AsFrame(m));
      && |bs| >= 8 && Number(bs[..4]) == |bs| && bs[4] == 2 && bs[5] == 0 && (bs[6] as int) * 256 + bs[7] == m.channel
      && bs[8..] == if m.Message? then Encode(m.performative) + Join(m.payloads) else []
  {
    hide Encodable, Encode, IsPerformative, EncodedFrame, Number;
    var f := AsFrame(m);
    EncodedByPosition(f, max);
    var bs := EncodedFrame(f);
    assert bs[6] == bs[6..8][0] && bs[7] == bs[6..8][1];
    if m.Message? {
      assert ([Encode(m.performative)] + m.payloads)[1..] == m.payloads;
    } else {
      assert Join([]) == [];
    }
  }
}
