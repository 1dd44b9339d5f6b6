/**
 How src/amqp_frame_codec.c tells a frame's performative from its payload: it feeds the value decoder one
 octet at a time until a value comes out; the rest of the body is the payload.
 */
module AmqpFraming {
  import opened Octets
  import opened Options
  import opened AmqpValues
  import opened AmqpEncoding
  import opened DecoderSpec
  import opened Chunking
  import opened RoundTripSpec
  import opened ValueStream
  import opened FrameDecoding
  import opened FrameEncoding

  const AMQP_OPEN: nat := 0x10
  const AMQP_CLOSE: nat := 0x18
  const FRAME_TYPE_AMQP: Byte := 0x00

  datatype AmqpEvent =
    | FrameReceived(channel: nat, performative: Option<Value>, payload: Bytes)
    | EmptyFrameReceived(channel: nat)
    | AmqpCodecError

  predicate IsPerformative(v: Value) {
    IsDescribed(v) && v.descriptor.ULong? && AMQP_OPEN <= v.descriptor.ul <= AMQP_CLOSE
  }

  // ---------------------------------------------------------------- splitting a body

  datatype Heard = Heard(failed: bool, performative: Option<Value>)

  /** `amqp_value_decoded`, called for each value: the last performative stays, anything else is an error. */
  function Hear(h: Heard, calls: seq<Value>): Heard
    decreases |calls|
  {
    if calls == [] then h
    else Hear(if IsPerformative(calls[0]) then h.(performative := Some(calls[0])) else h.(failed := true), calls[1..])
  }

  datatype Split = Split(decoder: Decoder, failed: bool, performative: Option<Value>, payload: Bytes)

  /** A decoder that failed is not used again; its state does not matter. */
  function SplitBody(d: Decoder, body: Bytes): (s: Split)
    requires WellFormed(d, 0, true)
    ensures WellFormed(s.decoder, 0, true)
    decreases |body|
  {
    if body == [] then Split(d, false, None, [])
    else
      var r := Feed(d, 0, true, [body[0]]);
      var h := Hear(Heard(false, None), r.calls);
      if r.Broke? || h.failed then Split(Start, true, None, [])
      else if h.performative.Some? then Split(r.state, false, h.performative, body[1..])
      else SplitBody(r.state, body[1..])
  }

  datatype Splitter = Splitter(decoder: Decoder, failed: bool)

  datatype Heeded = Heeded(next: Splitter, events: seq<AmqpEvent>)

  function OnFrame(s: Splitter, specific: Bytes, body: Bytes): (h: Heeded)
    requires WellFormed(s.decoder, 0, true)
    ensures WellFormed(h.next.decoder, 0, true)
  {
    if s.failed then Heeded(s, [])
    else if |specific| < 2 then Heeded(Splitter(Start, true), [AmqpCodecError])
    else
      var channel := ChannelOf(specific);
      if body == [] then Heeded(s, [EmptyFrameReceived(channel)])
      else
        var b := SplitBody(s.decoder, body);
        if b.failed then Heeded(Splitter(Start, true), [AmqpCodecError])
        else Heeded(Splitter(b.decoder, false), [FrameReceived(channel, b.performative, b.payload)])
  }

  function ChannelOf(specific: Bytes): nat
    requires |specific| >= 2
  {
    (specific[0] as int) * 256 + specific[1]
  }

  /** What the subscriber for AMQP frames makes of what the frame codec delivers. */
  function OnFrames(s: Splitter, es: seq<FrameEvent>): (h: Heeded)
    requires WellFormed(s.decoder, 0, true)
    ensures WellFormed(h.next.decoder, 0, true)
    decreases |es|
  {
    if es == [] then Heeded(s, [])
    else if es[0].Received? && es[0].frameType == FRAME_TYPE_AMQP then
      var h := OnFrame(s, es[0].specific, es[0].body);
      var rest := OnFrames(h.next, es[1..]);
      Heeded(rest.next, h.events + rest.events)
    else OnFrames(s, es[1..])
  }

  // ---------------------------------------------------------------- chunking, through the whole stack

  lemma {:induction false} OnFramesSplit(s: Splitter, a: seq<FrameEvent>, b: seq<FrameEvent>)
    requires WellFormed(s.decoder, 0, true)
    ensures var h := OnFrames(s, a); var i := OnFrames(h.next, b);
      OnFrames(s, a + b) == Heeded(i.next, h.events + i.events)
    decreases |a|
  {
    hide OnFrame, WellFormed;
    if a == [] {
      assert a + b == b;
      assert [] + OnFrames(s, b).events == OnFrames(s, b).events;
    } else {
      assert (a + b)[0] == a[0] && (a + b)[1..] == a[1..] + b;
      if a[0].Received? && a[0].frameType == FRAME_TYPE_AMQP {
        var h := OnFrame(s, a[0].specific, a[0].body);
        OnFramesSplit(h.next, a[1..], b);
        var mid := OnFrames(h.next, a[1..]);
        var end := OnFrames(mid.next, b);
        assert h.events + (mid.events + end.events) == (h.events + mid.events) + end.events;
      } else {
        OnFramesSplit(s, a[1..], b);
      }
    }
  }

  /** Octets arrive chunk by chunk, and the frames each chunk completes are handed on at once. */
  function Stack(f: FrameState, s: Splitter, max: nat, types: set<Byte>, chunks: seq<Bytes>): (h: Heeded)
    requires WellFormed(s.decoder, 0, true)
    decreases |chunks|
  {
    if chunks == [] then Heeded(s, [])
    else
      var r := RunFrames(f, max, types, chunks[0]);
      var h := OnFrames(s, r.events);
      var rest := Stack(r.next, h.next, max, types, chunks[1..]);
      Heeded(rest.next, h.events + rest.events)
  }

  /** On any octets at all, cutting them differently changes nothing that the stack reports. */
  lemma {:induction false} StackChunkingIsIrrelevant(f: FrameState, s: Splitter, max: nat, types: set<Byte>, chunks: seq<Bytes>)
    requires WellFormed(s.decoder, 0, true)
    ensures Stack(f, s, max, types, chunks) == OnFrames(s, RunFrames(f, max, types, Join(chunks)).events)
    decreases |chunks|
  {
    hide OnFrames, RunFrames, WellFormed;
    if chunks == [] {
      NothingToRun(f, max, types);
      NoFrames(s);
    } else {
      var r := RunFrames(f, max, types, chunks[0]);
      var h := OnFrames(s, r.events);
      StackChunkingIsIrrelevant(r.next, h.next, max, types, chunks[1..]);
      RunFramesSplit(f, max, types, chunks[0], Join(chunks[1..]));
      OnFramesSplit(s, r.events, RunFrames(r.next, max, types, Join(chunks[1..])).events);
    }
  }

  lemma NoFrames(s: Splitter)
    requires WellFormed(s.decoder, 0, true)
    ensures OnFrames(s, []) == Heeded(s, [])
  {
  }

  // ---------------------------------------------------------------- where the payload starts

  lemma TurnToStart(d: Decoder, depth: nat, b: Byte)
    requires WellFormed(d, depth, true)
    ensures var t := Iterate(d, depth, true, b); t.Ok? && t.state == Start ==> t.calls != []
  {
    hide Slack, Feed;
  }

  /** The outermost decoder is back at its start only when it has called back. */
  lemma {:induction false} StartMeansCalled(d: Decoder, bs: Bytes)
    requires WellFormed(d, 0, true) && bs != []
    ensures var r := Feed(d, 0, true, bs); r.Ran? && r.state == Start ==> r.calls != []
    decreases |bs|, Slack(d)
  {
    hide Iterate, WellFormed, Slack;
    OutermostNotDone(d, 0);
    IterateKeepsInvariant(d, 0, true, bs[0]);
    TurnToStart(d, 0, bs[0]);
    var t := Iterate(d, 0, true, bs[0]);
    if t.Ok? {
      var rest := if t.used then bs[1..] else bs;
      if rest != [] {
        StartMeansCalled(t.state, rest);
      }
    }
  }

  /** The encoding marks its own end: no octet less, and none of the payload, is taken for the performative. */
  lemma {:induction false} PayloadStartsAfter(d: Decoder, enc: Bytes, v: Value, payload: Bytes)
    requires WellFormed(d, 0, true) && enc != [] && IsPerformative(v)
    requires Feed(d, 0, true, enc) == Ran(Start, [], [v])
    ensures SplitBody(d, enc + payload) == Split(Start, false, Some(v), payload)
    decreases |enc|
  {
    hide Feed, WellFormed;
    var b, tail := enc[0], enc[1..];
    assert enc == [b] + tail;
    FeedSplit(d, 0, true, [b], tail);
    var r := Feed(d, 0, true, [b]);
    assert (enc + payload)[0] == b && (enc + payload)[1..] == tail + payload;
    assert Hear(Heard(false, None), [v]) == Heard(false, Some(v)) by { HearOne(v); }
    OutermostNotDone(r.state, 0);
    var r2 := Feed(r.state, 0, true, tail);
    assert r.calls + r2.calls == [v];
    if tail == [] {
      FeedNothing(r.state, 0, true);
      assert tail + payload == payload;
      assert r.calls == r.calls + r2.calls == [v] && r.state == Start;
    } else {
      StartMeansCalled(r.state, tail);
      assert |r.calls| + |r2.calls| == 1;
      assert r.calls == [] && r2.calls == [v];
      PayloadStartsAfter(r.state, tail, v, payload);
    }
  }

  /** A body that ends inside the performative: nothing is reported, and the next frame's body is read as its rest. */
  lemma {:induction false} PerformativeGoesOn(d: Decoder, a: Bytes, b: Bytes, v: Value)
    requires WellFormed(d, 0, true) && b != [] && IsPerformative(v)
    requires Feed(d, 0, true, a + b) == Ran(Start, [], [v])
    ensures var s := SplitBody(d, a);
      !s.failed && s.performative == None && s.payload == [] &&
      forall payload :: SplitBody(s.decoder, b + payload) == Split(Start, false, Some(v), payload)
    decreases |a|
  {
    hide Feed, WellFormed;
    if a == [] {
      assert a + b == b;
      forall payload ensures SplitBody(d, b + payload) == Split(Start, false, Some(v), payload) {
        PayloadStartsAfter(d, b, v, payload);
      }
    } else {
      var tail := a[1..] + b;
      assert a + b == [a[0]] + tail;
      FeedSplit(d, 0, true, [a[0]], tail);
      var r := Feed(d, 0, true, [a[0]]);
      OutermostNotDone(r.state, 0);
      var r2 := Feed(r.state, 0, true, tail);
      StartMeansCalled(r.state, tail);
      assert r.calls + r2.calls == [v];
      assert |r.calls| + |r2.calls| == 1;
      assert r.calls == [] && r2.calls == [v];
      PerformativeGoesOn(r.state, a[1..], b, v);
    }
  }

  /** Octets without a callback are only passed on. */
  lemma {:induction false} QuietPrefix(d: Decoder, enc: Bytes, tail: Bytes)
    requires WellFormed(d, 0, true) && Feed(d, 0, true, enc).Ran? && Feed(d, 0, true, enc).calls == []
    ensures WellFormed(Feed(d, 0, true, enc).state, 0, true)
    ensures SplitBody(d, enc + tail) == SplitBody(Feed(d, 0, true, enc).state, tail)
    decreases |enc|
  {
    hide Feed, WellFormed;
    if enc == [] {
      FeedNothing(d, 0, true);
      assert enc + tail == tail;
    } else {
      var b, more := enc[0], enc[1..];
      assert enc == [b] + more;
      FeedSplit(d, 0, true, [b], more);
      var r := Feed(d, 0, true, [b]);
      OutermostNotDone(r.state, 0);
      var r2 := Feed(r.state, 0, true, more);
      assert |r.calls| + |r2.calls| == 0;
      assert (enc + tail)[0] == b && (enc + tail)[1..] == more + tail;
      QuietPrefix(r.state, more, tail);
      assert r2.state == Feed(d, 0, true, enc).state;
    }
  }

  lemma {:induction false} HearKeeps(h: Heard, calls: seq<Value>)
    ensures var g := Hear(h, calls);
      (h.failed ==> g.failed) && (h.performative.Some? ==> g.performative.Some?) && (calls != [] ==> g.failed || g.performative.Some?)
    decreases |calls|
  {
    hide IsPerformative;
    if calls != [] {
      HearKeeps(if IsPerformative(calls[0]) then h.(performative := Some(calls[0])) else h.(failed := true), calls[1..]);
    }
  }

  /** A body is reported without a performative if and only if its octets make the value decoder call back nothing. */
  lemma {:induction false} WithoutPerformativeExactlyWhen(d: Decoder, body: Bytes)
    requires WellFormed(d, 0, true)
    ensures var s := SplitBody(d, body); var r := Feed(d, 0, true, body);
      && (!s.failed && s.performative.None? <==> r.Ran? && r.calls == [])
      && (r.Ran? && r.calls == [] ==> s == Split(r.state, false, None, []))
    decreases |body|
  {
    hide Feed, WellFormed, Hear;
    FeedNothing(d, 0, true);
    if body != [] {
      var b, more := body[0], body[1..];
      assert body == [b] + more;
      FeedSplit(d, 0, true, [b], more);
      var r := Feed(d, 0, true, [b]);
      HearKeeps(Heard(false, None), r.calls);
      if r.Ran? {
        OutermostNotDone(r.state, 0);
        WithoutPerformativeExactlyWhen(r.state, more);
        HearNone(r.calls);
        var r2 := Feed(r.state, 0, true, more);
        assert |r.calls + r2.calls| == |r.calls| + |r2.calls|;
      }
    }
  }

  lemma HearNone(calls: seq<Value>)
    ensures calls == [] ==> Hear(Heard(false, None), calls) == Heard(false, None)
  {
  }

  lemma HearOne(v: Value)
    requires IsPerformative(v)
    ensures Hear(Heard(false, None), [v]) == Heard(false, Some(v))
  {
    assert [v][1..] == [];
    assert forall h :: Hear(h, []) == h;
  }

  lemma {:induction false} BrokenBody(d: Decoder, enc: Bytes, payload: Bytes)
    requires WellFormed(d, 0, true) && Feed(d, 0, true, enc) == Broke([])
    ensures SplitBody(d, enc + payload) == Split(Start, true, None, [])
    decreases |enc|
  {
    hide Feed, WellFormed;
    FeedNothing(d, 0, true);
    assert enc != [];
    var b, tail := enc[0], enc[1..];
    assert enc == [b] + tail;
    FeedSplit(d, 0, true, [b], tail);
    var r := Feed(d, 0, true, [b]);
    assert (enc + payload)[0] == b && (enc + payload)[1..] == tail + payload;
    if r.Ran? {
      OutermostNotDone(r.state, 0);
      BrokenBody(r.state, tail, payload);
    }
  }

  // ---------------------------------------------------------------- what is sent

  datatype OutMessage =
    | Message(channel: UShortInt, performative: Value, payloads: seq<Bytes>)
    | Heartbeat(channel: UShortInt)

  function ChannelOctets(channel: UShortInt): Bytes {
    [channel / 256, channel % 256]
  }

  function AsFrame(m: OutMessage): OutFrame {
    OutFrame(FRAME_TYPE_AMQP, ChannelOctets(m.channel), if m.Heartbeat? then [] else [Encode(m.performative)] + m.payloads)
  }

  /** When `amqp_frame_codec_encode_frame` or `amqp_frame_codec_encode_empty_frame` accepts it. */
  predicate Acceptable(m: OutMessage, max: nat) {
    (m.Message? ==> IsPerformative(m.performative) && Encodable(m.performative)) && Sendable(AsFrame(m), max)
  }

  /** An empty frame has 8 octets, which every limit allows. */
  lemma HeartbeatAccepted(channel: UShortInt, max: nat)
    requires max >= FRAME_HEADER_SIZE
    ensures Acceptable(Heartbeat(channel), max) && |EncodedFrame(AsFrame(Heartbeat(channel)))| == 8
  {
    ChannelComesBack(channel);
    Padding(AsFrame(Heartbeat(channel)));
    assert Join([]) == [];
  }

  function AsFrames(ms: seq<OutMessage>): (fs: seq<OutFrame>)
    ensures |fs| == |ms|
  {
    if ms == [] then [] else [AsFrame(ms[0])] + AsFrames(ms[1..])
  }

  predicate AllAcceptable(ms: seq<OutMessage>, max: nat) {
    ms == [] || (Acceptable(ms[0], max) && (ms[0].Message? ==> Regular(ms[0].performative)) && AllAcceptable(ms[1..], max))
  }

  predicate Legible(m: OutMessage) {
    m.Message? ==> Within(m.performative, 0)
  }

  function Announced(m: OutMessage): AmqpEvent {
    if m.Heartbeat? then EmptyFrameReceived(m.channel)
    else FrameReceived(m.channel, Some(Normal(m.performative)), Join(m.payloads))
  }

  /** What arrives: every message up to the first performative beyond the decoder's limits, then an error. */
  function Arrives(ms: seq<OutMessage>): Heeded {
    if ms == [] then Heeded(Splitter(Start, false), [])
    else if !Legible(ms[0]) then Heeded(Splitter(Start, true), [AmqpCodecError])
    else
      var rest := Arrives(ms[1..]);
      Heeded(rest.next, [Announced(ms[0])] + rest.events)
  }

  lemma PerformativeDecoded(v: Value)
    requires IsPerformative(v) && Encodable(v) && Regular(v)
    ensures Encode(v) != [] && IsPerformative(Normal(v))
    ensures Feed(Start, 0, true, Encode(v)) == if Within(v, 0) then Ran(Start, [], [Normal(v)]) else Broke([])
  {
    PerformativeNormal(v);
    hide Feed, Encode, Encodable, Regular, Normal, Within;
    SingleStream(v);
    DecodeStream([v]);
    assert [Normal(v)] + [] == [Normal(v)];
  }

  lemma PerformativeNormal(v: Value)
    requires IsPerformative(v)
    ensures Encode(v) != [] && IsPerformative(Normal(v)) && !EmptyContent(Normal(v))
  {
  }

  lemma SingleStream(v: Value)
    requires Encodable(v) && Regular(v)
    ensures AllEncodable([v]) && AllRegular([v]) && EncodeAll([v]) == Encode(v)
    ensures !EmptyContent(Normal(v)) ==>
      Decoded([v]) == if Within(v, 0) then Ran(Start, [], [Normal(v)] + []) else Broke([])
  {
    hide Feed, Encode, Encodable, Regular, Normal, Within;
    assert [v][1..] == [];
    assert AllEncodable([]) && AllRegular([]) && EncodeAll([]) == [] && Decoded([]) == Ran(Start, [], []);
  }

  lemma ChannelComesBack(channel: UShortInt)
    ensures ChannelOf(ChannelOctets(channel)) == channel
    ensures Padded(ChannelOctets(channel)) == ChannelOctets(channel) && Doff(ChannelOctets(channel)) == 2
  {
    assert Zeros(0) == [];
  }

  lemma MessageHeeded(m: OutMessage, max: nat)
    requires Acceptable(m, max) && (m.Message? ==> Regular(m.performative))
    ensures var e := AsReceived(AsFrame(m));
      OnFrame(Splitter(Start, false), e.specific, e.body) ==
        if Legible(m) then Heeded(Splitter(Start, false), [Announced(m)]) else Heeded(Splitter(Start, true), [AmqpCodecError])
  {
    hide Feed, Encode, Encodable, Regular, Normal, Within, SplitBody, IsPerformative, Padded, Doff, Sendable;
    ChannelComesBack(m.channel);
    if m.Message? {
      var v, payload := m.performative, Join(m.payloads);
      PerformativeDecoded(v);
      assert ([Encode(v)] + m.payloads)[1..] == m.payloads;
      assert Join([Encode(v)] + m.payloads) == Encode(v) + payload;
      if Within(v, 0) {
        PayloadStartsAfter(Start, Encode(v), Normal(v), payload);
      } else {
        BrokenBody(Start, Encode(v), payload);
      }
    } else {
      assert Join([]) == [];
    }
  }

  lemma {:induction false} FailedStays(s: Splitter, es: seq<FrameEvent>)
    requires WellFormed(s.decoder, 0, true) && s.failed
    ensures OnFrames(s, es) == Heeded(s, [])
    decreases |es|
  {
    if es != [] {
      FailedStays(s, es[1..]);
    }
  }

  lemma {:induction false} MessagesHeeded(ms: seq<OutMessage>, max: nat)
    requires AllAcceptable(ms, max)
    ensures OnFrames(Splitter(Start, false), AllReceived(AsFrames(ms))) == Arrives(ms)
    decreases |ms|
  {
    hide OnFrame, Acceptable, Legible, AsReceived, AsFrame, Announced, WellFormed;
    if ms != [] {
      var e, es := AsReceived(AsFrame(ms[0])), AllReceived(AsFrames(ms[1..]));
      MessagesHeeded(ms[1..], max);
      MessageHeeded(ms[0], max);
      AmqpFrame(ms[0]);
      assert AsFrames(ms) == [AsFrame(ms[0])] + AsFrames(ms[1..]);
      assert AsFrames(ms)[1..] == AsFrames(ms[1..]);
      assert AllReceived(AsFrames(ms)) == [e] + es;
      assert ([e] + es)[1..] == es;
      if !Legible(ms[0]) {
        StartIsWellFormed(0);
        FailedStays(Splitter(Start, true), es);
        assert [AmqpCodecError] + [] == [AmqpCodecError];
      }
    }
  }

  lemma AmqpFrame(m: OutMessage)
    ensures AsReceived(AsFrame(m)).Received? && AsReceived(AsFrame(m)).frameType == FRAME_TYPE_AMQP
    ensures !Lingers(AsFrame(m))
  {
    ChannelComesBack(m.channel);
  }

  lemma {:induction false} AllFramesReceivable(ms: seq<OutMessage>, max: nat, types: set<Byte>)
    requires AllAcceptable(ms, max) && FRAME_TYPE_AMQP in types
    ensures AllReceivable(AsFrames(ms), max, types)
    ensures forall k :: 0 <= k < |ms| ==> !Lingers(AsFrames(ms)[k])
    decreases |ms|
  {
    hide Lingers, Sendable, Regular, Encodable, IsPerformative, Encode;
    if ms != [] {
      AllFramesReceivable(ms[1..], max, types);
      AmqpFrame(ms[0]);
    }
  }

  /**
   The whole stack: messages accepted by the encoder, cut into any chunks on the way, arrive through the
   frame decoder, the value decoder and the splitter with their channels, performatives and joined
   payloads, in order, up to the first performative beyond the decoder's limits.
   */
  lemma FullStackRoundTrip(ms: seq<OutMessage>, max: nat, types: set<Byte>, chunks: seq<Bytes>)
    requires AllAcceptable(ms, max) && max < U32 && FRAME_TYPE_AMQP in types
    requires Join(chunks) == EncodedFrames(AsFrames(ms))
    ensures var r := RunChunks(SizeField([]), max, types, chunks);
      && r.ok && r.next == SizeField([])
      && Stack(SizeField([]), Splitter(Start, false), max, types, chunks) == Arrives(ms)
  {
    hide RunChunks, RunFrames, Stack, EncodedFrames, AllReceived, OnFrames, Arrives, AllAcceptable, Lingers, Sendable, WellFormed;
    StartIsWellFormed(0);
    AllFramesReceivable(ms, max, types);
    FrameRoundTrip(AsFrames(ms), max, types, chunks);
    FrameChunkingIsIrrelevant(SizeField([]), max, types, chunks);
    StackChunkingIsIrrelevant(SizeField([]), Splitter(Start, false), max, types, chunks);
    MessagesHeeded(ms, max);
  }

  function AllAnnounced(ms: seq<OutMessage>): (es: seq<AmqpEvent>)
    ensures |es| == |ms|
  {
    if ms == [] then [] else [Announced(ms[0])] + AllAnnounced(ms[1..])
  }

  /** Every message arrives exactly when every performative is within the decoder's limits. */
  lemma {:induction false} ArrivesWhole(ms: seq<OutMessage>)
    ensures Arrives(ms) == Heeded(Splitter(Start, false), AllAnnounced(ms)) <==> forall k :: 0 <= k < |ms| ==> Legible(ms[k])
    ensures Arrives(ms).next.failed <==> exists k :: 0 <= k < |ms| && !Legible(ms[k])
    decreases |ms|
  {
    hide Legible, Announced;
    if ms != [] {
      ArrivesWhole(ms[1..]);
      assert forall k :: 1 <= k < |ms| ==> ms[k] == ms[1..][k - 1];
    }
  }
}
