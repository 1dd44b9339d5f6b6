/** src/amqp_frame_codec.c as it runs. */
module AmqpFrameCodecs {
  import opened Octets
  import opened Options
  import opened AmqpValues
  import opened AmqpEncoding
  import opened DecoderSpec
  import opened FrameDecoding
  import opened FrameEncoding
  import opened FrameCodecs
  import opened ValueDecoder
  import opened ValueEncoder
  import opened AmqpFraming

  datatype DecodeState = DecodeFrame | DecodeError

  class AmqpFrameCodec {
    const frameCodec: FrameCodec
    const decoder: AmqpValueDecoder
    var decodeState: DecodeState
    var decodedPerformative: Option<Value>
    ghost var Repr: set<object>

    ghost predicate Valid()
      reads this, Repr
    {
      && this in Repr && decoder in Repr && decoder.Repr <= Repr && this !in decoder.Repr
      && (decodeState == DecodeFrame ==> decoder.Valid())
    }

    ghost function State(): (s: Splitter)
      reads this, Repr
      requires Valid()
      ensures WellFormed(s.decoder, 0, true)
    {
      if decodeState == DecodeError then Splitter(Start, true) else Splitter(decoder.State(), false)
    }

    constructor (frameCodec: FrameCodec)
      requires frameCodec.Valid()
      modifies frameCodec`subscriptions
      ensures Valid() && fresh(Repr) && this.frameCodec == frameCodec && State() == Splitter(Start, false)
      ensures frameCodec.Valid() && frameCodec.State() == old(frameCodec.State())
      ensures frameCodec.subscriptions == old(frameCodec.subscriptions) + {FRAME_TYPE_AMQP}
    {
      hide Feed, WellFormed, FrameDecoding.FrameValid, SizeSoFar;
      this.frameCodec := frameCodec;
      decoder := new AmqpValueDecoder();
      decodeState, decodedPerformative := DecodeFrame, None;
      new;
      Repr := {this} + decoder.Repr;
      JoinFrameCodec();
    }

    method JoinFrameCodec()
      requires frameCodec.Valid()
      modifies frameCodec`subscriptions
      ensures frameCodec.Valid() && frameCodec.State() == old(frameCodec.State())
      ensures frameCodec.subscriptions == old(frameCodec.subscriptions) + {FRAME_TYPE_AMQP}
    {
      hide Feed, WellFormed, FrameDecoding.FrameValid, SizeSoFar;
      frameCodec.Subscribe(FRAME_TYPE_AMQP);
    }

    /** `amqp_value_decoded`, once for each value the decoder calls back with. */
    method ValuesDecoded(calls: seq<Value>)
      modifies this`decodeState, this`decodedPerformative
      ensures Heard(decodeState == DecodeError, decodedPerformative) ==
        Hear(Heard(old(decodeState) == DecodeError, old(decodedPerformative)), calls)
    {
      assert calls[0..] == calls;
      for k := 0 to |calls|
        invariant Hear(Heard(old(decodeState) == DecodeError, old(decodedPerformative)), calls) ==
          Hear(Heard(decodeState == DecodeError, decodedPerformative), calls[k..])
      {
        assert calls[k..][1..] == calls[k + 1..];
        if IsPerformative(calls[k]) {
          decodedPerformative := Some(calls[k]);
        } else {
          decodeState := DecodeError;
        }
      }
    }

    /** The body, octet by octet, until the performative is there or the body ends. */
    method DecodePerformative(body: Bytes) returns (used: nat)
      requires Valid() && decodeState == DecodeFrame && decodedPerformative == None
      modifies Repr
      ensures Valid() && fresh(Repr - old(Repr)) && used <= |body|
      ensures var s := SplitBody(old(State()).decoder, body);
        && s.failed == (decodeState == DecodeError)
        && (!s.failed ==> s == Split(State().decoder, false, decodedPerformative, body[used..]))
    {
      hide Feed, WellFormed, Hear;
      used := 0;
      assert body[0..] == body;
      NothingHeard();
      ghost var whole := SplitBody(State().decoder, body);
      while used < |body| && decodedPerformative == None && decodeState != DecodeError
        invariant used <= |body| && Valid() && fresh(Repr - old(Repr))
        invariant if decodeState == DecodeError then whole == Split(Start, true, None, [])
                  else if decodedPerformative == None then whole == SplitBody(State().decoder, body[used..])
                  else whole == Split(State().decoder, false, decodedPerformative, body[used..])
        decreases |body| - used, if decodeState == DecodeError then 0 else 1
      {
        assert body[used..][0] == body[used] && body[used..][1..] == body[used + 1..];
        ghost var before := State().decoder;
        var ok, calls := decoder.DecodeBytes([body[used]]);
        Repr := Repr + decoder.Repr;
        ghost var r := Feed(before, 0, true, [body[used]]);
        assert r.calls == calls && r.Broke? == !ok;
        ghost var h := Hear(Heard(false, None), calls);
        ValuesDecoded(calls);
        assert Heard(decodeState == DecodeError, decodedPerformative) == h;
        assert ok ==> decoder.Valid() && decoder.State() == r.state;
        if !ok {
          decodeState := DecodeError;
        } else {
          used := used + 1;
        }
      }
    }

    /** `frame_received` */
    method FrameReceived(specific: Bytes, body: Bytes) returns (events: seq<AmqpEvent>)
      requires Valid()
      modifies Repr
      ensures Valid() && fresh(Repr - old(Repr))
      ensures OnFrame(old(State()), specific, body) == Heeded(State(), events)
    {
      hide Feed, WellFormed, SplitBody;
      if decodeState == DecodeError {
        return [];
      }
      if |specific| < 2 {
        decodeState := DecodeError;
        return [AmqpCodecError];
      }
      var channel := ChannelOf(specific);
      if body == [] {
        return [EmptyFrameReceived(channel)];
      }
      decodedPerformative := None;
      var used := DecodePerformative(body);
      if decodeState == DecodeError {
        return [AmqpCodecError];
      }
      events := [AmqpEvent.FrameReceived(channel, decodedPerformative, body[used..])];
    }

    /**
     The frame codec calls `frame_received` for each AMQP frame that the octets complete: what the two objects
     report together is what the specification of the stack says.
     */
    method BytesReceived(buffer: Bytes) returns (ok: bool, events: seq<AmqpEvent>)
      requires Valid() && frameCodec.Valid() && frameCodec !in Repr && frameCodec.receiveFrameBytes !in Repr
      modifies Repr, frameCodec, frameCodec.receiveFrameBytes
      ensures Valid() && frameCodec.Valid() && fresh(Repr - old(Repr))
      ensures frameCodec.maxFrameSize == old(frameCodec.maxFrameSize) && frameCodec.subscriptions == old(frameCodec.subscriptions)
      ensures var r := RunFrames(old(frameCodec.State()), frameCodec.maxFrameSize, frameCodec.subscriptions, buffer);
        && OnFrames(old(State()), r.events) == Heeded(State(), events)
        && (ok ==> frameCodec.State() == r.next && r.ok)
        && (!ok && buffer != [] ==> Stuck(frameCodec.State()) && !r.ok)
    {
      hide Feed, WellFormed, RunFrames, OnFrames, OnFrame, Stuck;
      var frames;
      ok, frames := frameCodec.ReceiveBytes(buffer);
      NothingToRun(old(frameCodec.State()), frameCodec.maxFrameSize, frameCodec.subscriptions);
      events := FramesReceived(frames);
    }

    method FramesReceived(frames: seq<FrameEvent>) returns (events: seq<AmqpEvent>)
      requires Valid()
      modifies Repr
      ensures Valid() && fresh(Repr - old(Repr))
      ensures OnFrames(old(State()), frames) == Heeded(State(), events)
    {
      hide Feed, WellFormed, OnFrame;
      events := [];
      assert frames[0..] == frames;
      NoFrames(State());
      for k := 0 to |frames|
        invariant Valid() && fresh(Repr - old(Repr))
        invariant var rest := OnFrames(State(), frames[k..]);
          OnFrames(old(State()), frames) == Heeded(rest.next, events + rest.events)
      {
        assert frames[k..][0] == frames[k] && frames[k..][1..] == frames[k + 1..];
        if frames[k].Received? && frames[k].frameType == FRAME_TYPE_AMQP {
          var more := FrameReceived(frames[k].specific, frames[k].body);
          assert events + (more + OnFrames(State(), frames[k + 1..]).events) == (events + more) + OnFrames(State(), frames[k + 1..]).events;
          events := events + more;
        }
      }
      NoFrames(State());
    }

    /** `amqp_frame_codec_encode_frame` and `amqp_frame_codec_encode_empty_frame`: the performative goes in front of the payloads. */
    method EncodeFrame(m: OutMessage) returns (ok: bool, frame: array<Byte>)
      requires frameCodec.Valid()
      ensures ok <==> Acceptable(m, frameCodec.maxFrameSize)
      ensures fresh(frame) && (ok ==> frame[..] == EncodedFrame(AsFrame(m)))
    {
      hide Encode, Encodable, Sendable, EncodedFrame;
      var channelOctets := [m.channel / 256, m.channel % 256];
      if m.Heartbeat? {
        ok, frame := frameCodec.EncodeFrame(OutFrame(FRAME_TYPE_AMQP, channelOctets, []));
        return;
      }
      frame := new Byte[0];
      if !IsPerformative(m.performative) {
        return false, frame;
      }
      var performativeBytes;
      ok, performativeBytes := EncodeToNewBuffer(m.performative);
      if ok {
        ok, frame := frameCodec.EncodeFrame(OutFrame(FRAME_TYPE_AMQP, channelOctets, [performativeBytes[..]] + m.payloads));
      }
    }
  }

  lemma NothingHeard()
    ensures forall h :: Hear(h, []) == h
  {
  }
}
