/** Frames as the encoder of src/frame_codec.c lays them out, and their way back through the decoder. */
module FrameEncoding {
  import opened Octets
  import opened FrameDecoding

  datatype OutFrame = OutFrame(frameType: Byte, specific: Bytes, payloads: seq<Bytes>)

  const MAX_TYPE_SPECIFIC_SIZE: nat := 255 * 4 - 6

  /** The type-specific octets are padded with zeros to the next multiple of 4, the 6 octets before them counted. */
  function Doff(specific: Bytes): nat {
    (|specific| + 9) / 4
  }

  function Zeros(n: nat): (z: Bytes)
    ensures |z| == n
  {
    seq(n, _ => 0)
  }

  function Padded(specific: Bytes): Bytes {
    specific + Zeros(Doff(specific) * 4 - 6 - |specific|)
  }

  predicate NoneEmpty(payloads: seq<Bytes>) {
    forall k :: 0 <= k < |payloads| ==> payloads[k] != []
  }

  function FrameSize(f: OutFrame): nat {
    Doff(f.specific) * 4 + |Join(f.payloads)|
  }

  /** When `frame_codec_encode_frame` accepts a frame. */
  predicate Sendable(f: OutFrame, max: nat) {
    |f.specific| <= MAX_TYPE_SPECIFIC_SIZE && NoneEmpty(f.payloads) && FrameSize(f) <= max
  }

  function EncodedFrame(f: OutFrame): Bytes {
    FrameOctets(f.frameType, Padded(f.specific), Join(f.payloads))
  }

  /** At most 3 octets of padding, a DOFF that fits its octet and never points past the end. */
  lemma Padding(f: OutFrame)
    requires |f.specific| <= MAX_TYPE_SPECIFIC_SIZE
    ensures var pad := |Padded(f.specific)| - |f.specific|; 0 <= pad <= 3
    ensures 2 <= Doff(f.specific) <= 255
    ensures |Padded(f.specific)| + 6 == Doff(f.specific) * 4
    ensures |EncodedFrame(f)| == FrameSize(f)
    ensures forall k :: |f.specific| <= k < |Padded(f.specific)| ==> Padded(f.specific)[k] == 0
  {
  }

  // ---------------------------------------------------------------- round trip

  function EncodedFrames(fs: seq<OutFrame>): Bytes {
    if fs == [] then [] else EncodedFrame(fs[0]) + EncodedFrames(fs[1..])
  }

  predicate AllReceivable(fs: seq<OutFrame>, max: nat, types: set<Byte>) {
    forall k :: 0 <= k < |fs| ==> Sendable(fs[k], max) && fs[k].frameType in types
  }

  function AsReceived(f: OutFrame): FrameEvent {
    Received(f.frameType, Padded(f.specific), Join(f.payloads))
  }

  function AllReceived(fs: seq<OutFrame>): (es: seq<FrameEvent>)
    ensures |es| == |fs|
  {
    if fs == [] then [] else [AsReceived(fs[0])] + AllReceived(fs[1..])
  }

  /** An extended header and no body: complete, but the decoder waits for one more octet. */
  predicate Lingers(f: OutFrame) {
    Doff(f.specific) > 2 && Join(f.payloads) == []
  }

  function ReadBack(fs: seq<OutFrame>): Step {
    if fs == [] then Step(SizeField([]), true, [])
    else if |fs| == 1 && Lingers(fs[0]) then
      Step(Body(FrameSize(fs[0]), Doff(fs[0].specific), fs[0].frameType, Padded(fs[0].specific), []), true, [])
    else Then(Step(SizeField([]), true, [AsReceived(fs[0])]), ReadBack(fs[1..]))
  }

  lemma FrameComesBack(f: OutFrame, max: nat, types: set<Byte>, rest: Bytes)
    requires Sendable(f, max) && f.frameType in types && max < U32
    ensures RunFrames(SizeField([]), max, types, EncodedFrame(f) + rest) ==
      if Lingers(f) && rest == [] then
        Step(Body(FrameSize(f), Doff(f.specific), f.frameType, Padded(f.specific), []), true, [])
      else Then(Step(SizeField([]), true, [AsReceived(f)]), RunFrames(SizeField([]), max, types, rest))
  {
    hide RunFrames, FrameOctets, Padded, Join;
    Padding(f);
    ReadFrame(f.frameType, Padded(f.specific), Join(f.payloads), max, types, rest);
  }

  lemma NotNothing(fs: seq<OutFrame>)
    ensures fs != [] ==> EncodedFrames(fs) != []
  {
    if fs != [] {
      assert |EncodedFrame(fs[0])| >= 6;
    }
  }

  lemma {:induction false} FramesReadBack(fs: seq<OutFrame>, max: nat, types: set<Byte>)
    requires AllReceivable(fs, max, types) && max < U32
    ensures RunFrames(SizeField([]), max, types, EncodedFrames(fs)) == ReadBack(fs)
    decreases |fs|
  {
    hide RunFrames, EncodedFrame;
    if fs == [] {
      NothingToRun(SizeField([]), max, types);
    } else {
      FramesReadBack(fs[1..], max, types);
      NotNothing(fs[1..]);
      FrameComesBack(fs[0], max, types, EncodedFrames(fs[1..]));
    }
  }

  /** All frames arrive exactly when the last one does not linger; otherwise all but the last. */
  lemma {:induction false} ReadBackEvents(fs: seq<OutFrame>)
    ensures ReadBack(fs).ok
    ensures ReadBack(fs).events == AllReceived(fs) <==> fs == [] || !Lingers(fs[|fs| - 1])
    ensures fs != [] && Lingers(fs[|fs| - 1]) ==> ReadBack(fs).events == AllReceived(fs[..|fs| - 1])
    ensures (ReadBack(fs).next == SizeField([])) <==> fs == [] || !Lingers(fs[|fs| - 1])
  {
    hide Lingers, Padded, Join;
    if fs == [] {
    } else if |fs| > 1 {
      ReadBackEvents(fs[1..]);
      assert fs[1..][|fs[1..]| - 1] == fs[|fs| - 1];
      assert fs[1..][..|fs[1..]| - 1] == fs[..|fs| - 1][1..];
    } else {
      assert fs[..0] == [] && fs[1..] == [];
      assert AllReceived([]) == [];
      assert ReadBack([]) == Step(SizeField([]), true, []);
    }
  }

  /**
   Encoder and decoder undo each other: the frames of any stream, cut into any chunks, come back with
   their types, padded type-specific octets and joined payloads, in order.
   */
  lemma FrameRoundTrip(fs: seq<OutFrame>, max: nat, types: set<Byte>, chunks: seq<Bytes>)
    requires AllReceivable(fs, max, types) && max < U32 && Join(chunks) == EncodedFrames(fs)
    ensures var r := RunChunks(SizeField([]), max, types, chunks);
      && r.ok
      && (r.events == AllReceived(fs) <==> fs == [] || !Lingers(fs[|fs| - 1]))
      && (fs != [] && Lingers(fs[|fs| - 1]) ==> r.events == AllReceived(fs[..|fs| - 1]))
      && (r.next == SizeField([]) <==> fs == [] || !Lingers(fs[|fs| - 1]))
  {
    hide RunFrames, RunChunks, EncodedFrames, AllReceived, ReadBack, Lingers;
    FrameChunkingIsIrrelevant(SizeField([]), max, types, chunks);
    FramesReadBack(fs, max, types);
    ReadBackEvents(fs);
  }
}
