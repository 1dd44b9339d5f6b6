/** src/frame_codec.c as it runs: a buffer per frame, filled by copying as many octets as are there. */
module FrameCodecs {
  import opened Octets
  import opened FrameDecoding
  import opened FrameEncoding

  datatype ReceiveState = FrameSizeState | DoffState | FrameTypeState | TypeSpecificState | FrameBodyState | ErrorState

  // ---------------------------------------------------------------- turns over many octets

  /** The size as it adds up, octet by octet. */
  function SizeSoFar(got: Bytes): nat
    requires |got| <= 4
  {
    if got == [] then 0 else SizeSoFar(got[..|got| - 1]) + Shifted(got[|got| - 1], 4 - |got|)
  }

  lemma WholeSize(got: Bytes)
    requires |got| == 4
    ensures SizeSoFar(got) == FromBigEndian(got)
  {
    var a, b, c, d := got[0], got[1], got[2], got[3];
    assert got[..3][..2] == got[..2] && got[..2][..1] == got[..1] && got[..1][..0] == [];
    assert SizeSoFar(got) == SizeSoFar(got[..3]) + Shifted(d, 0);
    assert SizeSoFar(got[..3]) == SizeSoFar(got[..2]) + Shifted(c, 1);
    assert SizeSoFar(got[..2]) == SizeSoFar(got[..1]) + Shifted(b, 2);
    assert SizeSoFar(got[..1]) == SizeSoFar(got[..0]) + Shifted(a, 3);
    assert got[1..][1..] == got[2..] && got[2..][1..] == got[3..] && got[3..][1..] == [];
    assert FromBigEndian(got) == Shifted(a, 3) + FromBigEndian(got[1..]);
    assert FromBigEndian(got[1..]) == Shifted(b, 2) + FromBigEndian(got[2..]);
    assert FromBigEndian(got[2..]) == Shifted(c, 1) + FromBigEndian(got[3..]);
    assert FromBigEndian(got[3..]) == Shifted(d, 0) + FromBigEndian(got[4..]);
    assert got[4..] == [] && FromBigEndian([]) == 0;
  }

  /** A turn that took `used` of the octets `bs`, of a loop that runs `RunFrames` over them. */
  ghost predicate Advances(s0: FrameState, s1: FrameState, max: nat, types: set<Byte>, bs: Bytes, ok: bool, used: nat, events: seq<FrameEvent>)
  {
    if ok then
      && used <= |bs| && (used > 0 || (s0.Body? && s1.SizeField?))
      && RunFrames(s0, max, types, bs) == Then(Step(s1, true, events), RunFrames(s1, max, types, bs[used..]))
    else
      var r := RunFrames(s0, max, types, bs);
      Stuck(s1) && Stuck(r.next) && !r.ok && r.events == events
  }

  lemma OctetAdvances(s: FrameState, max: nat, types: set<Byte>, bs: Bytes)
    requires bs != []
    ensures var t := OnOctet(s, max, types, bs[0]); Advances(s, t.next, max, types, bs, t.ok, 1, t.events)
  {
    var t := OnOctet(s, max, types, bs[0]);
    if !t.ok {
      FailureIsStuck(s, max, types, bs);
      StuckForever(t.next, max, types, bs[1..]);
    }
  }

  /** Copying `k` octets of the type-specific part at once. */
  lemma {:induction false} CopySpecific(s: FrameState, max: nat, types: set<Byte>, bs: Bytes, k: nat)
    requires s.TypeSpecific? && k <= |bs| && |s.got| + k + 6 < s.doff * 4
    ensures RunFrames(s, max, types, bs) ==
      RunFrames(TypeSpecific(s.size, s.doff, s.frameType, s.got + bs[..k]), max, types, bs[k..])
    decreases k
  {
    if k == 0 {
      assert s.got + bs[..0] == s.got && bs[0..] == bs;
    } else {
      var s' := TypeSpecific(s.size, s.doff, s.frameType, s.got + [bs[0]]);
      QuietSteps(RunFrames(s', max, types, bs[1..]));
      CopySpecific(s', max, types, bs[1..], k - 1);
      assert s'.got + bs[1..][..k - 1] == s.got + bs[..k];
      assert bs[1..][k - 1..] == bs[k..];
    }
  }

  lemma {:induction false} CopyBody(s: FrameState, max: nat, types: set<Byte>, bs: Bytes, k: nat)
    requires s.Body? && k <= |bs| && |s.got| + k + s.doff * 4 < s.size
    ensures RunFrames(s, max, types, bs) ==
      RunFrames(Body(s.size, s.doff, s.frameType, s.specific, s.got + bs[..k]), max, types, bs[k..])
    decreases k
  {
    if k == 0 {
      assert s.got + bs[..0] == s.got && bs[0..] == bs;
    } else {
      var s' := Body(s.size, s.doff, s.frameType, s.specific, s.got + [bs[0]]);
      QuietSteps(RunFrames(s', max, types, bs[1..]));
      CopyBody(s', max, types, bs[1..], k - 1);
      assert s'.got + bs[1..][..k - 1] == s.got + bs[..k];
      assert bs[1..][k - 1..] == bs[k..];
    }
  }

  lemma {:induction false} PassOver(s: FrameState, max: nat, types: set<Byte>, bs: Bytes, k: nat)
    requires k <= |bs| && ((s.PastEnd? && k <= s.room) || (s.Skip? && k < s.left) || s.Swallow?)
    ensures RunFrames(s, max, types, bs) == RunFrames(Passed(s, k), max, types, bs[k..])
    decreases k
  {
    if k == 0 {
      assert bs[0..] == bs;
    } else {
      QuietSteps(RunFrames(Passed(s, 1), max, types, bs[1..]));
      PassOver(Passed(s, 1), max, types, bs[1..], k - 1);
      assert bs[1..][k - 1..] == bs[k..];
    }
  }

  function Passed(s: FrameState, k: nat): FrameState
    requires (s.PastEnd? && k <= s.room) || (s.Skip? && k < s.left) || s.Swallow?
  {
    if s.PastEnd? then PastEnd(s.room - k) else if s.Skip? then Skip(s.size, s.left - k) else s
  }

  lemma LastOctet(s: FrameState, s1: FrameState, events: seq<FrameEvent>, max: nat, types: set<Byte>, bs: Bytes, k: nat)
    requires 0 < k <= |bs| && OnOctet(s, max, types, bs[k - 1]) == Step(s1, true, events)
    ensures RunFrames(s, max, types, bs[k - 1..]) == Then(Step(s1, true, events), RunFrames(s1, max, types, bs[k..]))
  {
    assert bs[k - 1..][1..] == bs[k..];
  }

  /** Copying the last `k` octets of the type-specific part. */
  lemma FinishSpecific(s: FrameState, max: nat, types: set<Byte>, bs: Bytes, k: nat)
    requires s.TypeSpecific? && 0 < k <= |bs| && |s.got| + k + 6 == s.doff * 4
    ensures var t := if s.size == FRAME_HEADER_SIZE then Step(SizeField([]), true, [Received(s.frameType, s.got + bs[..k], [])])
                     else Step(Body(s.size, s.doff, s.frameType, s.got + bs[..k], []), true, []);
      RunFrames(s, max, types, bs) == Then(t, RunFrames(t.next, max, types, bs[k..]))
  {
    hide RunFrames;
    CopySpecific(s, max, types, bs, k - 1);
    var s' := TypeSpecific(s.size, s.doff, s.frameType, s.got + bs[..k - 1]);
    assert s'.got + [bs[k - 1]] == s.got + bs[..k];
    var t := OnOctet(s', max, types, bs[k - 1]);
    LastOctet(s', t.next, t.events, max, types, bs, k);
  }

  lemma FinishBody(s: FrameState, max: nat, types: set<Byte>, bs: Bytes, k: nat)
    requires s.Body? && k <= |bs| && bs != [] && |s.got| + k + s.doff * 4 == s.size && (k == 0 ==> s.got == [])
    ensures RunFrames(s, max, types, bs) ==
      Then(Step(SizeField([]), true, [Received(s.frameType, s.specific, s.got + bs[..k])]), RunFrames(SizeField([]), max, types, bs[k..]))
  {
    hide RunFrames;
    if k == 0 {
      RunNoBody(s, max, types, bs);
      assert s.got + bs[..0] == [] && bs[0..] == bs;
    } else {
      CopyBody(s, max, types, bs, k - 1);
      var s' := Body(s.size, s.doff, s.frameType, s.specific, s.got + bs[..k - 1]);
      assert s'.got + [bs[k - 1]] == s.got + bs[..k];
      LastOctet(s', SizeField([]), [Received(s.frameType, s.specific, s.got + bs[..k])], max, types, bs, k);
    }
  }

  lemma FinishSkip(s: FrameState, max: nat, types: set<Byte>, bs: Bytes, k: nat)
    requires s.Skip? && 0 < k <= |bs| && k == s.left
    ensures var next := if s.size == FRAME_HEADER_SIZE then SizeField([]) else NoBuffer;
      RunFrames(s, max, types, bs) == RunFrames(next, max, types, bs[k..])
  {
    hide RunFrames;
    PassOver(s, max, types, bs, k - 1);
    var t := OnOctet(Passed(s, k - 1), max, types, bs[k - 1]);
    LastOctet(Passed(s, k - 1), t.next, [], max, types, bs, k);
    QuietSteps(RunFrames(t.next, max, types, bs[k..]));
  }

  /** `memcpy` to a position of a frame's buffer. */
  method CopyAt(buffer: array<Byte>, position: nat, bs: Bytes)
    requires position + |bs| <= buffer.Length
    modifies buffer
    ensures buffer[..position] == old(buffer[..position])
    ensures buffer[position..position + |bs|] == bs
    ensures buffer[..position + |bs|] == old(buffer[..position]) + bs
  {
    for k := 0 to |bs|
      invariant buffer[..position] == old(buffer[..position])
      invariant buffer[position..position + k] == bs[..k]
    {
      buffer[position + k] := bs[k];
      assert buffer[position..position + k + 1] == buffer[position..position + k] + [bs[k]];
      assert bs[..k + 1] == bs[..k] + [bs[k]];
    }
    assert bs[..|bs|] == bs;
    assert buffer[..position + |bs|] == buffer[..position] + buffer[position..position + |bs|];
  }

  // ---------------------------------------------------------------- the codec

  class FrameCodec {
    var receiveFrameState: ReceiveState
    var receiveFramePos: nat
    var receiveFrameSize: nat
    var receiveFrameMallocSize: nat
    var typeSpecificSize: nat
    var receiveFrameDoff: Byte
    var receiveFrameType: Byte
    var subscribed: bool
    var receiveFrameBytes: array?<Byte>
    var subscriptions: set<Byte>
    var maxFrameSize: nat
    ghost var sizeOctets: Bytes

    ghost predicate Valid()
      reads this, receiveFrameBytes
    {
      && FRAME_HEADER_SIZE <= maxFrameSize < U32
      && (receiveFrameState in {DoffState, FrameTypeState, TypeSpecificState, FrameBodyState} ==>
            FRAME_HEADER_SIZE <= receiveFrameSize <= maxFrameSize)
      && (receiveFrameState in {FrameTypeState, TypeSpecificState, FrameBodyState} ==> receiveFrameDoff >= 2)
      && (receiveFrameState in {TypeSpecificState, FrameBodyState} ==> typeSpecificSize == receiveFrameDoff * 4 - 6)
      && match receiveFrameState
         case FrameSizeState =>
           && |sizeOctets| == receiveFramePos < 4 && receiveFrameSize == SizeSoFar(sizeOctets)
           && receiveFrameBytes == null
         case DoffState => receiveFramePos == 4 && receiveFrameBytes == null
         case FrameTypeState => receiveFramePos == 4 && receiveFrameBytes == null
         case TypeSpecificState =>
           if subscribed then
             && receiveFrameBytes != null
             && receiveFrameMallocSize == receiveFrameBytes.Length == receiveFrameSize - 6
             && receiveFramePos < typeSpecificSize && receiveFramePos <= receiveFrameMallocSize
           else receiveFrameBytes == null && ((typeSpecificSize == 2 && receiveFramePos >= 4) || receiveFramePos < typeSpecificSize)
         case FrameBodyState =>
           if subscribed then
             && receiveFrameBytes != null && receiveFrameBytes.Length == receiveFrameSize - 6
             && receiveFrameSize > FRAME_HEADER_SIZE && receiveFrameDoff * 4 <= receiveFrameSize
             && (receiveFramePos + receiveFrameDoff * 4 < receiveFrameSize ||
                 (receiveFramePos == 0 && receiveFrameDoff * 4 == receiveFrameSize))
           else receiveFrameBytes == null
         case ErrorState => true
    }

    ghost function State(): (s: FrameState)
      reads this, receiveFrameBytes
      requires Valid()
      ensures FrameValid(s, maxFrameSize)
    {
      match receiveFrameState
      case FrameSizeState => SizeField(sizeOctets)
      case DoffState => DoffField(receiveFrameSize)
      case FrameTypeState => TypeField(receiveFrameSize, receiveFrameDoff)
      case TypeSpecificState =>
        if !subscribed then
          if typeSpecificSize < receiveFramePos then Swallow else Skip(receiveFrameSize, typeSpecificSize - receiveFramePos)
        else if receiveFrameDoff * 4 > receiveFrameSize then PastEnd(receiveFrameMallocSize - receiveFramePos)
        else TypeSpecific(receiveFrameSize, receiveFrameDoff, receiveFrameType, receiveFrameBytes[..receiveFramePos])
      case FrameBodyState =>
        if !subscribed then NoBuffer
        else Body(receiveFrameSize, receiveFrameDoff, receiveFrameType, receiveFrameBytes[..typeSpecificSize],
                  receiveFrameBytes[typeSpecificSize..typeSpecificSize + receiveFramePos])
      case ErrorState => Error
    }

    constructor ()
      ensures Valid() && State() == SizeField([]) && maxFrameSize == 512 && subscriptions == {}
    {
      receiveFrameState, receiveFramePos, receiveFrameSize, receiveFrameMallocSize := FrameSizeState, 0, 0, 0;
      typeSpecificSize, receiveFrameDoff, receiveFrameType, subscribed := 0, 0, 0, false;
      receiveFrameBytes, subscriptions, maxFrameSize, sizeOctets := null, {}, 512, [];
    }

    method Subscribe(t: Byte)
      requires Valid()
      modifies this`subscriptions
      ensures Valid() && State() == old(State()) && subscriptions == old(subscriptions) + {t}
    {
      subscriptions := subscriptions + {t};
    }

    /** The limit may not go below a frame that is being received; a codec in error refuses any limit. */
    method SetMaxFrameSize(newMax: nat) returns (ok: bool)
      requires Valid() && newMax < U32
      modifies this`maxFrameSize
      ensures Valid() && State() == old(State())
      ensures maxFrameSize == if ok then newMax else old(maxFrameSize)
      ensures ok <==>
        newMax >= FRAME_HEADER_SIZE && receiveFrameState != ErrorState && (receiveFrameState == FrameSizeState || newMax >= receiveFrameSize)
    {
      if newMax < FRAME_HEADER_SIZE || (newMax < receiveFrameSize && receiveFrameState != FrameSizeState) || receiveFrameState == ErrorState {
        return false;
      }
      maxFrameSize := newMax;
      ok := true;
    }

    method SizeOctet(b: Byte) returns (ok: bool, events: seq<FrameEvent>)
      requires Valid() && receiveFrameState == FrameSizeState
      modifies this
      ensures Valid() && maxFrameSize == old(maxFrameSize) && subscriptions == old(subscriptions) && receiveFrameBytes == null
      ensures OnOctet(old(State()), maxFrameSize, subscriptions, b) == Step(State(), ok, events)
    {
      hide RunFrames;
      ok, events := true, [];
      receiveFrameSize := receiveFrameSize + Shifted(b, 3 - receiveFramePos);
      receiveFramePos := receiveFramePos + 1;
      sizeOctets := sizeOctets + [b];
      assert sizeOctets[..|sizeOctets| - 1] == old(sizeOctets);
      if receiveFramePos == 4 {
        WholeSize(sizeOctets);
        if receiveFrameSize < FRAME_HEADER_SIZE || receiveFrameSize > maxFrameSize {
          receiveFrameState := ErrorState;
          ok, events := false, [CodecError];
        } else {
          receiveFrameState := DoffState;
        }
      }
    }

    method DoffOctet(b: Byte) returns (ok: bool, events: seq<FrameEvent>)
      requires Valid() && receiveFrameState == DoffState
      modifies this
      ensures Valid() && maxFrameSize == old(maxFrameSize) && subscriptions == old(subscriptions) && receiveFrameBytes == null
      ensures OnOctet(old(State()), maxFrameSize, subscriptions, b) == Step(State(), ok, events)
    {
      hide RunFrames;
      receiveFrameDoff := b;
      if receiveFrameDoff < 2 {
        receiveFrameState := ErrorState;
        ok, events := false, [CodecError];
      } else {
        receiveFrameState := FrameTypeState;
        ok, events := true, [];
      }
    }

    method FrameTypeOctet(b: Byte)
      requires Valid() && receiveFrameState == FrameTypeState
      modifies this
      ensures Valid() && maxFrameSize == old(maxFrameSize) && subscriptions == old(subscriptions)
      ensures receiveFrameBytes == null || fresh(receiveFrameBytes)
      ensures OnOctet(old(State()), maxFrameSize, subscriptions, b) == Step(State(), true, [])
    {
      hide RunFrames;
      typeSpecificSize := receiveFrameDoff * 4 - 6;
      receiveFrameType := b;
      subscribed := b in subscriptions;
      receiveFrameState := TypeSpecificState;
      if subscribed {
        receiveFramePos := 0;
        receiveFrameMallocSize := receiveFrameSize - 6;
        receiveFrameBytes := new Byte[receiveFrameMallocSize];
      }
    }

    method TypeSpecificOctets(bs: Bytes) returns (ok: bool, used: nat, events: seq<FrameEvent>)
      requires Valid() && receiveFrameState == TypeSpecificState && subscribed && bs != []
      modifies this, receiveFrameBytes
      ensures Valid() && maxFrameSize == old(maxFrameSize) && subscriptions == old(subscriptions)
      ensures receiveFrameBytes == null || receiveFrameBytes == old(receiveFrameBytes)
      ensures Advances(old(State()), State(), maxFrameSize, subscriptions, bs, ok, used, events)
    {
      hide RunFrames, OnOctet, FrameValid, SizeSoFar;
      ghost var s0 := State();
      ok, used, events := true, typeSpecificSize - receiveFramePos, [];
      if used > |bs| {
        used := |bs|;
      }
      if receiveFramePos + used > receiveFrameMallocSize {
        StuckForever(s0, maxFrameSize, subscriptions, bs);
        return false, 0, [];
      }
      CopyAt(receiveFrameBytes, receiveFramePos, bs[..used]);
      if receiveFramePos + used == typeSpecificSize {
        receiveFramePos := receiveFramePos + used;
        FinishSpecific(s0, maxFrameSize, subscriptions, bs, used);
        events := SpecificDone();
      } else {
        MoreToCome(bs, used, s0);
      }
    }

    /** The type-specific part is not complete yet: the position moves on. */
    method MoreToCome(bs: Bytes, used: nat, ghost s0: FrameState)
      requires Valid() && receiveFrameState == TypeSpecificState && subscribed
      requires 0 < used <= |bs| && receiveFramePos + used < typeSpecificSize && receiveFramePos + used <= receiveFrameMallocSize
      requires receiveFrameBytes[receiveFramePos..receiveFramePos + used] == bs[..used]
      requires s0 == State()
      modifies this`receiveFramePos
      ensures receiveFramePos == old(receiveFramePos) + used && Valid()
      ensures Advances(s0, State(), maxFrameSize, subscriptions, bs, true, used, [])
    {
      hide RunFrames, OnOctet, FrameValid, SizeSoFar;
      receiveFramePos := receiveFramePos + used;
      if s0.PastEnd? {
        PassOver(s0, maxFrameSize, subscriptions, bs, used);
        assert State() == Passed(s0, used);
      } else {
        CopySpecific(s0, maxFrameSize, subscriptions, bs, used);
        assert receiveFrameBytes[..receiveFramePos] == receiveFrameBytes[..receiveFramePos - used] + bs[..used];
      }
      QuietSteps(RunFrames(State(), maxFrameSize, subscriptions, bs[used..]));
    }

    /** The type-specific octets are there: an empty frame is complete, others have a body to come. */
    method SpecificDone() returns (events: seq<FrameEvent>)
      requires FRAME_HEADER_SIZE <= maxFrameSize < U32 && FRAME_HEADER_SIZE <= receiveFrameSize <= maxFrameSize
      requires receiveFrameDoff >= 2 && typeSpecificSize == receiveFrameDoff * 4 - 6 == receiveFramePos <= receiveFrameSize - 6
      requires subscribed && receiveFrameBytes != null && receiveFrameBytes.Length == receiveFrameSize - 6
      modifies this
      ensures Valid() && maxFrameSize == old(maxFrameSize) && subscriptions == old(subscriptions)
      ensures receiveFrameBytes == null || receiveFrameBytes == old(receiveFrameBytes)
      ensures var specific := old(receiveFrameBytes[..receiveFramePos]);
        Step(State(), true, events) ==
          if old(receiveFrameSize) == FRAME_HEADER_SIZE then Step(SizeField([]), true, [Received(old(receiveFrameType), specific, [])])
          else Step(Body(old(receiveFrameSize), old(receiveFrameDoff), old(receiveFrameType), specific, []), true, [])
    {
      hide RunFrames;
      events := [];
      if receiveFrameSize == FRAME_HEADER_SIZE {
        events := [Received(receiveFrameType, receiveFrameBytes[..typeSpecificSize], [])];
        receiveFrameBytes := null;
        receiveFrameState := FrameSizeState;
        receiveFrameSize := 0;
        sizeOctets := [];
      } else {
        assert receiveFrameBytes[typeSpecificSize..typeSpecificSize + 0] == [];
        receiveFrameState := FrameBodyState;
      }
      receiveFramePos := 0;
    }

    /** Nobody subscribed: the position still counts the size field, so DOFF 2 asks for a negative number of octets. */
    method SkippedOctets(bs: Bytes) returns (used: nat)
      requires Valid() && receiveFrameState == TypeSpecificState && !subscribed && bs != []
      modifies this
      ensures Valid() && maxFrameSize == old(maxFrameSize) && subscriptions == old(subscriptions) && receiveFrameBytes == null
      ensures Advances(old(State()), State(), maxFrameSize, subscriptions, bs, true, used, [])
    {
      hide RunFrames;
      ghost var s0 := State();
      used := if typeSpecificSize < receiveFramePos || typeSpecificSize - receiveFramePos > |bs| then |bs| else typeSpecificSize - receiveFramePos;
      receiveFramePos := receiveFramePos + used;
      if receiveFramePos == typeSpecificSize {
        FinishSkip(s0, maxFrameSize, subscriptions, bs, used);
        if receiveFrameSize == FRAME_HEADER_SIZE {
          receiveFrameState := FrameSizeState;
          receiveFrameSize := 0;
          sizeOctets := [];
        } else {
          receiveFrameState := FrameBodyState;
        }
        receiveFramePos := 0;
      } else {
        PassOver(s0, maxFrameSize, subscriptions, bs, used);
      }
      QuietSteps(RunFrames(State(), maxFrameSize, subscriptions, bs[used..]));
    }

    method BodyOctets(bs: Bytes) returns (ok: bool, used: nat, events: seq<FrameEvent>)
      requires Valid() && receiveFrameState == FrameBodyState && bs != []
      modifies this, receiveFrameBytes
      ensures Valid() && maxFrameSize == old(maxFrameSize) && subscriptions == old(subscriptions)
      ensures receiveFrameBytes == null || receiveFrameBytes == old(receiveFrameBytes)
      ensures Advances(old(State()), State(), maxFrameSize, subscriptions, bs, ok, used, events)
    {
      hide RunFrames, OnOctet;
      ghost var s0 := State();
      if receiveFrameBytes == null {
        StuckForever(s0, maxFrameSize, subscriptions, bs);
        return false, 0, [];
      }
      var bodySize := receiveFrameSize - receiveFrameDoff * 4;
      ok, events := true, [];
      used := CopyBodyOctets(bodySize, bs);
      if receiveFramePos == bodySize {
        FinishBody(s0, maxFrameSize, subscriptions, bs, used);
        events := BodyDone(bodySize);
      } else {
        CopyBody(s0, maxFrameSize, subscriptions, bs, used);
        QuietSteps(RunFrames(State(), maxFrameSize, subscriptions, bs[used..]));
      }
    }

    /** As many octets as there are and the body still wants, behind those already there. */
    method CopyBodyOctets(bodySize: nat, bs: Bytes) returns (used: nat)
      requires receiveFrameBytes != null && receiveFramePos <= bodySize && typeSpecificSize + bodySize == receiveFrameBytes.Length
      modifies this`receiveFramePos, receiveFrameBytes
      ensures used == (if bodySize - old(receiveFramePos) > |bs| then |bs| else bodySize - old(receiveFramePos))
      ensures receiveFramePos == old(receiveFramePos) + used
      ensures receiveFrameBytes[..typeSpecificSize] == old(receiveFrameBytes[..typeSpecificSize])
      ensures receiveFrameBytes[typeSpecificSize..typeSpecificSize + receiveFramePos] ==
        old(receiveFrameBytes[typeSpecificSize..typeSpecificSize + receiveFramePos]) + bs[..used]
    {
      hide RunFrames, OnOctet;
      used := bodySize - receiveFramePos;
      if used > |bs| {
        used := |bs|;
      }
      CopyAt(receiveFrameBytes, typeSpecificSize + receiveFramePos, bs[..used]);
      receiveFramePos := receiveFramePos + used;
      Appended(old(receiveFrameBytes[..]), receiveFrameBytes[..], typeSpecificSize, receiveFramePos - used, bs[..used]);
    }

    method BodyDone(bodySize: nat) returns (events: seq<FrameEvent>)
      requires FRAME_HEADER_SIZE <= maxFrameSize < U32
      requires receiveFrameBytes != null && typeSpecificSize + bodySize <= receiveFrameBytes.Length
      modifies this
      ensures Valid() && maxFrameSize == old(maxFrameSize) && subscriptions == old(subscriptions) && receiveFrameBytes == null
      ensures State() == SizeField([]) && events == [Received(old(receiveFrameType),
        old(receiveFrameBytes[..typeSpecificSize]), old(receiveFrameBytes[typeSpecificSize..typeSpecificSize + bodySize]))]
    {
      events := [Received(receiveFrameType, receiveFrameBytes[..typeSpecificSize], receiveFrameBytes[typeSpecificSize..typeSpecificSize + bodySize])];
      receiveFrameBytes := null;
      receiveFrameState := FrameSizeState;
      receiveFramePos, receiveFrameSize := 0, 0;
      sizeOctets := [];
    }

    method Turn(bs: Bytes) returns (ok: bool, used: nat, events: seq<FrameEvent>)
      requires Valid() && bs != []
      modifies this, receiveFrameBytes
      ensures Valid() && maxFrameSize == old(maxFrameSize) && subscriptions == old(subscriptions)
      ensures receiveFrameBytes == null || receiveFrameBytes == old(receiveFrameBytes) || fresh(receiveFrameBytes)
      ensures Advances(old(State()), State(), maxFrameSize, subscriptions, bs, ok, used, events)
    {
      hide RunFrames;
      OctetAdvances(State(), maxFrameSize, subscriptions, bs);
      ok, used, events := true, 1, [];
      match receiveFrameState
      case FrameSizeState => ok, events := SizeOctet(bs[0]);
      case DoffState => ok, events := DoffOctet(bs[0]);
      case FrameTypeState => FrameTypeOctet(bs[0]);
      case TypeSpecificState =>
        if subscribed {
          ok, used, events := TypeSpecificOctets(bs);
        } else {
          used := SkippedOctets(bs);
        }
      case FrameBodyState => ok, used, events := BodyOctets(bs);
      case ErrorState => ok := false;
    }

    /** The octets of all payloads; an empty payload is refused. */
    method BodySize(payloads: seq<Bytes>) returns (ok: bool, size: nat)
      ensures ok <==> NoneEmpty(payloads)
      ensures ok ==> size == |Join(payloads)|
    {
      size := 0;
      var i := 0;
      while i < |payloads| && payloads[i] != []
        invariant i <= |payloads| && size == |Join(payloads[..i])|
        invariant forall k :: 0 <= k < i ==> payloads[k] != []
      {
        JoinedSoFar(payloads, i);
        size := size + |payloads[i]|;
        i := i + 1;
      }
      ok := i == |payloads|;
      assert ok ==> payloads[..i] == payloads;
    }

    /** Size, DOFF and type in front of the frame. */
    method WriteHeader(frame: array<Byte>, doff: Byte, t: Byte)
      requires 6 <= frame.Length < U32
      modifies frame
      ensures frame[..6] == Header(frame.Length, doff, t)
    {
      var size := frame.Length;
      frame[0], frame[1], frame[2], frame[3] := size / 0x100_0000 % 256, size / 0x1_0000 % 256, size / 0x100 % 256, size % 256;
      frame[4], frame[5] := doff, t;
      SizeOctets(size);
      assert frame[..6] == frame[..4] + [doff, t];
    }

    /** `frame_codec_encode_frame`: the buffer is filled from front to back and ends exactly full. */
    method EncodeFrame(f: OutFrame) returns (ok: bool, frame: array<Byte>)
      requires Valid()
      ensures ok <==> Sendable(f, maxFrameSize)
      ensures fresh(frame) && (ok ==> frame[..] == EncodedFrame(f))
    {
      frame := new Byte[0];
      if |f.specific| > MAX_TYPE_SPECIFIC_SIZE {
        return false, frame;
      }
      Padding(f);
      var doff := (|f.specific| + 6 + 3) / 4;
      var padding := doff * 4 - |f.specific| - 6;
      var bodySize;
      ok, bodySize := BodySize(f.payloads);
      if !ok || bodySize + doff * 4 > maxFrameSize {
        return false, frame;
      }
      frame := new Byte[bodySize + doff * 4];
      WriteFront(frame, doff, f, padding);
      WritePayloads(frame, 6 + |f.specific| + padding, f.payloads);
      assert frame[..] == frame[..frame.Length];
    }

    /** The header, the type-specific octets and the padding. */
    method WriteFront(frame: array<Byte>, doff: Byte, f: OutFrame, padding: nat)
      requires 6 + |f.specific| + padding <= frame.Length < U32
      modifies frame
      ensures frame[..6 + |f.specific| + padding] == Header(frame.Length, doff, f.frameType) + (f.specific + Zeros(padding))
    {
      hide Header;
      WriteHeader(frame, doff, f.frameType);
      var currentPos := 6;
      CopyAt(frame, currentPos, f.specific);
      currentPos := currentPos + |f.specific|;
      CopyAt(frame, currentPos, Zeros(padding));
      assert Header(frame.Length, doff, f.frameType) + f.specific + Zeros(padding) ==
        Header(frame.Length, doff, f.frameType) + (f.specific + Zeros(padding));
    }

    method WritePayloads(frame: array<Byte>, start: nat, payloads: seq<Bytes>)
      requires start + |Join(payloads)| <= frame.Length
      modifies frame
      ensures frame[..start + |Join(payloads)|] == old(frame[..start]) + Join(payloads)
    {
      var currentPos := start;
      for i := 0 to |payloads|
        invariant currentPos == start + |Join(payloads[..i])| <= frame.Length
        invariant frame[..currentPos] == old(frame[..start]) + Join(payloads[..i])
      {
        JoinedSoFar(payloads, i);
        CopyAt(frame, currentPos, payloads[i]);
        currentPos := currentPos + |payloads[i]|;
      }
      assert payloads[..|payloads|] == payloads;
    }

    /**
     `frame_codec_receive_bytes`: the same events and the same verdict as octet by octet. A call that
     fails leaves the codec stuck.
     */
    method ReceiveBytes(buffer: Bytes) returns (ok: bool, events: seq<FrameEvent>)
      requires Valid()
      modifies this, receiveFrameBytes
      ensures Valid() && maxFrameSize == old(maxFrameSize) && subscriptions == old(subscriptions)
      ensures receiveFrameBytes == null || receiveFrameBytes == old(receiveFrameBytes) || fresh(receiveFrameBytes)
      ensures buffer == [] ==> !ok && events == [] && State() == old(State())
      ensures var r := RunFrames(old(State()), maxFrameSize, subscriptions, buffer);
        buffer != [] ==> ok == r.ok && events == r.events && (if ok then State() == r.next else Stuck(State()) && Stuck(r.next))
    {
      hide RunFrames, OnOctet;
      if buffer == [] {
        return false, [];
      }
      ghost var s0 := State();
      ghost var whole := RunFrames(s0, maxFrameSize, subscriptions, buffer);
      var i := 0;
      ok, events := true, [];
      assert buffer[0..] == buffer;
      QuietSteps(whole);
      while i < |buffer|
        invariant i <= |buffer| && Valid() && maxFrameSize == old(maxFrameSize) && subscriptions == old(subscriptions)
        invariant receiveFrameBytes == null || receiveFrameBytes == old(receiveFrameBytes) || fresh(receiveFrameBytes)
        invariant whole == Then(Step(State(), true, events), RunFrames(State(), maxFrameSize, subscriptions, buffer[i..]))
        decreases |buffer| - i, if receiveFrameState == FrameBodyState then 1 else 0
      {
        ghost var s := State();
        var turnOk, used, turnEvents := Turn(buffer[i..]);
        if !turnOk {
          return false, events + turnEvents;
        }
        ghost var rest := RunFrames(State(), maxFrameSize, subscriptions, buffer[i..][used..]);
        assert buffer[i..][used..] == buffer[i + used..];
        ThenThen(Step(s, true, events), Step(State(), true, turnEvents), rest);
        i, events := i + used, events + turnEvents;
      }
      NothingToRun(State(), maxFrameSize, subscriptions);
    }
  }

  lemma SizeOctets(size: nat)
    ensures BigEndian(size, 4) == [size / 0x100_0000 % 256, size / 0x1_0000 % 256, size / 0x100 % 256, size % 256]
  {
    var a := size / 256;
    assert a / 256 == size / 0x1_0000 && size / 0x1_0000 / 256 == size / 0x100_0000;
    assert BigEndian(size, 4) == BigEndian(a, 3) + [size % 256];
    assert BigEndian(a, 3) == BigEndian(a / 256, 2) + [a % 256];
    assert BigEndian(a / 256, 2) == BigEndian(a / 256 / 256, 1) + [a / 256 % 256];
    assert BigEndian(a / 256 / 256, 1) == [] + [a / 256 / 256 % 256];
  }

  lemma {:induction false} JoinedSoFar(payloads: seq<Bytes>, i: nat)
    requires i < |payloads|
    ensures Join(payloads[..i + 1]) == Join(payloads[..i]) + payloads[i]
    ensures |Join(payloads[..i + 1])| <= |Join(payloads)|
    decreases i
  {
    if i == 0 {
      assert payloads[..1] == [payloads[0]] && payloads[..0] == [];
      assert payloads[..1][1..] == payloads[..0];
      assert Join(payloads[..1]) == payloads[0] + Join(payloads[..0]);
    } else {
      var more := payloads[1..];
      JoinedSoFar(more, i - 1);
      assert payloads[..i + 1][1..] == more[..i] && payloads[..i][1..] == more[..i - 1];
      assert more[i - 1] == payloads[i];
    }
  }

  lemma Appended(a: Bytes, b: Bytes, start: nat, pos: nat, bs: Bytes)
    requires |a| == |b| && start + pos + |bs| <= |a|
    requires b[..start + pos] == a[..start + pos] && b[start + pos..start + pos + |bs|] == bs
    ensures b[..start] == a[..start] && b[start..start + (pos + |bs|)] == a[start..start + pos] + bs
  {
    assert b[..start] == b[..start + pos][..start] && a[..start] == a[..start + pos][..start];
    assert b[start..start + pos] == b[..start + pos][start..] && a[start..start + pos] == a[..start + pos][start..];
  }
}
