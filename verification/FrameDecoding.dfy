/**
 The frame decoder of src/frame_codec.c (AMQP 1.0 Part 2, section 2.3) as a state machine over octets,
 with the ways in which it gets stuck without saying so.
 */
module FrameDecoding {
  import opened Octets

  const FRAME_HEADER_SIZE: nat := 8

  /** A frame handed to its subscriber, or the one call of the error callback. */
  datatype FrameEvent =
    | Received(frameType: Byte, specific: Bytes, body: Bytes)
    | CodecError

  datatype FrameState =
    | SizeField(got: Bytes)
    | DoffField(size: nat)
    | TypeField(size: nat, doff: nat)
    | TypeSpecific(size: nat, doff: nat, frameType: Byte, got: Bytes)
    | Body(size: nat, doff: nat, frameType: Byte, specific: Bytes, got: Bytes)
      // DOFF points past the end of the frame: the buffer has room for so many octets more
    | PastEnd(room: nat)
      // nobody subscribed to the frame's type: octets are skipped, then the body has no buffer
    | Skip(size: nat, left: nat)
    | NoBuffer
      // nobody subscribed and DOFF is 2: the octets to skip were counted below zero
    | Swallow
    | Error

  datatype Step = Step(next: FrameState, ok: bool, events: seq<FrameEvent>)

  function OnOctet(s: FrameState, max: nat, types: set<Byte>, b: Byte): Step {
    match s
    case SizeField(got) =>
      var octets := got + [b];
      var size := FromBigEndian(octets);
      if |octets| < 4 then Step(SizeField(octets), true, [])
      else if size < FRAME_HEADER_SIZE || size > max then Step(Error, false, [CodecError])
      else Step(DoffField(size), true, [])
    case DoffField(size) =>
      if b < 2 then Step(Error, false, [CodecError]) else Step(TypeField(size, b), true, [])
    case TypeField(size, doff) =>
      if b in types then
        if doff * 4 > size then Step(PastEnd(if size < 6 then 0 else size - 6), true, [])
        else Step(TypeSpecific(size, doff, b, []), true, [])
      else if doff <= 2 then Step(Swallow, true, [])
      else Step(Skip(size, doff * 4 - 10), true, [])
    case TypeSpecific(size, doff, t, got) =>
      var specific := got + [b];
      if |specific| + 6 < doff * 4 then Step(TypeSpecific(size, doff, t, specific), true, [])
      else if size == FRAME_HEADER_SIZE then Step(SizeField([]), true, [Received(t, specific, [])])
      else Step(Body(size, doff, t, specific, []), true, [])
    case Body(size, doff, t, specific, got) =>
      if |got| + doff * 4 >= size then
        // a frame without a body but with an extended header waited for this octet
        Step(SizeField([b]), true, [Received(t, specific, got)])
      else if |got| + 1 + doff * 4 < size then Step(Body(size, doff, t, specific, got + [b]), true, [])
      else Step(SizeField([]), true, [Received(t, specific, got + [b])])
    case PastEnd(room) => if room > 0 then Step(PastEnd(room - 1), true, []) else Step(s, false, [])
    case Skip(size, left) =>
      if left > 1 then Step(Skip(size, left - 1), true, [])
      else if size == FRAME_HEADER_SIZE then Step(SizeField([]), true, [])
      else Step(NoBuffer, true, [])
    case NoBuffer => Step(s, false, [])
    case Swallow => Step(s, true, [])
    case Error => Step(s, false, [])
  }

  function Then(a: Step, b: Step): Step {
    Step(b.next, a.ok && b.ok, a.events + b.events)
  }

  function RunFrames(s: FrameState, max: nat, types: set<Byte>, bs: Bytes): Step
    decreases |bs|
  {
    if bs == [] then Step(s, true, [])
    else
      var t := OnOctet(s, max, types, bs[0]);
      Then(t, RunFrames(t.next, max, types, bs[1..]))
  }

  // ---------------------------------------------------------------- chunking, and being stuck

  lemma ThenThen(a: Step, b: Step, c: Step)
    ensures Then(Then(a, b), c) == Then(a, Then(b, c))
  {
    assert (a.events + b.events) + c.events == a.events + (b.events + c.events);
  }

  lemma {:induction false} RunFramesSplit(s: FrameState, max: nat, types: set<Byte>, a: Bytes, b: Bytes)
    ensures var r := RunFrames(s, max, types, a);
      RunFrames(s, max, types, a + b) == Then(r, RunFrames(r.next, max, types, b))
    decreases |a|
  {
    hide OnOctet;
    if a == [] {
      assert a + b == b;
    } else {
      assert (a + b)[0] == a[0] && (a + b)[1..] == a[1..] + b;
      var t := OnOctet(s, max, types, a[0]);
      RunFramesSplit(t.next, max, types, a[1..], b);
      var r := RunFrames(t.next, max, types, a[1..]);
      ThenThen(t, r, RunFrames(r.next, max, types, b));
    }
  }

  /** The octets as they come, call by call. */
  function RunChunks(s: FrameState, max: nat, types: set<Byte>, chunks: seq<Bytes>): Step
    decreases |chunks|
  {
    if chunks == [] then Step(s, true, [])
    else
      var r := RunFrames(s, max, types, chunks[0]);
      Then(r, RunChunks(r.next, max, types, chunks[1..]))
  }

  lemma {:induction false} FrameChunkingIsIrrelevant(s: FrameState, max: nat, types: set<Byte>, chunks: seq<Bytes>)
    ensures RunChunks(s, max, types, chunks) == RunFrames(s, max, types, Join(chunks))
    decreases |chunks|
  {
    hide OnOctet, RunFrames;
    if chunks == [] {
      NothingToRun(s, max, types);
    } else {
      var r := RunFrames(s, max, types, chunks[0]);
      FrameChunkingIsIrrelevant(r.next, max, types, chunks[1..]);
      RunFramesSplit(s, max, types, chunks[0], Join(chunks[1..]));
    }
  }

  lemma NothingToRun(s: FrameState, max: nat, types: set<Byte>)
    ensures RunFrames(s, max, types, []) == Step(s, true, [])
  {
  }

  lemma RunOneMore(s: FrameState, max: nat, types: set<Byte>, b: Byte, bs: Bytes)
    ensures var t := OnOctet(s, max, types, b);
      RunFrames(s, max, types, [b] + bs) == Then(t, RunFrames(t.next, max, types, bs))
  {
    assert ([b] + bs)[1..] == bs;
  }

  /** No octet gets the decoder out of these states, and none makes it deliver anything. */
  predicate Stuck(s: FrameState) {
    s.PastEnd? || s.NoBuffer? || s.Swallow? || s.Error?
  }

  lemma {:induction false} StuckForever(s: FrameState, max: nat, types: set<Byte>, bs: Bytes)
    requires Stuck(s)
    ensures var r := RunFrames(s, max, types, bs); Stuck(r.next) && r.events == []
    ensures RunFrames(s, max, types, bs).ok <==> bs == [] || s.Swallow? || (s.PastEnd? && |bs| <= s.room)
    decreases |bs|
  {
    if bs != [] {
      StuckForever(OnOctet(s, max, types, bs[0]).next, max, types, bs[1..]);
    }
  }

  /** A call fails only when the decoder is stuck. */
  lemma {:induction false} FailureIsStuck(s: FrameState, max: nat, types: set<Byte>, bs: Bytes)
    ensures var r := RunFrames(s, max, types, bs); !r.ok ==> Stuck(r.next)
    decreases |bs|
  {
    if bs != [] {
      var t := OnOctet(s, max, types, bs[0]);
      FailureIsStuck(t.next, max, types, bs[1..]);
      if !t.ok {
        StuckForever(t.next, max, types, bs[1..]);
      }
    }
  }

  /** What the octets `bs` behind the header of a frame nobody subscribed to lead to. */
  function AfterUnsubscribed(size: nat, doff: nat, max: nat, types: set<Byte>, bs: Bytes): Step
    requires doff >= 2
  {
    var skipped := doff * 4 - 10;
    if doff == 2 then Step(Swallow, true, [])
    else if |bs| < skipped then Step(Skip(size, skipped - |bs|), true, [])
    else if size == FRAME_HEADER_SIZE then RunFrames(SizeField([]), max, types, bs[skipped..])
    else Step(NoBuffer, |bs| == skipped, [])
  }

  predicate UnsubscribedFrame(size: nat, doff: nat, max: nat, types: set<Byte>, t: Byte) {
    FRAME_HEADER_SIZE <= size <= max && size < U32 && 2 <= doff < 256 && t !in types
  }

  /**
   A frame of a type nobody subscribed to, for every size and DOFF and whatever follows: its type-specific octets
   are skipped, 4 too few, and only a frame of 8 octets leads back to the size field; with a DOFF of 2, as in every
   frame an AMQP peer sends, all that follows is lost without an error.
   */
  lemma UnsubscribedFrameExactly(size: nat, doff: nat, max: nat, types: set<Byte>, t: Byte, bs: Bytes)
    requires UnsubscribedFrame(size, doff, max, types, t)
    ensures RunFrames(SizeField([]), max, types, Header(size, doff, t) + bs) == AfterUnsubscribed(size, doff, max, types, bs)
  {
    hide RunFrames, BigEndian;
    assert Header(size, doff, t) + bs == BigEndian(size, 4) + ([doff] + ([t] + bs));
    RunSizeField(size, max, types, [doff] + ([t] + bs));
    RunOneMore(DoffField(size), max, types, doff, [t] + bs);
    RunOneMore(TypeField(size, doff), max, types, t, bs);
    if doff == 2 {
      StillSwallowing(max, types, bs);
    } else {
      RunSkip(size, doff * 4 - 10, max, types, bs);
    }
    QuietSteps(AfterUnsubscribed(size, doff, max, types, bs));
  }

  lemma {:induction false} RunSkip(size: nat, left: nat, max: nat, types: set<Byte>, bs: Bytes)
    requires left > 0
    ensures RunFrames(Skip(size, left), max, types, bs) ==
      if |bs| < left then Step(Skip(size, left - |bs|), true, [])
      else if size == FRAME_HEADER_SIZE then RunFrames(SizeField([]), max, types, bs[left..])
      else Step(NoBuffer, |bs| == left, [])
    decreases |bs|
  {
    hide RunFrames;
    if bs == [] {
      NothingToRun(Skip(size, left), max, types);
    } else {
      var tail := bs[1..];
      assert bs == [bs[0]] + tail;
      RunOneMore(Skip(size, left), max, types, bs[0], tail);
      if left > 1 {
        RunSkip(size, left - 1, max, types, tail);
        assert |tail| >= left - 1 ==> tail[left - 1..] == bs[left..];
        QuietSteps(RunFrames(Skip(size, left - 1), max, types, tail));
      } else if size == FRAME_HEADER_SIZE {
        QuietSteps(RunFrames(SizeField([]), max, types, tail));
      } else {
        WithoutBuffer(max, types, tail);
        QuietSteps(RunFrames(NoBuffer, max, types, tail));
      }
    }
  }

  lemma {:induction false} WithoutBuffer(max: nat, types: set<Byte>, bs: Bytes)
    ensures RunFrames(NoBuffer, max, types, bs) == Step(NoBuffer, bs == [], [])
    decreases |bs|
  {
    if bs != [] {
      WithoutBuffer(max, types, bs[1..]);
    }
  }

  /** Behind such a frame another one can be delivered exactly when its size is 8 and its DOFF is not 2. */
  lemma ReceivesAfterUnsubscribed(size: nat, doff: nat, max: nat, types: set<Byte>, t: Byte, u: Byte)
    requires UnsubscribedFrame(size, doff, max, types, t) && u in types && max < U32
    ensures (exists bs :: Received(u, [0, 0], []) in RunFrames(SizeField([]), max, types, Header(size, doff, t) + bs).events)
      <==> size == FRAME_HEADER_SIZE && doff > 2
    ensures (exists bs :: RunFrames(SizeField([]), max, types, Header(size, doff, t) + bs).events != [])
      <==> size == FRAME_HEADER_SIZE && doff > 2
  {
    hide RunFrames;
    forall bs
      ensures RunFrames(SizeField([]), max, types, Header(size, doff, t) + bs) == AfterUnsubscribed(size, doff, max, types, bs)
    {
      UnsubscribedFrameExactly(size, doff, max, types, t, bs);
    }
    if size == FRAME_HEADER_SIZE && doff > 2 {
      var skipped: Bytes := seq(doff * 4 - 10, _ => 0);
      var frame := FrameOctets(u, [0, 0], []);
      ReadFrame(u, [0, 0], [], max, types, []);
      assert frame + [] == frame;
      NothingToRun(SizeField([]), max, types);
      assert (skipped + frame)[doff * 4 - 10..] == frame;
      assert Received(u, [0, 0], []) in RunFrames(SizeField([]), max, types, Header(size, doff, t) + (skipped + frame)).events;
    }
  }

  /** And the decoder goes on for ever without an error or a frame exactly when its DOFF is 2. */
  lemma SwallowsAfterUnsubscribed(size: nat, doff: nat, max: nat, types: set<Byte>, t: Byte)
    requires UnsubscribedFrame(size, doff, max, types, t)
    ensures (forall bs :: var r := RunFrames(SizeField([]), max, types, Header(size, doff, t) + bs); r.ok && r.events == [])
      <==> doff == 2
  {
    hide RunFrames;
    forall bs
      ensures RunFrames(SizeField([]), max, types, Header(size, doff, t) + bs) == AfterUnsubscribed(size, doff, max, types, bs)
    {
      UnsubscribedFrameExactly(size, doff, max, types, t, bs);
    }
    if doff > 2 {
      var skipped: Bytes := seq(doff * 4 - 10, _ => 0);
      var zeros: Bytes := [0, 0, 0, 0];
      var bs := skipped + zeros;
      assert bs[doff * 4 - 10..] == zeros;
      if size == FRAME_HEADER_SIZE {
        FourOctetsField(FromBigEndian(zeros), max, types, zeros, []);
        assert zeros + [] == zeros;
        NoSize();
        NothingToRun(Error, max, types);
      }
      assert !RunFrames(SizeField([]), max, types, Header(size, doff, t) + bs).ok;
    }
  }

  lemma NoSize()
    ensures FromBigEndian([0, 0, 0, 0]) == 0
  {
    var z: Bytes := [0, 0, 0, 0];
    assert z[1..] == [0, 0, 0] && z[1..][1..] == [0, 0] && z[1..][1..][1..] == [0] && z[1..][1..][1..][1..] == [];
    assert Shifted(0, 3) == 256 * Shifted(0, 2) && Shifted(0, 2) == 256 * Shifted(0, 1) && Shifted(0, 1) == 256 * Shifted(0, 0);
    assert FromBigEndian([]) == 0 && FromBigEndian([0]) == 0 && FromBigEndian([0, 0]) == 0 && FromBigEndian([0, 0, 0]) == 0;
  }

  lemma {:induction false} StillSwallowing(max: nat, types: set<Byte>, bs: Bytes)
    ensures RunFrames(Swallow, max, types, bs) == Step(Swallow, true, [])
    decreases |bs|
  {
    if bs != [] {
      StillSwallowing(max, types, bs[1..]);
    }
  }

  // ---------------------------------------------------------------- the invariant

  /** Sizes within the limit, every copy within `size - 6` octets, DOFF within the frame. */
  predicate FrameValid(s: FrameState, max: nat) {
    match s
    case SizeField(got) => |got| < 4
    case DoffField(size) => FRAME_HEADER_SIZE <= size <= max
    case TypeField(size, doff) => FRAME_HEADER_SIZE <= size <= max && 2 <= doff < 256
    case TypeSpecific(size, doff, _, got) =>
      FRAME_HEADER_SIZE <= size <= max && 2 <= doff < 256 && doff * 4 <= size && |got| < doff * 4 - 6 <= size - 6
    case Body(size, doff, _, specific, got) =>
      && FRAME_HEADER_SIZE < size <= max && 2 <= doff < 256 && doff * 4 <= size && |specific| == doff * 4 - 6
      && (|got| + doff * 4 < size || (got == [] && size == doff * 4))
    case Skip(size, left) => FRAME_HEADER_SIZE <= size <= max && left > 0
    case _ => true
  }

  /** A frame that may be delivered: complete, of a subscribed type, no longer than the limit, DOFF inside it. */
  predicate Deliverable(e: FrameEvent, max: nat, types: set<Byte>) {
    e.Received? ==>
      && e.frameType in types && 6 + |e.specific| + |e.body| <= max
      && (6 + |e.specific|) % 4 == 0 && 2 <= (6 + |e.specific|) / 4 < 256
  }

  predicate InTypes(s: FrameState, types: set<Byte>) {
    match s
    case TypeSpecific(_, _, t, _) => t in types
    case Body(_, _, t, _, _) => t in types
    case _ => true
  }

  lemma OnOctetKeeps(s: FrameState, max: nat, types: set<Byte>, b: Byte)
    requires FrameValid(s, max) && InTypes(s, types)
    ensures var t := OnOctet(s, max, types, b);
      && FrameValid(t.next, max) && InTypes(t.next, types)
      && forall k :: 0 <= k < |t.events| ==> Deliverable(t.events[k], max, types)
  {
  }

  /** Over any octets the decoder keeps its invariant and delivers only frames that are in order. */
  lemma {:induction false} RunFramesKeeps(s: FrameState, max: nat, types: set<Byte>, bs: Bytes)
    requires FrameValid(s, max) && InTypes(s, types)
    ensures var r := RunFrames(s, max, types, bs);
      && FrameValid(r.next, max) && InTypes(r.next, types)
      && forall k :: 0 <= k < |r.events| ==> Deliverable(r.events[k], max, types)
    decreases |bs|
  {
    hide OnOctet, FrameValid, Deliverable, InTypes;
    if bs != [] {
      OnOctetKeeps(s, max, types, bs[0]);
      RunFramesKeeps(OnOctet(s, max, types, bs[0]).next, max, types, bs[1..]);
    }
  }

  // ---------------------------------------------------------------- nothing is lost, nothing is made up

  /** Size, DOFF, type, type-specific octets, body. */
  function FrameOctets(t: Byte, specific: Bytes, body: Bytes): Bytes {
    Header(6 + |specific| + |body|, (6 + |specific|) / 4, t) + specific + body
  }

  function Header(size: nat, doff: nat, t: Byte): Bytes {
    BigEndian(size, 4) + [doff % 256, t]
  }

  function EventOctets(es: seq<FrameEvent>): Bytes {
    if es == [] then []
    else (if es[0].Received? then FrameOctets(es[0].frameType, es[0].specific, es[0].body) else []) + EventOctets(es[1..])
  }

  /** The octets of the frame that is not complete yet. */
  function Pending(s: FrameState): Bytes {
    match s
    case SizeField(got) => got
    case DoffField(size) => BigEndian(size, 4)
    case TypeField(size, doff) => BigEndian(size, 4) + [doff % 256]
    case TypeSpecific(size, doff, t, got) => Header(size, doff, t) + got
    case Body(size, doff, t, specific, got) => Header(size, doff, t) + specific + got
    case _ => []
  }

  predicate InFrame(s: FrameState) {
    !Stuck(s) && !s.Skip?
  }

  /** No frame on the way is faulty or of a type nobody subscribed to. */
  predicate Clean(s: FrameState, max: nat, types: set<Byte>, bs: Bytes)
    decreases |bs|
  {
    InFrame(s) && (bs == [] || Clean(OnOctet(s, max, types, bs[0]).next, max, types, bs[1..]))
  }

  lemma {:induction false} FieldOctets(bs: Bytes)
    ensures FromBigEndian(bs) < Weight(|bs|)
    ensures BigEndian(FromBigEndian(bs), |bs|) == bs
    decreases |bs|
  {
    if bs != [] {
      var init, b := bs[..|bs| - 1], bs[|bs| - 1];
      assert bs == init + [b];
      FieldOctets(init);
      FromBigEndianLast(init, b);
      assert (256 * FromBigEndian(init) + b) / 256 == FromBigEndian(init);
    }
  }

  lemma {:induction false} EventOctetsConcat(a: seq<FrameEvent>, b: seq<FrameEvent>)
    ensures EventOctets(a + b) == EventOctets(a) + EventOctets(b)
    decreases |a|
  {
    hide FrameOctets;
    if a == [] {
      assert a + b == b;
    } else {
      assert (a + b)[0] == a[0] && (a + b)[1..] == a[1..] + b;
      EventOctetsConcat(a[1..], b);
    }
  }

  lemma OneEvent(e: FrameEvent)
    requires e.Received?
    ensures EventOctets([e]) == FrameOctets(e.frameType, e.specific, e.body)
  {
    hide FrameOctets;
    assert [e][1..] == [];
    assert EventOctets([]) == [];
  }

  lemma FrameComplete(size: nat, doff: nat, t: Byte, specific: Bytes, body: Bytes)
    requires |specific| + 6 == doff * 4 && |body| + doff * 4 == size
    ensures EventOctets([Received(t, specific, body)]) == Header(size, doff, t) + specific + body
  {
    hide Header;
    OneEvent(Received(t, specific, body));
  }

  lemma OctetAccounted(s: FrameState, max: nat, types: set<Byte>, b: Byte)
    requires FrameValid(s, max) && InFrame(s) && InFrame(OnOctet(s, max, types, b).next)
    ensures var t := OnOctet(s, max, types, b); Pending(s) + [b] == EventOctets(t.events) + Pending(t.next)
  {
    hide FrameOctets, BigEndian, EventOctets, FromBigEndian;
    assert EventOctets([]) == [] by { NoEvents(); }
    match s
    case SizeField(got) =>
      FieldOctets(got + [b]);
    case DoffField(size) =>
    case TypeField(size, doff) =>
      assert BigEndian(size, 4) + [doff % 256] + [b] == Header(size, doff, b) + [];
    case TypeSpecific(size, doff, t, got) =>
      assert Header(size, doff, t) + got + [b] == Header(size, doff, t) + (got + [b]);
      if |got| + 7 == doff * 4 {
        FrameComplete(if size == 8 then size else doff * 4, doff, t, got + [b], []);
      }
    case Body(size, doff, t, specific, got) =>
      assert Header(size, doff, t) + specific + got + [b] == Header(size, doff, t) + specific + (got + [b]);
      if got == [] && size == doff * 4 {
        FrameComplete(size, doff, t, specific, got);
      } else if |got| + 1 + doff * 4 == size {
        FrameComplete(size, doff, t, specific, got + [b]);
      }
  }

  lemma NoEvents()
    ensures EventOctets([]) == []
  {
  }

  /**
   Every octet of a clean stream is in exactly one place: in the frames delivered, in order, or in the
   frame still being received. So the decoder inverts the frame layout on whatever it accepts.
   */
  lemma {:induction false} EveryOctetAccounted(s: FrameState, max: nat, types: set<Byte>, bs: Bytes)
    requires FrameValid(s, max) && InTypes(s, types) && Clean(s, max, types, bs)
    ensures var r := RunFrames(s, max, types, bs); Pending(s) + bs == EventOctets(r.events) + Pending(r.next)
    decreases |bs|
  {
    hide OnOctet, FrameValid, InTypes, Pending, EventOctets;
    NoEvents();
    if bs == [] {
      assert Pending(s) + bs == [] + Pending(s);
    } else {
      var t := OnOctet(s, max, types, bs[0]);
      OnOctetKeeps(s, max, types, bs[0]);
      OctetAccounted(s, max, types, bs[0]);
      EveryOctetAccounted(t.next, max, types, bs[1..]);
      var r := RunFrames(t.next, max, types, bs[1..]);
      EventOctetsConcat(t.events, r.events);
      assert bs == [bs[0]] + bs[1..];
      assert Pending(s) + ([bs[0]] + bs[1..]) == (Pending(s) + [bs[0]]) + bs[1..];
      assert (EventOctets(t.events) + Pending(t.next)) + bs[1..] == EventOctets(t.events) + (Pending(t.next) + bs[1..]);
    }
  }

  // ---------------------------------------------------------------- reading one frame

  function AfterSize(size: nat, max: nat): Step {
    if size < FRAME_HEADER_SIZE || size > max then Step(Error, false, [CodecError]) else Step(DoffField(size), true, [])
  }

  lemma FourOctetsField(size: nat, max: nat, types: set<Byte>, field: Bytes, rest: Bytes)
    requires |field| == 4 && FromBigEndian(field) == size
    ensures var t := AfterSize(size, max);
      RunFrames(SizeField([]), max, types, field + rest) == Then(t, RunFrames(t.next, max, types, rest))
  {
    hide RunFrames, FromBigEndian;
    var a, b, c, d := field[0], field[1], field[2], field[3];
    assert field == [a, b, c, d];
    assert field + rest == [a] + ([b] + ([c] + ([d] + rest)));
    RunOneMore(SizeField([]), max, types, a, [b] + ([c] + ([d] + rest)));
    assert [] + [a] == [a] && [a] + [b] == [a, b] && [a, b] + [c] == [a, b, c] && [a, b, c] + [d] == field;
    RunOneMore(SizeField([a]), max, types, b, [c] + ([d] + rest));
    RunOneMore(SizeField([a, b]), max, types, c, [d] + rest);
    RunOneMore(SizeField([a, b, c]), max, types, d, rest);
    var t := AfterSize(size, max);
    QuietSteps(Then(t, RunFrames(t.next, max, types, rest)));
  }

  /** A frame longer than the limit is reported, and nothing is received after it. */
  lemma TooLong(size: nat, max: nat, types: set<Byte>, rest: Bytes)
    requires max < size < U32
    ensures var r := RunFrames(SizeField([]), max, types, BigEndian(size, 4) + rest);
      r.next == Error && !r.ok && r.events == [CodecError]
  {
    hide RunFrames, BigEndian;
    WeightValues();
    FieldValue(size, 4);
    FourOctetsField(size, max, types, BigEndian(size, 4), rest);
    StuckForever(Error, max, types, rest);
    ErrorStays(max, types, rest);
  }

  lemma {:induction false} ErrorStays(max: nat, types: set<Byte>, bs: Bytes)
    ensures RunFrames(Error, max, types, bs).next == Error
    decreases |bs|
  {
    if bs != [] {
      ErrorStays(max, types, bs[1..]);
    }
  }

  lemma QuietSteps(r: Step)
    ensures forall s :: Then(Step(s, true, []), r) == r
  {
    assert [] + r.events == r.events;
  }

  lemma RunSizeField(size: nat, max: nat, types: set<Byte>, rest: Bytes)
    requires FRAME_HEADER_SIZE <= size <= max && size < U32
    ensures RunFrames(SizeField([]), max, types, BigEndian(size, 4) + rest) == RunFrames(DoffField(size), max, types, rest)
  {
    hide RunFrames, BigEndian;
    WeightValues();
    FieldValue(size, 4);
    FourOctetsField(size, max, types, BigEndian(size, 4), rest);
    QuietSteps(RunFrames(DoffField(size), max, types, rest));
  }

  lemma {:induction false} RunSpecific(s: FrameState, more: Bytes, max: nat, types: set<Byte>, rest: Bytes)
    requires s.TypeSpecific? && |s.got| + |more| + 6 == s.doff * 4 && more != []
    ensures RunFrames(s, max, types, more + rest) ==
      if s.size == 8 then Then(Step(SizeField([]), true, [Received(s.frameType, s.got + more, [])]), RunFrames(SizeField([]), max, types, rest))
      else RunFrames(Body(s.size, s.doff, s.frameType, s.got + more, []), max, types, rest)
    decreases |more|
  {
    hide RunFrames;
    var tail, s' := more[1..], TypeSpecific(s.size, s.doff, s.frameType, s.got + [more[0]]);
    assert more + rest == [more[0]] + (tail + rest);
    RunOneMore(s, max, types, more[0], tail + rest);
    assert s.got + more == s'.got + tail;
    if tail == [] {
      assert tail + rest == rest && s.got + more == s.got + [more[0]];
      QuietSteps(RunFrames(Body(s.size, s.doff, s.frameType, s.got + more, []), max, types, rest));
    } else {
      RunSpecific(s', tail, max, types, rest);
      QuietSteps(RunFrames(s', max, types, tail + rest));
    }
  }

  lemma {:induction false} RunBody(s: FrameState, more: Bytes, max: nat, types: set<Byte>, rest: Bytes)
    requires s.Body? && |s.got| + |more| + s.doff * 4 == s.size && more != []
    ensures RunFrames(s, max, types, more + rest) ==
      Then(Step(SizeField([]), true, [Received(s.frameType, s.specific, s.got + more)]), RunFrames(SizeField([]), max, types, rest))
    decreases |more|
  {
    hide RunFrames;
    var tail, s' := more[1..], Body(s.size, s.doff, s.frameType, s.specific, s.got + [more[0]]);
    assert more + rest == [more[0]] + (tail + rest);
    RunOneMore(s, max, types, more[0], tail + rest);
    assert s.got + more == s'.got + tail;
    if tail == [] {
      assert tail + rest == rest && s.got + more == s.got + [more[0]];
    } else {
      RunBody(s', tail, max, types, rest);
      QuietSteps(RunFrames(s', max, types, tail + rest));
    }
  }

  /** A frame without a body but with an extended header is only delivered when another octet comes. */
  lemma RunNoBody(s: FrameState, max: nat, types: set<Byte>, rest: Bytes)
    requires s.Body? && s.got == [] && s.doff * 4 == s.size
    ensures RunFrames(s, max, types, rest) ==
      if rest == [] then Step(s, true, [])
      else Then(Step(SizeField([]), true, [Received(s.frameType, s.specific, [])]), RunFrames(SizeField([]), max, types, rest))
  {
    if rest != [] {
      var r := RunFrames(SizeField([rest[0]]), max, types, rest[1..]);
      assert [] + [rest[0]] == [rest[0]];
      assert OnOctet(SizeField([]), max, types, rest[0]) == Step(SizeField([rest[0]]), true, []);
      QuietSteps(r);
    }
  }

  lemma RunHeader(size: nat, doff: nat, t: Byte, max: nat, types: set<Byte>, rest: Bytes)
    requires FRAME_HEADER_SIZE <= size <= max && size < U32 && 2 <= doff < 256 && doff * 4 <= size && t in types
    ensures RunFrames(SizeField([]), max, types, Header(size, doff, t) + rest) ==
      RunFrames(TypeSpecific(size, doff, t, []), max, types, rest)
  {
    hide RunFrames, BigEndian;
    assert Header(size, doff, t) + rest == BigEndian(size, 4) + ([doff] + ([t] + rest));
    RunSizeField(size, max, types, [doff] + ([t] + rest));
    RunOneMore(DoffField(size), max, types, doff, [t] + rest);
    RunOneMore(TypeField(size, doff), max, types, t, rest);
    QuietSteps(RunFrames(TypeSpecific(size, doff, t, []), max, types, rest));
  }

  predicate Decodable(t: Byte, specific: Bytes, body: Bytes, max: nat, types: set<Byte>) {
    t in types && (6 + |specific|) % 4 == 0 && 2 <= (6 + |specific|) / 4 < 256 && 6 + |specific| + |body| <= max && max < U32
  }

  lemma ReadFrame(t: Byte, specific: Bytes, body: Bytes, max: nat, types: set<Byte>, rest: Bytes)
    requires Decodable(t, specific, body, max, types)
    ensures RunFrames(SizeField([]), max, types, FrameOctets(t, specific, body) + rest) ==
      if body == [] && rest == [] && |specific| > 2 then
        Step(Body(6 + |specific|, (6 + |specific|) / 4, t, specific, []), true, [])
      else Then(Step(SizeField([]), true, [Received(t, specific, body)]), RunFrames(SizeField([]), max, types, rest))
  {
    hide RunFrames, Header;
    var size, doff := 6 + |specific| + |body|, (6 + |specific|) / 4;
    assert FrameOctets(t, specific, body) + rest == Header(size, doff, t) + (specific + (body + rest));
    RunHeader(size, doff, t, max, types, specific + (body + rest));
    RunSpecific(TypeSpecific(size, doff, t, []), specific, max, types, body + rest);
    assert [] + specific == specific && [] + body == body;
    if body == [] {
      assert body + rest == rest;
      if size != 8 {
        RunNoBody(Body(size, doff, t, specific, []), max, types, rest);
      }
    } else {
      RunBody(Body(size, doff, t, specific, []), body, max, types, rest);
    }
  }
}
