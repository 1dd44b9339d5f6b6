/** Frames octet by octet (AMQP 1.0 Part 2, section 2.3.1): where each field is, for the decoder and for the encoder. */
module FrameLayout {
  import opened Octets
  import opened WireFormat
  import opened FrameDecoding
  import opened FrameEncoding

  lemma FieldFirst(bs: Bytes, max: nat, types: set<Byte>)
    requires |bs| >= 4
    ensures var t := AfterSize(Number(bs[..4]), max);
      RunFrames(SizeField([]), max, types, bs) == Then(t, RunFrames(t.next, max, types, bs[4..]))
  {
    hide RunFrames, Number, FromBigEndian;
    ByPosition(bs[..4]);
    FourOctetsField(Number(bs[..4]), max, types, bs[..4], bs[4..]);
    assert bs == bs[..4] + bs[4..];
  }

  /** A size below 8 or above the limit: reported once, whatever follows. */
  lemma FaultySize(bs: Bytes, max: nat, types: set<Byte>)
    requires |bs| >= 4 && (Number(bs[..4]) < 8 || Number(bs[..4]) > max)
    ensures var r := RunFrames(SizeField([]), max, types, bs); !r.ok && r.events == [CodecError] && r.next == Error
  {
    hide RunFrames, Number;
    FieldFirst(bs, max, types);
    StuckForever(Error, max, types, bs[4..]);
    ErrorStays(max, types, bs[4..]);
  }

  /** So is a data offset below 2. */
  lemma FaultyOffset(bs: Bytes, max: nat, types: set<Byte>)
    requires |bs| >= 5 && 8 <= Number(bs[..4]) <= max && bs[4] < 2
    ensures var r := RunFrames(SizeField([]), max, types, bs); !r.ok && r.events == [CodecError] && r.next == Error
  {
    hide RunFrames, Number;
    FieldFirst(bs, max, types);
    var rest := bs[5..];
    assert bs[4..] == [bs[4]] + rest;
    RunOneMore(DoffField(Number(bs[..4])), max, types, bs[4], rest);
    StuckForever(Error, max, types, rest);
    ErrorStays(max, types, rest);
  }

  /** An offset past the end of the frame is not reported, but nothing is received any more. */
  lemma OffsetPastEnd(bs: Bytes, max: nat, types: set<Byte>)
    requires |bs| >= 6 && 8 <= Number(bs[..4]) <= max && bs[5] in types && (bs[4] as int) * 4 > Number(bs[..4])
    ensures var r := RunFrames(SizeField([]), max, types, bs);
      r.events == [] && Stuck(r.next) && (r.ok <==> |bs| <= Number(bs[..4]))
  {
    hide RunFrames, Number;
    var size := Number(bs[..4]);
    FieldFirst(bs, max, types);
    var rest := bs[6..];
    assert bs[4..] == [bs[4]] + ([bs[5]] + rest);
    RunOneMore(DoffField(size), max, types, bs[4], [bs[5]] + rest);
    RunOneMore(TypeField(size, bs[4]), max, types, bs[5], rest);
    StuckForever(PastEnd(size - 6), max, types, rest);
  }

  /**
   A frame that is there whole is handed on with the octets between the first 6 and the data offset, and those from
   the offset to the end of the frame; one with an extended header and no body only when another octet is there.
   */
  lemma FrameByPosition(bs: Bytes, max: nat, types: set<Byte>)
    requires |bs| >= 8 && 8 <= Number(bs[..4]) <= max < U32 && bs[4] >= 2 && bs[5] in types
    requires (bs[4] as int) * 4 <= Number(bs[..4]) <= |bs|
    ensures var size, offset := Number(bs[..4]), (bs[4] as int) * 4; var r := RunFrames(SizeField([]), max, types, bs);
      if offset == size == |bs| && size > 8 then r.ok && r.events == []
      else r == Then(Step(SizeField([]), true, [Received(bs[5], bs[6..offset], bs[offset..size])]), RunFrames(SizeField([]), max, types, bs[size..]))
  {
    hide RunFrames, Number, FromBigEndian, BigEndian;
    var size, offset: nat := Number(bs[..4]), (bs[4] as int) * 4;
    var specific, body := bs[6..offset], bs[offset..size];
    ByPosition(bs[..4]);
    assert bs == BigEndian(size, 4) + [bs[4], bs[5]] + specific + body + bs[size..];
    assert FrameOctets(bs[5], specific, body) + bs[size..] == bs;
    ReadFrame(bs[5], specific, body, max, types, bs[size..]);
  }

  /** What the encoder takes: up to 1014 type-specific octets, payloads that are not empty, and no more octets than the limit. */
  lemma SendableExactlyWhen(f: OutFrame, max: nat)
    ensures Sendable(f, max) <==>
      && |f.specific| <= 1014 && (forall k :: 0 <= k < |f.payloads| ==> f.payloads[k] != [])
      && (6 + |f.specific| + 3) / 4 * 4 + |Join(f.payloads)| <= max
  {
  }

  /** What is sent: its size, its data offset, its type, the type-specific octets, zeros up to a multiple of 4, the payloads. */
  lemma EncodedByPosition(f: OutFrame, max: nat)
    requires Sendable(f, max) && max < U32
    ensures var bs, n := EncodedFrame(f), |f.specific|; var offset := (6 + n + 3) / 4 * 4;
      && n <= 1014
      && |bs| == offset + |Join(f.payloads)| && Number(bs[..4]) == |bs|
      && (bs[4] as int) * 4 == offset && bs[5] == f.frameType
      && bs[6..6 + n] == f.specific && (forall k :: 6 + n <= k < offset ==> bs[k] == 0) && bs[offset..] == Join(f.payloads)
  {
    hide BigEndian, Number, Join, FromBigEndian;
    var bs, n := EncodedFrame(f), |f.specific|;
    Padding(f);
    WeightValues();
    WrittenByPosition(FrameSize(f), 4);
    assert bs[..4] == BigEndian(FrameSize(f), 4);
    var padded := Padded(f.specific);
    assert bs[6..6 + |padded|] == padded;
    assert bs[6..6 + n] == padded[..n] == f.specific;
    forall k | 6 + n <= k < 6 + |padded| ensures bs[k] == 0 {
      assert bs[k] == bs[6..6 + |padded|][k - 6];
    }
  }
}
