/** What a turn of the C decoder's loop does when it takes many octets at once, in terms of single octets. */
module DecoderTurns {
  import opened Octets
  import opened AmqpValues
  import opened DecoderSpec
  import opened Chunking

  /** One turn of the C loop: `used` octets of `bs` are gone, the rest is for the state `m1`. */
  ghost predicate Advances(m0: Decoder, m1: Decoder, depth: nat, outermost: bool, bs: Bytes, ok: bool, used: nat, calls: seq<Value>)
    requires WellFormed(m0, depth, outermost) && (ok ==> WellFormed(m1, depth, outermost))
  {
    if ok then
      && used <= |bs|
      && (used > 0 || Slack(m1) < Slack(m0))
      && Feed(m0, depth, outermost, bs) == After(calls, Feed(m1, depth, outermost, bs[used..]))
    else Feed(m0, depth, outermost, bs) == Broke(calls)
  }

  lemma OneTurnAdvances(m0: Decoder, t: Turn, depth: nat, outermost: bool, bs: Bytes)
    requires WellFormed(m0, depth, outermost) && !m0.Done? && bs != []
    requires t == Iterate(m0, depth, outermost, bs[0])
    ensures t.Fail? ==> Advances(m0, m0, depth, outermost, bs, false, 0, t.calls)
    ensures t.Ok? ==> WellFormed(t.state, depth, outermost)
    ensures t.Ok? ==> Advances(m0, t.state, depth, outermost, bs, true, if t.used then 1 else 0, t.calls)
  {
    hide Iterate, WellFormed, Slack;
    IterateKeepsInvariant(m0, depth, outermost, bs[0]);
    assert bs[0..] == bs;
  }

  lemma ContentTurn(d: Decoder, depth: nat, outermost: bool, b: Byte)
    requires d.Content? && WellFormed(d, depth, outermost)
    ensures Iterate(d, depth, outermost, b) == OnContent(d, outermost, b)
  {
  }

  /** Copying `k` octets at once is `k` turns. */
  lemma {:induction false} FeedCopy(c: Byte, len: nat, got: Bytes, depth: nat, outermost: bool, bs: Bytes, k: nat)
    requires k <= |bs| && |got| + k < len < MAX_MALLOC
    ensures Feed(Content(c, len, got), depth, outermost, bs) == Feed(Content(c, len, got + bs[..k]), depth, outermost, bs[k..])
    decreases k
  {
    hide Feed, Iterate, Slack;
    if k == 0 {
      assert got + bs[..0] == got && bs[0..] == bs;
    } else {
      var got' := got + [bs[0]];
      assert bs == [bs[0]] + bs[1..];
      ContentTurn(Content(c, len, got), depth, outermost, bs[0]);
      assert Iterate(Content(c, len, got), depth, outermost, bs[0]) == Ok(Content(c, len, got'), true, []);
      FeedStep(Content(c, len, got), depth, outermost, bs[0], bs[1..]);
      AfterNothing(Feed(Content(c, len, got'), depth, outermost, bs[1..]));
      FeedCopy(c, len, got', depth, outermost, bs[1..], k - 1);
      assert got' + bs[1..][..k - 1] == got + bs[..k];
      assert bs[1..][k - 1..] == bs[k..];
    }
  }

  lemma FeedCopyEnd(c: Byte, got: Bytes, depth: nat, outermost: bool, bs: Bytes, k: nat)
    requires 0 < k <= |bs| && |got| + k < MAX_MALLOC
    ensures var t := Complete(outermost, Start, ContentValue(c, got + bs[..k]), true);
      Feed(Content(c, |got| + k, got), depth, outermost, bs) == After(t.calls, Feed(t.state, depth, outermost, bs[k..]))
  {
    var got' := got + bs[..k - 1];
    var b, tail := bs[k - 1], bs[k..];
    assert bs[k - 1..] == [b] + tail;
    assert got' + [b] == got + bs[..k];
    assert Iterate(Content(c, |got| + k, got'), depth, outermost, b) == Complete(outermost, Start, ContentValue(c, got + bs[..k]), true);
    hide Iterate, Feed;
    FeedCopy(c, |got| + k, got, depth, outermost, bs, k - 1);
    FeedStep(Content(c, |got| + k, got'), depth, outermost, b, tail);
  }

  lemma {:induction false} FeedSuffix(d: Decoder, depth: nat, outermost: bool, bs: Bytes)
    requires WellFormed(d, depth, outermost)
    ensures var r := Feed(d, depth, outermost, bs); r.Ran? ==> |r.rest| <= |bs| && r.rest == bs[|bs| - |r.rest|..]
    decreases |bs|, Slack(d)
  {
    hide Iterate, WellFormed, Slack;
    if bs != [] && !d.Done? {
      IterateKeepsInvariant(d, depth, outermost, bs[0]);
      var t := Iterate(d, depth, outermost, bs[0]);
      if t.Ok? {
        FeedSuffix(t.state, depth, outermost, if t.used then bs[1..] else bs);
      }
    }
  }

  // ---------------------------------------------------------------- nested turns

  /** The frame once the inner decoder exists. */
  function OpenedFrame(f: Frame, inner: Inner, b: Byte): Frame {
    if inner.NotYet? then Opened(f, b) else f
  }

  function InnerDecoder(inner: Inner): Decoder {
    if inner.NotYet? then Start else inner.decoder
  }

  /** The inner decoder took what it wanted of `bs`, and is done: the outer one absorbs the value. */
  function Absorbed(f: Frame, v: Value, depth: nat, outermost: bool, bs: Bytes, rest: Bytes): Run
    requires FrameInvariant(f) && (f.InMap? ==> |f.pairs| < f.pairCount) && depth + 1 <= MAX_DEPTH
  {
    var t := Absorb(f, v, depth, outermost, true);
    AbsorbKeepsInvariant(f, v, depth, outermost, true);
    if t.Fail? then Broke(t.calls)
    else After(t.calls, Feed(t.state, depth, outermost, if t.used then rest else bs))
  }

  /** What the inner run `r` over all of `bs` makes the outer decoder do. */
  function OuterRun(f: Frame, r: Run, depth: nat, outermost: bool, bs: Bytes): Run
    requires FrameInvariant(f) && (f.InMap? ==> |f.pairs| < f.pairCount) && depth + 1 <= MAX_DEPTH
  {
    if r.Broke? then Broke([])
    else if !r.state.Done? then Ran(Nest(f, Running(r.state)), r.rest, [])
    else Absorbed(f, r.state.result, depth, outermost, bs, r.rest)
  }

  /** Items that take no octets: the inner decoder is done after one turn, or was done before it. */
  lemma ZeroWidthRun(f: Frame, inner: Inner, depth: nat, outermost: bool, bs: Bytes)
    requires WellFormed(Nest(f, inner), depth, outermost) && f.InArray? && bs != [] && depth + 1 <= MAX_DEPTH
    requires ZeroWidth(OpenedFrame(f, inner, bs[0]).itemConstructor)
    ensures Feed(Nest(f, inner), depth, outermost, bs) ==
      OuterRun(OpenedFrame(f, inner, bs[0]), Feed(InnerDecoder(inner), depth + 1, false, bs), depth, outermost, bs)
  {
    var f', i := OpenedFrame(f, inner, bs[0]), InnerDecoder(inner);
    assert bs == [bs[0]] + bs[1..];
    if inner.NotYet? {
      var v := ZeroWidthValue(bs[0]);
      assert Iterate(Start, depth + 1, false, bs[0]) == Ok(Done(v), true, []);
      Consume(Start, Done(v), depth + 1, bs[0], bs[1..]);
      FeedDone(v, depth + 1, bs[1..]);
      assert OnConstructor(depth + 1, false, bs[0]) == Ok(Done(v), true, []);
      assert Settle(f', Ok(Done(v), true, []), depth, outermost) == Absorb(f', v, depth, outermost, true);
      assert Iterate(Nest(f, inner), depth, outermost, bs[0]) == OnNest(f, inner, depth, outermost, bs[0]);
    } else {
      assert inner == Running(i) && f' == f && i.Done?;
      assert Iterate(i, depth + 1, false, bs[0]) == Ok(i, false, []);
      assert Iterate(Nest(f, inner), depth, outermost, bs[0]) == Settle(f, Ok(i, false, []), depth, outermost);
    }
    FeedStep(Nest(f, inner), depth, outermost, bs[0], bs[1..]);
  }

  /** Items, keys, values and descriptors that take octets. */
  lemma PlainRun(f: Frame, inner: Inner, depth: nat, outermost: bool, bs: Bytes)
    requires WellFormed(Nest(f, inner), depth, outermost) && bs != []
    requires inner.NotYet? ==> !NoInner(f, depth)
    requires !(f.InArray? && ZeroWidth(OpenedFrame(f, inner, bs[0]).itemConstructor))
    ensures Feed(Nest(f, inner), depth, outermost, bs) ==
      OuterRun(OpenedFrame(f, inner, bs[0]), Feed(InnerDecoder(inner), depth + 1, false, bs), depth, outermost, bs)
  {
    var f', i := OpenedFrame(f, inner, bs[0]), InnerDecoder(inner);
    if inner.NotYet? {
      assert Iterate(Start, depth + 1, false, bs[0]) == OnConstructor(depth + 1, false, bs[0]);
      assert Iterate(Nest(f, inner), depth, outermost, bs[0]) == Iterate(Nest(f', Running(Start)), depth, outermost, bs[0]);
    }
    FeedInner(f', i, depth, outermost, bs);
    AbsorbUses(f');
  }

  lemma AbsorbUses(f: Frame)
    requires !(f.InArray? && ZeroWidth(f.itemConstructor))
    ensures forall v, depth: nat, outermost :: var t := Absorb(f, v, depth, outermost, true); t.Ok? ==> t.used
  {
  }

  lemma FeedOneConstructor(c: Byte, depth: nat)
    ensures var t := OnConstructor(depth, false, c);
      && (if t.Fail? then t.calls == [] else t.state != Start)
      && Feed(Start, depth, false, [c]) == if t.Fail? then Broke([]) else Ran(t.state, [], [])
  {
    assert [c] == [c] + [];
    ConstructorKeepsInvariant(depth, false, c);
    FeedStep(Start, depth, false, c, []);
  }

  lemma NoInnerFails(f: Frame, depth: nat, outermost: bool, bs: Bytes)
    requires WellFormed(Nest(f, NotYet), depth, outermost) && NoInner(f, depth) && bs != []
    ensures Feed(Nest(f, NotYet), depth, outermost, bs) == Broke([])
  {
    assert Iterate(Nest(f, NotYet), depth, outermost, bs[0]) == Fail([]);
  }

  /** A decoder that starts takes an octet. */
  lemma StartConsumes(d: Decoder, depth: nat, bs: Bytes)
    requires WellFormed(d, depth, false) && bs != []
    ensures var r := Feed(d, depth, false, bs); d == Start && r.Ran? ==> |r.rest| < |bs|
  {
    if d == Start {
      hide WellFormed, Slack, OnConstructor;
      ConstructorKeepsInvariant(depth, false, bs[0]);
      var t := OnConstructor(depth, false, bs[0]);
      if t.Ok? {
        assert Iterate(Start, depth, false, bs[0]) == t;
        FeedStep(Start, depth, false, bs[0], bs[1..]);
        assert bs == [bs[0]] + bs[1..];
        FeedSuffix(t.state, depth, false, bs[1..]);
      }
    }
  }

  /** An inner decoder that has seen an octet is no longer at its start. */
  lemma NotToStart(d: Decoder, depth: nat, b: Byte)
    requires WellFormed(d, depth, false) && !d.Done?
    ensures var t := Iterate(d, depth, false, b); t.Ok? ==> t.state != Start
  {
    if !d.Nest? {
      FlatKeepsInvariant(d, depth, false, b);
    }
  }

  lemma {:induction false} NeverBackToStart(d: Decoder, depth: nat, bs: Bytes)
    requires WellFormed(d, depth, false)
    ensures var r := Feed(d, depth, false, bs); r.Ran? && r.state == Start ==> bs == []
    decreases |bs|, Slack(d)
  {
    hide WellFormed, Slack;
    if bs != [] && !d.Done? {
      IterateKeepsInvariant(d, depth, false, bs[0]);
      var t := Iterate(d, depth, false, bs[0]);
      if t.Ok? {
        var rest := if t.used then bs[1..] else bs;
        NotToStart(d, depth, bs[0]);
        NeverBackToStart(t.state, depth, rest);
      }
    }
  }

  /** An inner decoder that is not done has taken everything, and the outer one waits with it. */
  lemma StillRunning(f: Frame, i: Decoder, depth: nat, outermost: bool, bs: Bytes)
    requires depth + 1 <= MAX_DEPTH && WellFormed(i, depth + 1, false) && bs != []
    requires FrameInvariant(f) && (f.InMap? ==> |f.pairs| < f.pairCount)
    requires f.InArray? && ZeroWidth(f.itemConstructor) ==> i.Done? || (i == Start && f.itemConstructor == bs[0])
    ensures var r := Feed(i, depth + 1, false, bs);
      r.Ran? && !r.state.Done? ==>
        && r.rest == [] && r.state != Start && WellFormed(Nest(f, Running(r.state)), depth, outermost)
        && Feed(Nest(f, Running(r.state)), depth, outermost, []) == Ran(Nest(f, Running(r.state)), [], [])
  {
    NeverBackToStart(i, depth + 1, bs);
    if f.InArray? && ZeroWidth(f.itemConstructor) && i == Start {
      var v := ZeroWidthValue(bs[0]);
      assert Iterate(Start, depth + 1, false, bs[0]) == Ok(Done(v), true, []);
      assert bs == [bs[0]] + bs[1..];
      Consume(Start, Done(v), depth + 1, bs[0], bs[1..]);
      FeedDone(v, depth + 1, bs[1..]);
    }
  }

  lemma NestedRun(f: Frame, inner: Inner, depth: nat, outermost: bool, bs: Bytes)
    requires WellFormed(Nest(f, inner), depth, outermost) && bs != []
    requires inner.NotYet? ==> !NoInner(f, depth)
    ensures Feed(Nest(f, inner), depth, outermost, bs) ==
      OuterRun(OpenedFrame(f, inner, bs[0]), Feed(InnerDecoder(inner), depth + 1, false, bs), depth, outermost, bs)
    ensures FrameSlack(OpenedFrame(f, inner, bs[0])) <= Slack(Nest(f, inner)) || InnerDecoder(inner) == Start
  {
    if f.InArray? && ZeroWidth(OpenedFrame(f, inner, bs[0]).itemConstructor) {
      ZeroWidthRun(f, inner, depth, outermost, bs);
    } else {
      PlainRun(f, inner, depth, outermost, bs);
    }
  }

  /** The turn of a decoder that is neither done nor waiting for an inner one. */
  lemma FlatTurnAdvances(m0: Decoder, depth: nat, outermost: bool, bs: Bytes)
    requires WellFormed(m0, depth, outermost) && !m0.Done? && !m0.Nest? && !m0.Content? && bs != []
    ensures var t := FlatTurn(m0, depth, outermost, bs[0]);
      && (t.Fail? ==> Advances(m0, m0, depth, outermost, bs, false, 0, t.calls))
      && (t.Ok? ==> t.used && WellFormed(t.state, depth, outermost) && Advances(m0, t.state, depth, outermost, bs, true, 1, t.calls))
  {
    OneTurnAdvances(m0, Iterate(m0, depth, outermost, bs[0]), depth, outermost, bs);
  }

  lemma OpenIsWellFormed(f: Frame, depth: nat, outermost: bool)
    requires FrameInvariant(f) && !f.InDescriptor? && !f.InDescribed? && (f.InArray? ==> f.items == [])
    ensures WellFormed(Nest(f, NotYet), depth, outermost)
  {
  }

  lemma NextIsWellFormed(f: Frame, i: Decoder, depth: nat, outermost: bool)
    requires FrameInvariant(f) && f.InArray? && depth + 1 <= MAX_DEPTH && WellFormed(i, depth + 1, false)
    requires i.Done? <==> ZeroWidth(f.itemConstructor)
    ensures WellFormed(Nest(f, Running(i)), depth, outermost)
  {
  }

  function FlatTurn(m: Decoder, depth: nat, outermost: bool, b: Byte): Turn
    requires WellFormed(m, depth, outermost) && !m.Done? && !m.Nest? && !m.Content?
  {
    match m
    case Start => OnConstructor(depth, outermost, b)
    case Fixed(_, _, _) => OnFixed(m, outermost, b)
    case Length(_, _, _) => OnLength(m, outermost, b)
    case Size(_, _) => OnSize(m)
    case Count(_, _, _) => OnCount(m, outermost, b)
  }

  lemma FeedStops(d: Decoder, depth: nat, outermost: bool, rest: Bytes)
    requires WellFormed(d, depth, outermost) && (rest == [] || d.Done?)
    ensures Feed(d, depth, outermost, rest) == Ran(d, rest, [])
  {
  }
}
