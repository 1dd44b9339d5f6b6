/** However its input is cut, the value decoder does the same. */
module Chunking {
  import opened Octets
  import opened AmqpValues
  import opened DecoderSpec

  lemma AfterNothing(r: Run)
    ensures After([], r) == r
  {
    assert [] + r.calls == r.calls;
  }

  lemma AfterAfter(c1: seq<Value>, c2: seq<Value>, r: Run)
    ensures After(c1, After(c2, r)) == After(c1 + c2, r)
  {
    assert c1 + (c2 + r.calls) == (c1 + c2) + r.calls;
  }

  /** Feeding `b` to what feeding `a` left behind. */
  function Resume(r: Run, depth: nat, outermost: bool, b: Bytes): Run
    requires r.Ran? ==> WellFormed(r.state, depth, outermost)
  {
    if r.Broke? then r
    else if r.state.Done? then Ran(r.state, r.rest + b, r.calls)
    else After(r.calls, Feed(r.state, depth, outermost, b))
  }

  lemma {:induction false} FeedSplit(d: Decoder, depth: nat, outermost: bool, a: Bytes, b: Bytes)
    requires WellFormed(d, depth, outermost)
    ensures Feed(d, depth, outermost, a + b) == Resume(Feed(d, depth, outermost, a), depth, outermost, b)
    decreases |a|, Slack(d)
  {
    hide Iterate, WellFormed, Slack;
    if d.Done? {
    } else if a == [] {
      assert a + b == b;
      AfterNothing(Feed(d, depth, outermost, b));
    } else {
      assert (a + b)[0] == a[0] && (a + b)[1..] == a[1..] + b;
      var t := Iterate(d, depth, outermost, a[0]);
      IterateKeepsInvariant(d, depth, outermost, a[0]);
      if t.Ok? {
        var rest := if t.used then a[1..] else a;
        FeedSplit(t.state, depth, outermost, rest, b);
        var r := Feed(t.state, depth, outermost, rest);
        if r.Ran? && !r.state.Done? {
          AfterAfter(t.calls, r.calls, Feed(r.state, depth, outermost, b));
        }
      }
    }
  }

  /** The input cut into chunks, each handed to the decoder the one before left behind. */
  function FeedChunks(d: Decoder, depth: nat, chunks: seq<Bytes>): Run
    requires WellFormed(d, depth, true)
    decreases |chunks|
  {
    if chunks == [] then Ran(d, [], [])
    else
      var r := Feed(d, depth, true, chunks[0]);
      if r.Broke? then r else After(r.calls, FeedChunks(r.state, depth, chunks[1..]))
  }

  /** Same callbacks, same failure, same end state, for every way to cut any octets. */
  lemma {:induction false} ChunkingIsIrrelevant(d: Decoder, depth: nat, chunks: seq<Bytes>)
    requires WellFormed(d, depth, true)
    ensures FeedChunks(d, depth, chunks) == Feed(d, depth, true, Join(chunks))
    decreases |chunks|
  {
    if chunks != [] {
      FeedSplit(d, depth, true, chunks[0], Join(chunks[1..]));
      var r := Feed(d, depth, true, chunks[0]);
      if r.Ran? {
        ChunkingIsIrrelevant(r.state, depth, chunks[1..]);
      }
    }
  }

  // ---------------------------------------------------------------- nesting

  lemma FeedStep(d: Decoder, depth: nat, outermost: bool, b: Byte, bs: Bytes)
    requires WellFormed(d, depth, outermost) && !d.Done?
    ensures var t := Iterate(d, depth, outermost, b);
      && (t.Ok? ==> WellFormed(t.state, depth, outermost))
      && Feed(d, depth, outermost, [b] + bs) ==
        if t.Fail? then Broke(t.calls)
        else After(t.calls, Feed(t.state, depth, outermost, if t.used then bs else [b] + bs))
  {
    IterateKeepsInvariant(d, depth, outermost, b);
    assert ([b] + bs)[1..] == bs;
  }

  lemma FeedNothing(d: Decoder, depth: nat, outermost: bool)
    requires WellFormed(d, depth, outermost)
    ensures Feed(d, depth, outermost, []) == Ran(d, [], [])
  {
  }

  lemma FeedDone(v: Value, depth: nat, bs: Bytes)
    ensures Feed(Done(v), depth, false, bs) == Ran(Done(v), bs, [])
  {
  }

  /** A turn of an inner decoder that takes its octet. */
  lemma Consume(d: Decoder, s: Decoder, depth: nat, b: Byte, bs: Bytes)
    requires WellFormed(d, depth, false) && !d.Done? && Iterate(d, depth, false, b) == Ok(s, true, [])
    ensures WellFormed(s, depth, false)
    ensures Feed(d, depth, false, [b] + bs) == Feed(s, depth, false, bs)
  {
    FeedStep(d, depth, false, b, bs);
    AfterNothing(Feed(s, depth, false, bs));
  }

  /** What the outer decoder makes of a run of its inner one. */
  function Outer(f: Frame, r: Run, depth: nat, outermost: bool): Run
    requires FrameInvariant(f) && (f.InMap? ==> |f.pairs| < f.pairCount) && depth + 1 <= MAX_DEPTH
  {
    if r.Broke? then Broke([])
    else if !r.state.Done? then Ran(Nest(f, Running(r.state)), r.rest, [])
    else
      var t := Absorb(f, r.state.result, depth, outermost, true);
      AbsorbKeepsInvariant(f, r.state.result, depth, outermost, true);
      if t.Fail? then Broke(t.calls) else After(t.calls, Feed(t.state, depth, outermost, r.rest))
  }

  /** Octets given to an outer decoder are octets given to its inner decoder until that one is done. */
  lemma {:induction false} FeedInner(f: Frame, i: Decoder, depth: nat, outermost: bool, bs: Bytes)
    requires WellFormed(Nest(f, Running(i)), depth, outermost) && !i.Done?
    ensures Feed(Nest(f, Running(i)), depth, outermost, bs) == Outer(f, Feed(i, depth + 1, false, bs), depth, outermost)
    decreases |bs|, Slack(i)
  {
    var d := Nest(f, Running(i));
    if bs != [] {
      var t := Iterate(i, depth + 1, false, bs[0]);
      IterateKeepsInvariant(i, depth + 1, false, bs[0]);
      IterateKeepsInvariant(d, depth, outermost, bs[0]);
      assert Iterate(d, depth, outermost, bs[0]) == Settle(f, t, depth, outermost);
      if t.Ok? {
        var rest := if t.used then bs[1..] else bs;
        AfterNothing(Feed(t.state, depth + 1, false, rest));
        if t.state.Done? {
          AbsorbKeepsInvariant(f, t.state.result, depth, outermost, t.used);
          AbsorbSameState(f, t.state.result, depth, outermost, t.used);
        } else {
          FeedInner(f, t.state, depth, outermost, rest);
          AfterNothing(Feed(Nest(f, Running(t.state)), depth, outermost, rest));
        }
      }
    }
  }

  lemma AbsorbSameState(f: Frame, v: Value, depth: nat, outermost: bool, used: bool)
    requires !(f.InArray? && ZeroWidth(f.itemConstructor))
    ensures Absorb(f, v, depth, outermost, used) ==
      var t := Absorb(f, v, depth, outermost, true); if t.Fail? then t else t.(used := used)
  {
  }
}
