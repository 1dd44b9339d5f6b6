/** Streams of encoded values through the outermost decoder. */
module ValueStream {
  import opened Octets
  import opened AmqpValues
  import opened AmqpEncoding
  import opened DecoderSpec
  import opened Chunking
  import opened FieldRuns
  import opened RoundTripSpec
  import opened RoundTrip
  import opened WireDecoding
  import opened WireEncoding

  // ---------------------------------------------------------------- outermost and inner decoders

  /** An empty binary, string or symbol: the outermost decoder stays in its data state after calling back. */
  predicate EmptyContent(v: Value) {
    v == Binary([]) || v == String([]) || v == Symbol([])
  }

  /** The turn of the outermost decoder that corresponds to turn `t` of an inner one. */
  predicate SameTurn(t: Turn, o: Turn) {
    if t.Fail? then o == Fail([])
    else if !t.state.Done? then o == t
    else
      && o.Ok? && o.used == t.used && o.calls == [t.state.result]
      && (!EmptyContent(t.state.result) ==> o.state == Start)
  }

  lemma SettleSameTurn(f: Frame, t: Turn, depth: nat)
    ensures SameTurn(Settle(f, t, depth, false), Settle(f, t, depth, true))
  {
  }

  lemma LengthSameTurn(d: Decoder, b: Byte)
    requires d.Length? && d.n < LengthWidth(d.ctor)
    ensures SameTurn(OnLength(d, false, b), OnLength(d, true, b))
  {
  }

  lemma ContentSameTurn(d: Decoder, b: Byte)
    requires d.Content? && |d.got| < d.len
    ensures SameTurn(OnContent(d, false, b), OnContent(d, true, b))
  {
    assert d.got + [b] != [];
  }

  lemma FlatSameTurn(d: Decoder, depth: nat, b: Byte)
    requires WellFormed(d, depth, false) && WellFormed(d, depth, true) && !d.Nest?
    ensures SameTurn(Iterate(d, depth, false, b), Iterate(d, depth, true, b))
  {
    match d
    case Length(_, _, _) => LengthSameTurn(d, b);
    case Content(_, _, _) => ContentSameTurn(d, b);
    case Start =>
    case Fixed(_, _, _) =>
    case Size(_, _) =>
    case Count(_, _, _) =>
  }

  lemma NestSameTurn(f: Frame, inner: Inner, depth: nat, b: Byte)
    requires inner.Running? ==> WellFormed(inner.decoder, depth + 1, false)
    ensures SameTurn(OnNest(f, inner, depth, false, b), OnNest(f, inner, depth, true, b))
  {
    if inner.NotYet? {
      SettleSameTurn(Opened(f, b), OnConstructor(depth + 1, false, b), depth);
    } else {
      SettleSameTurn(f, Iterate(inner.decoder, depth + 1, false, b), depth);
    }
  }

  lemma WellFormedOutermost(d: Decoder, depth: nat)
    requires WellFormed(d, depth, false) && !d.Done?
    ensures WellFormed(d, depth, true)
  {
  }

  lemma IterateSameTurn(d: Decoder, depth: nat, b: Byte)
    requires WellFormed(d, depth, false) && !d.Done?
    ensures WellFormed(d, depth, true)
    ensures SameTurn(Iterate(d, depth, false, b), Iterate(d, depth, true, b))
  {
    WellFormedOutermost(d, depth);
    if d.Nest? {
      NestSameTurn(d.frame, d.inner, depth, b);
    } else {
      FlatSameTurn(d, depth, b);
    }
  }

  /** What the outermost decoder does, from what an inner decoder does with the same octets. */
  lemma {:induction false} OutermostFollows(d: Decoder, depth: nat, bs: Bytes)
    requires WellFormed(d, depth, false) && !d.Done?
    ensures WellFormed(d, depth, true)
    ensures var r := Feed(d, depth, false, bs);
      && (r.Broke? ==> Feed(d, depth, true, bs) == Broke([]))
      && (r.Ran? && !r.state.Done? ==> Feed(d, depth, true, bs) == r)
      && (r.Ran? && r.state.Done? && !EmptyContent(r.state.result) ==>
            Feed(d, depth, true, bs) == After([r.state.result], Feed(Start, depth, true, r.rest)))
      && (r.Ran? && r.state.Done? && r.rest == [] ==> var o := Feed(d, depth, true, bs); o.Ran? && o.calls == [r.state.result])
    decreases |bs|, Slack(d)
  {
    IterateSameTurn(d, depth, if bs == [] then 0 else bs[0]);
    if bs != [] {
      IterateKeepsInvariant(d, depth, false, bs[0]);
      var t := Iterate(d, depth, false, bs[0]);
      if t.Ok? {
        var rest := if t.used then bs[1..] else bs;
        AfterNothing(Feed(t.state, depth, false, rest));
        if !t.state.Done? {
          OutermostFollows(t.state, depth, rest);
          AfterNothing(Feed(t.state, depth, true, rest));
        }
      }
    }
  }

  // ---------------------------------------------------------------- streams of values

  /** The constructor of the 8-bit form of an empty value. */
  function EmptyConstructor(v: Value): Byte {
    if v.Binary? then 0xA0 else if v.String? then 0xA1 else 0xA3
  }

  /** What the outermost decoder makes of a stream of encodings. */
  function Decoded(vs: seq<Value>): Run {
    if vs == [] then Ran(Start, [], [])
    else
      var v := Normal(vs[0]);
      if !Within(vs[0], 0) then Broke([])
      else if !EmptyContent(v) then After([v], Decoded(vs[1..]))
      else if |vs| == 1 then Ran(Content(EmptyConstructor(v), 0, []), [], [v])
      else After([v, v], Decoded(vs[1..]))
  }

  lemma EmptyEncoding(v: Value)
    requires EmptyContent(Normal(v))
    ensures Encode(v) == [EmptyConstructor(Normal(v)), 0] && Within(v, 0)
    ensures LengthWidth(EmptyConstructor(Normal(v))) == 1
    ensures ContentValue(EmptyConstructor(Normal(v)), []) == Normal(v)
  {
    hide EncodeAll, EncodePairs, ArrayBytes, ItemBytes, ArraySize, Compound, Feed, Iterate;
    EmptyKind(v);
  }

  lemma EmptyKind(v: Value)
    requires EmptyContent(Normal(v))
    ensures v == Binary([]) || (v.String? && CString(v.text) == []) || (v.Symbol? && CString(v.name) == [])
  {
    hide NormalAll, NormalPairs;
  }

  /** After the two octets of an empty value the decoder has called back once, and will do so again. */
  lemma FeedEmpty(c: Byte, bs: Bytes)
    requires LengthWidth(c) == 1
    ensures Feed(Start, 0, true, [c, 0] + bs) == After([ContentValue(c, [])], Feed(Content(c, 0, []), 0, true, bs))
    ensures bs != [] ==> Feed(Content(c, 0, []), 0, true, bs) == After([ContentValue(c, [])], Feed(Start, 0, true, bs))
    ensures bs == [] ==> Feed(Content(c, 0, []), 0, true, bs) == Ran(Content(c, 0, []), [], [])
  {
    assert [c, 0] + bs == [c] + ([0] + bs);
    assert Iterate(Start, 0, true, c) == Ok(Length(c, 0, 0), true, []);
    FeedStep(Start, 0, true, c, [0] + bs);
    FeedStep(Length(c, 0, 0), 0, true, 0, bs);
    AfterNothing(Feed(Length(c, 0, 0), 0, true, [0] + bs));
  }

  lemma {:induction false} DecodeStream(vs: seq<Value>)
    requires AllEncodable(vs) && AllRegular(vs)
    ensures Feed(Start, 0, true, EncodeAll(vs)) == Decoded(vs)
  {
    hide Feed, Encode, Encodable, Regular, Normal, Within;
    FeedNothing(Start, 0, true);
    if vs != [] {
      var v, tail := vs[0], EncodeAll(vs[1..]);
      DecodeStream(vs[1..]);
      DecodeEncoded(v, 0, tail);
      OutermostFollows(Start, 0, Encode(v) + tail);
      if EmptyContent(Normal(v)) {
        EmptyEncoding(v);
        FeedEmpty(EmptyConstructor(Normal(v)), tail);
        if |vs| > 1 {
          NonEmptyEncoding(vs[1]);
          AfterAfter([Normal(v)], [Normal(v)], Feed(Start, 0, true, tail));
        }
      }
    }
  }

  predicate EmptyOnlyLast(vs: seq<Value>) {
    |vs| <= 1 || (!EmptyContent(Normal(vs[0])) && EmptyOnlyLast(vs[1..]))
  }

  lemma {:induction false} ReportedCount(vs: seq<Value>)
    requires Decoded(vs).Ran?
    ensures |Decoded(vs).calls| >= |vs|
    ensures |Decoded(vs).calls| == |vs| ==> EmptyOnlyLast(vs)
  {
    hide Normal, Within;
    if vs != [] {
      ReportedCount(vs[1..]);
    }
  }

  /** The exact condition under which a stream comes back: the limits, and no empty value but the last. */
  lemma {:induction false} StreamComesBack(vs: seq<Value>)
    ensures Decoded(vs).Ran? <==> AllWithin(vs, 0)
    ensures Decoded(vs).Ran? && Decoded(vs).calls == NormalAll(vs) <==> AllWithin(vs, 0) && EmptyOnlyLast(vs)
    ensures AllWithin(vs, 0) && (vs == [] || !EmptyContent(Normal(vs[|vs| - 1]))) ==> Decoded(vs).state == Start
  {
    hide Normal, Within;
    if vs != [] {
      var more := vs[1..];
      StreamComesBack(more);
      if Decoded(vs).Ran? {
        ReportedCount(vs);
        assert |NormalAll(vs)| == |vs|;
      }
      if |vs| > 1 {
        assert more[|more| - 1] == vs[|vs| - 1];
      }
    }
  }

  /**
   The codec's round trip: the concatenated encodings of any values, cut into any chunks, call back
   exactly those values in order when they are within the limits and only the last one is empty.
   */
  lemma StreamRoundTrip(vs: seq<Value>, chunks: seq<Bytes>)
    requires AllEncodable(vs) && AllRegular(vs) && Join(chunks) == EncodeAll(vs)
    ensures FeedChunks(Start, 0, chunks) == Decoded(vs)
    ensures var r := FeedChunks(Start, 0, chunks);
      && (r.Ran? <==> AllWithin(vs, 0))
      && (r.Ran? && r.calls == NormalAll(vs) <==> AllWithin(vs, 0) && EmptyOnlyLast(vs))
      && (AllWithin(vs, 0) && (vs == [] || !EmptyContent(Normal(vs[|vs| - 1]))) ==> r.state == Start)
  {
    hide Feed, FeedChunks, Decoded, EncodeAll, AllEncodable, AllRegular, AllWithin, NormalAll, Normal;
    ChunkingIsIrrelevant(Start, 0, chunks);
    DecodeStream(vs);
    StreamComesBack(vs);
  }

  // ---------------------------------------------------------------- arrays of nulls

  function Nulls(n: nat): (vs: seq<Value>)
    ensures |vs| == n
  {
    if n == 0 then [] else Nulls(n - 1) + [Null]
  }

  lemma {:induction false} NullsEncoding(n: nat)
    ensures AllEncodable(Nulls(n)) && NoneDescribed(Nulls(n)) && ItemBytes(Nulls(n)) == []
  {
    if n > 0 {
      NullsFront(n);
      NullsEncoding(n - 1);
    }
  }

  lemma {:induction false} NullsFront(n: nat)
    requires n > 0
    ensures Nulls(n)[0] == Null && Nulls(n)[1..] == Nulls(n - 1)
  {
    if n > 1 {
      NullsFront(n - 1);
      assert (Nulls(n - 1) + [Null])[1..] == Nulls(n - 1)[1..] + [Null];
    }
  }

  /** Item by item, without ever using the octet in sight. */
  lemma {:induction false} FeedNulls(count: nat, k: nat, depth: nat, bs: Bytes)
    requires 0 < k < count <= MAX_ITEM_COUNT && depth + 1 <= MAX_DEPTH && bs != []
    ensures WellFormed(Nest(InArray(count, Nulls(k), 0x40), Running(Done(Null))), depth, false)
    ensures Feed(Nest(InArray(count, Nulls(k), 0x40), Running(Done(Null))), depth, false, bs) == Ran(Done(Array(Nulls(count))), bs, [])
    decreases count - k
  {
    var d := Nest(InArray(count, Nulls(k), 0x40), Running(Done(Null)));
    assert OnConstructor(depth + 1, false, 0x40) == Ok(Done(Null), true, []);
    assert [bs[0]] + bs[1..] == bs;
    assert Nulls(k + 1) == Nulls(k) + [Null];
    FeedStep(d, depth, false, bs[0], bs[1..]);
    if k + 1 == count {
      assert Iterate(d, depth, false, bs[0]) == Ok(Done(Array(Nulls(count))), false, []);
      FeedDone(Array(Nulls(count)), depth, bs);
    } else {
      var d' := Nest(InArray(count, Nulls(k + 1), 0x40), Running(Done(Null)));
      assert Iterate(d, depth, false, bs[0]) == Ok(d', false, []);
      FeedNulls(count, k + 1, depth, bs);
      AfterNothing(Feed(d', depth, false, bs));
    }
  }

  lemma FeedNullItems(n: nat, depth: nat, rest: Bytes)
    requires 2 <= n <= MAX_ITEM_COUNT && depth + 1 <= MAX_DEPTH
    ensures Feed(Nest(InArray(n, [], 0), NotYet), depth, false, [0x40] + rest) == Ran(Done(Array(Nulls(n))), [0x40] + rest, [])
  {
    var d, d' := Nest(InArray(n, [], 0), NotYet), Nest(InArray(n, Nulls(1), 0x40), Running(Done(Null)));
    assert OnConstructor(depth + 1, false, 0x40) == Ok(Done(Null), true, []);
    assert Nulls(1) == [] + [Null];
    assert Absorb(InArray(n, [], 0x40), Null, depth, false, true) == Ok(d', false, []);
    assert Iterate(d, depth, false, 0x40) == Ok(d', false, []);
    FeedStep(d, depth, false, 0x40, rest);
    FeedNulls(n, 1, depth, [0x40] + rest);
    AfterNothing(Feed(d', depth, false, [0x40] + rest));
  }

  lemma NullArrayEncoding(n: nat)
    requires n > 0
    ensures Encodable(Array(Nulls(n)))
    ensures var small := n <= 255;
      Encode(Array(Nulls(n))) == [if small then 0xE0 else 0xF0] + Compound(0, n, small, [0x40])
  {
    hide Nulls, Encode, ItemBytes, AllEncodable, NoneDescribed;
    NullsEncoding(n);
    NullsFront(n);
    var v := Array(Nulls(n));
    assert ArrayBytes(Nulls(n)) == [0x40] + ItemBytes(Nulls(n));
    assert [0x40] + ItemBytes(Nulls(n)) == [0x40];
    assert ArraySize(Nulls(n)) == 0;
    EncodedForm(v);
  }

  /** The array is read whole, but the constructor its items share is left for whoever reads next. */
  lemma NullArrayLeavesConstructor(n: nat, depth: nat, rest: Bytes)
    requires 2 <= n <= MAX_ITEM_COUNT && depth + 1 <= MAX_DEPTH
    ensures Feed(Start, depth, false, Encode(Array(Nulls(n))) + rest) == Ran(Done(Array(Nulls(n))), [0x40] + rest, [])
  {
    hide Feed, Encode, Compound, Nulls;
    var small := n <= 255;
    var c := if small then 0xE0 else 0xF0;
    NullArrayEncoding(n);
    DecodeCompound(c, 0, n, small, [0x40], depth, rest);
    CountedItems(c, n, depth, [0x40] + rest);
    FeedNullItems(n, depth, rest);
  }

  /** So an array of two or more nulls comes back with a null of its own behind it. */
  lemma NullArrayComesBackTwice(n: nat, rest: Bytes)
    requires 2 <= n <= MAX_ITEM_COUNT
    ensures Feed(Start, 0, true, Encode(Array(Nulls(n))) + rest) == After([Array(Nulls(n)), Null], Feed(Start, 0, true, rest))
  {
    hide Feed, Encode, Nulls;
    NullArrayLeavesConstructor(n, 0, rest);
    OutermostFollows(Start, 0, Encode(Array(Nulls(n))) + rest);
    assert Iterate(Start, 0, true, 0x40) == Ok(Start, true, [Null]);
    FeedStep(Start, 0, true, 0x40, rest);
    AfterAfter([Array(Nulls(n))], [Null], Feed(Start, 0, true, rest));
  }

  lemma OneNullArray()
    ensures var v := Array(Nulls(1)); Encodable(v) && Regular(v) && Within(v, 0) && Normal(v) == v
  {
    assert Nulls(1) == [Null];
  }

  /** At the outermost level that is exactly the arrays of nulls that do not come back as they went. */
  lemma NullArrayRoundTrip(n: nat)
    requires 0 < n <= MAX_ITEM_COUNT
    ensures Feed(Start, 0, true, Encode(Array(Nulls(n)))).calls == [Array(Nulls(n))] <==> n == 1
  {
    hide Feed, Encode;
    var v := Array(Nulls(n));
    assert Encode(v) + [] == Encode(v);
    FeedNothing(Start, 0, true);
    if n == 1 {
      OneNullArray();
      DecodeEncoded(v, 0, []);
      OutermostFollows(Start, 0, Encode(v));
    } else {
      NullArrayComesBackTwice(n, []);
    }
  }

  // ---------------------------------------------------------------- every reachable state

  /** Decoders chained below this one. */
  function InnerCount(d: Decoder): nat
    decreases d
  {
    if d.Nest? && d.inner.Running? then 1 + InnerCount(d.inner.decoder) else 0
  }

  /** Somewhere in the chain an item index has reached its count. */
  predicate Overfull(d: Decoder)
    decreases d
  {
    d.Nest? && ((d.frame.InList? && |d.frame.items| >= d.frame.count) ||
      (d.frame.InArray? && |d.frame.items| >= d.frame.count) ||
      (d.frame.InMap? && d.inner.Running? && |d.frame.pairs| >= d.frame.pairCount) ||
      (d.inner.Running? && Overfull(d.inner.decoder)))
  }

  /** The items, or pairs, that a compound value under construction was announced to have. */
  function AnnouncedCount(f: Frame): nat {
    match f
    case InList(count, _) => count
    case InMap(pairCount, _, _) => pairCount
    case InArray(count, _, _) => count
    case InDescriptor => 1
    case InDescribed(_) => 1
  }

  /** No count in the chain passes the limit. */
  predicate CountsWithin(d: Decoder)
    decreases d
  {
    d.Nest? ==> AnnouncedCount(d.frame) <= 65536 && (d.inner.Running? ==> CountsWithin(d.inner.decoder))
  }

  lemma {:induction false} WellFormedBounds(d: Decoder, depth: nat, outermost: bool)
    requires WellFormed(d, depth, outermost) && depth <= MAX_DEPTH
    ensures depth + InnerCount(d) <= MAX_DEPTH && !Overfull(d) && CountsWithin(d)
    decreases d
  {
    if d.Nest? && d.inner.Running? {
      WellFormedBounds(d.inner.decoder, depth + 1, false);
    }
  }

  /** On every octet string, in every chunking: at most 128 inner decoders, no item index at its count, no count above 65536. */
  lemma ReachableBounds(chunks: seq<Bytes>)
    ensures var r := FeedChunks(Start, 0, chunks);
      r.Ran? ==> r.rest == [] && InnerCount(r.state) <= 128 && !Overfull(r.state) && CountsWithin(r.state)
  {
    hide Feed, FeedChunks;
    ChunkingIsIrrelevant(Start, 0, chunks);
    var r := Feed(Start, 0, true, Join(chunks));
    if r.Ran? {
      WellFormedBounds(r.state, 0, true);
    }
  }
}
