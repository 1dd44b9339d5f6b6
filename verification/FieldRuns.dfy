/** Runs of the decoder over the fields of an encoding: fixed-width data, lengths, contents, sizes, counts. */
module FieldRuns {
  import opened Octets
  import opened Options
  import opened AmqpValues
  import opened DecoderSpec
  import opened Chunking

  /** One octet of a field moves its weight from the octets to come to the octets seen. */
  lemma AccumulateField(acc: nat, bs: Bytes, w: nat, n: nat)
    requires n + |bs| == w && bs != []
    ensures Accumulate(acc, bs[0], w, n) + FromBigEndian(bs[1..]) == acc + FromBigEndian(bs)
    ensures |bs| == 1 ==> Accumulate(acc, bs[0], w, n) == acc + bs[0]
  {
  }

  lemma {:induction false} FeedFixed(c: Byte, n: nat, acc: nat, bs: Bytes, depth: nat, rest: Bytes)
    requires n + |bs| == FixedWidth(c) && bs != []
    requires c == 0x56 ==> bs[0] < 2
    ensures Feed(Fixed(c, n, acc), depth, false, bs + rest) == Ran(Done(FixedValue(c, acc + FromBigEndian(bs))), rest, [])
    decreases |bs|
  {
    hide Feed;
    var tail := bs[1..];
    AccumulateField(acc, bs, FixedWidth(c), n);
    assert bs + rest == [bs[0]] + (tail + rest);
    var acc' := Accumulate(acc, bs[0], FixedWidth(c), n);
    if tail != [] {
      Consume(Fixed(c, n, acc), Fixed(c, n + 1, acc'), depth, bs[0], tail + rest);
      FeedFixed(c, n + 1, acc', tail, depth, rest);
    } else {
      Consume(Fixed(c, n, acc), Done(FixedValue(c, acc')), depth, bs[0], rest);
      FeedDone(FixedValue(c, acc'), depth, rest);
      assert tail + rest == rest;
    }
  }

  /** What follows the length field of a variable-width form. */
  function Sized(c: Byte, len: nat, depth: nat, rest: Bytes): Run {
    if len + 1 > MAX_MALLOC then Broke([])
    else if len == 0 then Ran(Done(ContentValue(c, [])), rest, [])
    else Feed(Content(c, len, []), depth, false, rest)
  }

  lemma FeedLastLength(c: Byte, n: nat, acc: nat, b: Byte, depth: nat, rest: Bytes)
    requires n + 1 == LengthWidth(c) && (n == 0 ==> acc == 0)
    ensures Feed(Length(c, n, acc), depth, false, [b] + rest) == Sized(c, acc + b, depth, rest)
  {
    hide Feed;
    AccumulateField(acc, [b], LengthWidth(c), n);
    var d, len := Length(c, n, acc), acc + b;
    if len + 1 > MAX_MALLOC {
      FeedStep(d, depth, false, b, rest);
    } else if len == 0 {
      Consume(d, Done(ContentValue(c, [])), depth, b, rest);
      FeedDone(ContentValue(c, []), depth, rest);
    } else {
      Consume(d, Content(c, len, []), depth, b, rest);
    }
  }

  lemma {:induction false} FeedLength(c: Byte, n: nat, acc: nat, bs: Bytes, depth: nat, rest: Bytes)
    requires n + |bs| == LengthWidth(c) && bs != [] && (n == 0 ==> acc == 0)
    ensures Feed(Length(c, n, acc), depth, false, bs + rest) == Sized(c, acc + FromBigEndian(bs), depth, rest)
    decreases |bs|
  {
    hide Feed;
    var tail := bs[1..];
    AccumulateField(acc, bs, LengthWidth(c), n);
    assert bs + rest == [bs[0]] + (tail + rest);
    if tail == [] {
      assert tail + rest == rest;
      FeedLastLength(c, n, acc, bs[0], depth, rest);
    } else {
      var acc' := Accumulate(acc, bs[0], LengthWidth(c), n);
      Consume(Length(c, n, acc), Length(c, n + 1, acc'), depth, bs[0], tail + rest);
      FeedLength(c, n + 1, acc', tail, depth, rest);
    }
  }

  lemma {:induction false} FeedContent(c: Byte, got: Bytes, data: Bytes, depth: nat, rest: Bytes)
    requires data != [] && |got| + |data| < MAX_MALLOC
    ensures Feed(Content(c, |got| + |data|, got), depth, false, data + rest) == Ran(Done(ContentValue(c, got + data)), rest, [])
    decreases |data|
  {
    hide Feed;
    var tail := data[1..];
    assert data + rest == [data[0]] + (tail + rest);
    var len := |got| + |data|;
    var got' := got + [data[0]];
    assert got' + tail == got + data;
    if tail != [] {
      Consume(Content(c, len, got), Content(c, len, got'), depth, data[0], tail + rest);
      FeedContent(c, got', tail, depth, rest);
    } else {
      Consume(Content(c, len, got), Done(ContentValue(c, got')), depth, data[0], rest);
      FeedDone(ContentValue(c, got'), depth, rest);
      assert tail + rest == rest;
      assert got' == got + data;
    }
  }

  /** The size field is read over. */
  lemma {:induction false} FeedSize(c: Byte, n: nat, bs: Bytes, depth: nat, rest: Bytes)
    requires n + |bs| == CompoundWidth(c) && bs != []
    ensures Feed(Size(c, n), depth, false, bs + rest) == Feed(Count(c, 0, 0), depth, false, rest)
    decreases |bs|
  {
    hide Feed;
    var tail := bs[1..];
    assert bs + rest == [bs[0]] + (tail + rest);
    if tail != [] {
      Consume(Size(c, n), Size(c, n + 1), depth, bs[0], tail + rest);
      FeedSize(c, n + 1, tail, depth, rest);
    } else {
      Consume(Size(c, n), Count(c, 0, 0), depth, bs[0], rest);
      assert tail + rest == rest;
    }
  }

  /** The state after the count field of a compound form; maps count keys and values. */
  function Opening(c: Byte, count: nat): Frame {
    if IsMapForm(c) then InMap(count / 2, [], None)
    else if c == 0xC0 || c == 0xD0 then InList(count, [])
    else InArray(count, [], 0)
  }

  function Counted(c: Byte, count: nat, depth: nat, rest: Bytes): Run {
    if (if IsMapForm(c) then count / 2 else count) > MAX_ITEM_COUNT then Broke([])
    else if count == 0 then Ran(Done(EmptyCompound(c)), rest, [])
    else Feed(Nest(Opening(c, count), NotYet), depth, false, rest)
  }

  lemma LastCountTurn(c: Byte, n: nat, acc: nat, b: Byte, depth: nat)
    requires n + 1 == CompoundWidth(c) && (n == 0 ==> acc == 0)
    ensures var count := acc + b;
      Iterate(Count(c, n, acc), depth, false, b) ==
        if (if IsMapForm(c) then count / 2 else count) > MAX_ITEM_COUNT then Fail([])
        else if count == 0 then Ok(Done(EmptyCompound(c)), true, [])
        else Ok(Nest(Opening(c, count), NotYet), true, [])
  {
    hide Feed, Slack, Absorb, OnNest, Settle;
    assert Iterate(Count(c, n, acc), depth, false, b) == OnCount(Count(c, n, acc), false, b);
  }

  lemma FeedLastCount(c: Byte, n: nat, acc: nat, b: Byte, depth: nat, rest: Bytes)
    requires n + 1 == CompoundWidth(c) && (n == 0 ==> acc == 0)
    ensures Feed(Count(c, n, acc), depth, false, [b] + rest) == Counted(c, acc + b, depth, rest)
  {
    hide Feed, Iterate, Slack, Absorb, OnNest, Settle;
    LastCountTurn(c, n, acc, b, depth);
    var d, count := Count(c, n, acc), acc + b;
    if (if IsMapForm(c) then count / 2 else count) > MAX_ITEM_COUNT {
      FeedStep(d, depth, false, b, rest);
    } else if count == 0 {
      Consume(d, Done(EmptyCompound(c)), depth, b, rest);
      FeedDone(EmptyCompound(c), depth, rest);
    } else {
      Consume(d, Nest(Opening(c, count), NotYet), depth, b, rest);
    }
  }

  lemma {:induction false} FeedCount(c: Byte, n: nat, acc: nat, bs: Bytes, depth: nat, rest: Bytes)
    requires n + |bs| == CompoundWidth(c) && bs != [] && (n == 0 ==> acc == 0)
    ensures Feed(Count(c, n, acc), depth, false, bs + rest) == Counted(c, acc + FromBigEndian(bs), depth, rest)
    decreases |bs|
  {
    hide Feed;
    var tail := bs[1..];
    AccumulateField(acc, bs, CompoundWidth(c), n);
    assert bs + rest == [bs[0]] + (tail + rest);
    if tail == [] {
      assert tail + rest == rest;
      FeedLastCount(c, n, acc, bs[0], depth, rest);
    } else {
      var acc' := Accumulate(acc, bs[0], CompoundWidth(c), n);
      if IsMapForm(c) || acc' <= MAX_ITEM_COUNT {
        Consume(Count(c, n, acc), Count(c, n + 1, acc'), depth, bs[0], tail + rest);
        FeedCount(c, n + 1, acc', tail, depth, rest);
      } else {
        FeedStep(Count(c, n, acc), depth, false, bs[0], tail + rest);
      }
    }
  }

  lemma CountedItems(c: Byte, n: nat, depth: nat, bs: Bytes)
    requires n <= MAX_ITEM_COUNT && n > 0 && CompoundWidth(c) > 0
    ensures c == 0xC0 || c == 0xD0 ==> Counted(c, n, depth, bs) == Feed(Nest(InList(n, []), NotYet), depth, false, bs)
    ensures c == 0xE0 || c == 0xF0 ==> Counted(c, n, depth, bs) == Feed(Nest(InArray(n, [], 0), NotYet), depth, false, bs)
    ensures IsMapForm(c) ==> Counted(c, 2 * n, depth, bs) == Feed(Nest(InMap(n, [], None), NotYet), depth, false, bs)
  {
    hide Feed;
    assert 2 * n / 2 == n;
  }

  lemma CountedEdges(c: Byte, n: nat, depth: nat, bs: Bytes)
    requires CompoundWidth(c) > 0
    ensures Counted(c, 0, depth, bs) == Ran(Done(EmptyCompound(c)), bs, [])
    ensures n > MAX_ITEM_COUNT ==> Counted(c, if IsMapForm(c) then 2 * n else n, depth, bs) == Broke([])
  {
    hide Feed;
    assert 2 * n / 2 == n;
  }
}
