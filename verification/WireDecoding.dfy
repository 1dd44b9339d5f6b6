/** The decoder reads every form of every value with the meaning section 1.6 of AMQP 1.0 Part 1 gives it, and what it refuses. */
module WireDecoding {
  import opened Octets
  import opened Options
  import opened AmqpValues
  import opened DecoderSpec
  import opened Chunking
  import opened FieldRuns
  import opened Nesting
  import opened WireFormat

  /** The decoder's limits on nesting, item counts and allocations, for a value decoded at `depth`. */
  predicate Fits(v: Value, depth: nat)
    decreases v
  {
    match v
    case Binary(b) => |b| + 1 <= 104857600
    case String(s) => |s| + 1 <= 104857600
    case Symbol(s) => |s| + 1 <= 104857600
    case List(items) => |items| <= 65536 && (items != [] ==> depth + 1 <= 128) && AllFit(items, depth + 1)
    case Map(pairs) => |pairs| <= 65536 && (pairs != [] ==> depth + 1 <= 128) && PairsFit(pairs, depth + 1)
    case Array(elems) => |elems| <= 65536 && (elems != [] ==> depth + 1 <= 128) && AllFit(elems, depth + 1)
    case Described(d, w) => depth + 1 <= 128 && Fits(d, depth + 1) && Fits(w, depth + 1)
    case _ => true
  }

  predicate AllFit(vs: seq<Value>, depth: nat)
    decreases vs
  {
    vs == [] || (Fits(vs[0], depth) && AllFit(vs[1..], depth))
  }

  predicate PairsFit(ps: seq<Pair>, depth: nat)
    decreases ps
  {
    ps == [] || (PairFits(ps[0], depth) && PairsFit(ps[1..], depth))
  }

  predicate PairFits(p: Pair, depth: nat)
    decreases p
  {
    Fits(p.key, depth) && Fits(p.value, depth)
  }

  /** What an inner decoder must do with octets that denote `v`. */
  function Expected(v: Value, depth: nat, rest: Bytes): Run {
    if Fits(v, depth) then Ran(Done(v), rest, []) else Broke([])
  }

  // ---------------------------------------------------------------- one value without inner values

  /** The constructor leads to the state in which the data is read. */
  lemma AfterConstructor(c: Byte, depth: nat)
    ensures FixedWidth(c) > 0 ==> OnConstructor(depth, false, c) == Ok(Fixed(c, 0, 0), true, [])
    ensures LengthWidth(c) > 0 ==> OnConstructor(depth, false, c) == Ok(Length(c, 0, 0), true, [])
    ensures CompoundWidth(c) > 0 ==> OnConstructor(depth, false, c) == Ok(Size(c, 0), true, [])
    ensures c == 0x98 ==> OnConstructor(depth, false, c) == Ok(Content(c, 16, []), true, [])
    ensures ZeroWidth(c) ==> OnConstructor(depth, false, c) == Ok(Done(ZeroWidthValue(c)), true, [])
  {
  }

  lemma ConstructorTurn(depth: nat, c: Byte)
    ensures Iterate(Start, depth, false, c) == OnConstructor(depth, false, c)
  {
  }

  lemma DecodeZeroWidth(c: Byte, depth: nat, rest: Bytes)
    requires ZeroWidth(c)
    ensures Feed(Start, depth, false, [c] + rest) == Ran(Done(ZeroWidthValue(c)), rest, [])
  {
    hide Feed, Iterate, OnConstructor;
    AfterConstructor(c, depth);
    ConstructorTurn(depth, c);
    StartIsWellFormed(depth);
    Consume(Start, Done(ZeroWidthValue(c)), depth, c, rest);
    FeedDone(ZeroWidthValue(c), depth, rest);
  }

  lemma DecodeFixed(bs: Bytes, depth: nat, rest: Bytes)
    requires bs != [] && FixedWidth(bs[0]) > 0 && |bs| == 1 + FixedWidth(bs[0]) && (bs[0] == 0x56 ==> bs[1] < 2)
    ensures Feed(Start, depth, false, bs + rest) == Ran(Done(FixedValue(bs[0], Number(bs[1..]))), rest, [])
  {
    hide Feed, Iterate, OnConstructor, FixedValue, Number;
    var c, field := bs[0], bs[1..];
    AfterConstructor(c, depth);
    ConstructorTurn(depth, c);
    StartIsWellFormed(depth);
    assert bs + rest == [c] + (field + rest);
    Consume(Start, Fixed(c, 0, 0), depth, c, field + rest);
    FeedFixed(c, 0, 0, field, depth, rest);
    ByPosition(field);
  }

  lemma DecodeUuid(id: Uuid16, depth: nat, rest: Bytes)
    ensures Feed(Start, depth, false, ([0x98] + id) + rest) == Ran(Done(Uuid(id)), rest, [])
  {
    hide Feed, Iterate, OnConstructor;
    AfterConstructor(0x98, depth);
    ConstructorTurn(depth, 0x98);
    StartIsWellFormed(depth);
    assert ([0x98] + id) + rest == [0x98] + (id + rest);
    Consume(Start, Content(0x98, 16, []), depth, 0x98, id + rest);
    FeedContent(0x98, [], id, depth, rest);
    assert [] + id == id;
  }

  lemma DecodeSized(c: Byte, data: Bytes, depth: nat, rest: Bytes)
    ensures Sized(c, |data|, depth, data + rest) ==
      if |data| + 1 <= MAX_MALLOC then Ran(Done(ContentValue(c, data)), rest, []) else Broke([])
  {
    hide Feed;
    if data == [] {
      assert data + rest == rest;
    } else if |data| + 1 <= MAX_MALLOC {
      FeedContent(c, [], data, depth, rest);
      assert [] + data == data;
    }
  }

  lemma DecodeVariable(c: Byte, field: Bytes, data: Bytes, depth: nat, rest: Bytes)
    requires LengthWidth(c) > 0 && |field| == LengthWidth(c) && Number(field) == |data|
    ensures Feed(Start, depth, false, ([c] + field + data) + rest) ==
      if |data| + 1 <= MAX_MALLOC then Ran(Done(ContentValue(c, data)), rest, []) else Broke([])
  {
    hide Feed, Iterate, OnConstructor, Number, Sized, ContentValue;
    AfterConstructor(c, depth);
    ConstructorTurn(depth, c);
    StartIsWellFormed(depth);
    assert ([c] + field + data) + rest == [c] + (field + (data + rest));
    Consume(Start, Length(c, 0, 0), depth, c, field + (data + rest));
    FeedLength(c, 0, 0, field, depth, data + rest);
    ByPosition(field);
    DecodeSized(c, data, depth, rest);
  }

  lemma DecodeMeasured(bs: Bytes, c1: Byte, c4: Byte, data: Bytes, depth: nat, rest: Bytes)
    requires LengthWidth(c1) == 1 && LengthWidth(c4) == 4 && Blob(bs, c1, c4, data)
    ensures Feed(Start, depth, false, bs + rest) ==
      if |data| + 1 <= MAX_MALLOC then Ran(Done(ContentValue(bs[0], data)), rest, []) else Broke([])
    ensures bs[0] == c1 || bs[0] == c4
  {
    hide Feed, Number, ContentValue, LengthWidth;
    if bs[0] == c1 && |bs| >= 2 && Number(bs[1..2]) == |data| && bs[2..] == data {
      assert bs == [c1] + bs[1..2] + data;
      DecodeVariable(c1, bs[1..2], data, depth, rest);
    } else {
      assert bs == [c4] + bs[1..5] + data;
      DecodeVariable(c4, bs[1..5], data, depth, rest);
    }
  }

  // ---------------------------------------------------------------- the header of a compound value

  lemma DecodeHeader(c: Byte, size: Bytes, count: Bytes, depth: nat, rest: Bytes)
    requires CompoundWidth(c) > 0 && |size| == |count| == CompoundWidth(c)
    ensures Feed(Start, depth, false, [c] + size + count + rest) == Counted(c, Number(count), depth, rest)
  {
    hide Feed, Iterate, OnConstructor, Number, Counted;
    AfterConstructor(c, depth);
    ConstructorTurn(depth, c);
    StartIsWellFormed(depth);
    assert [c] + size + count + rest == [c] + (size + (count + rest));
    Consume(Start, Size(c, 0), depth, c, size + (count + rest));
    FeedSize(c, 0, size, depth, count + rest);
    FeedCount(c, 0, 0, count, depth, rest);
    ByPosition(count);
  }

  lemma DecodeCounted(bs: Bytes, c1: Byte, c4: Byte, count: nat, depth: nat, rest: Bytes)
    requires CompoundWidth(c1) == 1 && CompoundWidth(c4) == 4 && BodyOf(bs, c1, c4, count).Some?
    ensures bs != [] && (bs[0] == c1 || bs[0] == c4)
    ensures Feed(Start, depth, false, bs + rest) == Counted(bs[0], count, depth, BodyOf(bs, c1, c4, count).value + rest)
  {
    hide Feed, Number, Counted, CompoundWidth;
    if |bs| >= 3 && bs[0] == c1 && Number(bs[2..3]) == count {
      assert bs + rest == [c1] + bs[1..2] + bs[2..3] + (bs[3..] + rest);
      DecodeHeader(c1, bs[1..2], bs[2..3], depth, bs[3..] + rest);
    } else {
      assert bs + rest == [c4] + bs[1..5] + bs[5..9] + (bs[9..] + rest);
      DecodeHeader(c4, bs[1..5], bs[5..9], depth, bs[9..] + rest);
    }
  }

  // ---------------------------------------------------------------- values with inner values

  lemma DenotesNotEmpty(bs: Bytes, v: Value)
    requires Denotes(bs, v)
    ensures bs != []
  {
  }

  lemma {:induction false} DecodeItems(done: seq<Value>, bs: Bytes, todo: seq<Value>, depth: nat, rest: Bytes)
    requires todo != [] && |done| + |todo| <= MAX_ITEM_COUNT && DenotesAll(bs, todo)
    ensures Feed(Nest(InList(|done| + |todo|, done), NotYet), depth, false, bs + rest) ==
      if depth + 1 <= 128 && AllFit(todo, depth + 1) then Ran(Done(List(done + todo)), rest, []) else Broke([])
    decreases todo, 0
  {
    hide Feed, Denotes, Fits;
    var x, more := todo[0], todo[1..];
    var n :| 0 <= n <= |bs| && Denotes(bs[..n], x) && DenotesAll(bs[n..], more);
    var tail := bs[n..] + rest;
    assert bs + rest == bs[..n] + tail;
    DenotesNotEmpty(bs[..n], x);
    DecodeDenoted(bs[..n], x, depth + 1, tail);
    NextItem(|done| + |todo|, done, bs[..n] + tail, Fits(x, depth + 1), x, tail, depth);
    assert done + [x] + more == done + todo;
    if more == [] {
      assert tail == rest;
      assert done + [x] + more == done + [x];
    } else {
      DecodeItems(done + [x], bs[n..], more, depth, rest);
    }
  }

  lemma DecodePair(count: nat, done: seq<Pair>, bs: Bytes, p: Pair, depth: nat, tail: Bytes)
    requires |done| < count <= MAX_ITEM_COUNT && DenotesPair(bs, p)
    ensures Feed(Nest(InMap(count, done, None), NotYet), depth, false, bs + tail) ==
      if depth + 1 > 128 || !PairFits(p, depth + 1) then Broke([])
      else if |done| + 1 == count then Ran(Done(Map(done + [p])), tail, [])
      else Feed(Nest(InMap(count, done + [p], None), NotYet), depth, false, tail)
    decreases p, 0
  {
    hide Feed, Denotes, Fits;
    var n :| 0 <= n <= |bs| && Denotes(bs[..n], p.key) && Denotes(bs[n..], p.value);
    assert bs + tail == bs[..n] + (bs[n..] + tail);
    DenotesNotEmpty(bs[..n], p.key);
    DenotesNotEmpty(bs[n..], p.value);
    DecodeDenoted(bs[..n], p.key, depth + 1, bs[n..] + tail);
    DecodeDenoted(bs[n..], p.value, depth + 1, tail);
    NextKey(count, done, bs[..n] + (bs[n..] + tail), Fits(p.key, depth + 1), p.key, bs[n..] + tail, depth);
    NextMapped(count, done, p.key, bs[n..] + tail, Fits(p.value, depth + 1), p.value, tail, depth);
  }

  lemma {:induction false} DecodePairs(done: seq<Pair>, bs: Bytes, todo: seq<Pair>, depth: nat, rest: Bytes)
    requires todo != [] && |done| + |todo| <= MAX_ITEM_COUNT && DenotesPairs(bs, todo)
    ensures Feed(Nest(InMap(|done| + |todo|, done, None), NotYet), depth, false, bs + rest) ==
      if depth + 1 <= 128 && PairsFit(todo, depth + 1) then Ran(Done(Map(done + todo)), rest, []) else Broke([])
    decreases todo, 0
  {
    hide Feed, DenotesPair, PairFits;
    var p, more := todo[0], todo[1..];
    var n :| 0 <= n <= |bs| && DenotesPair(bs[..n], p) && DenotesPairs(bs[n..], more);
    var tail := bs[n..] + rest;
    assert bs + rest == bs[..n] + tail;
    DecodePair(|done| + |todo|, done, bs[..n], p, depth, tail);
    assert done + [p] + more == done + todo;
    if more == [] {
      assert tail == rest;
      assert done + [p] + more == done + [p];
    } else {
      DecodePairs(done + [p], bs[n..], more, depth, rest);
    }
  }

  lemma ReadsTurn(c: Byte, i: Decoder, depth: nat)
    requires Reads(c, i, depth)
    ensures Iterate(Start, depth + 1, false, c) == Ok(i, true, [])
  {
  }

  lemma {:induction false} DecodeElements(done: seq<Value>, c: Byte, i: Decoder, bs: Bytes, todo: seq<Value>, depth: nat, rest: Bytes)
    requires todo != [] && |done| + |todo| <= MAX_ITEM_COUNT && depth + 1 <= MAX_DEPTH
    requires Reads(c, i, depth) && WellFormed(i, depth + 1, false) && DenotesItems(c, bs, todo)
    ensures WellFormed(Nest(InArray(|done| + |todo|, done, c), Running(i)), depth, false)
    ensures Feed(Nest(InArray(|done| + |todo|, done, c), Running(i)), depth, false, bs + rest) ==
      if AllFit(todo, depth + 1) then Ran(Done(Array(done + todo)), rest, []) else Broke([])
    decreases todo, 0
  {
    hide Feed, Denotes, Fits, OnConstructor, Iterate, WellFormed, Reads;
    var x, more := todo[0], todo[1..];
    var n :| 0 <= n <= |bs| && Denotes([c] + bs[..n], x) && DenotesItems(c, bs[n..], more);
    var tail := bs[n..] + rest;
    assert bs + rest == bs[..n] + tail;
    assert ([c] + bs[..n]) + tail == [c] + (bs[..n] + tail);
    DecodeDenoted([c] + bs[..n], x, depth + 1, tail);
    ReadsTurn(c, i, depth);
    StartIsWellFormed(depth + 1);
    Consume(Start, i, depth + 1, c, bs[..n] + tail);
    NextElement(|done| + |todo|, done, c, i, bs[..n] + tail, Fits(x, depth + 1), x, tail, depth);
    assert done + [x] + more == done + todo;
    if more == [] {
      assert tail == rest;
      assert done + [x] + more == done + [x];
    } else {
      DecodeElements(done + [x], c, i, bs[n..], more, depth, rest);
    }
  }

  /** The first item of an array, whose constructor is all there is of it. */
  lemma DecodeLoneItem(c: Byte, bs: Bytes, x: Value, depth: nat, rest: Bytes)
    requires ZeroWidth(c) && DenotesItems(c, bs, [x]) && depth + 1 <= MAX_DEPTH
    ensures Fits(x, depth + 1)
    ensures Feed(Nest(InArray(1, [], 0), NotYet), depth, false, [c] + bs + rest) == Ran(Done(Array([x])), rest, [])
    decreases x, 6
  {
    hide Feed, Denotes, Fits, ZeroWidth, ZeroWidthValue;
    var n :| 0 <= n <= |bs| && Denotes([c] + bs[..n], x) && DenotesItems(c, bs[n..], []);
    assert bs[..n] == bs;
    DecodeDenoted([c] + bs, x, depth + 1, []);
    assert ([c] + bs) + [] == [c] + bs;
    DecodeZeroWidth(c, depth + 1, bs);
    assert bs == [] && x == ZeroWidthValue(c);
    assert [c] + bs + rest == [c] + rest;
    OneZeroWidth(c, depth, rest);
  }

  lemma FirstItemFails(c: Byte, bs: Bytes, todo: seq<Value>, depth: nat)
    requires todo != [] && DenotesItems(c, bs, todo) && OnConstructor(depth + 1, false, c).Fail?
    ensures !AllFit(todo, depth + 1)
    decreases todo, 0
  {
    hide Feed, Denotes, Fits, OnConstructor, Iterate;
    var n :| 0 <= n <= |bs| && Denotes([c] + bs[..n], todo[0]) && DenotesItems(c, bs[n..], todo[1..]);
    DecodeDenoted([c] + bs[..n], todo[0], depth + 1, []);
    ConstructorTurn(depth + 1, c);
    StartIsWellFormed(depth + 1);
    assert ([c] + bs[..n]) + [] == [c] + bs[..n];
    FeedStep(Start, depth + 1, false, c, bs[..n]);
  }

  lemma ArrayFails(count: nat, c: Byte, bs: Bytes, depth: nat)
    requires 0 < count <= MAX_ITEM_COUNT && depth + 1 <= MAX_DEPTH && OnConstructor(depth + 1, false, c).Fail?
    ensures Feed(Nest(InArray(count, [], 0), NotYet), depth, false, [c] + bs) == Broke([])
  {
    hide Feed, OnConstructor;
    var d := Nest(InArray(count, [], 0), NotYet);
    assert Iterate(d, depth, false, c) == Fail([]);
    FeedStep(d, depth, false, c, bs);
  }

  lemma ConstructorReads(c: Byte, depth: nat)
    requires !ZeroWidth(c)
    ensures var t := OnConstructor(depth + 1, false, c); t.Ok? ==> Reads(c, t.state, depth) && WellFormed(t.state, depth + 1, false)
  {
    ConstructorKeepsInvariant(depth + 1, false, c);
  }

  lemma DecodeArray(bs: Bytes, elems: seq<Value>, depth: nat, rest: Bytes)
    requires elems != [] && |elems| <= MAX_ITEM_COUNT && DenotesArray(bs, elems)
    ensures Feed(Nest(InArray(|elems|, [], 0), NotYet), depth, false, bs + rest) ==
      if depth + 1 <= 128 && AllFit(elems, depth + 1) then Ran(Done(Array(elems)), rest, []) else Broke([])
    decreases elems, 3
  {
    hide Feed, Denotes, Fits, OnConstructor, Iterate, DenotesItems, Reads;
    var c, data := bs[0], bs[1..];
    assert bs == [c] + data;
    assert bs + rest == [c] + (data + rest);
    var t := OnConstructor(depth + 1, false, c);
    if depth + 1 > MAX_DEPTH {
      ArrayTooDeep(|elems|, bs + rest, depth);
    } else if ZeroWidth(c) {
      assert elems == [elems[0]] && elems[1..] == [];
      DecodeLoneItem(c, data, elems[0], depth, rest);
    } else if t.Fail? {
      FirstItemFails(c, data, elems, depth);
      ArrayFails(|elems|, c, data + rest, depth);
    } else {
      ConstructorReads(c, depth);
      FirstElement(|elems|, c, t.state, data + rest, depth);
      DecodeElements([], c, t.state, data, elems, depth, rest);
      assert [] + elems == elems;
    }
  }

  lemma DecodeList(bs: Bytes, items: seq<Value>, depth: nat, rest: Bytes)
    requires BodyOf(bs, 0xC0, 0xD0, |items|).Some? && DenotesAll(BodyOf(bs, 0xC0, 0xD0, |items|).value, items)
    ensures Feed(Start, depth, false, bs + rest) == Expected(List(items), depth, rest)
    decreases items, 4
  {
    hide Feed, DenotesAll, AllFit, Counted;
    var body := BodyOf(bs, 0xC0, 0xD0, |items|).value;
    DecodeCounted(bs, 0xC0, 0xD0, |items|, depth, rest);
    CountedEdges(bs[0], |items|, depth, body + rest);
    if items == [] {
      NothingDenoted(body, depth);
      assert body + rest == rest;
    } else if |items| <= MAX_ITEM_COUNT {
      CountedItems(bs[0], |items|, depth, body + rest);
      DecodeItems([], body, items, depth, rest);
      assert [] + items == items;
    }
  }

  lemma NothingDenoted(bs: Bytes, depth: nat)
    ensures DenotesAll(bs, []) || DenotesPairs(bs, []) || DenotesArray(bs, []) ==> bs == []
    ensures AllFit([], depth + 1) && PairsFit([], depth + 1)
  {
  }

  lemma DecodeMap(bs: Bytes, pairs: seq<Pair>, depth: nat, rest: Bytes)
    requires BodyOf(bs, 0xC1, 0xD1, 2 * |pairs|).Some? && DenotesPairs(BodyOf(bs, 0xC1, 0xD1, 2 * |pairs|).value, pairs)
    ensures Feed(Start, depth, false, bs + rest) == Expected(Map(pairs), depth, rest)
    decreases pairs, 4
  {
    hide Feed, DenotesPairs, PairsFit, Counted;
    var body := BodyOf(bs, 0xC1, 0xD1, 2 * |pairs|).value;
    DecodeCounted(bs, 0xC1, 0xD1, 2 * |pairs|, depth, rest);
    CountedEdges(bs[0], |pairs|, depth, body + rest);
    if pairs == [] {
      NothingDenoted(body, depth);
      assert body + rest == rest;
    } else if |pairs| <= MAX_ITEM_COUNT {
      CountedItems(bs[0], |pairs|, depth, body + rest);
      DecodePairs([], body, pairs, depth, rest);
      assert [] + pairs == pairs;
    }
  }

  lemma DecodeArrayForm(bs: Bytes, elems: seq<Value>, depth: nat, rest: Bytes)
    requires BodyOf(bs, 0xE0, 0xF0, |elems|).Some? && DenotesArray(BodyOf(bs, 0xE0, 0xF0, |elems|).value, elems)
    ensures Feed(Start, depth, false, bs + rest) == Expected(Array(elems), depth, rest)
    decreases elems, 4
  {
    hide Feed, DenotesArray, AllFit, Counted;
    var body := BodyOf(bs, 0xE0, 0xF0, |elems|).value;
    DecodeCounted(bs, 0xE0, 0xF0, |elems|, depth, rest);
    CountedEdges(bs[0], |elems|, depth, body + rest);
    if elems == [] {
      NothingDenoted(body, depth);
      assert body + rest == rest;
    } else if |elems| <= MAX_ITEM_COUNT {
      CountedItems(bs[0], |elems|, depth, body + rest);
      DecodeArray(body, elems, depth, rest);
    }
  }

  lemma DecodeDescribed(bs: Bytes, d: Value, w: Value, depth: nat, rest: Bytes)
    requires Denotes(bs, Described(d, w))
    ensures Feed(Start, depth, false, bs + rest) == Expected(Described(d, w), depth, rest)
    decreases Described(d, w), 1
  {
    var n :| 1 <= n <= |bs| && bs[0] == 0x00 && Denotes(bs[1..n], d) && Denotes(bs[n..], w);
    DecodeParts(bs, n, d, w, depth, rest);
  }

  lemma DecodeParts(bs: Bytes, n: nat, d: Value, w: Value, depth: nat, rest: Bytes)
    requires 1 <= n <= |bs| && bs[0] == 0x00 && Denotes(bs[1..n], d) && Denotes(bs[n..], w)
    ensures Feed(Start, depth, false, bs + rest) == Expected(Described(d, w), depth, rest)
    decreases Described(d, w), 0
  {
    hide Feed, Denotes, Fits, Iterate, WellFormed;
    DescribedFits(d, w, depth);
    StartIsWellFormed(depth + 1);
    var tail := bs[n..] + rest;
    assert bs + rest == [0x00] + (bs[1..n] + tail);
    DecodeDenoted(bs[1..n], d, depth + 1, tail);
    NextDescriptor(bs[1..n] + tail, Fits(d, depth + 1), d, tail, depth);
    if depth + 1 <= MAX_DEPTH {
      DecodeDenoted(bs[n..], w, depth + 1, rest);
      NextDescribed(d, bs[n..] + rest, Fits(w, depth + 1), w, rest, depth);
    }
  }

  lemma DescribedFits(d: Value, w: Value, depth: nat)
    ensures Fits(Described(d, w), depth) <==> depth + 1 <= 128 && Fits(d, depth + 1) && Fits(w, depth + 1)
  {
  }

  // ---------------------------------------------------------------- the main lemma

  predicate IsScalar(v: Value) {
    !v.Uuid? && !v.Binary? && !v.String? && !v.Symbol? && !v.List? && !v.Map? && !v.Array? && !v.Described?
  }

  /** The decoder's table of constructors gives `v` to these octets. */
  predicate Tabled(bs: Bytes, v: Value) {
    if |bs| == 1 then ZeroWidth(bs[0]) && ZeroWidthValue(bs[0]) == v
    else bs != [] && |bs| == 1 + FixedWidth(bs[0]) && FixedValue(bs[0], Number(bs[1..])) == v && (bs[0] == 0x56 ==> bs[1] < 2)
  }

  lemma SignedForms(bs: Bytes, v: Value)
    requires IsSigned(v) && Denotes(bs, v)
    ensures bs != [] && Tabled(bs, v)
  {
    if |bs| <= 3 {
      ShortSignedForms(bs, v);
    } else {
      LongSignedForms(bs, v);
    }
  }

  lemma ShortSignedForms(bs: Bytes, v: Value)
    requires IsSigned(v) && Denotes(bs, v) && |bs| <= 3
    ensures bs != [] && Tabled(bs, v)
  {
    hide Number;
    NumberBelow(bs);
  }

  lemma LongSignedForms(bs: Bytes, v: Value)
    requires IsSigned(v) && Denotes(bs, v) && |bs| > 3
    ensures bs != [] && Tabled(bs, v)
  {
    hide Number;
    NumberBelow(bs);
  }

  lemma UnsignedForms(bs: Bytes, v: Value)
    requires IsScalar(v) && !IsSigned(v) && Denotes(bs, v)
    ensures bs != [] && Tabled(bs, v)
  {
    hide Number;
    NumberBelow(bs);
  }

  lemma NumberBelow(bs: Bytes)
    ensures |bs| == 2 ==> Number(bs[1..]) == bs[1]
    ensures |bs| == 3 ==> Number(bs[1..]) < 0x1_0000
    ensures |bs| == 5 ==> Number(bs[1..]) < 0x1_0000_0000
    ensures |bs| == 9 ==> Number(bs[1..]) < 0x1_0000_0000_0000_0000
  {
  }

  lemma DecodeScalar(bs: Bytes, v: Value, depth: nat, rest: Bytes)
    requires IsScalar(v) && Denotes(bs, v)
    ensures Feed(Start, depth, false, bs + rest) == Ran(Done(v), rest, [])
  {
    hide Feed, Denotes, Number, ZeroWidth, ZeroWidthValue, FixedValue;
    if IsSigned(v) {
      SignedForms(bs, v);
    } else {
      UnsignedForms(bs, v);
    }
    if |bs| == 1 {
      assert bs == [bs[0]];
      DecodeZeroWidth(bs[0], depth, rest);
    } else {
      DecodeFixed(bs, depth, rest);
    }
  }

  lemma DecodeBlob(bs: Bytes, v: Value, depth: nat, rest: Bytes)
    requires (v.Binary? || v.String? || v.Symbol?) && Denotes(bs, v)
    ensures Feed(Start, depth, false, bs + rest) == Expected(v, depth, rest)
  {
    hide Feed, Blob;
    if v.Binary? {
      DecodeMeasured(bs, 0xA0, 0xB0, v.data, depth, rest);
    } else if v.String? {
      DecodeMeasured(bs, 0xA1, 0xB1, v.text, depth, rest);
    } else {
      DecodeMeasured(bs, 0xA3, 0xB3, v.name, depth, rest);
    }
  }

  lemma ListForms(bs: Bytes, v: Value)
    requires Denotes(bs, v)
    ensures v.List? ==>
      (v.items == [] && bs == [0x45]) ||
      (BodyOf(bs, 0xC0, 0xD0, |v.items|).Some? && DenotesAll(BodyOf(bs, 0xC0, 0xD0, |v.items|).value, v.items))
    ensures v.Map? ==>
      BodyOf(bs, 0xC1, 0xD1, 2 * |v.pairs|).Some? && DenotesPairs(BodyOf(bs, 0xC1, 0xD1, 2 * |v.pairs|).value, v.pairs)
    ensures v.Array? ==>
      BodyOf(bs, 0xE0, 0xF0, |v.elems|).Some? && DenotesArray(BodyOf(bs, 0xE0, 0xF0, |v.elems|).value, v.elems)
    ensures v.Uuid? ==> bs == [0x98] + v.id
  {
    hide BodyOf, DenotesAll, DenotesPairs, DenotesArray;
  }

  /** Octets in any of the forms of `v` give back `v` exactly when it is within the limits, and leave what follows them. */
  lemma {:induction false} DecodeDenoted(bs: Bytes, v: Value, depth: nat, rest: Bytes)
    requires Denotes(bs, v)
    ensures Feed(Start, depth, false, bs + rest) == Expected(v, depth, rest)
    decreases v, 5
  {
    hide Feed, Denotes, BodyOf, DenotesAll, DenotesPairs, DenotesArray, AllFit, PairsFit;
    ListForms(bs, v);
    if v.Binary? || v.String? || v.Symbol? {
      DecodeBlob(bs, v, depth, rest);
    } else if v.Uuid? {
      DecodeUuid(v.id, depth, rest);
    } else if v.List? {
      if v.items == [] && bs == [0x45] {
        DecodeZeroWidth(0x45, depth, rest);
        NothingDenoted([], depth);
      } else {
        DecodeList(bs, v.items, depth, rest);
      }
    } else if v.Map? {
      DecodeMap(bs, v.pairs, depth, rest);
    } else if v.Array? {
      DecodeArrayForm(bs, v.elems, depth, rest);
    } else if v.Described? {
      DecodeDescribed(bs, v.descriptor, v.described, depth, rest);
    } else {
      DecodeScalar(bs, v, depth, rest);
    }
  }

  // ---------------------------------------------------------------- what is refused

  /** No value begins with any other octet. */
  lemma UnknownConstructor(c: Byte, depth: nat, rest: Bytes)
    requires c != 0x00 && !(0x40 <= c <= 0x45) && !(0x50 <= c <= 0x56) && !(0x60 <= c <= 0x61) && !(0x70 <= c <= 0x72) && !(0x80 <= c <= 0x83)
    requires c != 0x98 && c != 0xA0 && c != 0xA1 && c != 0xA3 && c != 0xB0 && c != 0xB1 && c != 0xB3
    requires c != 0xC0 && c != 0xC1 && c != 0xD0 && c != 0xD1 && c != 0xE0 && c != 0xF0
    ensures Feed(Start, depth, false, [c] + rest) == Broke([])
  {
    assert Iterate(Start, depth, false, c) == Fail([]);
    hide Feed, Iterate;
    FeedStep(Start, depth, false, c, rest);
  }

  /** A boolean of one octet is 0 or 1. */
  lemma BadBool(b: Byte, depth: nat, rest: Bytes)
    requires b > 1
    ensures Feed(Start, depth, false, [0x56, b] + rest) == Broke([])
  {
    assert [0x56, b] + rest == [0x56] + ([b] + rest);
    assert Iterate(Start, depth, false, 0x56) == Ok(Fixed(0x56, 0, 0), true, []);
    assert Iterate(Fixed(0x56, 0, 0), depth, false, b) == Fail([]);
    hide Feed, Iterate;
    Consume(Start, Fixed(0x56, 0, 0), depth, 0x56, [b] + rest);
    FeedStep(Fixed(0x56, 0, 0), depth, false, b, rest);
  }

  /** A length of 100 MB or more is refused at once, and so is a count above 65536, whatever follows. */
  lemma TooMuch(c: Byte, size: Bytes, field: Bytes, depth: nat, rest: Bytes)
    requires |field| == 4 && |size| == 4
    ensures c == 0xB0 || c == 0xB1 || c == 0xB3 ==>
      (Number(field) + 1 > 104857600 ==> Feed(Start, depth, false, [c] + field + rest) == Broke([]))
    ensures c == 0xD0 || c == 0xF0 ==>
      (Number(field) > 65536 ==> Feed(Start, depth, false, [c] + size + field + rest) == Broke([]))
    ensures c == 0xD1 ==>
      (Number(field) / 2 > 65536 ==> Feed(Start, depth, false, [c] + size + field + rest) == Broke([]))
  {
    hide Feed, Number, OnConstructor, Iterate;
    if LengthWidth(c) == 4 {
      AfterConstructor(c, depth);
      ConstructorTurn(depth, c);
      StartIsWellFormed(depth);
      assert [c] + field + rest == [c] + (field + rest);
      Consume(Start, Length(c, 0, 0), depth, c, field + rest);
      FeedLength(c, 0, 0, field, depth, rest);
      ByPosition(field);
    } else if CompoundWidth(c) == 4 {
      DecodeHeader(c, size, field, depth, rest);
    }
  }

  /** A map of a single key: the decoder sees that there is no value for it when the key comes. */
  lemma KeyWithoutValue(size: Byte, b: Byte, depth: nat, rest: Bytes)
    ensures Feed(Start, depth, false, [0xC1, size, 1, b] + rest) == Broke([])
  {
    hide Feed;
    var d := Nest(InMap(0, [], None), NotYet);
    assert [0xC1, size, 1, b] + rest == [0xC1] + [size] + [1] + ([b] + rest);
    DecodeHeader(0xC1, [size], [1], depth, [b] + rest);
    assert Number([1]) == 1 && Opening(0xC1, 1) == InMap(0, [], None);
    assert Iterate(d, depth, false, b) == Fail([]);
    FeedStep(d, depth, false, b, rest);
  }

  /** With more than one key, one key too many does not count: an odd count is read like the even one below it. */
  lemma OddCount(c: Byte, size: Bytes, odd: Bytes, even: Bytes, depth: nat, rest: Bytes)
    requires (c == 0xC1 && |size| == |odd| == |even| == 1) || (c == 0xD1 && |size| == |odd| == |even| == 4)
    requires Number(odd) == Number(even) + 1 && Number(even) % 2 == 0 && Number(even) > 0
    ensures Feed(Start, depth, false, [c] + size + odd + rest) == Feed(Start, depth, false, [c] + size + even + rest)
  {
    hide Feed, Number;
    DecodeHeader(c, size, odd, depth, rest);
    DecodeHeader(c, size, even, depth, rest);
    assert Number(odd) / 2 == Number(even) / 2;
  }

  /** At depth 128 there is no inner value: neither a descriptor nor an item. */
  lemma TooDeep(depth: nat, size: Byte, count: Byte, b: Byte, rest: Bytes)
    requires depth >= 128
    ensures Feed(Start, depth, false, [0x00] + rest) == Broke([])
    ensures count > 0 ==> Feed(Start, depth, false, [0xC0, size, count, b] + rest) == Broke([])
  {
    hide Feed;
    assert Iterate(Start, depth, false, 0x00) == Fail([]);
    FeedStep(Start, depth, false, 0x00, rest);
    if count > 0 {
      var d := Nest(InList(count, []), NotYet);
      assert [0xC0, size, count, b] + rest == [0xC0] + [size] + [count] + ([b] + rest);
      DecodeHeader(0xC0, [size], [count], depth, [b] + rest);
      assert Number([count]) == count && Opening(0xC0, count) == InList(count, []);
      assert Iterate(d, depth, false, b) == Fail([]);
      FeedStep(d, depth, false, b, rest);
    }
  }
}
