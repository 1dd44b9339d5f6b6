/**
 Arrays of two or more nulls inside a performative. The octet such an array gives back becomes a null of its own, so
 the fields behind it move, and what no longer fits into the performative is taken for payload or for an error.
 */
module NullArrays {
  import opened Octets
  import opened Options
  import opened AmqpValues
  import opened AmqpEncoding
  import opened DecoderSpec
  import opened Chunking
  import opened FieldRuns
  import opened Nesting
  import opened RoundTripSpec
  import opened RoundTrip
  import opened WireDecoding
  import opened WireEncoding
  import opened ValueStream
  import opened FrameEncoding
  import opened AmqpFraming

  /** A field that leaves its array constructor behind. */
  predicate Echoes(v: Value) {
    v.Array? && 2 <= |v.elems| <= MAX_ITEM_COUNT && v == Array(Nulls(|v.elems|))
  }

  /** A field of a performative, decoded at depth 2: one that echoes, or one that comes back. */
  predicate IsField(v: Value) {
    Encodable(v) && (Echoes(v) || (Regular(v) && Within(v, 2)))
  }

  /** What the decoder takes the fields for. */
  function AsItems(fs: seq<Value>): seq<Value> {
    if fs == [] then [] else (if Echoes(fs[0]) then [fs[0], Null] else [Normal(fs[0])]) + AsItems(fs[1..])
  }

  predicate AreFields(fs: seq<Value>) {
    forall k :: 0 <= k < |fs| ==> IsField(fs[k])
  }

  // ---------------------------------------------------------------- the fields, one after the other

  lemma {:induction false} EncodeAllConcat(a: seq<Value>, b: seq<Value>)
    ensures EncodeAll(a + b) == EncodeAll(a) + EncodeAll(b)
    decreases |a|
  {
    hide Encode;
    if a == [] {
      assert a + b == b;
    } else {
      assert (a + b)[0] == a[0] && (a + b)[1..] == a[1..] + b;
      EncodeAllConcat(a[1..], b);
    }
  }

  lemma NullOctet(depth: nat, rest: Bytes)
    ensures Feed(Start, depth, false, [0x40] + rest) == Ran(Done(Null), rest, [])
  {
    assert Iterate(Start, depth, false, 0x40) == Ok(Done(Null), true, []);
    Consume(Start, Done(Null), depth, 0x40, rest);
    FeedDone(Null, depth, rest);
  }

  lemma OneAsItems(v: Value)
    ensures AsItems([v]) == if Echoes(v) then [v, Null] else [Normal(v)]
  {
    hide Normal, Echoes;
    assert [v][1..] == [];
    assert AsItems([]) == [];
    assert [v, Null] + [] == [v, Null] && [Normal(v)] + [] == [Normal(v)];
  }

  /** One field: one item for the decoder, or two. */
  lemma NextField(count: nat, done: seq<Value>, v: Value, tail: Bytes)
    requires IsField(v) && |done| + |AsItems([v])| <= count <= MAX_ITEM_COUNT
    ensures Feed(Nest(InList(count, done), NotYet), 1, false, Encode(v) + tail) ==
      if |done| + |AsItems([v])| == count then Ran(Done(List(done + AsItems([v]))), tail, [])
      else Feed(Nest(InList(count, done + AsItems([v])), NotYet), 1, false, tail)
  {
    hide Feed, Encode, Encodable, Regular, Within, Normal, Nulls, AsItems;
    OneAsItems(v);
    NonEmptyEncoding(v);
    if Echoes(v) {
      NullArrayLeavesConstructor(|v.elems|, 2, tail);
      NextItem(count, done, Encode(v) + tail, true, v, [0x40] + tail, 1);
      NullOctet(2, tail);
      NextItem(count, done + [v], [0x40] + tail, true, Null, tail, 1);
      assert done + [v] + [Null] == done + AsItems([v]);
    } else {
      DecodeEncoded(v, 2, tail);
      NextItem(count, done, Encode(v) + tail, true, Normal(v), tail, 1);
    }
  }

  lemma HeardOne(fs: seq<Value>)
    requires fs != []
    ensures AsItems(fs) == AsItems([fs[0]]) + AsItems(fs[1..]) && |AsItems([fs[0]])| >= 1
  {
    assert [fs[0]][1..] == [];
    assert AsItems([fs[0]]) + AsItems(fs[1..]) == (if Echoes(fs[0]) then [fs[0], Null] else [Normal(fs[0])]) + AsItems(fs[1..]);
  }

  lemma {:induction false} HeardAtLeast(fs: seq<Value>)
    ensures |AsItems(fs)| >= |fs|
    ensures |AsItems(fs)| == |fs| <==> forall k :: 0 <= k < |fs| ==> !Echoes(fs[k])
    decreases |fs|
  {
    hide Echoes;
    if fs != [] {
      HeardAtLeast(fs[1..]);
    }
  }

  lemma {:induction false} NextFields(count: nat, done: seq<Value>, fs: seq<Value>, tail: Bytes)
    requires AreFields(fs) && |done| < count <= MAX_ITEM_COUNT && |done| + |AsItems(fs)| <= count
    ensures Feed(Nest(InList(count, done), NotYet), 1, false, EncodeAll(fs) + tail) ==
      if |done| + |AsItems(fs)| == count then Ran(Done(List(done + AsItems(fs))), tail, [])
      else Feed(Nest(InList(count, done + AsItems(fs)), NotYet), 1, false, tail)
    decreases |fs|
  {
    hide Feed, Encode, IsField, AsItems;
    if fs == [] {
      HeardNothing();
      assert EncodeAll(fs) + tail == tail && done + [] == done;
    } else {
      var more := fs[1..];
      HeardOne(fs);
      HeardAtLeast(more);
      assert EncodeAll(fs) + tail == Encode(fs[0]) + (EncodeAll(more) + tail);
      NextField(count, done, fs[0], EncodeAll(more) + tail);
      var done' := done + AsItems([fs[0]]);
      assert done' + AsItems(more) == done + AsItems(fs);
      if |done'| == count {
        assert more == [];
        HeardNothing();
        assert EncodeAll(more) + tail == tail && done' + [] == done';
      } else {
        NextFields(count, done', more, tail);
      }
    }
  }

  lemma HeardNothing()
    ensures AsItems([]) == []
  {
  }

  // ---------------------------------------------------------------- around the fields

  predicate FieldedPerformative(p: Value) {
    && IsPerformative(p) && Encodable(p) && p.described.List?
    && 0 < |p.described.items| <= MAX_ITEM_COUNT && AreFields(p.described.items)
  }

  /** What stands before the fields: the descriptor, and the header of the list. */
  function Front(p: Value): Bytes
    requires FieldedPerformative(p)
  {
    var items := p.described.items;
    var small := Small(p.described);
    [0x00] + Encode(p.descriptor) + ([if small then 0xC0 else 0xD0] + Compound(|EncodeAll(items)|, |items|, small, []))
  }

  lemma ListEncoding(items: seq<Value>)
    requires Encodable(List(items)) && items != []
    ensures var small := Small(List(items));
      Encode(List(items)) == [if small then 0xC0 else 0xD0] + Compound(|EncodeAll(items)|, |items|, small, EncodeAll(items))
      && (small ==> |items| <= 255)
  {
    hide EncodeAll, AllEncodable, Compound;
  }

  lemma PerformativeParts(p: Value)
    requires FieldedPerformative(p)
    ensures Encodable(p.described) && Encodable(p.descriptor) && p.descriptor.ULong?
    ensures Encode(p) == Front(p) + EncodeAll(p.described.items)
  {
    hide Small, IsField, EncodeAll, Compound, Encode, Encodable, Front;
    PerformativeForm(p);
    ListEncoding(p.described.items);
    var items, small := p.described.items, Small(p.described);
    HeaderThenBody(|EncodeAll(items)|, |items|, small, EncodeAll(items));
    FrontThen(p, EncodeAll(items));
  }

  lemma PerformativeForm(p: Value)
    requires IsDescribed(p) && Encodable(p)
    ensures Encodable(p.descriptor) && Encodable(p.described)
    ensures Encode(p) == [0x00] + Encode(p.descriptor) + Encode(p.described)
  {
  }

  lemma OpenList(small: bool, size: nat, count: nat, body: Bytes)
    requires 0 < count <= MAX_ITEM_COUNT && (small ==> count <= 255)
    ensures Feed(Start, 1, false, [if small then 0xC0 else 0xD0] + (Compound(size, count, small, []) + body)) ==
      Feed(Nest(InList(count, []), NotYet), 1, false, body)
  {
    hide Feed, Compound;
    var c := if small then 0xC0 else 0xD0;
    assert [c] + (Compound(size, count, small, []) + body) == [c] + Compound(size, count, small, []) + body;
    DecodeCompound(c, size, count, small, [], 1, body);
    assert [] + body == body;
    CountedItems(c, count, 1, body);
  }

  lemma DescriptorDecoded(d: Value, tail: Bytes)
    requires d.ULong?
    ensures Encodable(d) && Normal(d) == d && Feed(Start, 1, false, Encode(d) + tail) == Ran(Done(d), tail, [])
  {
    PlainDescriptor(d);
    hide Feed, Encode, Encodable, Regular, Within, Normal;
    DecodeEncoded(d, 1, tail);
  }

  lemma PlainDescriptor(d: Value)
    requires d.ULong?
    ensures Encodable(d) && Regular(d) && Within(d, 1) && Normal(d) == d
  {
  }

  lemma AroundList(d: Value, small: bool, size: nat, count: nat, body: Bytes, ok: bool, y: Value, tail: Bytes)
    requires d.ULong? && 0 < count <= MAX_ITEM_COUNT && (small ==> count <= 255)
    requires Feed(Nest(InList(count, []), NotYet), 1, false, body) == if ok then Ran(Done(y), tail, []) else Broke([])
    ensures Feed(Start, 0, false, [0x00] + (Encode(d) + ([if small then 0xC0 else 0xD0] + (Compound(size, count, small, []) + body)))) ==
      if ok then Ran(Done(Described(d, y)), tail, []) else Broke([])
  {
    hide Feed, Encode, Compound;
    var list := [if small then 0xC0 else 0xD0] + (Compound(size, count, small, []) + body);
    DescriptorDecoded(d, list);
    NextDescriptor(Encode(d) + list, true, d, list, 0);
    OpenList(small, size, count, body);
    NextDescribed(d, list, ok, y, tail, 0);
  }

  lemma FrontThen(p: Value, body: Bytes)
    requires FieldedPerformative(p)
    ensures var items, small := p.described.items, Small(p.described);
      Front(p) + body ==
        [0x00] + (Encode(p.descriptor) + ([if small then 0xC0 else 0xD0] + (Compound(|EncodeAll(items)|, |items|, small, []) + body)))
  {
    hide Encode, Small, EncodeAll, Compound, IsField;
  }

  /** What the octets `body` give as a list of that many items, they give as a performative. */
  lemma AroundFields(p: Value, body: Bytes, ok: bool, y: Value, tail: Bytes)
    requires FieldedPerformative(p)
    requires Feed(Nest(InList(|p.described.items|, []), NotYet), 1, false, body) == if ok then Ran(Done(y), tail, []) else Broke([])
    ensures Feed(Start, 0, false, Front(p) + body) == if ok then Ran(Done(Described(p.descriptor, y)), tail, []) else Broke([])
  {
    hide Feed, Encode, Encodable, IsField, Small, EncodeAll, Compound, Front;
    PerformativeParts(p);
    ListEncoding(p.described.items);
    FrontThen(p, body);
    AroundList(p.descriptor, Small(p.described), |EncodeAll(p.described.items)|, |p.described.items|, body, ok, y, tail);
  }

  // ---------------------------------------------------------------- a performative that fits

  lemma SplitFields(items: seq<Value>, j: nat)
    requires j <= |items|
    ensures EncodeAll(items) == EncodeAll(items[..j]) + EncodeAll(items[j..])
  {
    hide Encode, EncodeAll;
    EncodeAllConcat(items[..j], items[j..]);
    assert items[..j] + items[j..] == items;
  }

  lemma FewFields(p: Value, j: nat)
    requires FieldedPerformative(p) && j <= |p.described.items|
    ensures AreFields(p.described.items[..j])
  {
    hide IsField, Encodable;
  }

  /** The first `j` fields alone: their octets are enough, and no more is taken. */
  lemma FieldsEnough(p: Value, j: nat)
    requires FieldedPerformative(p) && j <= |p.described.items| && |AsItems(p.described.items[..j])| == |p.described.items|
    ensures var v := Described(p.descriptor, List(AsItems(p.described.items[..j])));
      Feed(Start, 0, true, Front(p) + EncodeAll(p.described.items[..j])) == Ran(Start, [], [v])
  {
    hide Feed, Encode, Encodable, IsField, EncodeAll, Front, AsItems, Compound, AreFields;
    FewFields(p, j);
    var items := p.described.items;
    var first := items[..j];
    var y := List(AsItems(first));
    NextFields(|items|, [], first, []);
    assert [] + AsItems(first) == AsItems(first) && EncodeAll(first) + [] == EncodeAll(first);
    AroundFields(p, EncodeAll(first), true, y, []);
    OutermostFollows(Start, 0, Front(p) + EncodeAll(first));
    FeedNothing(Start, 0, true);
    assert [Described(p.descriptor, y)] + [] == [Described(p.descriptor, y)];
  }

  /** The first `j` fields are already as many items as there are fields: the rest is payload. */
  lemma RestIsPayload(p: Value, j: nat, payload: Bytes)
    requires FieldedPerformative(p) && j <= |p.described.items| && |AsItems(p.described.items[..j])| == |p.described.items|
    ensures SplitBody(Start, Encode(p) + payload) ==
      Split(Start, false, Some(Described(p.descriptor, List(AsItems(p.described.items[..j])))), EncodeAll(p.described.items[j..]) + payload)
  {
    hide Feed, Encode, Encodable, IsField, EncodeAll, Front, SplitBody, AsItems, AreFields;
    PerformativeParts(p);
    FieldsEnough(p, j);
    var items := p.described.items;
    SplitFields(items, j);
    var enc, rest := Front(p) + EncodeAll(items[..j]), EncodeAll(items[j..]) + payload;
    assert Encode(p) + payload == enc + rest;
    FrontNotEmpty(p);
    PayloadStartsAfter(Start, enc, Described(p.descriptor, List(AsItems(items[..j]))), rest);
  }

  lemma FrontNotEmpty(p: Value)
    requires FieldedPerformative(p)
    ensures Front(p) != []
  {
  }

  // ---------------------------------------------------------------- a performative that ends with an echo

  /** All of an array of nulls but the octet it gives back. */
  function Shortened(n: nat): Bytes {
    var small := n <= 255;
    [if small then 0xE0 else 0xF0] + Compound(0, n, small, [])
  }

  lemma ArrayWantsConstructor(n: nat)
    requires 2 <= n <= MAX_ITEM_COUNT
    ensures Encode(Array(Nulls(n))) == Shortened(n) + [0x40]
    ensures Feed(Start, 2, false, Shortened(n) + [0xFF]) == Broke([])
  {
    hide Feed, Encode, Compound, Nulls;
    NullArrayEncoding(n);
    var small := n <= 255;
    var c := if small then 0xE0 else 0xF0;
    HeaderThenBody(0, n, small, [0x40]);
    assert [c] + (Compound(0, n, small, []) + [0x40]) == Shortened(n) + [0x40];
    DecodeCompound(c, 0, n, small, [], 2, [0xFF]);
    assert [] + [0xFF] == [0xFF];
    CountedItems(c, n, 2, [0xFF]);
    NoSuchConstructor(n);
  }

  lemma NoSuchConstructor(n: nat)
    requires 2 <= n <= MAX_ITEM_COUNT
    ensures Feed(Nest(InArray(n, [], 0), NotYet), 2, false, [0xFF]) == Broke([])
  {
    assert OnConstructor(3, false, 0xFF) == Fail([]);
    assert Iterate(Nest(InArray(n, [], 0), NotYet), 2, false, 0xFF) == Fail([]);
  }

  /** Without the octet it gives back the array, and the performative, is not complete; with it there are two callbacks. */
  lemma EchoCallsTwice(p: Value, j: nat)
    requires FieldedPerformative(p) && j < |p.described.items|
    requires |AsItems(p.described.items[..j])| + 1 == |p.described.items| && Echoes(p.described.items[j])
    ensures var items := p.described.items;
      var enc := Front(p) + (EncodeAll(items[..j]) + Shortened(|items[j].elems|));
      var v := Described(p.descriptor, List(AsItems(items[..j]) + [items[j]]));
      var s := Feed(Start, 0, true, enc);
      && s.Ran? && s.calls == [] && WellFormed(s.state, 0, true)
      && Feed(s.state, 0, true, [0x40]) == Ran(Start, [], [v, Null])
  {
    hide Feed, Encode, Encodable, IsField, EncodeAll, Front, AsItems, Shortened, WellFormed, AreFields, Nulls;
    var items := p.described.items;
    var enc := Front(p) + (EncodeAll(items[..j]) + Shortened(|items[j].elems|));
    EchoEnds(p, j);
    StartIsWellFormed(0);
    OutermostFollows(Start, 0, enc + [0x40]);
    NullAtStart();
    FeedSplit(Start, 0, false, enc, [0xFF]);
    FeedSplit(Start, 0, false, enc, [0x40]);
    OutermostFollows(Start, 0, enc);
    FeedSplit(Start, 0, true, enc, [0x40]);
    var s := Feed(Start, 0, true, enc);
    OutermostNotDone(s.state, 0);
    AfterNothing(Feed(s.state, 0, true, [0x40]));
  }

  /** When the last item is such an array, its last octet calls back twice: the performative, and a null that is an error. */
  lemma EchoIsError(p: Value, j: nat, payload: Bytes)
    requires FieldedPerformative(p) && j < |p.described.items|
    requires |AsItems(p.described.items[..j])| + 1 == |p.described.items| && Echoes(p.described.items[j])
    ensures SplitBody(Start, Encode(p) + payload) == Split(Start, true, None, [])
  {
    hide Feed, Encode, Encodable, IsField, EncodeAll, Front, SplitBody, AsItems, Shortened, WellFormed, AreFields, Nulls;
    PerformativeParts(p);
    EchoCallsTwice(p, j);
    var items := p.described.items;
    var n, rest := |items[j].elems|, EncodeAll(items[j + 1..]) + payload;
    var enc := Front(p) + (EncodeAll(items[..j]) + Shortened(n));
    ArrayWantsConstructor(n);
    SplitFields(items, j);
    OneFieldMore(items, j);
    assert Encode(p) + payload == enc + ([0x40] + rest);
    StartIsWellFormed(0);
    QuietPrefix(Start, enc, [0x40] + rest);
    TwoCalls(Feed(Start, 0, true, enc).state, Described(p.descriptor, List(AsItems(items[..j]) + [items[j]])), rest);
  }

  lemma OneFieldMore(items: seq<Value>, j: nat)
    requires j < |items|
    ensures EncodeAll(items[j..]) == Encode(items[j]) + EncodeAll(items[j + 1..])
  {
    hide Encode;
    assert items[j..][1..] == items[j + 1..];
  }

  lemma NullAtStart()
    ensures Feed(Start, 0, true, [0x40]) == Ran(Start, [], [Null])
  {
    assert Iterate(Start, 0, true, 0x40) == Ok(Start, true, [Null]);
    assert [0x40] == [0x40] + [];
    FeedStep(Start, 0, true, 0x40, []);
    FeedNothing(Start, 0, true);
  }

  lemma EchoEnds(p: Value, j: nat)
    requires FieldedPerformative(p) && j < |p.described.items|
    requires |AsItems(p.described.items[..j])| + 1 == |p.described.items| && Echoes(p.described.items[j])
    ensures var items := p.described.items; var n := |items[j].elems|;
      var enc := Front(p) + (EncodeAll(items[..j]) + Shortened(n));
      && Feed(Start, 0, false, enc + [0x40]) == Ran(Done(Described(p.descriptor, List(AsItems(items[..j]) + [items[j]]))), [0x40], [])
      && Feed(Start, 0, false, enc + [0xFF]) == Broke([])
  {
    hide Feed, Encode, Encodable, IsField, EncodeAll, Front, AsItems, Compound, Nulls, Shortened;
    var items := p.described.items;
    var a, n, before := items[j], |items[j].elems|, EncodeAll(items[..j]);
    var done := AsItems(items[..j]);
    ArrayWantsConstructor(n);
    forall b: Byte
      ensures Front(p) + (before + Shortened(n)) + [b] == Front(p) + (before + (Shortened(n) + [b]))
    {
    }
    assert [] + done == done;
    NextFields(|items|, [], items[..j], Shortened(n) + [0x40]);
    NextFields(|items|, [], items[..j], Shortened(n) + [0xFF]);
    NullArrayLeavesConstructor(n, 2, []);
    assert Encode(a) + [] == Encode(a) && [0x40] + [] == [0x40];
    NextItem(|items|, done, Shortened(n) + [0x40], true, a, [0x40], 1);
    NextItem(|items|, done, Shortened(n) + [0xFF], false, a, [], 1);
    AroundFields(p, before + (Shortened(n) + [0x40]), true, List(done + [a]), [0x40]);
    AroundFields(p, before + (Shortened(n) + [0xFF]), false, a, []);
  }

  lemma TwoCalls(s: Decoder, v: Value, rest: Bytes)
    requires WellFormed(s, 0, true) && Feed(s, 0, true, [0x40]) == Ran(Start, [], [v, Null])
    ensures SplitBody(s, [0x40] + rest) == Split(Start, true, None, [])
  {
    hide Feed, WellFormed;
    assert ([0x40] + rest)[0] == 0x40;
    assert [v, Null][1..] == [Null] && [Null][1..] == [];
    assert !IsPerformative(Null);
    var h := if IsPerformative(v) then Heard(false, Some(v)) else Heard(true, None);
    assert Hear(Heard(false, None), [v, Null]) == Hear(h, [Null]);
    assert Hear(h, [Null]).failed;
  }

  // ---------------------------------------------------------------- what becomes of any such performative

  /** How many fields fit into `k` items. */
  function Fitting(fs: seq<Value>, k: nat): (j: nat)
    ensures j <= |fs|
  {
    if fs == [] || |AsItems([fs[0]])| > k then 0 else 1 + Fitting(fs[1..], k - |AsItems([fs[0]])|)
  }

  /** They are `k` items, or one less because the next field is two. */
  lemma {:induction false} FittingItems(fs: seq<Value>, k: nat)
    requires k <= |fs|
    ensures var j := Fitting(fs, k);
      |AsItems(fs[..j])| == k || (j < |fs| && |AsItems(fs[..j])| + 1 == k && Echoes(fs[j]))
    decreases |fs|
  {
    hide AsItems, Echoes;
    HeardNothing();
    var j := Fitting(fs, k);
    if fs == [] {
      assert fs[..j] == [];
    } else {
      OneAsItems(fs[0]);
      if |AsItems([fs[0]])| > k {
        assert fs[..j] == [];
      } else {
        var k' := k - |AsItems([fs[0]])|;
        FittingItems(fs[1..], k');
        assert fs[..j][1..] == fs[1..][..j - 1] && fs[..j][0] == fs[0];
        HeardOne(fs[..j]);
      }
    }
  }

  /** The body of the frame, for any fields: an error, or a performative with the fields that fit and the rest as payload. */
  lemma BodyOfFields(p: Value, payload: Bytes)
    requires FieldedPerformative(p)
    ensures var items := p.described.items; var j := Fitting(items, |items|);
      SplitBody(Start, Encode(p) + payload) ==
        if |AsItems(items[..j])| < |items| then Split(Start, true, None, [])
        else Split(Start, false, Some(Described(p.descriptor, List(AsItems(items[..j])))), EncodeAll(items[j..]) + payload)
  {
    hide Encode, EncodeAll, SplitBody, AsItems, IsField, Fitting;
    var items := p.described.items;
    var j := Fitting(items, |items|);
    FittingItems(items, |items|);
    if |AsItems(items[..j])| < |items| {
      EchoIsError(p, j, payload);
    } else {
      RestIsPayload(p, j, payload);
    }
  }

  lemma {:induction false} NoEcho(fs: seq<Value>)
    requires forall k :: 0 <= k < |fs| ==> !Echoes(fs[k])
    ensures AsItems(fs) == NormalAll(fs)
    decreases |fs|
  {
    hide Echoes, Normal;
    if fs != [] {
      NoEcho(fs[1..]);
    }
  }

  lemma NormalPerformative(p: Value)
    requires IsPerformative(p) && p.described.List?
    ensures Normal(p) == Described(p.descriptor, List(NormalAll(p.described.items)))
  {
  }

  lemma MessageBody(m: OutMessage, max: nat)
    requires Acceptable(m, max) && m.Message?
    ensures var e := AsReceived(AsFrame(m)); var payload := Join(m.payloads);
      && e.body == Encode(m.performative) + payload && e.body != [] && |e.specific| == 2 && ChannelOf(e.specific) == m.channel
  {
    hide Encode, Encodable, IsPerformative, Padded, Doff, Sendable;
    ChannelComesBack(m.channel);
    NonEmptyEncoding(m.performative);
    assert ([Encode(m.performative)] + m.payloads)[1..] == m.payloads;
  }

  /**
   A message whose performative has any such fields arrives as it was sent if and only if none of them is an array of
   two or more nulls.
   */
  lemma ArrivesExactlyWithoutNullArrays(m: OutMessage, max: nat)
    requires m.Message? && Acceptable(m, max) && FieldedPerformative(m.performative)
    ensures var e := AsReceived(AsFrame(m)); var items := m.performative.described.items;
      OnFrame(Splitter(Start, false), e.specific, e.body) == Heeded(Splitter(Start, false), [Announced(m)]) <==>
        forall k :: 0 <= k < |items| ==> !Echoes(items[k])
  {
    hide Encode, EncodeAll, SplitBody, AsItems, IsField, Fitting, Normal, Echoes, Acceptable, NormalAll, Encodable;
    var p, payload := m.performative, Join(m.payloads);
    var items := p.described.items;
    var j := Fitting(items, |items|);
    MessageBody(m, max);
    BodyOfFields(p, payload);
    NormalPerformative(p);
    HeardAtLeast(items);
    if forall k :: 0 <= k < |items| ==> !Echoes(items[k]) {
      FittingItems(items, |items|);
      HeardAtLeast(items[..j]);
      assert items[..j] == items && items[j..] == [];
      NoEcho(items);
      EmptyEncodeAll();
      assert EncodeAll(items[j..]) + payload == payload;
    } else if |AsItems(items[..j])| == |items| {
      assert items[..|items|] == items;
      OneFieldMore(items, j);
      EncodableField(p, j);
      NonEmptyEncoding(items[j]);
      assert |EncodeAll(items[j..]) + payload| > |payload|;
    }
  }

  lemma EmptyEncodeAll()
    ensures EncodeAll([]) == []
  {
  }

  lemma EncodableField(p: Value, j: nat)
    requires FieldedPerformative(p) && j < |p.described.items|
    ensures Encodable(p.described.items[j])
  {
  }
}
