/** Runs of an outer decoder over the octets of one inner value. */
module Nesting {
  import opened Octets
  import opened Options
  import opened AmqpValues
  import opened DecoderSpec
  import opened Chunking

  /** An inner decoder is created when its first octet arrives. */
  lemma Open(f: Frame, depth: nat, outermost: bool, bs: Bytes)
    requires f.InList? || f.InMap?
    requires WellFormed(Nest(f, NotYet), depth, outermost) && bs != []
    ensures NoInner(f, depth) ==> Feed(Nest(f, NotYet), depth, outermost, bs) == Broke([])
    ensures !NoInner(f, depth) ==>
      WellFormed(Nest(f, Running(Start)), depth, outermost) &&
      Feed(Nest(f, NotYet), depth, outermost, bs) == Feed(Nest(f, Running(Start)), depth, outermost, bs)
  {
    if NoInner(f, depth) {
      assert Iterate(Nest(f, NotYet), depth, outermost, bs[0]) == Fail([]);
    } else {
      assert Iterate(Nest(f, NotYet), depth, outermost, bs[0]) == Iterate(Nest(f, Running(Start)), depth, outermost, bs[0]);
    }
  }

  /** The run of an outer decoder follows from the run of the inner one. */
  lemma InnerFails(f: Frame, bs: Bytes, depth: nat)
    requires f.InList? || f.InMap?
    requires WellFormed(Nest(f, NotYet), depth, false) && bs != []
    requires NoInner(f, depth) || Feed(Start, depth + 1, false, bs) == Broke([])
    ensures Feed(Nest(f, NotYet), depth, false, bs) == Broke([])
  {
    hide Feed, Iterate;
    Open(f, depth, false, bs);
    if !NoInner(f, depth) {
      FeedInner(f, Start, depth, false, bs);
    }
  }

  lemma InnerSucceeds(f: Frame, y: Value, bs: Bytes, tail: Bytes, next: Decoder, depth: nat)
    requires f.InList? || f.InMap?
    requires WellFormed(Nest(f, NotYet), depth, false) && bs != [] && !NoInner(f, depth)
    requires Feed(Start, depth + 1, false, bs) == Ran(Done(y), tail, [])
    requires Absorb(f, y, depth, false, true) == Ok(next, true, [])
    ensures WellFormed(next, depth, false)
    ensures Feed(Nest(f, NotYet), depth, false, bs) == Feed(next, depth, false, tail)
  {
    hide Feed, Iterate;
    Open(f, depth, false, bs);
    FeedInner(f, Start, depth, false, bs);
    AbsorbKeepsInvariant(f, y, depth, false, true);
    AfterNothing(Feed(next, depth, false, tail));
  }

  /** The inner decoder, fed `bs`, is done with `y` and leaves `tail`; or fails when not `ok`. */
  predicate Gives(i: Decoder, depth: nat, bs: Bytes, ok: bool, y: Value, tail: Bytes)
    requires WellFormed(i, depth + 1, false)
  {
    Feed(i, depth + 1, false, bs) == if ok then Ran(Done(y), tail, []) else Broke([])
  }

  lemma NextItem(count: nat, done: seq<Value>, bs: Bytes, ok: bool, y: Value, tail: Bytes, depth: nat)
    requires |done| < count <= MAX_ITEM_COUNT && bs != [] && Gives(Start, depth, bs, ok, y, tail)
    ensures Feed(Nest(InList(count, done), NotYet), depth, false, bs) ==
      if depth + 1 > MAX_DEPTH || !ok then Broke([])
      else if |done| + 1 == count then Ran(Done(List(done + [y])), tail, [])
      else Feed(Nest(InList(count, done + [y]), NotYet), depth, false, tail)
  {
    hide Feed, Iterate;
    var f := InList(count, done);
    if depth + 1 > MAX_DEPTH || !ok {
      InnerFails(f, bs, depth);
    } else if |done| + 1 == count {
      InnerSucceeds(f, y, bs, tail, Done(List(done + [y])), depth);
      FeedDone(List(done + [y]), depth, tail);
    } else {
      InnerSucceeds(f, y, bs, tail, Nest(InList(count, done + [y]), NotYet), depth);
    }
  }

  lemma NextKey(count: nat, done: seq<Pair>, bs: Bytes, ok: bool, y: Value, tail: Bytes, depth: nat)
    requires |done| < count <= MAX_ITEM_COUNT && bs != [] && Gives(Start, depth, bs, ok, y, tail)
    ensures Feed(Nest(InMap(count, done, None), NotYet), depth, false, bs) ==
      if depth + 1 > MAX_DEPTH || !ok then Broke([])
      else Feed(Nest(InMap(count, done, Some(y)), NotYet), depth, false, tail)
  {
    hide Feed, Iterate;
    var f := InMap(count, done, None);
    if depth + 1 > MAX_DEPTH || !ok {
      InnerFails(f, bs, depth);
    } else {
      InnerSucceeds(f, y, bs, tail, Nest(InMap(count, done, Some(y)), NotYet), depth);
    }
  }

  lemma NextMapped(count: nat, done: seq<Pair>, key: Value, bs: Bytes, ok: bool, y: Value, tail: Bytes, depth: nat)
    requires |done| < count <= MAX_ITEM_COUNT && bs != [] && Gives(Start, depth, bs, ok, y, tail)
    ensures Feed(Nest(InMap(count, done, Some(key)), NotYet), depth, false, bs) ==
      if depth + 1 > MAX_DEPTH || !ok then Broke([])
      else if |done| + 1 == count then Ran(Done(Map(done + [Pair(key, y)])), tail, [])
      else Feed(Nest(InMap(count, done + [Pair(key, y)], None), NotYet), depth, false, tail)
  {
    hide Feed, Iterate;
    var f := InMap(count, done, Some(key));
    if depth + 1 > MAX_DEPTH || !ok {
      InnerFails(f, bs, depth);
    } else if |done| + 1 == count {
      InnerSucceeds(f, y, bs, tail, Done(Map(done + [Pair(key, y)])), depth);
      FeedDone(Map(done + [Pair(key, y)]), depth, tail);
    } else {
      InnerSucceeds(f, y, bs, tail, Nest(InMap(count, done + [Pair(key, y)], None), NotYet), depth);
    }
  }

  /** A decoder that has read constructor `c` and is not done. */
  predicate Reads(c: Byte, i: Decoder, depth: nat) {
    OnConstructor(depth + 1, false, c) == Ok(i, true, []) && !i.Done?
  }

  /** Between array items the next inner decoder starts from the constructor they share. */
  lemma NextElement(count: nat, done: seq<Value>, c: Byte, i: Decoder, bs: Bytes, ok: bool, y: Value, tail: Bytes, depth: nat)
    requires |done| < count <= MAX_ITEM_COUNT && depth + 1 <= MAX_DEPTH && Reads(c, i, depth)
    requires WellFormed(i, depth + 1, false) && Gives(i, depth, bs, ok, y, tail)
    ensures WellFormed(Nest(InArray(count, done, c), Running(i)), depth, false)
    ensures Feed(Nest(InArray(count, done, c), Running(i)), depth, false, bs) ==
      if !ok then Broke([])
      else if |done| + 1 == count then Ran(Done(Array(done + [y])), tail, [])
      else Feed(Nest(InArray(count, done + [y], c), Running(i)), depth, false, tail)
  {
    var f := InArray(count, done, c);
    ConstructorKeepsInvariant(depth + 1, false, c);
    assert WellFormed(Nest(f, Running(i)), depth, false);
    hide Feed, Iterate, OnConstructor;
    FeedInner(f, i, depth, false, bs);
    if ok {
      AbsorbKeepsInvariant(f, y, depth, false, true);
      AfterNothing(Feed(Absorb(f, y, depth, false, true).state, depth, false, tail));
      FeedDone(Array(done + [y]), depth, tail);
    }
  }

  /** The first octet of an array's items is their constructor. */
  lemma FirstElement(count: nat, c: Byte, i: Decoder, bs: Bytes, depth: nat)
    requires 0 < count <= MAX_ITEM_COUNT && depth + 1 <= MAX_DEPTH && Reads(c, i, depth)
    ensures WellFormed(Nest(InArray(count, [], c), Running(i)), depth, false)
    ensures Feed(Nest(InArray(count, [], 0), NotYet), depth, false, [c] + bs) ==
      Feed(Nest(InArray(count, [], c), Running(i)), depth, false, bs)
  {
    var d, d' := Nest(InArray(count, [], 0), NotYet), Nest(InArray(count, [], c), Running(i));
    ConstructorKeepsInvariant(depth + 1, false, c);
    assert Iterate(d, depth, false, c) == Ok(d', true, []);
    hide Feed, Iterate, OnConstructor;
    Consume(d, d', depth, c, bs);
  }

  lemma ArrayTooDeep(count: nat, bs: Bytes, depth: nat)
    requires 0 < count <= MAX_ITEM_COUNT && depth + 1 > MAX_DEPTH && bs != []
    ensures Feed(Nest(InArray(count, [], 0), NotYet), depth, false, bs) == Broke([])
  {
    assert Iterate(Nest(InArray(count, [], 0), NotYet), depth, false, bs[0]) == Fail([]);
  }

  lemma OneZeroWidth(c: Byte, depth: nat, rest: Bytes)
    requires depth + 1 <= MAX_DEPTH && ZeroWidth(c)
    ensures Feed(Nest(InArray(1, [], 0), NotYet), depth, false, [c] + rest) == Ran(Done(Array([ZeroWidthValue(c)])), rest, [])
  {
    hide ZeroWidthValue;
    var f, d, v := InArray(1, [], c), Nest(InArray(1, [], 0), NotYet), ZeroWidthValue(c);
    assert OnConstructor(depth + 1, false, c) == Ok(Done(v), true, []);
    assert f.items + [v] == [v];
    assert Absorb(f, v, depth, false, true) == Ok(Done(Array([v])), true, []);
    assert Iterate(d, depth, false, c) == Ok(Done(Array([v])), true, []);
    hide Feed, Iterate, OnConstructor;
    Consume(d, Done(Array([v])), depth, c, rest);
    FeedDone(Array([v]), depth, rest);
  }

  /** The descriptor octet, then the descriptor: the described value is next. */
  lemma NextDescriptor(bs: Bytes, ok: bool, y: Value, tail: Bytes, depth: nat)
    requires Gives(Start, depth, bs, ok, y, tail)
    ensures Feed(Start, depth, false, [0x00] + bs) ==
      if depth + 1 > MAX_DEPTH || !ok then Broke([])
      else Feed(Nest(InDescribed(y), Running(Start)), depth, false, tail)
  {
    if depth + 1 > MAX_DEPTH {
      assert Iterate(Start, depth, false, 0x00) == Fail([]);
      hide Feed, Iterate;
      FeedStep(Start, depth, false, 0x00, bs);
    } else {
      assert Iterate(Start, depth, false, 0x00) == Ok(Nest(InDescriptor, Running(Start)), true, []);
      hide Feed, Iterate;
      Consume(Start, Nest(InDescriptor, Running(Start)), depth, 0x00, bs);
      FeedInner(InDescriptor, Start, depth, false, bs);
      if ok {
        AfterNothing(Feed(Nest(InDescribed(y), Running(Start)), depth, false, tail));
      }
    }
  }

  lemma NextDescribed(d: Value, bs: Bytes, ok: bool, y: Value, tail: Bytes, depth: nat)
    requires depth + 1 <= MAX_DEPTH && Gives(Start, depth, bs, ok, y, tail)
    ensures Feed(Nest(InDescribed(d), Running(Start)), depth, false, bs) ==
      if ok then Ran(Done(Described(d, y)), tail, []) else Broke([])
  {
    hide Feed, Iterate;
    FeedInner(InDescribed(d), Start, depth, false, bs);
    FeedDone(Described(d, y), depth, tail);
    AfterNothing(Ran(Done(Described(d, y)), tail, []));
  }
}
