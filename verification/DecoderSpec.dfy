/**
 The value decoder of src/amqpvalue.c as a state machine that looks at one octet at a time.
 `Iterate` is one turn of the loop in `internal_decoder_decode_bytes` with one octet in sight;
 `Feed` turns the loop until the octets run out, the decoder is done, or it fails.
 */
module DecoderSpec {
  import opened Octets
  import opened Options
  import opened AmqpValues

  const MAX_MALLOC: nat := 100 * 1024 * 1024
  const MAX_ITEM_COUNT: nat := 65536
  const MAX_DEPTH: nat := 128

  /** A compound value under construction, with what it still needs. */
  datatype Frame =
    | InList(count: nat, items: seq<Value>)
    | InMap(pairCount: nat, pairs: seq<Pair>, key: Option<Value>)
    | InArray(count: nat, items: seq<Value>, itemConstructor: Byte)
    | InDescriptor
    | InDescribed(descriptor: Value)


  /** A decoder and, inside `Nest`, the chain of its inner decoders. */
  datatype Decoder =
    | Start
    | Done(result: Value)
    | Fixed(ctor: Byte, n: nat, acc: nat)
    | Length(ctor: Byte, n: nat, len: nat)
    | Content(ctor: Byte, len: nat, got: Bytes)
    | Size(ctor: Byte, n: nat)
    | Count(ctor: Byte, n: nat, count: nat)
    | Nest(frame: Frame, inner: Inner)

  /** `NotYet` is a NULL inner decoder, created when the next octet arrives. */
  datatype Inner = NotYet | Running(decoder: Decoder)

  /** One turn: a failure with the callbacks made before it, or a new state. */
  datatype Turn =
    | Fail(calls: seq<Value>)
    | Ok(state: Decoder, used: bool, calls: seq<Value>)

  // ---------------------------------------------------------------- constructor octets

  /** Octets of a fixed-width form, 0 when `c` is not one. */
  function FixedWidth(c: Byte): (w: nat) {
    if 0x50 <= c <= 0x56 then 1
    else if 0x60 <= c <= 0x61 then 2
    else if 0x70 <= c <= 0x72 then 4
    else if 0x80 <= c <= 0x83 then 8
    else 0
  }

  /** Octets of the length field of a variable-width form, 0 when `c` is not one. */
  function LengthWidth(c: Byte): (w: nat) {
    if c == 0xA0 || c == 0xA1 || c == 0xA3 then 1 else if c == 0xB0 || c == 0xB1 || c == 0xB3 then 4 else 0
  }

  /** Octets of the size field and of the count field of a compound form, 0 when `c` is not one. */
  function CompoundWidth(c: Byte): (w: nat) {
    if c == 0xC0 || c == 0xC1 || c == 0xE0 then 1 else if c == 0xD0 || c == 0xD1 || c == 0xF0 then 4 else 0
  }

  predicate IsMapForm(c: Byte) {
    c == 0xC1 || c == 0xD1
  }

  /** Array items with one of these constructors take no octets of their own. */
  predicate ZeroWidth(c: Byte) {
    0x40 <= c <= 0x45
  }

  function ZeroWidthValue(c: Byte): Value {
    if c == 0x40 then Null
    else if c == 0x41 then Bool(true)
    else if c == 0x42 then Bool(false)
    else if c == 0x43 then UInt(0)
    else if c == 0x44 then ULong(0)
    else List([])
  }

  /** The value a fixed-width form gives to its octets, with the C integer conversions. */
  function FixedValue(c: Byte, acc: nat): Value {
    if c == 0x50 then UByte(acc % 256)
    else if c == 0x51 then SByte(Signed(acc % 256, 128))
    else if c == 0x52 then UInt(acc % 256)
    else if c == 0x53 then ULong(acc % 256)
    else if c == 0x54 then Int(Signed(acc % 256, 128))
    else if c == 0x55 then Long(Signed(acc % 256, 128))
    else if c == 0x56 then Bool(acc != 0)
    else if c == 0x60 then UShort(acc % 0x1_0000)
    else if c == 0x61 then Short(Signed(acc % 0x1_0000, 0x8000))
    else if c == 0x70 then UInt(acc % 0x1_0000_0000)
    else if c == 0x71 then Int(Signed(acc % 0x1_0000_0000, 0x8000_0000))
    else if c == 0x72 then Float(acc % 0x1_0000_0000)
    else if c == 0x80 then ULong(acc % 0x1_0000_0000_0000_0000)
    else if c == 0x81 then Long(Signed(acc % 0x1_0000_0000_0000_0000, 0x8000_0000_0000_0000))
    else if c == 0x82 then Double(acc % 0x1_0000_0000_0000_0000)
    else Timestamp(Signed(acc % 0x1_0000_0000_0000_0000, 0x8000_0000_0000_0000))
  }

  function ContentValue(c: Byte, got: Bytes): Value {
    if c == 0xA0 || c == 0xB0 then Binary(got)
    else if c == 0xA1 || c == 0xB1 then String(got)
    else if c == 0xA3 || c == 0xB3 then Symbol(got)
    else Uuid(if |got| == 16 then got else seq(16, _ => 0))
  }

  function EmptyCompound(c: Byte): Value {
    if c == 0xC0 || c == 0xD0 then List([])
    else if IsMapForm(c) then Map([])
    else Array([])
  }

  // ---------------------------------------------------------------- one turn of the loop

  /** A value is complete: an inner decoder is done, the outermost one moves on and calls back. */
  function Complete(outermost: bool, next: Decoder, v: Value, used: bool): Turn {
    if outermost then Ok(next, used, [v]) else Ok(Done(v), used, [])
  }

  function OnConstructor(depth: nat, outermost: bool, b: Byte): Turn {
    if ZeroWidth(b) then Complete(outermost, Start, ZeroWidthValue(b), true)
    else if b == 0x00 then
      if depth + 1 > MAX_DEPTH then Fail([]) else Ok(Nest(InDescriptor, Running(Start)), true, [])
    else if FixedWidth(b) > 0 then Ok(Fixed(b, 0, 0), true, [])
    else if b == 0x98 then Ok(Content(b, 16, []), true, [])
    else if LengthWidth(b) > 0 then Ok(Length(b, 0, 0), true, [])
    else if CompoundWidth(b) > 0 then Ok(Size(b, 0), true, [])
    else Fail([])
  }

  /** Big-endian accumulation of octet number `n` of a field of `w` octets. */
  function Accumulate(acc: nat, b: Byte, w: nat, n: nat): nat
    requires n < w
  {
    acc + Shifted(b, w - 1 - n)
  }

  function OnFixed(d: Decoder, outermost: bool, b: Byte): Turn
    requires d.Fixed? && d.n < FixedWidth(d.ctor)
  {
    var w := FixedWidth(d.ctor);
    var acc := Accumulate(d.acc, b, w, d.n);
    if d.ctor == 0x56 && b >= 2 then Fail([])
    else if d.n + 1 < w then Ok(Fixed(d.ctor, d.n + 1, acc), true, [])
    else Complete(outermost, Start, FixedValue(d.ctor, acc), true)
  }

  /** An empty binary, string or symbol calls back without leaving the type-data state. */
  function OnLength(d: Decoder, outermost: bool, b: Byte): Turn
    requires d.Length? && d.n < LengthWidth(d.ctor)
  {
    var w := LengthWidth(d.ctor);
    var len := Accumulate(d.len, b, w, d.n);
    if d.n + 1 < w then Ok(Length(d.ctor, d.n + 1, len), true, [])
    else if w == 4 && len + 1 > MAX_MALLOC then Fail([])
    else if len == 0 then Complete(outermost, Content(d.ctor, 0, []), ContentValue(d.ctor, []), true)
    else Ok(Content(d.ctor, len, []), true, [])
  }

  function OnContent(d: Decoder, outermost: bool, b: Byte): Turn
    requires d.Content? && |d.got| <= d.len
  {
    if |d.got| == d.len then Complete(outermost, Start, ContentValue(d.ctor, d.got), false)
    else if |d.got| + 1 < d.len then Ok(Content(d.ctor, d.len, d.got + [b]), true, [])
    else Complete(outermost, Start, ContentValue(d.ctor, d.got + [b]), true)
  }

  function OnSize(d: Decoder): Turn
    requires d.Size?
  {
    if d.n + 1 < CompoundWidth(d.ctor) then Ok(Size(d.ctor, d.n + 1), true, []) else Ok(Count(d.ctor, 0, 0), true, [])
  }

  function OnCount(d: Decoder, outermost: bool, b: Byte): Turn
    requires d.Count? && d.n < CompoundWidth(d.ctor)
  {
    var w := CompoundWidth(d.ctor);
    var count := Accumulate(d.count, b, w, d.n);
    if !IsMapForm(d.ctor) && count > MAX_ITEM_COUNT then Fail([])
    else if d.n + 1 < w then Ok(Count(d.ctor, d.n + 1, count), true, [])
    else if count == 0 then Complete(outermost, Start, EmptyCompound(d.ctor), true)
    else if IsMapForm(d.ctor) then
      if w == 4 && count / 2 > MAX_ITEM_COUNT then Fail([]) else Ok(Nest(InMap(count / 2, [], None), NotYet), true, [])
    else if d.ctor == 0xC0 || d.ctor == 0xD0 then Ok(Nest(InList(count, []), NotYet), true, [])
    else Ok(Nest(InArray(count, [], 0), NotYet), true, [])
  }

  /** The inner decoder is done with `v`. */
  function Absorb(f: Frame, v: Value, depth: nat, outermost: bool, used: bool): Turn {
    match f
    case InList(count, items) =>
      if |items| + 1 == count then Complete(outermost, Start, List(items + [v]), used)
      else Ok(Nest(InList(count, items + [v]), NotYet), used, [])
    case InMap(pairCount, pairs, key) =>
      if key.None? then Ok(Nest(InMap(pairCount, pairs, Some(v)), NotYet), used, [])
      else if |pairs| + 1 == pairCount then Complete(outermost, Start, Map(pairs + [Pair(key.value, v)]), used)
      else Ok(Nest(InMap(pairCount, pairs + [Pair(key.value, v)], None), NotYet), used, [])
    case InArray(count, items, c) =>
      if |items| + 1 == count then Complete(outermost, Start, Array(items + [v]), used)
      else
        // a zero-width item gives its octet back; the next item starts from the shared constructor
        var t := OnConstructor(depth + 1, false, c);
        if t.Fail? then Fail([])
        else Ok(Nest(InArray(count, items + [v], c), Running(t.state)), used && !ZeroWidth(c), [])
    case InDescriptor => Ok(Nest(InDescribed(v), Running(Start)), used, [])
    case InDescribed(d) => Complete(outermost, Start, Described(d, v), used)
  }

  /** An inner decoder cannot be created: too deep, or a map whose pairs are all there. */
  predicate NoInner(f: Frame, depth: nat) {
    depth + 1 > MAX_DEPTH || (f.InMap? && |f.pairs| >= f.pairCount)
  }

  /** The first octet of the first array item is the constructor all items share. */
  function Opened(f: Frame, b: Byte): Frame {
    if f.InArray? then f.(itemConstructor := b) else f
  }

  function OnNest(f: Frame, inner: Inner, depth: nat, outermost: bool, b: Byte): Turn
    requires inner.Running? ==> WellFormed(inner.decoder, depth + 1, false)
    decreases inner, 0
  {
    if inner.NotYet? then
      if NoInner(f, depth) then Fail([])
      else Settle(Opened(f, b), OnConstructor(depth + 1, false, b), depth, outermost)
    else Settle(f, Iterate(inner.decoder, depth + 1, false, b), depth, outermost)
  }

  function Settle(f: Frame, t: Turn, depth: nat, outermost: bool): Turn {
    if t.Fail? then Fail([])
    else if t.state.Done? then Absorb(f, t.state.result, depth, outermost, t.used)
    else Ok(Nest(f, Running(t.state)), t.used, [])
  }

  function Iterate(d: Decoder, depth: nat, outermost: bool, b: Byte): Turn
    requires WellFormed(d, depth, outermost)
    decreases d, 0
  {
    match d
    case Start => OnConstructor(depth, outermost, b)
    case Done(_) => Ok(d, false, [])
    case Fixed(_, _, _) => OnFixed(d, outermost, b)
    case Length(_, _, _) => OnLength(d, outermost, b)
    case Content(_, _, _) => OnContent(d, outermost, b)
    case Size(_, _) => OnSize(d)
    case Count(_, _, _) => OnCount(d, outermost, b)
    case Nest(f, inner) => OnNest(f, inner, depth, outermost, b)
  }

  // ---------------------------------------------------------------- the states that can be reached

  /** Item indexes stay below the counts, counts below their limits, inner decoders above depth 128. */
  predicate FrameInvariant(f: Frame) {
    match f
    case InList(count, items) => |items| < count <= MAX_ITEM_COUNT
    case InMap(pairCount, pairs, key) => (|pairs| < pairCount || (pairCount == 0 && key.None?)) && pairCount <= MAX_ITEM_COUNT
    case InArray(count, items, _) => |items| < count <= MAX_ITEM_COUNT
    case InDescriptor => true
    case InDescribed(_) => true
  }

  predicate WellFormed(d: Decoder, depth: nat, outermost: bool)
    decreases d
  {
    match d
    case Start => true
    case Done(_) => !outermost
    case Fixed(c, n, _) => n < FixedWidth(c)
    case Length(c, n, len) => n < LengthWidth(c) && (n == 0 ==> len == 0)
    case Content(_, len, got) => |got| < len < MAX_MALLOC || (outermost && len == 0 == |got|)
    case Size(c, n) => n < CompoundWidth(c)
    case Count(c, n, count) => n < CompoundWidth(c) && (n == 0 ==> count == 0)
    case Nest(f, NotYet) =>
      FrameInvariant(f) && !f.InDescriptor? && !f.InDescribed? && (f.InArray? ==> f.items == [])
    case Nest(f, Running(i)) =>
      && FrameInvariant(f)
      && (f.InMap? ==> |f.pairs| < f.pairCount)
      && depth + 1 <= MAX_DEPTH
      && WellFormed(i, depth + 1, false)
      && (i.Done? <==> f.InArray? && ZeroWidth(f.itemConstructor))
  }

  lemma StartIsWellFormed(depth: nat)
    ensures WellFormed(Start, depth, false) && WellFormed(Start, depth, true)
  {
  }

  lemma OutermostNotDone(d: Decoder, depth: nat)
    requires WellFormed(d, depth, true)
    ensures !d.Done?
  {
  }

  /** How many more turns a decoder can take without using an octet. */
  function Slack(d: Decoder): nat
    decreases d
  {
    match d
    case Content(_, len, got) => if |got| == len then 1 else 0
    case Nest(f, NotYet) => if f.InArray? then FrameSlack(f) else 0
    case Nest(f, Running(i)) => FrameSlack(f) + Slack(i)
    case _ => 0
  }

  function FrameSlack(f: Frame): nat {
    match f
    case InArray(count, items, _) => if |items| < count then 4 * (count - |items|) else 0
    case InDescriptor => 3
    case _ => 1
  }

  lemma ConstructorKeepsInvariant(depth: nat, outermost: bool, b: Byte)
    ensures var t := OnConstructor(depth, outermost, b);
      t.Ok? ==>
        && t.used && WellFormed(t.state, depth, outermost)
        && (!outermost ==> t.calls == [])
        && (t.state.Done? <==> !outermost && ZeroWidth(b))
        && Slack(t.state) <= 3
  {
  }

  lemma AbsorbKeepsInvariant(f: Frame, v: Value, depth: nat, outermost: bool, used: bool)
    requires FrameInvariant(f) && (f.InMap? ==> |f.pairs| < f.pairCount) && depth + 1 <= MAX_DEPTH
    ensures var t := Absorb(f, v, depth, outermost, used);
      t.Ok? ==>
        && WellFormed(t.state, depth, outermost)
        && (!outermost ==> t.calls == [])
        && Slack(t.state) < FrameSlack(f)
  {
    if f.InArray? {
      ConstructorKeepsInvariant(depth + 1, false, f.itemConstructor);
    }
  }

  /** Every turn keeps the invariant, and a turn that uses no octet lowers the slack. */
  ghost predicate KeepsInvariant(d: Decoder, t: Turn, depth: nat, outermost: bool) {
    && (t.Ok? ==> WellFormed(t.state, depth, outermost))
    && (t.Ok? && !t.used ==> Slack(t.state) < Slack(d))
    && (!outermost ==> t.calls == [])
  }

  lemma FixedKeepsInvariant(d: Decoder, depth: nat, outermost: bool, b: Byte)
    requires d.Fixed? && WellFormed(d, depth, outermost)
    ensures KeepsInvariant(d, OnFixed(d, outermost, b), depth, outermost)
  {
  }

  lemma LengthKeepsInvariant(d: Decoder, depth: nat, outermost: bool, b: Byte)
    requires d.Length? && WellFormed(d, depth, outermost)
    ensures KeepsInvariant(d, OnLength(d, outermost, b), depth, outermost)
  {
    if LengthWidth(d.ctor) == 1 {
      assert Accumulate(d.len, b, 1, 0) < 256;
    }
  }

  lemma CountKeepsInvariant(d: Decoder, depth: nat, outermost: bool, b: Byte)
    requires d.Count? && WellFormed(d, depth, outermost)
    ensures KeepsInvariant(d, OnCount(d, outermost, b), depth, outermost)
  {
    hide Iterate, OnNest, Settle, Absorb, FixedValue;
    if CompoundWidth(d.ctor) == 1 {
      assert Accumulate(d.count, b, 1, 0) < 256;
    }
  }

  lemma FlatKeepsInvariant(d: Decoder, depth: nat, outermost: bool, b: Byte)
    requires WellFormed(d, depth, outermost) && !d.Done? && !d.Nest?
    ensures KeepsInvariant(d, Iterate(d, depth, outermost, b), depth, outermost)
  {
    match d
    case Start => ConstructorKeepsInvariant(depth, outermost, b);
    case Fixed(_, _, _) => FixedKeepsInvariant(d, depth, outermost, b);
    case Length(_, _, _) => LengthKeepsInvariant(d, depth, outermost, b);
    case Content(_, _, _) =>
    case Size(_, _) =>
    case Count(_, _, _) => CountKeepsInvariant(d, depth, outermost, b);
  }

  /** What holds of the inner decoder after its turn is enough for the outer one. */
  lemma SettleKeepsInvariant(f: Frame, t: Turn, depth: nat, outermost: bool)
    requires FrameInvariant(f) && (f.InMap? ==> |f.pairs| < f.pairCount) && depth + 1 <= MAX_DEPTH
    requires t.Ok? && !t.state.Done? ==>
      WellFormed(t.state, depth + 1, false) && !(f.InArray? && ZeroWidth(f.itemConstructor))
    ensures var r := Settle(f, t, depth, outermost);
      && (r.Ok? ==> WellFormed(r.state, depth, outermost))
      && (!outermost ==> r.calls == [])
      && (r.Ok? && !r.used ==>
            Slack(r.state) < FrameSlack(f) || (t.Ok? && !t.used && Slack(r.state) == FrameSlack(f) + Slack(t.state)))
  {
    if t.Ok? && t.state.Done? {
      AbsorbKeepsInvariant(f, t.state.result, depth, outermost, t.used);
    }
  }

  lemma NotYetKeepsInvariant(f: Frame, depth: nat, outermost: bool, b: Byte)
    requires WellFormed(Nest(f, NotYet), depth, outermost)
    ensures KeepsInvariant(Nest(f, NotYet), OnNest(f, NotYet, depth, outermost, b), depth, outermost)
  {
    if !NoInner(f, depth) {
      ConstructorKeepsInvariant(depth + 1, false, b);
      SettleKeepsInvariant(Opened(f, b), OnConstructor(depth + 1, false, b), depth, outermost);
    }
  }

  lemma RunningKeepsInvariant(f: Frame, i: Decoder, t: Turn, depth: nat, outermost: bool)
    requires WellFormed(Nest(f, Running(i)), depth, outermost)
    requires if i.Done? then t == Ok(i, false, []) else KeepsInvariant(i, t, depth + 1, false)
    ensures KeepsInvariant(Nest(f, Running(i)), Settle(f, t, depth, outermost), depth, outermost)
  {
    SettleKeepsInvariant(f, t, depth, outermost);
  }

  lemma {:induction false} IterateKeepsInvariant(d: Decoder, depth: nat, outermost: bool, b: Byte)
    requires WellFormed(d, depth, outermost) && !d.Done?
    ensures KeepsInvariant(d, Iterate(d, depth, outermost, b), depth, outermost)
    decreases d
  {
    if !d.Nest? {
      FlatKeepsInvariant(d, depth, outermost, b);
    } else if d.inner.NotYet? {
      NotYetKeepsInvariant(d.frame, depth, outermost, b);
    } else {
      var i := d.inner.decoder;
      if !i.Done? {
        IterateKeepsInvariant(i, depth + 1, false, b);
      }
      RunningKeepsInvariant(d.frame, i, Iterate(i, depth + 1, false, b), depth, outermost);
    }
  }

  // ---------------------------------------------------------------- the whole loop

  /** A run of the loop: a failure, or the state reached and the octets it left. */
  datatype Run =
    | Broke(calls: seq<Value>)
    | Ran(state: Decoder, rest: Bytes, calls: seq<Value>)

  function After(calls: seq<Value>, r: Run): Run {
    r.(calls := calls + r.calls)
  }

  /** What is left over is a suffix of what came in, and only a decoder that is done leaves anything. */
  function Feed(d: Decoder, depth: nat, outermost: bool, bs: Bytes): (r: Run)
    requires WellFormed(d, depth, outermost)
    ensures r.Ran? ==> WellFormed(r.state, depth, outermost) && (r.state.Done? || r.rest == [])
    ensures !outermost ==> r.calls == []
    decreases |bs|, Slack(d)
  {
    if bs == [] || d.Done? then Ran(d, bs, [])
    else
      var t := Iterate(d, depth, outermost, bs[0]);
      IterateKeepsInvariant(d, depth, outermost, bs[0]);
      if t.Fail? then Broke(t.calls)
      else After(t.calls, Feed(t.state, depth, outermost, if t.used then bs[1..] else bs))
  }
}
