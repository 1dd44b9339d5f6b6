/**
 Which octets stand for which value (AMQP 1.0 Part 1, sections 1.2 and 1.6), told without the encoder or the decoder:
 every constructor octet of both is fixed here, in all the forms a value has.
 */
module WireFormat {
  import opened Octets
  import opened Options
  import opened AmqpValues

  /** The number a field of 1, 2, 4 or 8 octets stands for: the most significant octet comes first. */
  function Number(bs: Bytes): nat {
    if |bs| == 1 then bs[0]
    else if |bs| == 2 then (bs[0] as int) * 0x100 + bs[1]
    else if |bs| == 4 then (bs[0] as int) * 0x100_0000 + (bs[1] as int) * 0x1_0000 + (bs[2] as int) * 0x100 + bs[3]
    else if |bs| == 8 then
      (bs[0] as int) * 0x100_0000_0000_0000 + (bs[1] as int) * 0x1_0000_0000_0000 + (bs[2] as int) * 0x100_0000_0000 +
      (bs[3] as int) * 0x1_0000_0000 + (bs[4] as int) * 0x100_0000 + (bs[5] as int) * 0x1_0000 + (bs[6] as int) * 0x100 + bs[7]
    else 0
  }

  predicate IsField(bs: Bytes) {
    |bs| == 1 || |bs| == 2 || |bs| == 4 || |bs| == 8
  }

  /** Constructor `c` and a number of `width` octets. */
  predicate Form(bs: Bytes, c: Byte, width: nat, x: nat) {
    |bs| == 1 + width && bs[0] == c && Number(bs[1..]) == x
  }

  /** Two's complement: numbers from `half` on are negative. */
  predicate SignedForm(bs: Bytes, c: Byte, width: nat, half: nat, x: int) {
    |bs| == 1 + width && bs[0] == c && x == Number(bs[1..]) - if Number(bs[1..]) < half then 0 else 2 * half
  }

  /** Constructor `c1` and a length of 1 octet, or `c4` and a length of 4, and then so many octets. */
  predicate Blob(bs: Bytes, c1: Byte, c4: Byte, data: Bytes) {
    || (|bs| >= 2 && bs[0] == c1 && Number(bs[1..2]) == |data| && bs[2..] == data)
    || (|bs| >= 5 && bs[0] == c4 && Number(bs[1..5]) == |data| && bs[5..] == data)
  }

  /** What follows a size, which nobody looks at, and a count, of 1 octet each after `c1` and of 4 each after `c4`. */
  function BodyOf(bs: Bytes, c1: Byte, c4: Byte, count: nat): Option<Bytes> {
    if |bs| >= 3 && bs[0] == c1 && Number(bs[2..3]) == count then Some(bs[3..])
    else if |bs| >= 9 && bs[0] == c4 && Number(bs[5..9]) == count then Some(bs[9..])
    else None
  }

  /** `bs` is one of the ways to write `v`. There is none for a char here, and a composite value is read as a described one. */
  ghost predicate Denotes(bs: Bytes, v: Value)
    decreases v, 2
  {
    match v
    case Null => bs == [0x40]
    case Bool(b) => bs == [if b then 0x41 else 0x42] || bs == [0x56, if b then 1 else 0]
    case UByte(x) => Form(bs, 0x50, 1, x)
    case UShort(x) => Form(bs, 0x60, 2, x)
    case UInt(x) => (x == 0 && bs == [0x43]) || Form(bs, 0x52, 1, x) || Form(bs, 0x70, 4, x)
    case ULong(x) => (x == 0 && bs == [0x44]) || Form(bs, 0x53, 1, x) || Form(bs, 0x80, 8, x)
    case SByte(x) => SignedForm(bs, 0x51, 1, 0x80, x)
    case Short(x) => SignedForm(bs, 0x61, 2, 0x8000, x)
    case Int(x) => SignedForm(bs, 0x54, 1, 0x80, x) || SignedForm(bs, 0x71, 4, 0x8000_0000, x)
    case Long(x) => SignedForm(bs, 0x55, 1, 0x80, x) || SignedForm(bs, 0x81, 8, 0x8000_0000_0000_0000, x)
    case Float(x) => Form(bs, 0x72, 4, x)
    case Double(x) => Form(bs, 0x82, 8, x)
    case Timestamp(x) => SignedForm(bs, 0x83, 8, 0x8000_0000_0000_0000, x)
    case Uuid(id) => bs == [0x98] + id
    case Binary(data) => Blob(bs, 0xA0, 0xB0, data)
    case String(text) => Blob(bs, 0xA1, 0xB1, text)
    case Symbol(name) => Blob(bs, 0xA3, 0xB3, name)
    case List(items) =>
      (items == [] && bs == [0x45]) ||
      (var body := BodyOf(bs, 0xC0, 0xD0, |items|); body.Some? && DenotesAll(body.value, items))
    case Map(pairs) =>
      var body := BodyOf(bs, 0xC1, 0xD1, 2 * |pairs|); body.Some? && DenotesPairs(body.value, pairs)
    case Array(elems) =>
      var body := BodyOf(bs, 0xE0, 0xF0, |elems|); body.Some? && DenotesArray(body.value, elems)
    case Described(d, w) => exists n :: 1 <= n <= |bs| && bs[0] == 0x00 && Denotes(bs[1..n], d) && Denotes(bs[n..], w)
    case Char(_) => false
    case Composite(_, _) => false
  }

  ghost predicate DenotesAll(bs: Bytes, vs: seq<Value>)
    decreases vs, 0
  {
    if vs == [] then bs == []
    else exists n :: 0 <= n <= |bs| && Denotes(bs[..n], vs[0]) && DenotesAll(bs[n..], vs[1..])
  }

  ghost predicate DenotesPairs(bs: Bytes, ps: seq<Pair>)
    decreases ps, 0
  {
    if ps == [] then bs == []
    else exists n :: 0 <= n <= |bs| && DenotesPair(bs[..n], ps[0]) && DenotesPairs(bs[n..], ps[1..])
  }

  ghost predicate DenotesPair(bs: Bytes, p: Pair)
    decreases p, 0
  {
    exists n :: 0 <= n <= |bs| && Denotes(bs[..n], p.key) && Denotes(bs[n..], p.value)
  }

  /** The constructor all items share and their data. Items without data only come alone: see `NullArrays`. */
  ghost predicate DenotesArray(bs: Bytes, elems: seq<Value>)
    decreases elems, 1
  {
    if elems == [] then bs == []
    else bs != [] && (|elems| >= 2 ==> !(0x40 <= bs[0] <= 0x45)) && DenotesItems(bs[0], bs[1..], elems)
  }

  /** Each item is what constructor `c` and its data denote. Described items each bring a descriptor. */
  ghost predicate DenotesItems(c: Byte, bs: Bytes, vs: seq<Value>)
    decreases vs, 0
  {
    if vs == [] then bs == []
    else exists n :: 0 <= n <= |bs| && Denotes([c] + bs[..n], vs[0]) && DenotesItems(c, bs[n..], vs[1..])
  }

  // ---------------------------------------------------------------- numbers by position

  lemma LastDigit(x: nat, b: Byte)
    ensures (256 * x + b) / 256 == x && (256 * x + b) % 256 == b
  {
  }

  lemma OneMore(bs: Bytes, x: nat, b: Byte)
    requires FromBigEndian(bs) == x && BigEndian(x, |bs|) == bs
    ensures FromBigEndian(bs + [b]) == 256 * x + b && BigEndian(256 * x + b, |bs| + 1) == bs + [b]
  {
    FromBigEndianLast(bs, b);
    LastDigit(x, b);
  }

  lemma TwoMore(bs: Bytes, x: nat, a: Byte, b: Byte)
    requires FromBigEndian(bs) == x && BigEndian(x, |bs|) == bs
    ensures var y := x * 0x1_0000 + (a as int) * 0x100 + b; FromBigEndian(bs + [a, b]) == y && BigEndian(y, |bs| + 2) == bs + [a, b]
  {
    hide FromBigEndian, BigEndian;
    OneMore(bs, x, a);
    OneMore(bs + [a], 256 * x + a, b);
    assert bs + [a, b] == (bs + [a]) + [b];
  }

  /** Two more octets of a field. */
  lemma Longer(bs: Bytes, n: nat)
    requires 2 <= n <= |bs| && n % 2 == 0
    requires n == 2 || (FromBigEndian(bs[..n - 2]) == Number(bs[..n - 2]) && BigEndian(Number(bs[..n - 2]), n - 2) == bs[..n - 2])
    ensures var x := (if n == 2 then 0 else Number(bs[..n - 2])) * 0x1_0000 + (bs[n - 2] as int) * 0x100 + bs[n - 1];
      FromBigEndian(bs[..n]) == x && BigEndian(x, n) == bs[..n]
  {
    assert bs[..n] == bs[..n - 2] + [bs[n - 2], bs[n - 1]];
    assert BigEndian(0, 0) == bs[..0] && FromBigEndian(bs[..0]) == 0;
    TwoMore(bs[..n - 2], if n == 2 then 0 else Number(bs[..n - 2]), bs[n - 2], bs[n - 1]);
  }

  lemma FourByPosition(bs: Bytes)
    requires |bs| >= 4
    ensures FromBigEndian(bs[..4]) == Number(bs[..4]) && BigEndian(Number(bs[..4]), 4) == bs[..4]
  {
    hide FromBigEndian, BigEndian;
    Longer(bs, 2);
    Longer(bs, 4);
  }

  lemma EightByPosition(bs: Bytes)
    requires |bs| == 8
    ensures FromBigEndian(bs) == Number(bs) && BigEndian(Number(bs), 8) == bs
  {
    hide FromBigEndian, BigEndian, Number;
    FourByPosition(bs);
    var x := Number(bs[..4]);
    assert bs[..6] == bs[..4] + [bs[4], bs[5]] && bs == bs[..6] + [bs[6], bs[7]];
    var y := x * 0x1_0000 + (bs[4] as int) * 0x100 + bs[5];
    TwoMore(bs[..4], x, bs[4], bs[5]);
    TwoMore(bs[..6], y, bs[6], bs[7]);
    EightOctets(bs, x, y);
  }

  lemma EightOctets(bs: Bytes, x: nat, y: nat)
    requires |bs| == 8 && x == Number(bs[..4]) && y == x * 0x1_0000 + (bs[4] as int) * 0x100 + bs[5]
    ensures Number(bs) == y * 0x1_0000 + (bs[6] as int) * 0x100 + bs[7]
  {
  }

  /** Reading a field gives the number by position, and writing that number gives the field. */
  lemma ByPosition(bs: Bytes)
    requires IsField(bs)
    ensures FromBigEndian(bs) == Number(bs) && BigEndian(Number(bs), |bs|) == bs
  {
    hide FromBigEndian, BigEndian;
    assert bs[..|bs|] == bs;
    if |bs| == 1 {
      OneOctet(bs);
    } else if |bs| == 2 {
      Longer(bs, 2);
    } else if |bs| == 4 {
      FourByPosition(bs);
    } else {
      EightByPosition(bs);
    }
  }

  lemma OneOctet(bs: Bytes)
    requires |bs| == 1
    ensures FromBigEndian(bs) == bs[0] && BigEndian(bs[0], 1) == bs
  {
    assert BigEndian(bs[0], 1) == BigEndian(bs[0] / 256, 0) + [bs[0]];
  }

  /** What is written in a field it fits is the number by position. */
  lemma WrittenByPosition(x: nat, n: nat)
    requires n == 1 || n == 2 || n == 4 || n == 8
    requires x < Weight(n)
    ensures Number(BigEndian(x, n)) == x
  {
    hide BigEndian;
    FieldValue(x, n);
    ByPosition(BigEndian(x, n));
  }
}
