/** The octets the encoder of src/amqpvalue.c writes (AMQP 1.0 Part 1, sections 1.2 and 1.6). */
module AmqpEncoding {
  import opened Octets
  import opened AmqpValues

  /** C strings stop at the first NUL octet. */
  function StrLen(s: Bytes): (n: nat)
    ensures n <= |s|
    ensures n < |s| ==> s[n] == 0
    ensures forall k :: 0 <= k < n ==> s[k] != 0
  {
    if s == [] || s[0] == 0 then 0 else 1 + StrLen(s[1..])
  }

  function CString(s: Bytes): Bytes {
    s[..StrLen(s)]
  }

  /** `amqpvalue_encode` succeeds: a char has no case, sizes are summed in 32 bits. */
  predicate Encodable(v: Value)
    decreases v, 1
  {
    match v
    case Char(_) => false
    case List(items) => AllEncodable(items) && |EncodeAll(items)| < U32
    case Map(pairs) => PairsEncodable(pairs) && |EncodePairs(pairs)| < U32
    case Array(elems) => AllEncodable(elems) && NoneDescribed(elems) && |ItemBytes(elems)| < U32
    case Described(d, w) => Encodable(d) && Encodable(w)
    case Composite(d, w) => Encodable(d) && Encodable(w)
    case _ => true
  }

  predicate AllEncodable(vs: seq<Value>)
    decreases vs, 0
  {
    vs == [] || (Encodable(vs[0]) && AllEncodable(vs[1..]))
  }

  predicate PairsEncodable(ps: seq<Pair>)
    decreases ps, 0
  {
    ps == [] || (PairEncodable(ps[0]) && PairsEncodable(ps[1..]))
  }

  predicate PairEncodable(p: Pair)
    decreases p, 0
  {
    Encodable(p.key) && Encodable(p.value)
  }

  /** The array encoder has no case for described or composite items. */
  predicate NoneDescribed(vs: seq<Value>) {
    vs == [] || (!IsDescribed(vs[0]) && NoneDescribed(vs[1..]))
  }

  /** The choice each `encode_*` function makes between its 8-bit and its full form. */
  predicate Small(v: Value)
    decreases v, 1
  {
    match v
    case UInt(x) => x <= 255
    case ULong(x) => x <= 255
    case Int(x) => -128 <= x <= 127
    case Long(x) => -128 <= x <= 127
    case Binary(b) => |b| <= 255
    case String(s) => StrLen(s) <= 255
    case Symbol(s) => StrLen(s) <= 255
    case List(items) => |items| <= 255 && |EncodeAll(items)| < 255
    case Map(pairs) => 2 * |pairs| % 0x1_0000_0000 <= 255 && |EncodePairs(pairs)| < 255
    case Array(elems) => |elems| <= 255 && ArraySize(elems) < 255
    case _ => false
  }

  /** The constructor octet of each form; values that have no full-form constructor get 0. */
  function Constructor(v: Value, small: bool): Byte {
    match v
    case Null => 0x40
    case Bool(_) => 0x56
    case UByte(_) => 0x50
    case UShort(_) => 0x60
    case UInt(_) => if small then 0x52 else 0x70
    case ULong(_) => if small then 0x53 else 0x80
    case SByte(_) => 0x51
    case Short(_) => 0x61
    case Int(_) => if small then 0x54 else 0x71
    case Long(_) => if small then 0x55 else 0x81
    case Float(_) => 0x72
    case Double(_) => 0x82
    case Timestamp(_) => 0x83
    case Uuid(_) => 0x98
    case Binary(_) => if small then 0xA0 else 0xB0
    case String(_) => if small then 0xA1 else 0xB1
    case Symbol(_) => if small then 0xA3 else 0xB3
    case List(_) => if small then 0xC0 else 0xD0
    case Map(_) => if small then 0xC1 else 0xD1
    case Array(_) => if small then 0xE0 else 0xF0
    case Char(_) => 0
    case Described(_, _) => 0
    case Composite(_, _) => 0
  }

  function LengthField(n: nat, small: bool): Bytes {
    if small then BigEndian(n % 256, 1) else BigEndian(n % 0x1_0000_0000, 4)
  }

  /** Size field, count field, items: the size counts the count field, and wraps with it. */
  function Compound(size: nat, count: nat, small: bool, body: Bytes): Bytes {
    LengthField(size + (if small then 1 else 4), small) + LengthField(count, small) + body
  }

  lemma HeaderThenBody(size: nat, count: nat, small: bool, body: Bytes)
    ensures Compound(size, count, small, body) == Compound(size, count, small, []) + body
    ensures |Compound(size, count, small, [])| == if small then 2 else 8
  {
  }

  /** What the `encode_*_value` functions write after the constructor. */
  function Data(v: Value, small: bool): Bytes
    decreases v, 1
  {
    match v
    case Null => []
    case Bool(b) => [if b then 1 else 0]
    case UByte(x) => BigEndian(x, 1)
    case UShort(x) => BigEndian(x, 2)
    case UInt(x) => if small then BigEndian(x % 256, 1) else BigEndian(x, 4)
    case ULong(x) => if small then BigEndian(x % 256, 1) else BigEndian(x, 8)
    case SByte(x) => BigEndian(Unsigned(x, 128), 1)
    case Short(x) => BigEndian(Unsigned(x, 0x8000), 2)
    case Int(x) => if small then BigEndian(Unsigned(x, 0x8000_0000) % 256, 1) else BigEndian(Unsigned(x, 0x8000_0000), 4)
    case Long(x) => if small then BigEndian(Unsigned(x, 0x8000_0000_0000_0000) % 256, 1) else BigEndian(Unsigned(x, 0x8000_0000_0000_0000), 8)
    case Float(x) => BigEndian(x, 4)
    case Double(x) => BigEndian(x, 8)
    case Timestamp(x) => BigEndian(Unsigned(x, 0x8000_0000_0000_0000), 8)
    case Uuid(b) => b
    case Binary(b) => LengthField(|b|, small) + b
    case String(s) => LengthField(StrLen(s), small) + CString(s)
    case Symbol(s) => LengthField(StrLen(s), small) + CString(s)
    case List(items) => Compound(|EncodeAll(items)|, |items|, small, EncodeAll(items))
    case Map(pairs) => Compound(|EncodePairs(pairs)|, 2 * |pairs|, small, EncodePairs(pairs))
    case Array(elems) => Compound(ArraySize(elems), |elems|, small, ArrayBytes(elems))
    case Char(_) => []
    case Described(_, _) => []
    case Composite(_, _) => []
  }

  /** Values that are written as one constructor octet and nothing else; 0 for all others. */
  function OneOctetForm(v: Value): Byte {
    match v
    case Null => 0x40
    case Bool(b) => if b then 0x41 else 0x42
    case UInt(x) => if x == 0 then 0x43 else 0
    case ULong(x) => if x == 0 then 0x44 else 0
    case List(items) => if items == [] then 0x45 else 0
    case _ => 0
  }

  predicate IsDescribed(v: Value) {
    v.Described? || v.Composite?
  }

  /** The octets `amqpvalue_encode` hands to its output; when it fails, those it handed over before. */
  function Encode(v: Value): Bytes
    decreases v, 2
  {
    if OneOctetForm(v) != 0 then [OneOctetForm(v)]
    else if IsDescribed(v) then
      [0x00] + Encode(v.descriptor) + (if Encodable(v.descriptor) then Encode(v.described) else [])
    else if Encodable(v) then [Constructor(v, Small(v))] + Data(v, Small(v))
    else []
  }

  function EncodeAll(vs: seq<Value>): Bytes
    decreases vs, 0
  {
    if vs == [] then [] else Encode(vs[0]) + EncodeAll(vs[1..])
  }

  function EncodePairs(ps: seq<Pair>): Bytes
    decreases ps, 0
  {
    if ps == [] then [] else EncodePair(ps[0]) + EncodePairs(ps[1..])
  }

  function EncodePair(p: Pair): Bytes
    decreases p, 0
  {
    Encode(p.key) + Encode(p.value)
  }

  /** Array items without the constructor they share. */
  function ItemBytes(vs: seq<Value>): Bytes
    decreases vs, 0
  {
    if vs == [] then [] else Data(vs[0], false) + ItemBytes(vs[1..])
  }

  /** What `encode_array_value` writes after the count: the first item brings the constructor. */
  function ArrayBytes(vs: seq<Value>): Bytes
    decreases vs, 1
  {
    if vs == [] then [] else [Constructor(vs[0], false)] + ItemBytes(vs)
  }

  /** The constructor is counted only when the items take more octets than there are items. */
  function ArraySize(vs: seq<Value>): nat
    decreases vs, 1
  {
    var n := |ItemBytes(vs)|;
    if n > |vs| then (n + 1) % 0x1_0000_0000 else n
  }
}
