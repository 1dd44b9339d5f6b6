/** The size fields that the encoder writes before the data they measure. */
module SizePrefix {
  import opened Octets
  import opened AmqpValues
  import opened AmqpEncoding
  import opened WireFormat
  import opened WireEncoding

  predicate IsCompound(v: Value) {
    v.List? || v.Map? || v.Array?
  }

  function SizeWidth(small: bool): nat {
    if small then 1 else 4
  }

  /** The number in the size field of the data of a compound value. */
  function SizeField(v: Value, small: bool): nat
    requires |Data(v, small)| >= SizeWidth(small)
  {
    FromBigEndian(Data(v, small)[..SizeWidth(small)])
  }

  /** The size the encoder computes before it writes: items only, or with the items' constructor. */
  function Measured(v: Value): nat
    requires IsCompound(v)
  {
    match v
    case List(items) => |EncodeAll(items)|
    case Map(pairs) => |EncodePairs(pairs)|
    case Array(elems) => ArraySize(elems)
  }

  /** The octets written after the count field. */
  function Body(v: Value): Bytes
    requires IsCompound(v)
  {
    match v
    case List(items) => EncodeAll(items)
    case Map(pairs) => EncodePairs(pairs)
    case Array(elems) => ArrayBytes(elems)
  }

  lemma CompoundParts(size: nat, count: nat, small: bool, body: Bytes)
    ensures var w, bs := SizeWidth(small), Compound(size, count, small, body);
      |bs| == 2 * w + |body| && FromBigEndian(bs[..w]) == (size + w) % (if small then 256 else 0x1_0000_0000)
  {
    var w, bs := SizeWidth(small), Compound(size, count, small, body);
    WeightValues();
    var n := (size + w) % (if small then 256 else 0x1_0000_0000);
    FieldValue(n, w);
    assert bs[..w] == BigEndian(n, w);
  }

  lemma CompoundData(v: Value, small: bool)
    requires IsCompound(v)
    ensures exists count: nat :: Data(v, small) == Compound(Measured(v), count, small, Body(v))
  {
    var count := match v case List(items) => |items| case Map(pairs) => 2 * |pairs| case Array(elems) => |elems|;
    assert Data(v, small) == Compound(Measured(v), count, small, Body(v));
  }

  lemma ArrayBodyLength(elems: seq<Value>)
    ensures elems == [] ==> ItemBytes(elems) == [] && ArrayBytes(elems) == []
    ensures elems != [] ==> |ArrayBytes(elems)| == 1 + |ItemBytes(elems)|
  {
  }

  /** The measured size is the size of what follows, or one less for arrays whose items take an octet or none. */
  lemma MeasuredIsBody(v: Value)
    requires IsCompound(v) && |Body(v)| + 4 < U32
    ensures Measured(v) == |Body(v)| - if v.Array? && v.elems != [] && |ItemBytes(v.elems)| <= |v.elems| then 1 else 0
  {
    hide EncodeAll, EncodePairs, ArrayBytes, ItemBytes;
    if v.Array? {
      ArrayBodyLength(v.elems);
    }
  }

  lemma SmallMeasured(v: Value)
    requires IsCompound(v) && Small(v)
    ensures Measured(v) < 255
  {
    hide EncodeAll, EncodePairs, ArraySize;
  }

  /**
   For every compound value, in either form and so at every nesting level, the size field is the number
   of octets after it exactly when an array's items take more octets than there are items.
   */
  lemma SizeFieldIsExact(v: Value, small: bool)
    requires IsCompound(v) && Encodable(v) && (small ==> Small(v))
    requires |Body(v)| + 4 < U32
    ensures |Data(v, small)| >= SizeWidth(small)
    ensures SizeField(v, small) == |Data(v, small)| - SizeWidth(small) <==>
      (v.Array? ==> v.elems == [] || |ItemBytes(v.elems)| > |v.elems|)
  {
    hide Data, EncodeAll, EncodePairs, Compound, ItemBytes, Measured, Body, Small, Encodable;
    CompoundData(v, small);
    var count: nat :| Data(v, small) == Compound(Measured(v), count, small, Body(v));
    CompoundParts(Measured(v), count, small, Body(v));
    MeasuredIsBody(v);
    if small {
      SmallMeasured(v);
    }
  }

  /**
   In the octets of an encoding: the size field is the number of octets after it, and one less for a non-empty array
   whose items take no more octets than there are items.
   */
  lemma EncodedSize(v: Value)
    requires IsCompound(v) && Encodable(v) && v != List([]) && |Body(v)| + 4 < U32
    ensures var bs := Encode(v); var w := if bs[0] == 0xC0 || bs[0] == 0xC1 || bs[0] == 0xE0 then 1 else 4;
      && |bs| > w
      && Number(bs[1..1 + w]) == |bs| - 1 - w - (if v.Array? && v.elems != [] && |ItemBytes(v.elems)| <= |v.elems| then 1 else 0)
  {
    hide *;
    var small := Small(v);
    var w := SizeWidth(small);
    CompoundConstructor(v, small);
    EncodedForm(v);
    SizeFieldOf(v, small);
    MeasuredIsBody(v);
    WidthOf(small);
    if small {
      SmallMeasured(v);
    }
    SmallRemainder(Measured(v) + w);
    var bs := Encode(v);
    assert bs[0] == Constructor(v, small);
    assert bs[1..1 + w] == Data(v, small)[..w];
    FieldNumber(bs[1..1 + w]);
  }

  lemma WidthOf(small: bool)
    ensures SizeWidth(small) == if small then 1 else 4
  {
  }

  lemma FieldNumber(bs: Bytes)
    requires |bs| == 1 || |bs| == 4
    ensures Number(bs) == FromBigEndian(bs)
  {
    ByPosition(bs);
  }

  lemma SmallRemainder(x: nat)
    ensures x < 256 ==> x % 256 == x
    ensures x < 0x1_0000_0000 ==> x % 0x1_0000_0000 == x
    ensures 0x1_0000_0000 == U32
  {
  }

  /** The size field, and how many octets there are behind it. */
  lemma SizeFieldOf(v: Value, small: bool)
    requires IsCompound(v)
    ensures var w, bs := SizeWidth(small), Data(v, small);
      |bs| == 2 * w + |Body(v)| && FromBigEndian(bs[..w]) == (Measured(v) + w) % (if small then 256 else 0x1_0000_0000)
  {
    hide Data, Measured, Body, Compound;
    CompoundData(v, small);
    var count: nat :| Data(v, small) == Compound(Measured(v), count, small, Body(v));
    CompoundParts(Measured(v), count, small, Body(v));
  }

  lemma CompoundConstructor(v: Value, small: bool)
    requires IsCompound(v) && v != List([])
    ensures OneOctetForm(v) == 0 && !IsDescribed(v)
    ensures var c := Constructor(v, small); (c == 0xC0 || c == 0xC1 || c == 0xE0) <==> small
  {
  }

  /** An array of booleans: two octets follow the count, the size field counts one. */
  lemma ArraySizeFieldCanBeWrong()
    ensures Encode(Array([Bool(true)])) == [0xE0, 2, 1, 0x56, 1]
  {
    var v := Array([Bool(true)]);
    assert ItemBytes([Bool(true)]) == Data(Bool(true), false) + ItemBytes([]) == [1];
    assert ArrayBytes([Bool(true)]) == [0x56, 1];
    assert BigEndian(2, 1) == [2] && BigEndian(1, 1) == [1];
    assert Data(v, true) == [2, 1, 0x56, 1];
    assert AllEncodable([Bool(true)]) && NoneDescribed([Bool(true)]);
    assert Small(v) && Encodable(v);
  }
}
