/** The encoder writes one of the forms section 1.6 of AMQP 1.0 Part 1 gives each value, and which of them. */
module WireEncoding {
  import opened Octets
  import opened AmqpValues
  import opened AmqpEncoding
  import opened RoundTripSpec
  import opened WireFormat

  predicate HasConstructor(v: Value) {
    !v.Char? && !IsDescribed(v)
  }

  lemma NonEmptyEncoding(v: Value)
    requires Encodable(v)
    ensures Encode(v) != []
  {
  }

  lemma EncodedForm(v: Value)
    requires Encodable(v) && OneOctetForm(v) == 0 && !IsDescribed(v)
    ensures HasConstructor(v) && !v.Null?
    ensures Encode(v) == [Constructor(v, Small(v))] + Data(v, Small(v))
  {
  }

  // ---------------------------------------------------------------- counts

  lemma {:induction false} ItemsCounted(items: seq<Value>)
    requires AllEncodable(items)
    ensures |items| <= |EncodeAll(items)|
  {
    hide Encode;
    if items != [] {
      NonEmptyEncoding(items[0]);
      ItemsCounted(items[1..]);
    }
  }

  lemma {:induction false} PairsCounted(pairs: seq<Pair>)
    requires PairsEncodable(pairs)
    ensures 2 * |pairs| <= |EncodePairs(pairs)|
  {
    hide Encode;
    if pairs != [] {
      NonEmptyEncoding(pairs[0].key);
      NonEmptyEncoding(pairs[0].value);
      PairsCounted(pairs[1..]);
    }
  }

  lemma {:induction false} ElementsCounted(elems: seq<Value>)
    requires forall k :: 0 <= k < |elems| ==> HasConstructor(elems[k]) && !elems[k].Null?
    ensures |elems| <= |ItemBytes(elems)|
  {
    if elems != [] {
      ElementsCounted(elems[1..]);
    }
  }

  lemma {:induction false} ElementsHaveConstructors(elems: seq<Value>)
    requires AllEncodable(elems) && NoneDescribed(elems)
    ensures forall k :: 0 <= k < |elems| ==> HasConstructor(elems[k])
  {
    if elems != [] {
      ElementsHaveConstructors(elems[1..]);
      assert forall k :: 1 <= k < |elems| ==> elems[k] == elems[1..][k - 1];
    }
  }

  /** What the encoding of a list says about its items. */
  lemma ListForm(items: seq<Value>, small: bool)
    requires Encodable(List(items)) && Regular(List(items)) && (small ==> Small(List(items)))
    ensures AllEncodable(items) && AllRegular(items) && |items| < (if small then 256 else U32)
    ensures Data(List(items), small) == Compound(|EncodeAll(items)|, |items|, small, EncodeAll(items))
    ensures Normal(List(items)) == List(NormalAll(items))
  {
    ItemsCounted(items);
  }

  lemma MapForm(pairs: seq<Pair>, small: bool)
    requires Encodable(Map(pairs)) && Regular(Map(pairs)) && (small ==> Small(Map(pairs)))
    ensures PairsEncodable(pairs) && PairsRegular(pairs) && 2 * |pairs| < (if small then 256 else U32)
    ensures Data(Map(pairs), small) == Compound(|EncodePairs(pairs)|, 2 * |pairs|, small, EncodePairs(pairs))
    ensures Normal(Map(pairs)) == Map(NormalPairs(pairs))
  {
    PairsCounted(pairs);
  }

  lemma ArrayForm(elems: seq<Value>, small: bool)
    requires Encodable(Array(elems)) && Regular(Array(elems)) && (small ==> Small(Array(elems)))
    ensures AllEncodable(elems) && AllRegular(elems) && |elems| < (if small then 256 else U32)
    ensures Data(Array(elems), small) == Compound(ArraySize(elems), |elems|, small, ArrayBytes(elems))
    ensures Normal(Array(elems)) == Array(NormalAll(elems))
    ensures forall k :: 0 <= k < |elems| ==> HasConstructor(elems[k]) && Constructor(elems[k], false) == Constructor(elems[0], false)
    ensures |elems| >= 2 ==> !elems[0].Null?
  {
    ElementsHaveConstructors(elems);
    if |elems| >= 2 {
      forall k | 0 <= k < |elems| ensures !elems[k].Null? {
        assert Constructor(elems[k], false) == Constructor(elems[0], false);
      }
      ElementsCounted(elems);
    }
  }

  // ---------------------------------------------------------------- values without inner values

  predicate IsUnsigned(v: Value) {
    v.UByte? || v.UShort? || v.UInt? || v.ULong? || v.Float? || v.Double?
  }

  /** A number that fits its field, behind its constructor. */
  lemma NumberForm(c: Byte, x: nat, n: nat)
    requires n == 1 || n == 2 || n == 4 || n == 8
    requires x < Weight(n)
    ensures Form([c] + BigEndian(x, n), c, n, x)
  {
    hide BigEndian, Number, Weight;
    WrittenByPosition(x, n);
    assert ([c] + BigEndian(x, n))[1..] == BigEndian(x, n);
  }

  lemma UnsignedDenoted(v: Value, small: bool)
    requires IsUnsigned(v) && (small ==> v.UByte? || v.UShort? || v.Float? || v.Double? || Small(v))
    ensures Denotes([Constructor(v, small)] + Data(v, small), v)
  {
    hide BigEndian, Number, Form, Weight;
    WeightValues();
    match v
    case UByte(x) => NumberForm(0x50, x, 1);
    case UShort(x) => NumberForm(0x60, x, 2);
    case UInt(x) => NumberForm(if small then 0x52 else 0x70, x, if small then 1 else 4);
    case ULong(x) => NumberForm(if small then 0x53 else 0x80, x, if small then 1 else 8);
    case Float(x) => NumberForm(0x72, x, 4);
    case Double(x) => NumberForm(0x82, x, 8);
  }

  lemma NegativeForm(c: Byte, x: int, half: nat, n: nat)
    requires n == 1 || n == 2 || n == 4 || n == 8
    requires 2 * half == Weight(n) && -(half as int) <= x < half
    ensures SignedForm([c] + BigEndian(Unsigned(x, half), n), c, n, half, x)
  {
    hide BigEndian, Number, Weight;
    NumberForm(c, Unsigned(x, half), n);
  }

  lemma LowOctet(x: int)
    requires -0x80 <= x < 0x80
    ensures Unsigned(x, 0x8000_0000) % 256 == Unsigned(x, 0x80) && Unsigned(x, 0x8000_0000_0000_0000) % 256 == Unsigned(x, 0x80)
  {
  }

  lemma SignedDenoted(v: Value, small: bool)
    requires IsSigned(v) && (small ==> (v.Int? || v.Long? ==> Small(v)))
    ensures Denotes([Constructor(v, small)] + Data(v, small), v)
  {
    hide BigEndian, Number, SignedForm, Weight, Unsigned;
    WeightValues();
    match v
    case SByte(x) => NegativeForm(0x51, x, 0x80, 1);
    case Short(x) => NegativeForm(0x61, x, 0x8000, 2);
    case Int(x) =>
      if small {
        LowOctet(x);
        NegativeForm(0x54, x, 0x80, 1);
      } else {
        NegativeForm(0x71, x, 0x8000_0000, 4);
      }
    case Long(x) =>
      if small {
        LowOctet(x);
        NegativeForm(0x55, x, 0x80, 1);
      } else {
        NegativeForm(0x81, x, 0x8000_0000_0000_0000, 8);
      }
    case Timestamp(x) => NegativeForm(0x83, x, 0x8000_0000_0000_0000, 8);
  }

  lemma LengthFieldForm(n: nat, small: bool)
    requires n < (if small then 256 else U32)
    ensures |LengthField(n, small)| == (if small then 1 else 4) && Number(LengthField(n, small)) == n
  {
    hide BigEndian, Number, Weight;
    WeightValues();
    WrittenByPosition(n, if small then 1 else 4);
  }

  lemma MeasuredForm(c1: Byte, c4: Byte, small: bool, data: Bytes)
    requires |data| < (if small then 256 else U32)
    ensures Blob([if small then c1 else c4] + (LengthField(|data|, small) + data), c1, c4, data)
  {
    hide Number, LengthField;
    var field := LengthField(|data|, small);
    var bs := [if small then c1 else c4] + (field + data);
    LengthFieldForm(|data|, small);
    assert bs[1..1 + |field|] == field && bs[1 + |field|..] == data;
  }

  lemma TextDenoted(v: Value, small: bool)
    requires (v.Binary? || v.String? || v.Symbol?) && Regular(v) && (small ==> Small(v))
    ensures Denotes([Constructor(v, small)] + Data(v, small), Normal(v))
  {
    hide Number, LengthField, Blob;
    match v
    case Binary(b) => MeasuredForm(0xA0, 0xB0, small, b);
    case String(s) => MeasuredForm(0xA1, 0xB1, small, CString(s));
    case Symbol(s) => MeasuredForm(0xA3, 0xB3, small, CString(s));
  }

  // ---------------------------------------------------------------- values with inner values

  lemma CountedForm(c1: Byte, c4: Byte, size: nat, count: nat, small: bool, body: Bytes)
    requires count < (if small then 256 else U32) && c1 != c4
    ensures var bs := [if small then c1 else c4] + Compound(size, count, small, body);
      BodyOf(bs, c1, c4, count).Some? && BodyOf(bs, c1, c4, count).value == body
  {
    hide Number, LengthField;
    var w := if small then 1 else 4;
    var sizeField, countField := LengthField(size + w, small), LengthField(count, small);
    var bs := [if small then c1 else c4] + Compound(size, count, small, body);
    LengthFieldForm(count, small);
    FieldWidth(size + w, small);
    assert bs[1 + w..1 + w + w] == countField && bs[1 + w + w..] == body;
  }

  lemma FieldWidth(n: nat, small: bool)
    ensures |LengthField(n, small)| == if small then 1 else 4
  {
  }

  lemma {:induction false} AllDenoted(vs: seq<Value>)
    requires AllEncodable(vs) && AllRegular(vs)
    ensures DenotesAll(EncodeAll(vs), NormalAll(vs))
    decreases vs, 0
  {
    hide Encode, Denotes, Normal, Encodable, Regular;
    if vs != [] {
      var bs, n := EncodeAll(vs), |Encode(vs[0])|;
      EncodedDenotes(vs[0]);
      AllDenoted(vs[1..]);
      assert bs[..n] == Encode(vs[0]) && bs[n..] == EncodeAll(vs[1..]);
      assert NormalAll(vs)[1..] == NormalAll(vs[1..]);
    }
  }

  lemma PairDenoted(p: Pair)
    requires PairEncodable(p) && PairRegular(p)
    ensures DenotesPair(EncodePair(p), NormalPair(p))
    decreases p, 0
  {
    hide Encode, Denotes, Normal, Encodable, Regular;
    var bs, n := EncodePair(p), |Encode(p.key)|;
    EncodedDenotes(p.key);
    EncodedDenotes(p.value);
    assert bs[..n] == Encode(p.key) && bs[n..] == Encode(p.value);
  }

  lemma {:induction false} PairsDenoted(ps: seq<Pair>)
    requires PairsEncodable(ps) && PairsRegular(ps)
    ensures DenotesPairs(EncodePairs(ps), NormalPairs(ps))
    decreases ps, 0
  {
    hide EncodePair, DenotesPair, NormalPair, PairEncodable, PairRegular;
    if ps != [] {
      var bs, n := EncodePairs(ps), |EncodePair(ps[0])|;
      PairDenoted(ps[0]);
      PairsDenoted(ps[1..]);
      assert bs[..n] == EncodePair(ps[0]) && bs[n..] == EncodePairs(ps[1..]);
      assert NormalPairs(ps)[1..] == NormalPairs(ps[1..]);
    }
  }

  lemma {:induction false} ItemsDenoted(c: Byte, vs: seq<Value>)
    requires AllEncodable(vs) && AllRegular(vs)
    requires forall k :: 0 <= k < |vs| ==> HasConstructor(vs[k]) && Constructor(vs[k], false) == c
    ensures DenotesItems(c, ItemBytes(vs), NormalAll(vs))
    decreases vs, 0
  {
    hide Data, Denotes, Normal, Encodable, Regular, Constructor;
    if vs != [] {
      var bs, n := ItemBytes(vs), |Data(vs[0], false)|;
      DataDenotes(vs[0], false);
      ItemsDenoted(c, vs[1..]);
      assert bs[..n] == Data(vs[0], false) && bs[n..] == ItemBytes(vs[1..]);
      assert NormalAll(vs)[1..] == NormalAll(vs[1..]);
    }
  }

  lemma ArrayDenoted(elems: seq<Value>)
    requires AllEncodable(elems) && AllRegular(elems) && (|elems| >= 2 ==> !elems[0].Null?)
    requires forall k :: 0 <= k < |elems| ==> HasConstructor(elems[k]) && Constructor(elems[k], false) == Constructor(elems[0], false)
    ensures DenotesArray(ArrayBytes(elems), NormalAll(elems))
    decreases elems, 1
  {
    hide Data, Denotes, Normal, Encodable, Regular, Constructor, ItemBytes, DenotesItems;
    if elems != [] {
      var c := Constructor(elems[0], false);
      ItemsDenoted(c, elems);
      assert ArrayBytes(elems)[1..] == ItemBytes(elems);
      if |elems| >= 2 {
        NotZeroWidth(elems[0]);
      }
    }
  }

  lemma NotZeroWidth(v: Value)
    requires HasConstructor(v) && !v.Null?
    ensures !(0x40 <= Constructor(v, false) <= 0x45)
  {
  }

  lemma CompoundDenoted(v: Value, small: bool)
    requires (v.List? || v.Map? || v.Array?) && Encodable(v) && Regular(v) && (small ==> Small(v))
    ensures Denotes([Constructor(v, small)] + Data(v, small), Normal(v))
    decreases v, 1
  {
    hide Data, Encodable, Regular, Small, Normal, NormalAll, NormalPairs, EncodeAll, EncodePairs, ArrayBytes, ArraySize, Compound, BodyOf, DenotesAll, DenotesPairs, DenotesArray, AllEncodable, AllRegular, PairsEncodable, PairsRegular;
    if v.List? {
      ListForm(v.items, small);
      CountedForm(0xC0, 0xD0, |EncodeAll(v.items)|, |v.items|, small, EncodeAll(v.items));
      AllDenoted(v.items);
    } else if v.Map? {
      MapForm(v.pairs, small);
      CountedForm(0xC1, 0xD1, |EncodePairs(v.pairs)|, 2 * |v.pairs|, small, EncodePairs(v.pairs));
      PairsDenoted(v.pairs);
    } else {
      ArrayForm(v.elems, small);
      CountedForm(0xE0, 0xF0, ArraySize(v.elems), |v.elems|, small, ArrayBytes(v.elems));
      ArrayDenoted(v.elems);
    }
  }

  /** Constructor and data of a value, in either form; array items have no other form. */
  lemma {:induction false} DataDenotes(v: Value, small: bool)
    requires Encodable(v) && Regular(v) && HasConstructor(v) && (small ==> Small(v))
    ensures Denotes([Constructor(v, small)] + Data(v, small), Normal(v))
    decreases v, 2
  {
    if v.List? || v.Map? || v.Array? {
      CompoundDenoted(v, small);
    } else {
      SimpleDenoted(v, small);
    }
  }

  lemma SimpleDenoted(v: Value, small: bool)
    requires Regular(v) && HasConstructor(v) && (small ==> Small(v)) && !v.List? && !v.Map? && !v.Array?
    ensures Denotes([Constructor(v, small)] + Data(v, small), Normal(v))
  {
    hide BigEndian, LengthField, Form, SignedForm, Blob;
    if IsSigned(v) {
      SignedDenoted(v, small);
    } else if IsUnsigned(v) {
      UnsignedDenoted(v, small);
    } else if v.Binary? || v.String? || v.Symbol? {
      TextDenoted(v, small);
    }
  }

  lemma DescribedDenoted(v: Value)
    requires IsDescribed(v) && Encodable(v) && Regular(v)
    ensures Denotes(Encode(v), Normal(v))
    decreases v, 3
  {
    var d, w := v.descriptor, v.described;
    var n := 1 + |Encode(d)|;
    EncodedDenotes(d);
    EncodedDenotes(w);
    assert Encode(v) == [0x00] + Encode(d) + Encode(w);
    assert Encode(v)[1..n] == Encode(d) && Encode(v)[n..] == Encode(w);
  }

  /** What is written for a value that can be encoded, and is regular, is one of its forms. */
  lemma {:induction false} EncodedDenotes(v: Value)
    requires Encodable(v) && Regular(v)
    ensures Denotes(Encode(v), Normal(v))
    decreases v, 4
  {
    if OneOctetForm(v) != 0 {
      assert Normal(v) == v;
    } else if IsDescribed(v) {
      DescribedDenoted(v);
    } else {
      EncodedForm(v);
      DataDenotes(v, Small(v));
    }
  }

  // ---------------------------------------------------------------- what can be written

  /** All values but chars, arrays of described values, and compound values of 4 GB, and what contains them. */
  lemma EncodableExactlyWhen(v: Value)
    ensures Encodable(v) <==>
      match v
      case Char(_) => false
      case List(items) => (forall k :: 0 <= k < |items| ==> Encodable(items[k])) && |EncodeAll(items)| < 0x1_0000_0000
      case Map(pairs) =>
        (forall k :: 0 <= k < |pairs| ==> Encodable(pairs[k].key) && Encodable(pairs[k].value)) && |EncodePairs(pairs)| < 0x1_0000_0000
      case Array(elems) =>
        (forall k :: 0 <= k < |elems| ==> Encodable(elems[k]) && !elems[k].Described? && !elems[k].Composite?) &&
        |ItemBytes(elems)| < 0x1_0000_0000
      case Described(d, w) => Encodable(d) && Encodable(w)
      case Composite(d, w) => Encodable(d) && Encodable(w)
      case _ => true
  {
    if v.List? {
      EachEncodable(v.items);
    } else if v.Map? {
      EachPairEncodable(v.pairs);
    } else if v.Array? {
      EachEncodable(v.elems);
    }
  }

  lemma {:induction false} EachEncodable(vs: seq<Value>)
    ensures AllEncodable(vs) <==> forall k :: 0 <= k < |vs| ==> Encodable(vs[k])
    ensures NoneDescribed(vs) <==> forall k :: 0 <= k < |vs| ==> !IsDescribed(vs[k])
  {
    hide Encodable;
    if vs != [] {
      EachEncodable(vs[1..]);
      assert forall k :: 1 <= k < |vs| ==> vs[k] == vs[1..][k - 1];
    }
  }

  lemma {:induction false} EachPairEncodable(ps: seq<Pair>)
    ensures PairsEncodable(ps) <==> forall k :: 0 <= k < |ps| ==> Encodable(ps[k].key) && Encodable(ps[k].value)
  {
    hide Encodable;
    if ps != [] {
      EachPairEncodable(ps[1..]);
      assert forall k :: 1 <= k < |ps| ==> ps[k] == ps[1..][k - 1];
    }
  }

  // ---------------------------------------------------------------- which form

  /** The shortest form there is; compound values have room for 254 octets behind an 8-bit size. */
  lemma FormChosen(v: Value)
    requires Encodable(v)
    ensures Encode(v) != []
    ensures Encode(v)[0] ==
      match v
      case Null => 0x40
      case Bool(b) => if b then 0x41 else 0x42
      case UByte(_) => 0x50
      case UShort(_) => 0x60
      case UInt(x) => if x == 0 then 0x43 else if x < 256 then 0x52 else 0x70
      case ULong(x) => if x == 0 then 0x44 else if x < 256 then 0x53 else 0x80
      case SByte(_) => 0x51
      case Short(_) => 0x61
      case Int(x) => if -128 <= x < 128 then 0x54 else 0x71
      case Long(x) => if -128 <= x < 128 then 0x55 else 0x81
      case Float(_) => 0x72
      case Double(_) => 0x82
      case Timestamp(_) => 0x83
      case Uuid(_) => 0x98
      case Binary(b) => if |b| < 256 then 0xA0 else 0xB0
      case String(s) => if |CString(s)| < 256 then 0xA1 else 0xB1
      case Symbol(s) => if |CString(s)| < 256 then 0xA3 else 0xB3
      case List(items) => if items == [] then 0x45 else if |items| < 256 && |EncodeAll(items)| < 255 then 0xC0 else 0xD0
      case Map(pairs) => if 2 * |pairs| < 256 && |EncodePairs(pairs)| < 255 then 0xC1 else 0xD1
      case Array(elems) => if |elems| < 256 && ArraySize(elems) < 255 then 0xE0 else 0xF0
      case _ => 0x00
  {
    hide Encodable;
    FirstOctet(v);
    if v.Map? {
      MapParts(v);
      PairsCounted(v.pairs);
    }
  }

  lemma MapParts(v: Value)
    requires v.Map? && Encodable(v)
    ensures PairsEncodable(v.pairs) && |EncodePairs(v.pairs)| < U32
  {
  }

  lemma FirstOctet(v: Value)
    requires Encodable(v)
    ensures Encode(v) != []
    ensures Encode(v)[0] == if OneOctetForm(v) != 0 then OneOctetForm(v) else if IsDescribed(v) then 0 else Constructor(v, Small(v))
    ensures !v.Char?
  {
  }

  lemma ArrayLayout(elems: seq<Value>)
    requires elems != [] && Encodable(Array(elems))
    ensures var bs := Encode(Array(elems)); var n := if bs[0] == 0xE0 then 3 else 9;
      |bs| > n && bs[n] == Constructor(elems[0], false)
    ensures HasConstructor(elems[0])
  {
    hide BigEndian, ItemBytes, ArraySize, Small;
    var v := Array(elems);
    var small := Small(v);
    EncodedForm(v);
    FieldWidth(ArraySize(elems) + (if small then 1 else 4), small);
    FieldWidth(|elems|, small);
    assert ArrayBytes(elems)[0] == Constructor(elems[0], false);
    ElementsHaveConstructors(elems);
  }

  /** The items of an array share the constructor of the full form, never of a shorter one. */
  lemma ItemFormChosen(elems: seq<Value>)
    requires elems != [] && Encodable(Array(elems))
    ensures var bs := Encode(Array(elems)); var n := if bs[0] == 0xE0 then 3 else 9;
      |bs| > n && bs[n] ==
        match elems[0]
        case Null => 0x40
        case Bool(_) => 0x56
        case UByte(_) => 0x50
        case UShort(_) => 0x60
        case UInt(_) => 0x70
        case ULong(_) => 0x80
        case SByte(_) => 0x51
        case Short(_) => 0x61
        case Int(_) => 0x71
        case Long(_) => 0x81
        case Float(_) => 0x72
        case Double(_) => 0x82
        case Timestamp(_) => 0x83
        case Uuid(_) => 0x98
        case Binary(_) => 0xB0
        case String(_) => 0xB1
        case Symbol(_) => 0xB3
        case List(_) => 0xD0
        case Map(_) => 0xD1
        case Array(_) => 0xF0
        case _ => 0x00
  {
    hide Encode, Encodable;
    ArrayLayout(elems);
  }
}
