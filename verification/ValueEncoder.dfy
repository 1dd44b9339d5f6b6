/**
 The encoder as the C code runs it: it measures by encoding into a counter, then encodes again into a
 buffer that was allocated from the measure, and writes size fields before the data they measure.
 */
module ValueEncoder {
  import opened Octets
  import opened AmqpValues
  import opened AmqpEncoding

  /** Where the encoder's octets go: `count_bytes` only counts, `encode_bytes` fills a buffer and does not check for room. */
  class EncoderOutput {
    const buffer: array?<Byte>
    var length: nat
    ghost var emitted: Bytes

    ghost predicate Valid()
      reads this, buffer
    {
      length == |emitted| && (buffer != null ==> length <= buffer.Length && buffer[..length] == emitted)
    }

    ghost predicate Room(n: nat)
      reads this
    {
      buffer == null || length + n <= buffer.Length
    }

    constructor (buffer: array?<Byte>)
      ensures Valid() && this.buffer == buffer && emitted == []
    {
      this.buffer, length, emitted := buffer, 0, [];
    }

    method OutputBytes(bs: Bytes)
      requires Valid() && Room(|bs|)
      modifies this, buffer
      ensures Valid() && emitted == old(emitted) + bs
    {
      if buffer != null {
        for k := 0 to |bs|
          invariant length + |bs| <= buffer.Length
          invariant buffer[..length + k] == emitted + bs[..k]
          invariant length == old(length) && emitted == old(emitted)
        {
          buffer[length + k] := bs[k];
          assert bs[..k + 1] == bs[..k] + [bs[k]];
          assert buffer[..length + k + 1] == buffer[..length + k] + [bs[k]];
        }
      }
      assert bs[..|bs|] == bs;
      length, emitted := length + |bs|, emitted + bs;
    }

    method OutputByte(b: Byte)
      requires Valid() && Room(1)
      modifies this, buffer
      ensures Valid() && emitted == old(emitted) + [b]
    {
      OutputBytes([b]);
    }

    method OutputUInt16(x: nat)
      requires Valid() && Room(2) && x < 0x1_0000
      modifies this, buffer
      ensures Valid() && emitted == old(emitted) + BigEndian(x, 2)
    {
      OutputByte(x / 0x100 % 256);
      OutputByte(x % 256);
      TwoOctets(x);
    }

    method OutputUInt32(x: nat)
      requires Valid() && Room(4) && x < 0x1_0000_0000
      modifies this, buffer
      ensures Valid() && emitted == old(emitted) + BigEndian(x, 4)
    {
      OutputUInt16(x / 0x1_0000);
      OutputUInt16(x % 0x1_0000);
      LowField(x, 2);
    }

    method OutputUInt64(x: nat)
      requires Valid() && Room(8) && x < 0x1_0000_0000_0000_0000
      modifies this, buffer
      ensures Valid() && emitted == old(emitted) + BigEndian(x, 8)
    {
      hide BigEndian;
      EightOctets(x);
      OutputUInt32(x / 0x1_0000_0000);
      OutputUInt32(x % 0x1_0000_0000);
    }

    /** A length, size or count, cut to the width of its field. */
    method OutputLength(n: nat, small: bool)
      requires Valid() && Room(if small then 1 else 4)
      modifies this, buffer
      ensures Valid() && emitted == old(emitted) + LengthField(n, small)
    {
      if small {
        OutputByte(n % 256);
        assert BigEndian(n % 256, 1) == [n % 256];
      } else {
        OutputUInt32(n % 0x1_0000_0000);
      }
    }
  }

  lemma TwoOctets(x: nat)
    requires x < 0x1_0000
    ensures BigEndian(x, 2) == [x / 0x100 % 256] + [x % 256]
  {
    assert BigEndian(x / 256, 1) == [x / 256 % 256];
  }

  lemma EightOctets(x: nat)
    ensures BigEndian(x, 8) == BigEndian(x / 0x1_0000_0000, 4) + BigEndian(x % 0x1_0000_0000, 4)
  {
    hide BigEndian;
    LowField(x, 6);
    LowField(x / 0x1_0000, 4);
    LowField(x % 0x1_0000_0000, 2);
    Halves(x);
  }

  lemma Halves(x: nat)
    ensures x / 0x1_0000 / 0x1_0000 == x / 0x1_0000_0000
    ensures x % 0x1_0000_0000 / 0x1_0000 == x / 0x1_0000 % 0x1_0000
    ensures x % 0x1_0000_0000 % 0x1_0000 == x % 0x1_0000
  {
  }

  /** A field of two more octets. */
  lemma LowField(x: nat, n: nat)
    ensures BigEndian(x, n + 2) == BigEndian(x / 0x1_0000, n) + BigEndian(x % 0x1_0000, 2)
  {
    var y := x % 0x1_0000;
    assert x / 256 / 256 == x / 0x1_0000 && y / 256 % 256 == x / 256 % 256 && y % 256 == x % 256;
    assert BigEndian(y, 2) == BigEndian(y / 256, 1) + [y % 256] && BigEndian(y / 256, 1) == [] + [y / 256 % 256];
    assert BigEndian(x, n + 2) == BigEndian(x / 256 / 256, n) + [x / 256 % 256] + [x % 256];
  }

  // ---------------------------------------------------------------- values without parts

  predicate IsScalar(v: Value) {
    !v.List? && !v.Map? && !v.Array? && !v.Char? && !IsDescribed(v)
  }

  method EncodeNumber(v: Value, small: bool, out: EncoderOutput)
    requires IsScalar(v) && !v.Uuid? && !v.Binary? && !v.String? && !v.Symbol?
    requires out.Valid() && out.Room(|Data(v, small)|)
    modifies out, out.buffer
    ensures out.Valid() && out.emitted == old(out.emitted) + Data(v, small)
  {
    hide Encodable, Encode, EncodeAll, EncodePairs, ArrayBytes, ItemBytes;
    match v
    case Null =>
    case Bool(b) => out.OutputByte(if b then 1 else 0);
    case UByte(x) => out.OutputLength(x, true);
    case UShort(x) => out.OutputUInt16(x);
    case UInt(x) => if small { out.OutputLength(x, true); } else { out.OutputUInt32(x); }
    case ULong(x) => if small { out.OutputLength(x, true); } else { out.OutputUInt64(x); }
    case SByte(x) => out.OutputLength(Unsigned(x, 128), true);
    case Short(x) => out.OutputUInt16(Unsigned(x, 0x8000));
    case Int(x) =>
      if small { out.OutputLength(Unsigned(x, 0x8000_0000), true); } else { out.OutputUInt32(Unsigned(x, 0x8000_0000)); }
    case Long(x) =>
      if small { out.OutputLength(Unsigned(x, 0x8000_0000_0000_0000), true); } else { out.OutputUInt64(Unsigned(x, 0x8000_0000_0000_0000)); }
    case Float(x) => out.OutputUInt32(x);
    case Double(x) => out.OutputUInt64(x);
    case Timestamp(x) => out.OutputUInt64(Unsigned(x, 0x8000_0000_0000_0000));
  }

  method EncodeScalarValue(v: Value, small: bool, out: EncoderOutput)
    requires IsScalar(v) && out.Valid() && out.Room(|Data(v, small)|)
    modifies out, out.buffer
    ensures out.Valid() && out.emitted == old(out.emitted) + Data(v, small)
  {
    hide Encodable, Encode, EncodeAll, EncodePairs, ArrayBytes, ItemBytes;
    if v.Uuid? {
      out.OutputBytes(v.id);
    } else if v.Binary? {
      out.OutputLength(|v.data|, small);
      out.OutputBytes(v.data);
    } else if v.String? {
      EncodeText(v.text, small, out);
    } else if v.Symbol? {
      EncodeText(v.name, small, out);
    } else {
      EncodeNumber(v, small, out);
    }
  }

  /** `strlen` gives the length, so what follows a NUL is not written. */
  method EncodeText(s: Bytes, small: bool, out: EncoderOutput)
    requires out.Valid() && out.Room(|LengthField(StrLen(s), small) + CString(s)|)
    modifies out, out.buffer
    ensures out.Valid() && out.emitted == old(out.emitted) + (LengthField(StrLen(s), small) + CString(s))
  {
    var n := StringLength(s);
    out.OutputLength(n, small);
    out.OutputBytes(s[..n]);
  }

  method StringLength(s: Bytes) returns (n: nat)
    ensures n == StrLen(s)
  {
    n := 0;
    while n < |s| && s[n] != 0
      invariant n <= |s| && StrLen(s) == n + StrLen(s[n..])
    {
      n := n + 1;
    }
  }

  // ---------------------------------------------------------------- measuring

  /** A run of the encoder that only counts; the count includes what was written before a failure. */
  method GetEncodedSize(v: Value) returns (ok: bool, size: nat)
    ensures ok <==> Encodable(v)
    ensures size == |Encode(v)|
    decreases v, 6
  {
    var counter := new EncoderOutput(null);
    ok := EncodeValue(v, counter);
    size := counter.length;
    assert [] + Encode(v) == Encode(v);
  }

  method GetEncodedArrayItemSize(v: Value) returns (ok: bool, size: nat)
    ensures ok <==> Encodable(v) && !IsDescribed(v)
    ensures ok ==> size == |Data(v, false)|
    decreases v, 6
  {
    var counter := new EncoderOutput(null);
    ok := EncodeArrayItem(v, false, counter);
    size := counter.length;
  }

  method GetEncodedListSize(items: seq<Value>) returns (ok: bool, size: nat)
    ensures ok <==> AllEncodable(items) && |EncodeAll(items)| < U32
    ensures ok ==> size == |EncodeAll(items)|
    decreases items, 0
  {
    hide Encodable, Encode;
    size := 0;
    var i := 0;
    while i < |items|
      invariant i <= |items|
      invariant AllEncodable(items) <==> AllEncodable(items[i..])
      invariant |EncodeAll(items)| == size + |EncodeAll(items[i..])| && size < U32
    {
      var itemOk, itemSize := GetEncodedSize(items[i]);
      if !itemOk || size + itemSize >= 0x1_0000_0000 {
        return false, size;
      }
      assert items[i..][1..] == items[i + 1..];
      size, i := size + itemSize, i + 1;
    }
    ok := true;
  }

  method GetEncodedMapSize(pairs: seq<Pair>) returns (ok: bool, size: nat)
    ensures ok <==> PairsEncodable(pairs) && |EncodePairs(pairs)| < U32
    ensures ok ==> size == |EncodePairs(pairs)|
    decreases pairs, 0
  {
    hide Encodable, Encode;
    size := 0;
    var i := 0;
    while i < |pairs|
      invariant i <= |pairs|
      invariant PairsEncodable(pairs) <==> PairsEncodable(pairs[i..])
      invariant |EncodePairs(pairs)| == size + |EncodePairs(pairs[i..])| && size < U32
    {
      ok, size := AddPairSize(pairs[i], size);
      if !ok {
        return;
      }
      assert pairs[i..][1..] == pairs[i + 1..];
      i := i + 1;
    }
    ok := true;
  }

  method AddPairSize(p: Pair, before: nat) returns (ok: bool, size: nat)
    requires before < U32
    ensures ok <==> PairEncodable(p) && before + |EncodePair(p)| < U32
    ensures ok ==> size == before + |EncodePair(p)|
    decreases p, 0
  {
    hide Encodable, Encode;
    size := before;
    var keyOk, keySize := GetEncodedSize(p.key);
    if !keyOk || size + keySize >= 0x1_0000_0000 {
      return false, size;
    }
    size := size + keySize;
    var valueOk, valueSize := GetEncodedSize(p.value);
    if !valueOk || size + valueSize >= 0x1_0000_0000 {
      return false, size;
    }
    ok, size := true, size + valueSize;
  }

  method GetEncodedArraySize(elems: seq<Value>) returns (ok: bool, size: nat)
    ensures ok <==> AllEncodable(elems) && NoneDescribed(elems) && |ItemBytes(elems)| < U32
    ensures ok ==> size == ArraySize(elems)
    decreases elems, 0
  {
    hide Encodable, Data;
    size := 0;
    var i := 0;
    while i < |elems|
      invariant i <= |elems|
      invariant (AllEncodable(elems) && NoneDescribed(elems)) <==> (AllEncodable(elems[i..]) && NoneDescribed(elems[i..]))
      invariant |ItemBytes(elems)| == size + |ItemBytes(elems[i..])| && size < U32
    {
      var itemOk, itemSize := GetEncodedArrayItemSize(elems[i]);
      if !itemOk || size + itemSize >= 0x1_0000_0000 {
        return false, size;
      }
      assert elems[i..][1..] == elems[i + 1..];
      size, i := size + itemSize, i + 1;
    }
    if size > |elems| {
      size := (size + 1) % 0x1_0000_0000;
    }
    ok := true;
  }

  // ---------------------------------------------------------------- writing

  lemma Associative(a: Bytes, b: Bytes, c: Bytes)
    ensures (a + b) + c == a + (b + c)
  {
  }

  method OutputHeader(size: nat, count: nat, small: bool, out: EncoderOutput)
    requires out.Valid() && out.Room(if small then 2 else 8)
    modifies out, out.buffer
    ensures out.Valid() && out.emitted == old(out.emitted) + Compound(size, count, small, [])
  {
    out.OutputLength(size + (if small then 1 else 4), small);
    out.OutputLength(count, small);
    assert Compound(size, count, small, []) == LengthField(size + (if small then 1 else 4), small) + LengthField(count, small);
    Associative(old(out.emitted), LengthField(size + (if small then 1 else 4), small), LengthField(count, small));
  }

  lemma OneMoreItem(items: seq<Value>, i: nat)
    requires i < |items|
    ensures EncodeAll(items[i..]) == Encode(items[i]) + EncodeAll(items[i + 1..])
    ensures ItemBytes(items[i..]) == Data(items[i], false) + ItemBytes(items[i + 1..])
    ensures AllEncodable(items[i..]) == (Encodable(items[i]) && AllEncodable(items[i + 1..]))
    ensures NoneDescribed(items[i..]) == (!IsDescribed(items[i]) && NoneDescribed(items[i + 1..]))
  {
    hide Encode, Data, Encodable;
    assert items[i..][1..] == items[i + 1..];
  }

  lemma OneMorePair(pairs: seq<Pair>, i: nat)
    requires i < |pairs|
    ensures EncodePairs(pairs[i..]) == EncodePair(pairs[i]) + EncodePairs(pairs[i + 1..])
    ensures PairsEncodable(pairs[i..]) == (PairEncodable(pairs[i]) && PairsEncodable(pairs[i + 1..]))
  {
    hide EncodePair, PairEncodable;
    assert pairs[i..][1..] == pairs[i + 1..];
  }

  method EncodeListValue(items: seq<Value>, size: nat, small: bool, out: EncoderOutput)
    requires AllEncodable(items) && size == |EncodeAll(items)|
    requires out.Valid() && out.Room(|Compound(size, |items|, small, EncodeAll(items))|)
    modifies out, out.buffer
    ensures out.Valid() && out.emitted == old(out.emitted) + Compound(size, |items|, small, EncodeAll(items))
    decreases items, 1
  {
    hide Encodable, Encode, EncodeAll, AllEncodable, Compound;
    HeaderThenBody(size, |items|, small, EncodeAll(items));
    OutputHeader(size, |items|, small, out);
    ghost var whole := out.emitted + EncodeAll(items);
    Associative(old(out.emitted), Compound(size, |items|, small, []), EncodeAll(items));
    assert items[0..] == items;
    for i := 0 to |items|
      invariant out.Valid() && AllEncodable(items[i..])
      invariant out.emitted + EncodeAll(items[i..]) == whole
    {
      OneMoreItem(items, i);
      Associative(out.emitted, Encode(items[i]), EncodeAll(items[i + 1..]));
      var ok := EncodeValue(items[i], out);
    }
    NothingLeft();
    assert items[|items|..] == [];
  }

  lemma EmptyIsEncodable()
    ensures AllEncodable([]) && PairsEncodable([])
  {
  }

  lemma NothingLeft()
    ensures EncodeAll([]) == [] && EncodePairs([]) == [] && ItemBytes([]) == [] && ArrayBytes([]) == []
    ensures forall bs: Bytes :: bs + [] == bs
  {
  }

  method EncodeMapValue(pairs: seq<Pair>, size: nat, small: bool, out: EncoderOutput)
    requires PairsEncodable(pairs) && size == |EncodePairs(pairs)|
    requires out.Valid() && out.Room(|Compound(size, 2 * |pairs|, small, EncodePairs(pairs))|)
    modifies out, out.buffer
    ensures out.Valid() && out.emitted == old(out.emitted) + Compound(size, 2 * |pairs|, small, EncodePairs(pairs))
    decreases pairs, 1
  {
    hide Encodable, Encode, EncodePairs, PairsEncodable, Compound, EncodePair;
    HeaderThenBody(size, 2 * |pairs|, small, EncodePairs(pairs));
    OutputHeader(size, 2 * |pairs|, small, out);
    ghost var whole := out.emitted + EncodePairs(pairs);
    Associative(old(out.emitted), Compound(size, 2 * |pairs|, small, []), EncodePairs(pairs));
    assert pairs[0..] == pairs;
    for i := 0 to |pairs|
      invariant out.Valid() && PairsEncodable(pairs[i..])
      invariant out.emitted + EncodePairs(pairs[i..]) == whole
    {
      OneMorePair(pairs, i);
      Associative(out.emitted, EncodePair(pairs[i]), EncodePairs(pairs[i + 1..]));
      EncodeKeyAndValue(pairs[i], out);
    }
    NothingLeft();
    assert pairs[|pairs|..] == [];
  }

  method EncodeKeyAndValue(p: Pair, out: EncoderOutput)
    requires PairEncodable(p) && out.Valid() && out.Room(|EncodePair(p)|)
    modifies out, out.buffer
    ensures out.Valid() && out.emitted == old(out.emitted) + EncodePair(p)
    decreases p, 0
  {
    hide Encodable, Encode;
    Associative(out.emitted, Encode(p.key), Encode(p.value));
    var ok := EncodeValue(p.key, out);
    ok := EncodeValue(p.value, out);
  }

  method EncodeArrayValue(elems: seq<Value>, size: nat, small: bool, out: EncoderOutput)
    requires AllEncodable(elems) && NoneDescribed(elems) && size == ArraySize(elems)
    requires out.Valid() && out.Room(|Compound(size, |elems|, small, ArrayBytes(elems))|)
    modifies out, out.buffer
    ensures out.Valid() && out.emitted == old(out.emitted) + Compound(size, |elems|, small, ArrayBytes(elems))
    decreases elems, 1
  {
    hide Encodable, Data, Encode, AllEncodable, NoneDescribed, ItemBytes, ArrayBytes, ArraySize, Compound, Constructor, ItemsLeft, ItemOutput;
    ItemsLeftEnds(elems);
    HeaderThenBody(size, |elems|, small, ArrayBytes(elems));
    OutputHeader(size, |elems|, small, out);
    ghost var whole := out.emitted + ArrayBytes(elems);
    Associative(old(out.emitted), Compound(size, |elems|, small, []), ArrayBytes(elems));
    assert elems[0..] == elems;
    var first := true;
    for i := 0 to |elems|
      invariant out.Valid() && AllEncodable(elems[i..]) && NoneDescribed(elems[i..])
      invariant first <==> i == 0
      invariant out.emitted + ItemsLeft(elems, i) == whole
    {
      OneMoreItem(elems, i);
      OneMoreElement(elems, i);
      Associative(out.emitted, ItemOutput(elems[i], first), ItemsLeft(elems, i + 1));
      var ok := EncodeArrayItem(elems[i], first, out);
      first := false;
    }
    assert out.emitted + [] == out.emitted;
  }

  lemma ItemsLeftEnds(elems: seq<Value>)
    ensures ItemsLeft(elems, 0) == ArrayBytes(elems) && ItemsLeft(elems, |elems|) == []
  {
    NothingLeft();
    assert elems[|elems|..] == [];
  }

  /** What is still to be written of an array's items before item `i`. */
  ghost function ItemsLeft(elems: seq<Value>, i: nat): Bytes
    requires i <= |elems|
  {
    if i == 0 then ArrayBytes(elems) else ItemBytes(elems[i..])
  }

  lemma OneMoreElement(elems: seq<Value>, i: nat)
    requires i < |elems| && Encodable(elems[i]) && !IsDescribed(elems[i])
    ensures ItemsLeft(elems, i) == ItemOutput(elems[i], i == 0) + ItemsLeft(elems, i + 1)
  {
    hide Encodable, Data, Constructor, ItemBytes;
    OneMoreItem(elems, i);
    assert elems[0..] == elems;
    NotChar(elems[i]);
  }

  lemma NotChar(v: Value)
    ensures Encodable(v) ==> !v.Char?
  {
  }

  lemma ListForm(items: seq<Value>)
    ensures var v := List(items); var size := |EncodeAll(items)|; var small := |items| <= 255 && size < 255;
      && (Encodable(v) <==> AllEncodable(items) && size < U32)
      && Encode(v) == if items == [] then [0x45] else if !Encodable(v) then []
                      else [if small then 0xC0 else 0xD0] + Compound(size, |items|, small, EncodeAll(items))
    ensures items == [] ==> Encodable(List(items))
  {
    hide EncodeAll, AllEncodable, Compound;
    if items == [] {
      NothingLeft();
      EmptyIsEncodable();
    }
  }

  lemma MapForm(pairs: seq<Pair>)
    ensures var v := Map(pairs); var size := |EncodePairs(pairs)|; var small := 2 * |pairs| % 0x1_0000_0000 <= 255 && size < 255;
      && (Encodable(v) <==> PairsEncodable(pairs) && size < U32)
      && Encode(v) == if !Encodable(v) then []
                      else [if small then 0xC1 else 0xD1] + Compound(size, 2 * |pairs|, small, EncodePairs(pairs))
  {
    hide EncodePairs, PairsEncodable, Compound;
  }

  lemma ArrayForm(elems: seq<Value>)
    ensures var v := Array(elems); var size := ArraySize(elems); var small := |elems| <= 255 && size < 255;
      && (Encodable(v) <==> AllEncodable(elems) && NoneDescribed(elems) && |ItemBytes(elems)| < U32)
      && Encode(v) == if !Encodable(v) then []
                      else [if small then 0xE0 else 0xF0] + Compound(size, |elems|, small, ArrayBytes(elems))
  {
    hide ArrayBytes, ItemBytes, AllEncodable, NoneDescribed, ArraySize, Compound;
  }

  method EncodeList(items: seq<Value>, out: EncoderOutput) returns (ok: bool)
    requires out.Valid() && out.Room(|Encode(List(items))|)
    modifies out, out.buffer
    ensures ok <==> Encodable(List(items))
    ensures out.Valid() && out.emitted == old(out.emitted) + Encode(List(items))
    decreases items, 2
  {
    hide EncodeAll, AllEncodable, Encode, Encodable, Compound;
    ListForm(items);
    if items == [] {
      out.OutputByte(0x45);
      return true;
    }
    var size;
    ok, size := GetEncodedListSize(items);
    if ok {
      var small := |items| <= 255 && size < 255;
      out.OutputByte(if small then 0xC0 else 0xD0);
      EncodeListValue(items, size, small, out);
    }
  }

  method EncodeMap(pairs: seq<Pair>, out: EncoderOutput) returns (ok: bool)
    requires out.Valid() && out.Room(|Encode(Map(pairs))|)
    modifies out, out.buffer
    ensures ok <==> Encodable(Map(pairs))
    ensures out.Valid() && out.emitted == old(out.emitted) + Encode(Map(pairs))
    decreases pairs, 2
  {
    hide EncodePairs, PairsEncodable, Encode, Encodable, Compound;
    MapForm(pairs);
    var size;
    ok, size := GetEncodedMapSize(pairs);
    if ok {
      var small := 2 * |pairs| % 0x1_0000_0000 <= 255 && size < 255;
      out.OutputByte(if small then 0xC1 else 0xD1);
      EncodeMapValue(pairs, size, small, out);
    }
  }

  method EncodeArray(elems: seq<Value>, out: EncoderOutput) returns (ok: bool)
    requires out.Valid() && out.Room(|Encode(Array(elems))|)
    modifies out, out.buffer
    ensures ok <==> Encodable(Array(elems))
    ensures out.Valid() && out.emitted == old(out.emitted) + Encode(Array(elems))
    decreases elems, 2
  {
    hide ArrayBytes, ItemBytes, AllEncodable, NoneDescribed, ArraySize, Compound, Encode, Encodable;
    ArrayForm(elems);
    var size;
    ok, size := GetEncodedArraySize(elems);
    if ok {
      var small := |elems| <= 255 && size < 255;
      out.OutputByte(if small then 0xE0 else 0xF0);
      EncodeArrayValue(elems, size, small, out);
    }
  }

  method EncodeScalar(v: Value, out: EncoderOutput)
    requires IsScalar(v) && out.Valid() && out.Room(|Encode(v)|)
    modifies out, out.buffer
    ensures Encodable(v) && out.Valid() && out.emitted == old(out.emitted) + Encode(v)
  {
    hide EncodeAll, EncodePairs, ArrayBytes, ItemBytes, Data;
    if OneOctetForm(v) != 0 {
      out.OutputByte(OneOctetForm(v));
    } else {
      var small := Smallest(v);
      out.OutputByte(Constructor(v, small));
      EncodeScalarValue(v, small, out);
    }
  }

  method Smallest(v: Value) returns (small: bool)
    requires IsScalar(v)
    ensures small <==> Small(v)
  {
    hide EncodeAll, EncodePairs, ArrayBytes, ItemBytes, ArraySize;
    if v.String? {
      var n := StringLength(v.text);
      small := n <= 255;
    } else if v.Symbol? {
      var n := StringLength(v.name);
      small := n <= 255;
    } else {
      small := match v
        case UInt(x) => x <= 255
        case ULong(x) => x <= 255
        case Int(x) => -128 <= x <= 127
        case Long(x) => -128 <= x <= 127
        case Binary(b) => |b| <= 255
        case _ => false;
    }
  }

  lemma DescribedForm(v: Value)
    ensures IsDescribed(v) ==>
      && (Encodable(v) <==> Encodable(v.descriptor) && Encodable(v.described))
      && Encode(v) == [0x00] + Encode(v.descriptor) + (if Encodable(v.descriptor) then Encode(v.described) else [])
    ensures v.Char? ==> Encode(v) == []
  {
    hide Data, Small;
  }

  /** `amqpvalue_encode`: what it hands over is `Encode`, also when it fails half way. */
  method EncodeValue(v: Value, out: EncoderOutput) returns (ok: bool)
    requires out.Valid() && out.Room(|Encode(v)|)
    modifies out, out.buffer
    ensures ok <==> Encodable(v)
    ensures out.Valid() && out.emitted == old(out.emitted) + Encode(v)
    decreases v, 5
  {
    hide Data, Small, Encode, Encodable, Constructor;
    EncodableKinds(v);
    DescribedForm(v);
    if v.Char? {
      ok := false;
    } else if v.List? {
      ok := EncodeList(v.items, out);
    } else if v.Map? {
      ok := EncodeMap(v.pairs, out);
    } else if v.Array? {
      ok := EncodeArray(v.elems, out);
    } else if IsDescribed(v) {
      out.OutputByte(0x00);
      ok := EncodeValue(v.descriptor, out);
      if ok {
        ok := EncodeValue(v.described, out);
      }
    } else {
      EncodeScalar(v, out);
      ok := true;
    }
  }

  /** An array item is written in its full form, the constructor with the first one only. */
  method EncodeArrayItem(v: Value, first: bool, out: EncoderOutput) returns (ok: bool)
    requires out.Valid() && out.Room(|ItemOutput(v, first)|)
    modifies out, out.buffer
    ensures ok <==> Encodable(v) && !IsDescribed(v)
    ensures out.Valid() && out.emitted == old(out.emitted) + ItemOutput(v, first)
    decreases v, 5
  {
    hide Data, Encodable, Constructor, Encode;
    EncodableKinds(v);
    if v.Char? || IsDescribed(v) {
      return false;
    }
    if first {
      out.OutputByte(Constructor(v, false));
    }
    if IsScalar(v) {
      ok := true;
      EncodeScalarValue(v, false, out);
    } else {
      ok := EncodeCompoundItem(v, out);
    }
  }

  lemma EncodableKinds(v: Value)
    ensures IsScalar(v) ==> Encodable(v)
    ensures v.Char? ==> !Encodable(v)
  {
  }

  method EncodeCompoundItem(v: Value, out: EncoderOutput) returns (ok: bool)
    requires v.List? || v.Map? || v.Array?
    requires out.Valid() && out.Room(if Encodable(v) then |Data(v, false)| else 0)
    modifies out, out.buffer
    ensures ok <==> Encodable(v)
    ensures out.Valid() && out.emitted == old(out.emitted) + (if ok then Data(v, false) else [])
    decreases v, 4
  {
    hide EncodeAll, EncodePairs, ArrayBytes, ItemBytes, AllEncodable, PairsEncodable, Small, ArraySize, NoneDescribed, Encode;
    var size;
    if v.List? {
      ok, size := GetEncodedListSize(v.items);
      if ok {
        EncodeListValue(v.items, size, false, out);
      }
    } else if v.Map? {
      ok, size := GetEncodedMapSize(v.pairs);
      if ok {
        EncodeMapValue(v.pairs, size, false, out);
      }
    } else {
      ok, size := GetEncodedArraySize(v.elems);
      if ok {
        EncodeArrayValue(v.elems, size, false, out);
      }
    }
  }

  /** The octets one array item gives, those before a failure included. */
  ghost function ItemOutput(v: Value, first: bool): Bytes {
    if v.Char? || IsDescribed(v) then []
    else (if first then [Constructor(v, false)] else []) + (if Encodable(v) then Data(v, false) else [])
  }

  /**
   The performative of a frame: a buffer allocated from a counting run. The writing run finds room for
   every octet and ends with the buffer exactly full.
   */
  method EncodeToNewBuffer(v: Value) returns (ok: bool, buffer: array<Byte>)
    ensures fresh(buffer)
    ensures ok <==> Encodable(v)
    ensures ok ==> buffer[..] == Encode(v)
  {
    hide Encode, Encodable;
    var size;
    ok, size := GetEncodedSize(v);
    if !ok {
      buffer := new Byte[0];
      return;
    }
    buffer := new Byte[size];
    var out := new EncoderOutput(buffer);
    ok := EncodeValue(v, out);
    assert buffer[..] == buffer[..out.length];
    assert [] + Encode(v) == Encode(v);
  }
}
