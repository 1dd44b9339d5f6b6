/**
 `amqpvalue_are_equal` of src/amqpvalue.c and the maps that find their keys with it. It is not an equality on all
 values: it never holds of described values or of floats that are not a number.
 */
module ValueEquality {
  import opened Options
  import opened AmqpValues
  import opened AmqpEncoding

  /** IEEE 754 binary32 and binary64: all exponent bits set and a fraction that is not 0. */
  predicate IsNaN32(bits: UInt32) {
    bits % 0x8000_0000 > 0x7F80_0000
  }

  predicate IsNaN64(bits: UInt64) {
    bits % 0x8000_0000_0000_0000 > 0x7FF0_0000_0000_0000
  }

  /** Equal as numbers: the two zeros are, and not-a-number is equal to nothing. */
  predicate FloatsEqual(a: UInt32, b: UInt32) {
    !IsNaN32(a) && !IsNaN32(b) && (a == b || (a % 0x8000_0000 == 0 && b % 0x8000_0000 == 0))
  }

  predicate DoublesEqual(a: UInt64, b: UInt64) {
    !IsNaN64(a) && !IsNaN64(b) && (a == b || (a % 0x8000_0000_0000_0000 == 0 && b % 0x8000_0000_0000_0000 == 0))
  }

  predicate AreEqual(v: Value, w: Value)
    decreases v, 1
  {
    match v
    case Null => w.Null?
    case Bool(x) => w.Bool? && x == w.flag
    case UByte(x) => w.UByte? && x == w.ub
    case UShort(x) => w.UShort? && x == w.us
    case UInt(x) => w.UInt? && x == w.ui
    case ULong(x) => w.ULong? && x == w.ul
    case SByte(x) => w.SByte? && x == w.sb
    case Short(x) => w.Short? && x == w.ss
    case Int(x) => w.Int? && x == w.si
    case Long(x) => w.Long? && x == w.sl
    case Float(x) => w.Float? && FloatsEqual(x, w.fbits)
    case Double(x) => w.Double? && DoublesEqual(x, w.dbits)
    case Char(x) => w.Char? && x == w.code
    case Timestamp(x) => w.Timestamp? && x == w.ms
    case Uuid(x) => w.Uuid? && x == w.id
    case Binary(x) => w.Binary? && x == w.data
    case String(x) => w.String? && CString(x) == CString(w.text)
    case Symbol(x) => w.Symbol? && CString(x) == CString(w.name)
    case List(items) => w.List? && AllEqual(items, w.items)
    case Array(elems) => w.Array? && AllEqual(elems, w.elems)
    case Map(pairs) => w.Map? && PairsEqual(pairs, w.pairs)
    case Described(_, _) => false
    case Composite(_, _) => false
  }

  predicate AllEqual(vs: seq<Value>, ws: seq<Value>)
    decreases vs, 0
  {
    |vs| == |ws| && (vs == [] || (AreEqual(vs[0], ws[0]) && AllEqual(vs[1..], ws[1..])))
  }

  predicate PairsEqual(ps: seq<Pair>, qs: seq<Pair>)
    decreases ps, 0
  {
    |ps| == |qs| && (ps == [] || (PairEqual(ps[0], qs[0]) && PairsEqual(ps[1..], qs[1..])))
  }

  predicate PairEqual(p: Pair, q: Pair)
    decreases p, 0
  {
    AreEqual(p.key, q.key) && AreEqual(p.value, q.value)
  }

  // ---------------------------------------------------------------- what it means

  /** No part is described, composite or not a number: an exponent of ones and a fraction that is not 0. */
  predicate Comparable(v: Value)
    decreases v, 1
  {
    match v
    case Float(x) => !(x / 0x80_0000 % 256 == 255 && x % 0x80_0000 != 0)
    case Double(x) => !(x / 0x10_0000_0000_0000 % 2048 == 2047 && x % 0x10_0000_0000_0000 != 0)
    case List(items) => AllComparable(items)
    case Array(elems) => AllComparable(elems)
    case Map(pairs) => PairsComparable(pairs)
    case Described(_, _) => false
    case Composite(_, _) => false
    case _ => true
  }

  predicate AllComparable(vs: seq<Value>)
    decreases vs, 0
  {
    vs == [] || (Comparable(vs[0]) && AllComparable(vs[1..]))
  }

  predicate PairsComparable(ps: seq<Pair>)
    decreases ps, 0
  {
    ps == [] || (PairComparable(ps[0]) && PairsComparable(ps[1..]))
  }

  predicate PairComparable(p: Pair)
    decreases p, 0
  {
    Comparable(p.key) && Comparable(p.value)
  }

  /** The value without what the comparison does not look at: the sign of a zero, what follows the NUL of a text. */
  function Canonical(v: Value): Value
    decreases v, 1
  {
    match v
    case Float(x) => Float(if x == 0x8000_0000 then 0 else x)
    case Double(x) => Double(if x == 0x8000_0000_0000_0000 then 0 else x)
    case String(s) => String(CString(s))
    case Symbol(s) => Symbol(CString(s))
    case List(items) => List(AllCanonical(items))
    case Array(elems) => Array(AllCanonical(elems))
    case Map(pairs) => Map(PairsCanonical(pairs))
    case _ => v
  }

  function AllCanonical(vs: seq<Value>): (r: seq<Value>)
    ensures |r| == |vs|
    decreases vs, 0
  {
    if vs == [] then [] else [Canonical(vs[0])] + AllCanonical(vs[1..])
  }

  function PairsCanonical(ps: seq<Pair>): (r: seq<Pair>)
    ensures |r| == |ps|
    decreases ps, 0
  {
    if ps == [] then [] else [PairCanonical(ps[0])] + PairsCanonical(ps[1..])
  }

  function PairCanonical(p: Pair): Pair
    decreases p, 0
  {
    Pair(Canonical(p.key), Canonical(p.value))
  }

  /** Two values are equal exactly when both can be compared and they have the same content. */
  lemma {:induction false} EqualExactlyWhen(v: Value, w: Value)
    ensures AreEqual(v, w) <==> Comparable(v) && Comparable(w) && Canonical(v) == Canonical(w)
    decreases v, 1
  {
    hide AllEqual, PairsEqual, AllComparable, PairsComparable, AllCanonical, PairsCanonical, CString, FloatsEqual, DoublesEqual;
    if v.List? && w.List? {
      AllEqualExactlyWhen(v.items, w.items);
    } else if v.Array? && w.Array? {
      AllEqualExactlyWhen(v.elems, w.elems);
    } else if v.Map? && w.Map? {
      PairsEqualExactlyWhen(v.pairs, w.pairs);
    } else {
      FlatEqualExactlyWhen(v, w);
    }
  }

  predicate IsInteger(v: Value) {
    v.UByte? || v.UShort? || v.UInt? || v.ULong? || v.SByte? || v.Short? || v.Int? || v.Long? || v.Char? || v.Timestamp?
  }

  lemma FlatEqualExactlyWhen(v: Value, w: Value)
    requires !(v.List? && w.List?) && !(v.Array? && w.Array?) && !(v.Map? && w.Map?)
    ensures AreEqual(v, w) <==> Comparable(v) && Comparable(w) && Canonical(v) == Canonical(w)
  {
    if IsInteger(v) {
      IntegerEqualExactlyWhen(v, w);
    } else {
      OtherEqualExactlyWhen(v, w);
    }
  }

  lemma IntegerEqualExactlyWhen(v: Value, w: Value)
    requires IsInteger(v)
    ensures AreEqual(v, w) <==> Comparable(v) && Comparable(w) && Canonical(v) == Canonical(w)
  {
    hide Comparable, Canonical;
    CanonicalInteger(v);
    CanonicalInteger(w);
  }

  lemma CanonicalInteger(v: Value)
    ensures IsInteger(v) ==> Comparable(v) && Canonical(v) == v
    ensures !IsInteger(v) ==> !IsInteger(Canonical(v))
  {
    hide CString, AllCanonical, PairsCanonical;
  }

  lemma OtherEqualExactlyWhen(v: Value, w: Value)
    requires !IsInteger(v) && !(v.List? && w.List?) && !(v.Array? && w.Array?) && !(v.Map? && w.Map?)
    ensures AreEqual(v, w) <==> Comparable(v) && Comparable(w) && Canonical(v) == Canonical(w)
  {
    hide AllEqual, PairsEqual, AllComparable, PairsComparable, AllCanonical, PairsCanonical, CString, FloatsEqual, DoublesEqual;
    if v.Float? && w.Float? {
      FloatEqualExactlyWhen(v.fbits, w.fbits);
    } else if v.Double? && w.Double? {
      DoubleEqualExactlyWhen(v.dbits, w.dbits);
    }
  }

  lemma FloatEqualExactlyWhen(x: UInt32, y: UInt32)
    ensures FloatsEqual(x, y) <==> Comparable(Float(x)) && Comparable(Float(y)) && Canonical(Float(x)) == Canonical(Float(y))
  {
    NaN32(x);
    NaN32(y);
  }

  lemma NaN32(x: UInt32)
    ensures IsNaN32(x) <==> x / 0x80_0000 % 256 == 255 && x % 0x80_0000 != 0
  {
  }

  lemma DoubleEqualExactlyWhen(x: UInt64, y: UInt64)
    ensures DoublesEqual(x, y) <==> Comparable(Double(x)) && Comparable(Double(y)) && Canonical(Double(x)) == Canonical(Double(y))
  {
    NaN64(x);
    NaN64(y);
  }

  lemma NaN64(x: UInt64)
    ensures IsNaN64(x) <==> x / 0x10_0000_0000_0000 % 2048 == 2047 && x % 0x10_0000_0000_0000 != 0
  {
  }

  lemma {:induction false} AllEqualExactlyWhen(vs: seq<Value>, ws: seq<Value>)
    ensures AllEqual(vs, ws) <==> AllComparable(vs) && AllComparable(ws) && AllCanonical(vs) == AllCanonical(ws)
    decreases vs, 0
  {
    hide AreEqual, Comparable, Canonical;
    if vs != [] && ws != [] {
      EqualExactlyWhen(vs[0], ws[0]);
      AllEqualExactlyWhen(vs[1..], ws[1..]);
      assert AllCanonical(vs)[1..] == AllCanonical(vs[1..]) && AllCanonical(ws)[1..] == AllCanonical(ws[1..]);
    }
  }

  lemma {:induction false} PairsEqualExactlyWhen(ps: seq<Pair>, qs: seq<Pair>)
    ensures PairsEqual(ps, qs) <==> PairsComparable(ps) && PairsComparable(qs) && PairsCanonical(ps) == PairsCanonical(qs)
    decreases ps, 0
  {
    hide PairEqual, PairComparable, PairCanonical;
    if ps != [] && qs != [] {
      PairEqualExactlyWhen(ps[0], qs[0]);
      PairsEqualExactlyWhen(ps[1..], qs[1..]);
      assert PairsCanonical(ps)[1..] == PairsCanonical(ps[1..]) && PairsCanonical(qs)[1..] == PairsCanonical(qs[1..]);
    }
  }

  lemma PairEqualExactlyWhen(p: Pair, q: Pair)
    ensures PairEqual(p, q) <==> PairComparable(p) && PairComparable(q) && PairCanonical(p) == PairCanonical(q)
    decreases p, 0
  {
    hide AreEqual, Comparable, Canonical;
    EqualExactlyWhen(p.key, q.key);
    EqualExactlyWhen(p.value, q.value);
  }

  lemma Symmetric(v: Value, w: Value)
    requires AreEqual(v, w)
    ensures AreEqual(w, v)
  {
    hide AreEqual, Comparable, Canonical;
    EqualExactlyWhen(v, w);
    EqualExactlyWhen(w, v);
  }

  lemma Transitive(u: Value, v: Value, w: Value)
    requires AreEqual(u, v) && AreEqual(v, w)
    ensures AreEqual(u, w)
  {
    hide AreEqual, Comparable, Canonical;
    EqualExactlyWhen(u, v);
    EqualExactlyWhen(v, w);
    EqualExactlyWhen(u, w);
  }

  /** A value is equal to itself exactly when all its parts can be compared. */
  lemma Reflexive(v: Value)
    ensures AreEqual(v, v) <==> Comparable(v)
  {
    hide AreEqual, Comparable, Canonical;
    EqualExactlyWhen(v, v);
  }

  // ---------------------------------------------------------------- maps

  function Find(ps: seq<Pair>, key: Value, from: nat): (i: nat)
    requires from <= |ps|
    ensures from <= i <= |ps|
    ensures i < |ps| ==> AreEqual(ps[i].key, key)
    ensures forall k :: from <= k < i ==> !AreEqual(ps[k].key, key)
    decreases |ps| - from
  {
    if from == |ps| || AreEqual(ps[from].key, key) then from else Find(ps, key, from + 1)
  }

  function Lookup(ps: seq<Pair>, key: Value): Option<Value> {
    var i := Find(ps, key, 0);
    if i == |ps| then None else Some(ps[i].value)
  }

  function Update(ps: seq<Pair>, key: Value, value: Value): seq<Pair> {
    var i := Find(ps, key, 0);
    if i == |ps| then ps + [Pair(key, value)] else ps[i := Pair(ps[i].key, value)]
  }

  lemma FindIs(ps: seq<Pair>, key: Value, i: nat)
    requires i <= |ps| && (i < |ps| ==> AreEqual(ps[i].key, key)) && forall k :: 0 <= k < i ==> !AreEqual(ps[k].key, key)
    ensures Find(ps, key, 0) == i
  {
    hide AreEqual;
    assert Find(ps, key, 0) >= i;
  }

  /** What was set is found again exactly when the key can be compared. */
  lemma SetThenGet(ps: seq<Pair>, key: Value, value: Value)
    ensures Lookup(Update(ps, key, value), key) == Some(value) <==> Comparable(key)
  {
    hide AreEqual, Comparable;
    var i, ps' := Find(ps, key, 0), Update(ps, key, value);
    Reflexive(key);
    if i < |ps| {
      FindIs(ps', key, i);
      Symmetric(ps[i].key, key);
      Transitive(key, ps[i].key, key);
    } else if Comparable(key) {
      FindIs(ps', key, i);
    } else {
      FindIs(ps', key, i + 1);
    }
  }

  /** Setting one key leaves what is found under the others. */
  lemma SetKeepsOthers(ps: seq<Pair>, key: Value, value: Value, other: Value)
    requires !AreEqual(key, other)
    ensures Lookup(Update(ps, key, value), other) == Lookup(ps, other)
  {
    hide AreEqual;
    if Find(ps, key, 0) < |ps| {
      ReplaceKeepsOthers(ps, key, value, other);
    } else {
      AppendKeepsOthers(ps, key, value, other);
    }
  }

  lemma ReplaceKeepsOthers(ps: seq<Pair>, key: Value, value: Value, other: Value)
    requires !AreEqual(key, other) && Find(ps, key, 0) < |ps|
    ensures Lookup(Update(ps, key, value), other) == Lookup(ps, other)
  {
    hide AreEqual;
    OtherKey(ps[Find(ps, key, 0)].key, key, other);
    FindIs(Update(ps, key, value), other, Find(ps, other, 0));
  }

  lemma AppendKeepsOthers(ps: seq<Pair>, key: Value, value: Value, other: Value)
    requires !AreEqual(key, other) && Find(ps, key, 0) == |ps|
    ensures Lookup(Update(ps, key, value), other) == Lookup(ps, other)
  {
    hide AreEqual;
    var j := Find(ps, other, 0);
    FindIs(Update(ps, key, value), other, if j < |ps| then j else j + 1);
  }

  lemma OtherKey(k: Value, key: Value, other: Value)
    requires AreEqual(k, key) && !AreEqual(key, other)
    ensures !AreEqual(k, other)
  {
    hide AreEqual;
    if AreEqual(k, other) {
      Symmetric(k, key);
      Transitive(key, k, other);
    }
  }

  predicate DistinctKeys(ps: seq<Pair>) {
    forall j, k :: 0 <= j < k < |ps| ==> !AreEqual(ps[j].key, ps[k].key)
  }

  /**
   No two keys of a map that was built by setting are equal. Setting replaces the value of the one key that is equal,
   and otherwise adds a pair at the end.
   */
  lemma SetKeepsKeysDistinct(ps: seq<Pair>, key: Value, value: Value)
    requires DistinctKeys(ps)
    ensures var qs := Update(ps, key, value);
      && DistinctKeys(qs)
      && (forall k :: 0 <= k < |ps| ==> qs[k] == if AreEqual(ps[k].key, key) then Pair(ps[k].key, value) else ps[k])
      && (if Lookup(ps, key).Some? then |qs| == |ps| else qs[|ps|..] == [Pair(key, value)])
    ensures !Comparable(key) ==> Lookup(ps, key).None?
  {
    hide AreEqual, Comparable;
    var i := Find(ps, key, 0);
    if i < |ps| {
      OnlyOneEqual(ps, key, i);
    }
    EqualExactlyWhen(key, key);
    forall k | 0 <= k < |ps| && AreEqual(ps[k].key, key) ensures Comparable(key) {
      EqualExactlyWhen(ps[k].key, key);
    }
  }

  lemma OnlyOneEqual(ps: seq<Pair>, key: Value, i: nat)
    requires DistinctKeys(ps) && i < |ps| && AreEqual(ps[i].key, key)
    ensures forall k :: 0 <= k < |ps| && k != i ==> !AreEqual(ps[k].key, key)
  {
    hide AreEqual;
    forall k | 0 <= k < |ps| && AreEqual(ps[k].key, key) ensures k == i {
      Symmetric(ps[k].key, key);
      Transitive(ps[i].key, key, ps[k].key);
      Symmetric(ps[i].key, key);
      Transitive(ps[k].key, key, ps[i].key);
    }
  }

  // ---------------------------------------------------------------- the values that are changed in place

  class AmqpMap {
    var pairs: seq<Pair>

    constructor ()
      ensures pairs == []
    {
      pairs := [];
    }

    method FindKey(key: Value) returns (i: nat)
      ensures i == Find(pairs, key, 0)
    {
      i := 0;
      while i < |pairs| && !AreEqual(pairs[i].key, key)
        invariant i <= |pairs| && Find(pairs, key, 0) == Find(pairs, key, i)
      {
        i := i + 1;
      }
    }

    method SetMapValue(key: Value, value: Value)
      modifies this
      ensures pairs == Update(old(pairs), key, value)
    {
      var i := FindKey(key);
      if i < |pairs| {
        pairs := pairs[i := pairs[i].(value := value)];
      } else {
        pairs := pairs + [Pair(key, value)];
      }
    }

    method GetMapValue(key: Value) returns (value: Option<Value>)
      ensures value == Lookup(pairs, key)
    {
      var i := FindKey(key);
      value := if i == |pairs| then None else Some(pairs[i].value);
    }
  }

  /** The list after setting an item: places that were not there before hold null. */
  function WithItem(items: seq<Value>, index: nat, value: Value): (r: seq<Value>)
    ensures |r| == if index < |items| then |items| else index + 1
    ensures forall k :: 0 <= k < |r| ==> r[k] == if k == index then value else if k < |items| then items[k] else Null
  {
    if index < |items| then items[index := value] else items + seq(index - |items|, _ => Null) + [value]
  }

  class AmqpList {
    var items: seq<Value>

    constructor ()
      ensures items == []
    {
      items := [];
    }

    method SetListItemCount(count: nat)
      modifies this
      ensures |items| == count
      ensures forall k :: 0 <= k < count ==> items[k] == if k < |old(items)| then old(items)[k] else Null
    {
      if |items| < count {
        ghost var was := items;
        for i := |items| to count
          invariant |items| == i && forall k :: 0 <= k < i ==> items[k] == if k < |was| then was[k] else Null
        {
          items := items + [Null];
        }
      } else {
        items := items[..count];
      }
    }

    method SetListItem(index: nat, value: Value)
      modifies this
      ensures items == WithItem(old(items), index, value)
    {
      if index >= |items| {
        SetListItemCount(index);
        items := items + [value];
      } else {
        items := items[index := value];
      }
    }

    method GetListItem(index: nat) returns (value: Option<Value>)
      ensures value == if index < |items| then Some(items[index]) else None
    {
      value := if |items| <= index then None else Some(items[index]);
    }
  }
}
