/** What the decoder makes of an encoded value: which values come back, and as what. */
module RoundTripSpec {
  import opened Octets
  import opened AmqpValues
  import opened AmqpEncoding
  import opened WireDecoding

  // ---------------------------------------------------------------- what comes back

  /** A composite comes back as described, a C string without what follows its NUL. */
  function Normal(v: Value): Value
    decreases v
  {
    match v
    case String(s) => String(CString(s))
    case Symbol(s) => Symbol(CString(s))
    case List(items) => List(NormalAll(items))
    case Map(pairs) => Map(NormalPairs(pairs))
    case Array(elems) => Array(NormalAll(elems))
    case Described(d, w) => Described(Normal(d), Normal(w))
    case Composite(d, w) => Described(Normal(d), Normal(w))
    case _ => v
  }

  function NormalAll(vs: seq<Value>): (r: seq<Value>)
    ensures |r| == |vs|
    decreases vs
  {
    if vs == [] then [] else [Normal(vs[0])] + NormalAll(vs[1..])
  }

  function NormalPairs(ps: seq<Pair>): (r: seq<Pair>)
    ensures |r| == |ps|
    decreases ps
  {
    if ps == [] then [] else [NormalPair(ps[0])] + NormalPairs(ps[1..])
  }

  function NormalPair(p: Pair): Pair
    decreases p
  {
    Pair(Normal(p.key), Normal(p.value))
  }

  /**
   Array items share one constructor, there is no array of two or more nulls, and lengths fit the
   32-bit field that carries them.
   */
  predicate Regular(v: Value)
    decreases v
  {
    match v
    case Binary(b) => |b| < U32
    case String(s) => StrLen(s) < U32
    case Symbol(s) => StrLen(s) < U32
    case List(items) => AllRegular(items)
    case Map(pairs) => PairsRegular(pairs)
    case Array(elems) => AllRegular(elems) && Uniform(elems) && (|elems| >= 2 ==> !elems[0].Null?)
    case Described(d, w) => Regular(d) && Regular(w)
    case Composite(d, w) => Regular(d) && Regular(w)
    case _ => true
  }

  predicate AllRegular(vs: seq<Value>)
    decreases vs
  {
    vs == [] || (Regular(vs[0]) && AllRegular(vs[1..]))
  }

  predicate PairsRegular(ps: seq<Pair>)
    decreases ps
  {
    ps == [] || (PairRegular(ps[0]) && PairsRegular(ps[1..]))
  }

  predicate PairRegular(p: Pair)
    decreases p
  {
    Regular(p.key) && Regular(p.value)
  }

  predicate Uniform(vs: seq<Value>) {
    forall k :: 0 <= k < |vs| ==> Constructor(vs[k], false) == Constructor(vs[0], false)
  }

  /** What comes back is within the decoder's limits, for a value decoded at `depth`. */
  predicate Within(v: Value, depth: nat) {
    Fits(Normal(v), depth)
  }

  predicate AllWithin(vs: seq<Value>, depth: nat) {
    vs == [] || (Within(vs[0], depth) && AllWithin(vs[1..], depth))
  }
}
