/** Octets and the big-endian integers that every layer of the codec writes and reads. */
module Octets {

  type Byte = b: int | 0 <= b < 256
  type Bytes = seq<Byte>

  const U32: nat := 0x1_0000_0000

  /** Pieces put together in order. */
  function Join(chunks: seq<Bytes>): Bytes {
    if chunks == [] then [] else chunks[0] + Join(chunks[1..])
  }

  /** 256 to the power `n`: how many numbers `n` octets can hold. */
  function Weight(n: nat): (w: nat)
    ensures w >= 1
  {
    if n == 0 then 1 else 256 * Weight(n - 1)
  }

  /** An octet with `m` octets behind it: `b << (8 * m)`. */
  function Shifted(b: Byte, m: nat): (x: nat)
    ensures m == 0 ==> x == b
  {
    if m == 0 then b else 256 * Shifted(b, m - 1)
  }

  /** The `n` low-order octets of `x`, most significant first. */
  function BigEndian(x: nat, n: nat): (bs: Bytes)
    ensures |bs| == n
  {
    if n == 0 then [] else BigEndian(x / 256, n - 1) + [x % 256]
  }

  /** The number a big-endian field stands for. */
  function FromBigEndian(bs: Bytes): (x: nat)
  {
    if bs == [] then 0 else Shifted(bs[0], |bs| - 1) + FromBigEndian(bs[1..])
  }

  lemma WeightValues()
    ensures Weight(0) == 1 && Weight(1) == 256 && Weight(2) == 0x1_0000 && Weight(3) == 0x100_0000
    ensures Weight(4) == U32 && Weight(8) == 0x1_0000_0000_0000_0000
  {
    assert Weight(5) == 256 * Weight(4);
    assert Weight(6) == 256 * Weight(5);
    assert Weight(7) == 256 * Weight(6);
  }

  lemma {:induction false} FromBigEndianLast(bs: Bytes, b: Byte)
    ensures FromBigEndian(bs + [b]) == 256 * FromBigEndian(bs) + b
  {
    if bs == [] {
      assert bs + [b] == [b];
    } else {
      assert (bs + [b])[1..] == bs[1..] + [b];
      FromBigEndianLast(bs[1..], b);
    }
  }

  /** Reading a field back gives the number that was written, cut to the width of the field. */
  lemma {:induction false} FieldValue(x: nat, n: nat)
    ensures FromBigEndian(BigEndian(x, n)) == x % Weight(n)
    ensures x < Weight(n) ==> FromBigEndian(BigEndian(x, n)) == x
  {
    if n == 0 {
    } else {
      FieldValue(x / 256, n - 1);
      FromBigEndianLast(BigEndian(x / 256, n - 1), x % 256);
      NestedRemainder(x, Weight(n - 1));
    }
  }

  lemma NestedRemainder(x: nat, w: nat)
    requires w > 0
    ensures 256 * ((x / 256) % w) + x % 256 == x % (256 * w)
    ensures x < 256 * w ==> x / 256 < w
  {
    var q, r := x / 256 / w, x / 256 % w;
    assert x / 256 == w * q + r;
    assert x == 256 * (w * q + r) + x % 256 == (256 * w) * q + (256 * r + x % 256);
    RemainderUnique(x, 256 * w, q, 256 * r + x % 256);
  }

  lemma RemainderUnique(x: nat, d: nat, q: nat, r: nat)
    requires r < d && x == d * q + r
    ensures x % d == r
  {
    var k := x / d;
    if k < q {
      MulMonotone(d, k + 1, q);
      assert false;
    }
    if q < k {
      MulMonotone(d, q + 1, k);
      assert false;
    }
  }

  lemma MulMonotone(d: nat, a: nat, b: nat)
    requires a <= b
    ensures d * a <= d * b
  {
  }
}
