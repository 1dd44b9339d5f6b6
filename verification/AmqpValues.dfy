/** AMQP values (AMQP 1.0 Part 1, section 1.6) as src/amqpvalue.c stores them. */
module AmqpValues {
  import opened Octets

  type U8 = x: int | 0 <= x < 256
  type UShortInt = x: int | 0 <= x < 0x1_0000
  type UInt32 = x: int | 0 <= x < 0x1_0000_0000
  type UInt64 = x: int | 0 <= x < 0x1_0000_0000_0000_0000
  type Int8 = x: int | -128 <= x < 128
  type Int16 = x: int | -0x8000 <= x < 0x8000
  type Int32 = x: int | -0x8000_0000 <= x < 0x8000_0000
  type Int64 = x: int | -0x8000_0000_0000_0000 <= x < 0x8000_0000_0000_0000
  type Uuid16 = s: Bytes | |s| == 16 witness [0, 0, 0, 0, 0, 0, 0, 0, 0, 0, 0, 0, 0, 0, 0, 0]

  /** Floating point values are bit patterns; strings and symbols are the octets of a C buffer. */
  datatype Value =
    | Null
    | Bool(flag: bool)
    | UByte(ub: U8) | UShort(us: UShortInt) | UInt(ui: UInt32) | ULong(ul: UInt64)
    | SByte(sb: Int8) | Short(ss: Int16) | Int(si: Int32) | Long(sl: Int64)
    | Float(fbits: UInt32) | Double(dbits: UInt64)
    | Char(code: UInt32)
    | Timestamp(ms: Int64)
    | Uuid(id: Uuid16)
    | Binary(data: Bytes) | String(text: Bytes) | Symbol(name: Bytes)
    | List(items: seq<Value>)
    | Map(pairs: seq<Pair>)
    | Array(elems: seq<Value>)
    | Described(descriptor: Value, described: Value)
    | Composite(descriptor: Value, described: Value)

  datatype Pair = Pair(key: Value, value: Value)

  // ---------------------------------------------------------------- scalars

  /** Two's complement: the half is the first number the sign bit is set for. */
  function Unsigned(x: int, half: nat): (u: nat)
    requires -(half as int) <= x < half
  {
    if x < 0 then x + 2 * half else x
  }

  function Signed(u: nat, half: nat): int {
    if u < half then u else u - 2 * half
  }

  predicate IsSigned(v: Value) {
    v.SByte? || v.Short? || v.Int? || v.Long? || v.Timestamp?
  }
}
