/** The decoder undoes the encoder: exactly which values come back, and how the others fail. */
module RoundTrip {
  import opened Octets
  import opened AmqpValues
  import opened AmqpEncoding
  import opened DecoderSpec
  import opened FieldRuns
  import opened RoundTripSpec
  import opened WireFormat
  import opened WireDecoding
  import opened WireEncoding

  /**
   An encoding gives back its value exactly when it is within the limits, and leaves what follows it: what is written
   is one of the forms of the value, and every form is read as what it denotes.
   */
  lemma DecodeEncoded(v: Value, depth: nat, rest: Bytes)
    requires Encodable(v) && Regular(v)
    ensures Feed(Start, depth, false, Encode(v) + rest) == if Within(v, depth) then Ran(Done(Normal(v)), rest, []) else Broke([])
  {
    hide Feed, Encode, Denotes, Normal, Fits;
    EncodedDenotes(v);
    DecodeDenoted(Encode(v), Normal(v), depth, rest);
  }

  /** The constructor of a compound value and what comes before its items. */
  lemma DecodeCompound(c: Byte, size: nat, count: nat, small: bool, body: Bytes, depth: nat, rest: Bytes)
    requires CompoundWidth(c) == (if small then 1 else 4)
    requires count < (if small then 256 else U32)
    ensures Feed(Start, depth, false, [c] + Compound(size, count, small, body) + rest) == Counted(c, count, depth, body + rest)
  {
    hide Feed, CompoundWidth, Counted, LengthField, Number;
    var w := if small then 1 else 4;
    var sizeField, countField := LengthField(size + w, small), LengthField(count, small);
    FieldWidth(size + w, small);
    LengthFieldForm(count, small);
    assert [c] + Compound(size, count, small, body) + rest == [c] + sizeField + countField + (body + rest);
    DecodeHeader(c, sizeField, countField, depth, body + rest);
  }
}
