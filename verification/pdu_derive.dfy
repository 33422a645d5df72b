/** The runtime behaviour of the code that `#[derive(PduSerialize)]` and
    `#[derive(PduDeserialize)]` generate for a struct with named fields of
    type u8, u16 or u32.

    A struct is described by its schema, the widths of its fields in
    declaration order, and a value of it by its record, the field values in
    the same order. One generic encoder, size and decoder over a schema
    stand for the per-struct `From<S> for Vec<u8>`, `0 + size_of() + ...`
    and `ParsePdu::try_parse` that the macro would emit. */
module PduDerive {
  import opened Wrappers
  import opened PduIo

  /** The primitive type of one field: u8, u16 or u32. */
  datatype Width = W8 | W16 | W32

  type Schema = seq<Width>

  /** The values of a struct's fields, in declaration order. */
  type Record = seq<int>

  /** `SizeOf::size_of` of a field's type. */
  function SizeOfWidth(w: Width): nat
  {
    match w
    case W8 => U8_SIZE
    case W16 => U16_SIZE
    case W32 => U32_SIZE
  }

  /** `v` is a value of the field type `w`. */
  predicate Fits(w: Width, v: int)
  {
    match w
    case W8 => 0 <= v < 0x100
    case W16 => 0 <= v < 0x1_0000
    case W32 => 0 <= v < 0x1_0000_0000
  }

  /** `rec` holds one value of the right type for every field of `schema`. */
  predicate WellTyped(schema: Schema, rec: Record)
  {
    && |rec| == |schema|
    && (|schema| > 0 ==> Fits(schema[0], rec[0]) && WellTyped(schema[1..], rec[1..]))
  }

  /** Field by field: `rec` is well typed exactly when it has one value per
      field and each value fits its field's type. */
  lemma {:induction false} WellTypedFieldwise(schema: Schema, rec: Record)
    ensures WellTyped(schema, rec)
        <==> |rec| == |schema| && forall i :: 0 <= i < |schema| ==> Fits(schema[i], rec[i])
  {
    if |schema| > 0 && |rec| == |schema| {
      WellTypedFieldwise(schema[1..], rec[1..]);
      assert forall i :: 1 <= i < |schema| ==> schema[1..][i - 1] == schema[i] && rec[1..][i - 1] == rec[i];
    }
  }

  /** `pdu_io::ToBytes::to_bytes` on a field of type `w`. */
  function FieldToBytes(w: Width, v: int): (r: seq<u8>)
    requires Fits(w, v)
    ensures |r| == SizeOfWidth(w)
  {
    match w
    case W8 => U8ToBytes(v)
    case W16 => U16ToBytes(v)
    case W32 => U32ToBytes(v)
  }

  /** A field's bytes determine its value. */
  lemma FieldToBytesInjective(w: Width, v: int, v': int)
    requires Fits(w, v) && Fits(w, v')
    requires FieldToBytes(w, v) == FieldToBytes(w, v')
    ensures v == v'
  {
    match w
    case W8 => assert BeValue(U8ToBytes(v)) == v && BeValue(U8ToBytes(v')) == v';
    case W16 => assert BeValue(U16ToBytes(v)) == v && BeValue(U16ToBytes(v')) == v';
    case W32 => assert BeValue(U32ToBytes(v)) == v && BeValue(U32ToBytes(v')) == v';
  }

  /** `pdu_io::FromBytes::from_bytes` on a field of type `w`: the value read
      re-encodes to exactly the bytes the cursor moved past. */
  function FieldFromBytes(w: Width, input: seq<u8>): (r: (int, seq<u8>))
    requires |input| >= SizeOfWidth(w)
    ensures Fits(w, r.0)
    ensures FieldToBytes(w, r.0) + r.1 == input
  {
    match w
    case W8 => U8ReadThenWrite(input); ReadBeU8(input)
    case W16 => U16ReadThenWrite(input); ReadBeU16(input)
    case W32 => U32ReadThenWrite(input); ReadBeU32(input)
  }

  /** `size_of_fields`: the expression `0 + size_of::<T1>() + ... + size_of::<Tn>()`. */
  function SizeOf(schema: Schema): nat
  {
    if |schema| == 0 then 0 else SizeOfWidth(schema[0]) + SizeOf(schema[1..])
  }

  /** `generate_pushes`: every field's `to_bytes` appended to the output
      vector, in declaration order. */
  function Encode(schema: Schema, rec: Record): (r: seq<u8>)
    requires WellTyped(schema, rec)
    ensures |r| == SizeOf(schema)
  {
    if |schema| == 0 then []
    else
      FieldToBytes(schema[0], rec[0]) + Encode(schema[1..], rec[1..])
  }

  /** Encoding a record with one more field in front puts that field's
      bytes in front of the encoding. */
  lemma EncodeCons(w: Width, v: int, schema: Schema, rec: Record)
    requires Fits(w, v) && WellTyped(schema, rec)
    ensures WellTyped([w] + schema, [v] + rec)
    ensures Encode([w] + schema, [v] + rec) == FieldToBytes(w, v) + Encode(schema, rec)
  {
    assert ([w] + schema)[1..] == schema && ([v] + rec)[1..] == rec;
  }

  /** Two concatenations with equally long first parts split equally. */
  lemma ConcatSplit(x1: seq<u8>, y1: seq<u8>, x2: seq<u8>, y2: seq<u8>)
    requires |x1| == |x2|
    requires x1 + y1 == x2 + y2
    ensures x1 == x2 && y1 == y2
  {
    assert x1 == (x1 + y1)[..|x1|];
    assert x2 == (x2 + y2)[..|x2|];
    assert y1 == (x1 + y1)[|x1|..];
    assert y2 == (x2 + y2)[|x2|..];
  }

  /** Two well-typed records with the same encoding are the same record. */
  lemma {:induction false} EncodeInjective(schema: Schema, a: Record, b: Record)
    requires WellTyped(schema, a) && WellTyped(schema, b)
    requires Encode(schema, a) == Encode(schema, b)
    ensures a == b
  {
    if |schema| > 0 {
      var fa, fb := FieldToBytes(schema[0], a[0]), FieldToBytes(schema[0], b[0]);
      ConcatSplit(fa, Encode(schema[1..], a[1..]), fb, Encode(schema[1..], b[1..]));
      FieldToBytesInjective(schema[0], a[0], b[0]);
      EncodeInjective(schema[1..], a[1..], b[1..]);
      assert a == [a[0]] + a[1..];
      assert b == [b[0]] + b[1..];
    }
  }

  /** The generated struct literal: each field initialised by
      `from_bytes(&mut buffer)`, evaluated left to right. The fields read
      re-encode to exactly the bytes consumed. */
  function ReadFields(schema: Schema, buffer: seq<u8>): (r: (Record, seq<u8>))
    requires |buffer| >= SizeOf(schema)
    ensures WellTyped(schema, r.0)
    ensures Encode(schema, r.0) + r.1 == buffer
    decreases |schema|
  {
    if |schema| == 0 then ([], buffer)
    else
      var first := FieldFromBytes(schema[0], buffer);
      var others := ReadFields(schema[1..], first.1);
      ReadFieldsStep(schema[0], schema[1..], buffer, first.0, first.1, others.0, others.1);
      assert [schema[0]] + schema[1..] == schema;
      ([first.0] + others.0, others.1)
  }

  /** One step of `ReadFields`: the first field read in front of the rest. */
  lemma ReadFieldsStep(w: Width, schema: Schema, buffer: seq<u8>, v: int, rest: seq<u8>, vs: Record, rest': seq<u8>)
    requires Fits(w, v) && FieldToBytes(w, v) + rest == buffer
    requires WellTyped(schema, vs) && Encode(schema, vs) + rest' == rest
    ensures WellTyped([w] + schema, [v] + vs)
    ensures Encode([w] + schema, [v] + vs) + rest' == buffer
  {
    EncodeCons(w, v, schema, vs);
    assert (FieldToBytes(w, v) + Encode(schema, vs)) + rest' == FieldToBytes(w, v) + (Encode(schema, vs) + rest');
  }

  /** The generated `try_parse`: `None` when the buffer is shorter than the
      struct's size, otherwise the fields read from its front and the size
      as the consumed length. The leading tag byte is not checked. */
  function TryParse(schema: Schema, buffer: seq<u8>): (r: Option<(Record, nat)>)
    ensures r.None? <==> |buffer| < SizeOf(schema)
    ensures r.Some? ==> r.value.1 == SizeOf(schema)
    ensures r.Some? ==> WellTyped(schema, r.value.0)
    ensures r.Some? ==> Encode(schema, r.value.0) == buffer[..SizeOf(schema)]
  {
    var size := SizeOf(schema);
    if |buffer| < size then None
    else
      var (rec, rest) := ReadFields(schema, buffer);
      assert buffer[..size] == (Encode(schema, rec) + rest)[..size];
      Some((rec, size))
  }

  /** Decoding an encoding, whatever bytes follow it, gives back the record
      and consumes exactly the struct's size; any strict prefix of an
      encoding decodes to `None`. */
  lemma TryParseEncode(schema: Schema, rec: Record, extra: seq<u8>)
    requires WellTyped(schema, rec)
    ensures TryParse(schema, Encode(schema, rec) + extra) == Some((rec, SizeOf(schema)))
    ensures forall k :: 0 <= k < SizeOf(schema) ==> TryParse(schema, Encode(schema, rec)[..k]).None?
  {
    var buffer := Encode(schema, rec) + extra;
    var r := TryParse(schema, buffer);
    assert buffer[..SizeOf(schema)] == Encode(schema, rec);
    EncodeInjective(schema, r.value.0, rec);
  }
}
