/** The address-discovery messages (`stun_pdus.rs`): a lookup that asks a
    node how it sees the asker, and the response carrying that address. Both
    use the derived codec. */
module StunPdus {
  import opened Wrappers
  import opened PduIo
  import opened PduDerive

  const STUN_LOOKUP_ID: u8 := 200
  const STUN_RESPONSE_ID: u8 := 201

  const STUN_LOOKUP_SIZE: nat := 1
  const STUN_RESPONSE_SIZE: nat := 1 + 4

  /** `StunResponsePdu`: the externally visible address of the asker. */
  datatype StunResponsePdu = StunResponsePdu(pduType: u8, address: u32)

  /** The field types of `StunResponsePdu`, in declaration order. */
  const STUN_RESPONSE_FIELDS: Schema := [W8, W32]

  function StunResponseRecord(p: StunResponsePdu): Record
  {
    [p.pduType, p.address]
  }

  function StunResponseOfRecord(rec: Record): StunResponsePdu
    requires WellTyped(STUN_RESPONSE_FIELDS, rec)
  {
    WellTypedFieldwise(STUN_RESPONSE_FIELDS, rec);
    StunResponsePdu(rec[0], rec[1])
  }

  /** `StunResponsePdu::new`. */
  function NewStunResponse(address: u32): (p: StunResponsePdu)
  {
    StunResponsePdu(STUN_RESPONSE_ID, address)
  }

  /** The derived `From<StunResponsePdu> for Vec<u8>`. */
  function StunResponseToBytes(p: StunResponsePdu): (r: seq<u8>)
    ensures |r| == STUN_RESPONSE_SIZE
    ensures r[0] == p.pduType
  {
    WellTypedFieldwise(STUN_RESPONSE_FIELDS, StunResponseRecord(p));
    Encode(STUN_RESPONSE_FIELDS, StunResponseRecord(p))
  }

  /** The derived `ParsePdu::try_parse` of `StunResponsePdu`. */
  function StunResponseTryParse(buffer: seq<u8>): (r: Option<(StunResponsePdu, nat)>)
    ensures r.None? <==> |buffer| < STUN_RESPONSE_SIZE
    ensures r.Some? ==> r.value.1 == STUN_RESPONSE_SIZE
    ensures r.Some? ==> r.value.0.pduType == buffer[0]
    ensures r.Some? ==> StunResponseToBytes(r.value.0) == buffer[..STUN_RESPONSE_SIZE]
  {
    match TryParse(STUN_RESPONSE_FIELDS, buffer)
    case None => None
    case Some((rec, size)) =>
      var p := StunResponseOfRecord(rec);
      assert StunResponseRecord(p) == rec;
      Some((p, size))
  }

  /** Decoding an encoded `StunResponsePdu`, whatever follows it, gives it back with
      consumed length `STUN_RESPONSE_SIZE`; a strict prefix of the encoding decodes to `None`. */
  lemma StunResponseRoundTrip(p: StunResponsePdu, extra: seq<u8>)
    ensures StunResponseTryParse(StunResponseToBytes(p) + extra) == Some((p, STUN_RESPONSE_SIZE))
    ensures forall k :: 0 <= k < STUN_RESPONSE_SIZE ==> StunResponseTryParse(StunResponseToBytes(p)[..k]).None?
  {
    WellTypedFieldwise(STUN_RESPONSE_FIELDS, StunResponseRecord(p));
    TryParseEncode(STUN_RESPONSE_FIELDS, StunResponseRecord(p), extra);
  }

  /** `StunLookupPdu`: asks for the asker's externally visible address. */
  datatype StunLookupPdu = StunLookupPdu(pduType: u8)

  /** The field types of `StunLookupPdu`, in declaration order. */
  const STUN_LOOKUP_FIELDS: Schema := [W8]

  function StunLookupRecord(p: StunLookupPdu): Record
  {
    [p.pduType]
  }

  function StunLookupOfRecord(rec: Record): StunLookupPdu
    requires WellTyped(STUN_LOOKUP_FIELDS, rec)
  {
    WellTypedFieldwise(STUN_LOOKUP_FIELDS, rec);
    StunLookupPdu(rec[0])
  }

  /** `StunLookupPdu::new`. */
  function NewStunLookup(): (p: StunLookupPdu)
  {
    StunLookupPdu(STUN_LOOKUP_ID)
  }

  /** The derived `From<StunLookupPdu> for Vec<u8>`. */
  function StunLookupToBytes(p: StunLookupPdu): (r: seq<u8>)
    ensures |r| == STUN_LOOKUP_SIZE
    ensures r == [p.pduType]
  {
    WellTypedFieldwise(STUN_LOOKUP_FIELDS, StunLookupRecord(p));
    Encode(STUN_LOOKUP_FIELDS, StunLookupRecord(p))
  }

  /** The derived `ParsePdu::try_parse` of `StunLookupPdu`. */
  function StunLookupTryParse(buffer: seq<u8>): (r: Option<(StunLookupPdu, nat)>)
    ensures r.None? <==> |buffer| < STUN_LOOKUP_SIZE
    ensures r.Some? ==> r.value.1 == STUN_LOOKUP_SIZE
    ensures r.Some? ==> r.value.0.pduType == buffer[0]
    ensures r.Some? ==> StunLookupToBytes(r.value.0) == buffer[..STUN_LOOKUP_SIZE]
  {
    match TryParse(STUN_LOOKUP_FIELDS, buffer)
    case None => None
    case Some((rec, size)) =>
      var p := StunLookupOfRecord(rec);
      assert StunLookupRecord(p) == rec;
      Some((p, size))
  }

  /** Decoding an encoded `StunLookupPdu`, whatever follows it, gives it back with
      consumed length `STUN_LOOKUP_SIZE`; a strict prefix of the encoding decodes to `None`. */
  lemma StunLookupRoundTrip(p: StunLookupPdu, extra: seq<u8>)
    ensures StunLookupTryParse(StunLookupToBytes(p) + extra) == Some((p, STUN_LOOKUP_SIZE))
    ensures forall k :: 0 <= k < STUN_LOOKUP_SIZE ==> StunLookupTryParse(StunLookupToBytes(p)[..k]).None?
  {
    WellTypedFieldwise(STUN_LOOKUP_FIELDS, StunLookupRecord(p));
    TryParseEncode(STUN_LOOKUP_FIELDS, StunLookupRecord(p), extra);
  }

  /** Both derived sizes agree with the hand-written size constants. */
  lemma StunSizesMatchDerived()
    ensures SizeOf(STUN_LOOKUP_FIELDS) == STUN_LOOKUP_SIZE
    ensures SizeOf(STUN_RESPONSE_FIELDS) == STUN_RESPONSE_SIZE
  {
  }

  /** A response is the tag 201 followed by the address in big-endian
      order, and it decodes back, consuming five bytes. */
  lemma StunResponseLayout(address: u32)
    ensures StunResponseToBytes(NewStunResponse(address)) == [STUN_RESPONSE_ID] + U32ToBytes(address)
    ensures BeValue(StunResponseToBytes(NewStunResponse(address))[1..]) == address
    ensures StunResponseTryParse(StunResponseToBytes(NewStunResponse(address))) == Some((NewStunResponse(address), 5))
  {
    var p := NewStunResponse(address);
    EncodeCons(W32, address, [], []);
    EncodeCons(W8, STUN_RESPONSE_ID, [W32], [address]);
    assert StunResponseRecord(p) == [STUN_RESPONSE_ID as int] + [address];
    assert StunResponseToBytes(p)[1..] == U32ToBytes(address);
    StunResponseRoundTrip(p, []);
    assert StunResponseToBytes(p) + [] == StunResponseToBytes(p);
  }
}
