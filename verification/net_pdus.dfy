/** The topology and ring-membership messages (`net_pdus.rs`). Every one is
    a struct of u8/u16/u32 fields whose codec is the derived one, so each is
    an instance of a `PduDerive` schema. */
module NetPdus {
  import opened Wrappers
  import opened PduIo
  import opened PduDerive

  const NET_ALIVE_ID: u8 := 0
  const NET_GET_NODE_ID: u8 := 1
  const NET_GET_NODE_RESPONSE_ID: u8 := 2
  const NET_JOIN_ID: u8 := 3
  const NET_JOIN_RESPONSE_ID: u8 := 4
  const NET_CLOSE_CONNECTION_ID: u8 := 5
  const NET_NEW_RANGE_ID: u8 := 6
  const NET_LEAVING_ID: u8 := 7
  const NET_NEW_RANGE_RESPONSE_ID: u8 := 8

  /** The wire sizes the node's framing code relies on, written by hand in
      the source independently of the derived sizes. */
  const NET_ALIVE_SIZE: nat := 1
  const NET_GET_NODE_SIZE: nat := 1
  const NET_GET_NODE_RESPONSE_SIZE: nat := 1 + 4 + 2
  const NET_JOIN_SIZE: nat := 1 + 4 + 2 + 1 + 4 + 2
  const NET_JOIN_RESPONSE_SIZE: nat := 1 + 4 + 2 + 1 + 1
  const NET_CLOSE_CONNECTION_SIZE: nat := 1
  const NET_NEW_RANGE_SIZE: nat := 1 + 1 + 1
  const NET_LEAVING_SIZE: nat := 1 + 4 + 2
  const NET_NEW_RANGE_RESPONSE_SIZE: nat := 1

  /** `NetGetNodeResponsePdu`: the address of some node already in the ring. */
  datatype NetGetNodeResponsePdu = NetGetNodeResponsePdu(pduType: u8, address: u32, port: u16)

  /** The field types of `NetGetNodeResponsePdu`, in declaration order. */
  const NET_GET_NODE_RESPONSE_FIELDS: Schema := [W8, W32, W16]

  function NetGetNodeResponseRecord(p: NetGetNodeResponsePdu): Record
  {
    [p.pduType, p.address, p.port]
  }

  function NetGetNodeResponseOfRecord(rec: Record): NetGetNodeResponsePdu
    requires WellTyped(NET_GET_NODE_RESPONSE_FIELDS, rec)
  {
    WellTypedFieldwise(NET_GET_NODE_RESPONSE_FIELDS, rec);
    NetGetNodeResponsePdu(rec[0], rec[1], rec[2])
  }

  /** `NetGetNodeResponsePdu::new`. */
  function NewNetGetNodeResponse(address: u32, port: u16): (p: NetGetNodeResponsePdu)
  {
    NetGetNodeResponsePdu(NET_GET_NODE_RESPONSE_ID, address, port)
  }

  /** The derived `From<NetGetNodeResponsePdu> for Vec<u8>`. */
  function NetGetNodeResponseToBytes(p: NetGetNodeResponsePdu): (r: seq<u8>)
    ensures |r| == NET_GET_NODE_RESPONSE_SIZE
    ensures r[0] == p.pduType
  {
    WellTypedFieldwise(NET_GET_NODE_RESPONSE_FIELDS, NetGetNodeResponseRecord(p));
    Encode(NET_GET_NODE_RESPONSE_FIELDS, NetGetNodeResponseRecord(p))
  }

  /** The derived `ParsePdu::try_parse` of `NetGetNodeResponsePdu`. */
  function NetGetNodeResponseTryParse(buffer: seq<u8>): (r: Option<(NetGetNodeResponsePdu, nat)>)
    ensures r.None? <==> |buffer| < NET_GET_NODE_RESPONSE_SIZE
    ensures r.Some? ==> r.value.1 == NET_GET_NODE_RESPONSE_SIZE
    ensures r.Some? ==> r.value.0.pduType == buffer[0]
    ensures r.Some? ==> NetGetNodeResponseToBytes(r.value.0) == buffer[..NET_GET_NODE_RESPONSE_SIZE]
  {
    match TryParse(NET_GET_NODE_RESPONSE_FIELDS, buffer)
    case None => None
    case Some((rec, size)) =>
      var p := NetGetNodeResponseOfRecord(rec);
      assert NetGetNodeResponseRecord(p) == rec;
      Some((p, size))
  }

  /** Decoding an encoded `NetGetNodeResponsePdu`, whatever follows it, gives it back with
      consumed length `NET_GET_NODE_RESPONSE_SIZE`; a strict prefix of the encoding decodes to `None`. */
  lemma NetGetNodeResponseRoundTrip(p: NetGetNodeResponsePdu, extra: seq<u8>)
    ensures NetGetNodeResponseTryParse(NetGetNodeResponseToBytes(p) + extra) == Some((p, NET_GET_NODE_RESPONSE_SIZE))
    ensures forall k :: 0 <= k < NET_GET_NODE_RESPONSE_SIZE ==> NetGetNodeResponseTryParse(NetGetNodeResponseToBytes(p)[..k]).None?
  {
    WellTypedFieldwise(NET_GET_NODE_RESPONSE_FIELDS, NetGetNodeResponseRecord(p));
    TryParseEncode(NET_GET_NODE_RESPONSE_FIELDS, NetGetNodeResponseRecord(p), extra);
  }

  /** `NetAlivePdu`: a keep-alive with no payload. */
  datatype NetAlivePdu = NetAlivePdu(pduType: u8)

  /** The field types of `NetAlivePdu`, in declaration order. */
  const NET_ALIVE_FIELDS: Schema := [W8]

  function NetAliveRecord(p: NetAlivePdu): Record
  {
    [p.pduType]
  }

  function NetAliveOfRecord(rec: Record): NetAlivePdu
    requires WellTyped(NET_ALIVE_FIELDS, rec)
  {
    WellTypedFieldwise(NET_ALIVE_FIELDS, rec);
    NetAlivePdu(rec[0])
  }

  /** `NetAlivePdu::new`. */
  function NewNetAlive(): (p: NetAlivePdu)
  {
    NetAlivePdu(NET_ALIVE_ID)
  }

  /** The derived `From<NetAlivePdu> for Vec<u8>`. */
  function NetAliveToBytes(p: NetAlivePdu): (r: seq<u8>)
    ensures |r| == NET_ALIVE_SIZE
    ensures r == [p.pduType]
  {
    WellTypedFieldwise(NET_ALIVE_FIELDS, NetAliveRecord(p));
    Encode(NET_ALIVE_FIELDS, NetAliveRecord(p))
  }

  /** The derived `ParsePdu::try_parse` of `NetAlivePdu`. */
  function NetAliveTryParse(buffer: seq<u8>): (r: Option<(NetAlivePdu, nat)>)
    ensures r.None? <==> |buffer| < NET_ALIVE_SIZE
    ensures r.Some? ==> r.value.1 == NET_ALIVE_SIZE
    ensures r.Some? ==> r.value.0.pduType == buffer[0]
    ensures r.Some? ==> NetAliveToBytes(r.value.0) == buffer[..NET_ALIVE_SIZE]
  {
    match TryParse(NET_ALIVE_FIELDS, buffer)
    case None => None
    case Some((rec, size)) =>
      var p := NetAliveOfRecord(rec);
      assert NetAliveRecord(p) == rec;
      Some((p, size))
  }

  /** Decoding an encoded `NetAlivePdu`, whatever follows it, gives it back with
      consumed length `NET_ALIVE_SIZE`; a strict prefix of the encoding decodes to `None`. */
  lemma NetAliveRoundTrip(p: NetAlivePdu, extra: seq<u8>)
    ensures NetAliveTryParse(NetAliveToBytes(p) + extra) == Some((p, NET_ALIVE_SIZE))
    ensures forall k :: 0 <= k < NET_ALIVE_SIZE ==> NetAliveTryParse(NetAliveToBytes(p)[..k]).None?
  {
    WellTypedFieldwise(NET_ALIVE_FIELDS, NetAliveRecord(p));
    TryParseEncode(NET_ALIVE_FIELDS, NetAliveRecord(p), extra);
  }

  /** `NetGetNodePdu`: asks for the address of a node in the ring. */
  datatype NetGetNodePdu = NetGetNodePdu(pduType: u8)

  /** The field types of `NetGetNodePdu`, in declaration order. */
  const NET_GET_NODE_FIELDS: Schema := [W8]

  function NetGetNodeRecord(p: NetGetNodePdu): Record
  {
    [p.pduType]
  }

  function NetGetNodeOfRecord(rec: Record): NetGetNodePdu
    requires WellTyped(NET_GET_NODE_FIELDS, rec)
  {
    WellTypedFieldwise(NET_GET_NODE_FIELDS, rec);
    NetGetNodePdu(rec[0])
  }

  /** `NetGetNodePdu::new`. */
  function NewNetGetNode(): (p: NetGetNodePdu)
  {
    NetGetNodePdu(NET_GET_NODE_ID)
  }

  /** The derived `From<NetGetNodePdu> for Vec<u8>`. */
  function NetGetNodeToBytes(p: NetGetNodePdu): (r: seq<u8>)
    ensures |r| == NET_GET_NODE_SIZE
    ensures r == [p.pduType]
  {
    WellTypedFieldwise(NET_GET_NODE_FIELDS, NetGetNodeRecord(p));
    Encode(NET_GET_NODE_FIELDS, NetGetNodeRecord(p))
  }

  /** The derived `ParsePdu::try_parse` of `NetGetNodePdu`. */
  function NetGetNodeTryParse(buffer: seq<u8>): (r: Option<(NetGetNodePdu, nat)>)
    ensures r.None? <==> |buffer| < NET_GET_NODE_SIZE
    ensures r.Some? ==> r.value.1 == NET_GET_NODE_SIZE
    ensures r.Some? ==> r.value.0.pduType == buffer[0]
    ensures r.Some? ==> NetGetNodeToBytes(r.value.0) == buffer[..NET_GET_NODE_SIZE]
  {
    match TryParse(NET_GET_NODE_FIELDS, buffer)
    case None => None
    case Some((rec, size)) =>
      var p := NetGetNodeOfRecord(rec);
      assert NetGetNodeRecord(p) == rec;
      Some((p, size))
  }

  /** Decoding an encoded `NetGetNodePdu`, whatever follows it, gives it back with
      consumed length `NET_GET_NODE_SIZE`; a strict prefix of the encoding decodes to `None`. */
  lemma NetGetNodeRoundTrip(p: NetGetNodePdu, extra: seq<u8>)
    ensures NetGetNodeTryParse(NetGetNodeToBytes(p) + extra) == Some((p, NET_GET_NODE_SIZE))
    ensures forall k :: 0 <= k < NET_GET_NODE_SIZE ==> NetGetNodeTryParse(NetGetNodeToBytes(p)[..k]).None?
  {
    WellTypedFieldwise(NET_GET_NODE_FIELDS, NetGetNodeRecord(p));
    TryParseEncode(NET_GET_NODE_FIELDS, NetGetNodeRecord(p), extra);
  }

  /** `NetCloseConnectionPdu`: announces that the connection is being closed. */
  datatype NetCloseConnectionPdu = NetCloseConnectionPdu(pduType: u8)

  /** The field types of `NetCloseConnectionPdu`, in declaration order. */
  const NET_CLOSE_CONNECTION_FIELDS: Schema := [W8]

  function NetCloseConnectionRecord(p: NetCloseConnectionPdu): Record
  {
    [p.pduType]
  }

  function NetCloseConnectionOfRecord(rec: Record): NetCloseConnectionPdu
    requires WellTyped(NET_CLOSE_CONNECTION_FIELDS, rec)
  {
    WellTypedFieldwise(NET_CLOSE_CONNECTION_FIELDS, rec);
    NetCloseConnectionPdu(rec[0])
  }

  /** `NetCloseConnectionPdu::new`. */
  function NewNetCloseConnection(): (p: NetCloseConnectionPdu)
  {
    NetCloseConnectionPdu(NET_CLOSE_CONNECTION_ID)
  }

  /** The derived `From<NetCloseConnectionPdu> for Vec<u8>`. */
  function NetCloseConnectionToBytes(p: NetCloseConnectionPdu): (r: seq<u8>)
    ensures |r| == NET_CLOSE_CONNECTION_SIZE
    ensures r == [p.pduType]
  {
    WellTypedFieldwise(NET_CLOSE_CONNECTION_FIELDS, NetCloseConnectionRecord(p));
    Encode(NET_CLOSE_CONNECTION_FIELDS, NetCloseConnectionRecord(p))
  }

  /** The derived `ParsePdu::try_parse` of `NetCloseConnectionPdu`. */
  function NetCloseConnectionTryParse(buffer: seq<u8>): (r: Option<(NetCloseConnectionPdu, nat)>)
    ensures r.None? <==> |buffer| < NET_CLOSE_CONNECTION_SIZE
    ensures r.Some? ==> r.value.1 == NET_CLOSE_CONNECTION_SIZE
    ensures r.Some? ==> r.value.0.pduType == buffer[0]
    ensures r.Some? ==> NetCloseConnectionToBytes(r.value.0) == buffer[..NET_CLOSE_CONNECTION_SIZE]
  {
    match TryParse(NET_CLOSE_CONNECTION_FIELDS, buffer)
    case None => None
    case Some((rec, size)) =>
      var p := NetCloseConnectionOfRecord(rec);
      assert NetCloseConnectionRecord(p) == rec;
      Some((p, size))
  }

  /** Decoding an encoded `NetCloseConnectionPdu`, whatever follows it, gives it back with
      consumed length `NET_CLOSE_CONNECTION_SIZE`; a strict prefix of the encoding decodes to `None`. */
  lemma NetCloseConnectionRoundTrip(p: NetCloseConnectionPdu, extra: seq<u8>)
    ensures NetCloseConnectionTryParse(NetCloseConnectionToBytes(p) + extra) == Some((p, NET_CLOSE_CONNECTION_SIZE))
    ensures forall k :: 0 <= k < NET_CLOSE_CONNECTION_SIZE ==> NetCloseConnectionTryParse(NetCloseConnectionToBytes(p)[..k]).None?
  {
    WellTypedFieldwise(NET_CLOSE_CONNECTION_FIELDS, NetCloseConnectionRecord(p));
    TryParseEncode(NET_CLOSE_CONNECTION_FIELDS, NetCloseConnectionRecord(p), extra);
  }

  /** `NetJoinPdu`: a join request carrying the joiner's address and the node with the largest span. */
  datatype NetJoinPdu = NetJoinPdu(pduType: u8, srcAddress: u32, srcPort: u16, maxSpan: u8, maxAddress: u32, maxPort: u16)

  /** The field types of `NetJoinPdu`, in declaration order. */
  const NET_JOIN_FIELDS: Schema := [W8, W32, W16, W8, W32, W16]

  function NetJoinRecord(p: NetJoinPdu): Record
  {
    [p.pduType, p.srcAddress, p.srcPort, p.maxSpan, p.maxAddress, p.maxPort]
  }

  function NetJoinOfRecord(rec: Record): NetJoinPdu
    requires WellTyped(NET_JOIN_FIELDS, rec)
  {
    WellTypedFieldwise(NET_JOIN_FIELDS, rec);
    NetJoinPdu(rec[0], rec[1], rec[2], rec[3], rec[4], rec[5])
  }

  /** `NetJoinPdu::new`. */
  function NewNetJoin(srcAddress: u32, srcPort: u16, maxSpan: u8, maxAddress: u32, maxPort: u16): (p: NetJoinPdu)
  {
    NetJoinPdu(NET_JOIN_ID, srcAddress, srcPort, maxSpan, maxAddress, maxPort)
  }

  /** The derived `From<NetJoinPdu> for Vec<u8>`. */
  function NetJoinToBytes(p: NetJoinPdu): (r: seq<u8>)
    ensures |r| == NET_JOIN_SIZE
    ensures r[0] == p.pduType
  {
    WellTypedFieldwise(NET_JOIN_FIELDS, NetJoinRecord(p));
    Encode(NET_JOIN_FIELDS, NetJoinRecord(p))
  }

  /** The derived `ParsePdu::try_parse` of `NetJoinPdu`. */
  function NetJoinTryParse(buffer: seq<u8>): (r: Option<(NetJoinPdu, nat)>)
    ensures r.None? <==> |buffer| < NET_JOIN_SIZE
    ensures r.Some? ==> r.value.1 == NET_JOIN_SIZE
    ensures r.Some? ==> r.value.0.pduType == buffer[0]
    ensures r.Some? ==> NetJoinToBytes(r.value.0) == buffer[..NET_JOIN_SIZE]
  {
    match TryParse(NET_JOIN_FIELDS, buffer)
    case None => None
    case Some((rec, size)) =>
      var p := NetJoinOfRecord(rec);
      assert NetJoinRecord(p) == rec;
      Some((p, size))
  }

  /** Decoding an encoded `NetJoinPdu`, whatever follows it, gives it back with
      consumed length `NET_JOIN_SIZE`; a strict prefix of the encoding decodes to `None`. */
  lemma NetJoinRoundTrip(p: NetJoinPdu, extra: seq<u8>)
    ensures NetJoinTryParse(NetJoinToBytes(p) + extra) == Some((p, NET_JOIN_SIZE))
    ensures forall k :: 0 <= k < NET_JOIN_SIZE ==> NetJoinTryParse(NetJoinToBytes(p)[..k]).None?
  {
    WellTypedFieldwise(NET_JOIN_FIELDS, NetJoinRecord(p));
    TryParseEncode(NET_JOIN_FIELDS, NetJoinRecord(p), extra);
  }

  /** `NetJoinResponsePdu`: the joiner's successor and its assigned key range. */
  datatype NetJoinResponsePdu = NetJoinResponsePdu(pduType: u8, nextAddress: u32, nextPort: u16, rangeStart: u8, rangeEnd: u8)

  /** The field types of `NetJoinResponsePdu`, in declaration order. */
  const NET_JOIN_RESPONSE_FIELDS: Schema := [W8, W32, W16, W8, W8]

  function NetJoinResponseRecord(p: NetJoinResponsePdu): Record
  {
    [p.pduType, p.nextAddress, p.nextPort, p.rangeStart, p.rangeEnd]
  }

  function NetJoinResponseOfRecord(rec: Record): NetJoinResponsePdu
    requires WellTyped(NET_JOIN_RESPONSE_FIELDS, rec)
  {
    WellTypedFieldwise(NET_JOIN_RESPONSE_FIELDS, rec);
    NetJoinResponsePdu(rec[0], rec[1], rec[2], rec[3], rec[4])
  }

  /** `NetJoinResponsePdu::new`. */
  function NewNetJoinResponse(nextAddress: u32, nextPort: u16, rangeStart: u8, rangeEnd: u8): (p: NetJoinResponsePdu)
  {
    NetJoinResponsePdu(NET_JOIN_RESPONSE_ID, nextAddress, nextPort, rangeStart, rangeEnd)
  }

  /** The derived `From<NetJoinResponsePdu> for Vec<u8>`. */
  function NetJoinResponseToBytes(p: NetJoinResponsePdu): (r: seq<u8>)
    ensures |r| == NET_JOIN_RESPONSE_SIZE
    ensures r[0] == p.pduType
  {
    WellTypedFieldwise(NET_JOIN_RESPONSE_FIELDS, NetJoinResponseRecord(p));
    Encode(NET_JOIN_RESPONSE_FIELDS, NetJoinResponseRecord(p))
  }

  /** The derived `ParsePdu::try_parse` of `NetJoinResponsePdu`. */
  function NetJoinResponseTryParse(buffer: seq<u8>): (r: Option<(NetJoinResponsePdu, nat)>)
    ensures r.None? <==> |buffer| < NET_JOIN_RESPONSE_SIZE
    ensures r.Some? ==> r.value.1 == NET_JOIN_RESPONSE_SIZE
    ensures r.Some? ==> r.value.0.pduType == buffer[0]
    ensures r.Some? ==> NetJoinResponseToBytes(r.value.0) == buffer[..NET_JOIN_RESPONSE_SIZE]
  {
    match TryParse(NET_JOIN_RESPONSE_FIELDS, buffer)
    case None => None
    case Some((rec, size)) =>
      var p := NetJoinResponseOfRecord(rec);
      assert NetJoinResponseRecord(p) == rec;
      Some((p, size))
  }

  /** Decoding an encoded `NetJoinResponsePdu`, whatever follows it, gives it back with
      consumed length `NET_JOIN_RESPONSE_SIZE`; a strict prefix of the encoding decodes to `None`. */
  lemma NetJoinResponseRoundTrip(p: NetJoinResponsePdu, extra: seq<u8>)
    ensures NetJoinResponseTryParse(NetJoinResponseToBytes(p) + extra) == Some((p, NET_JOIN_RESPONSE_SIZE))
    ensures forall k :: 0 <= k < NET_JOIN_RESPONSE_SIZE ==> NetJoinResponseTryParse(NetJoinResponseToBytes(p)[..k]).None?
  {
    WellTypedFieldwise(NET_JOIN_RESPONSE_FIELDS, NetJoinResponseRecord(p));
    TryParseEncode(NET_JOIN_RESPONSE_FIELDS, NetJoinResponseRecord(p), extra);
  }

  /** `NetNewRangePdu`: a key range handed to another node. */
  datatype NetNewRangePdu = NetNewRangePdu(pduType: u8, rangeStart: u8, rangeEnd: u8)

  /** The field types of `NetNewRangePdu`, in declaration order. */
  const NET_NEW_RANGE_FIELDS: Schema := [W8, W8, W8]

  function NetNewRangeRecord(p: NetNewRangePdu): Record
  {
    [p.pduType, p.rangeStart, p.rangeEnd]
  }

  function NetNewRangeOfRecord(rec: Record): NetNewRangePdu
    requires WellTyped(NET_NEW_RANGE_FIELDS, rec)
  {
    WellTypedFieldwise(NET_NEW_RANGE_FIELDS, rec);
    NetNewRangePdu(rec[0], rec[1], rec[2])
  }

  /** `NetNewRangePdu::new`. */
  function NewNetNewRange(rangeStart: u8, rangeEnd: u8): (p: NetNewRangePdu)
  {
    NetNewRangePdu(NET_NEW_RANGE_ID, rangeStart, rangeEnd)
  }

  /** The derived `From<NetNewRangePdu> for Vec<u8>`. */
  function NetNewRangeToBytes(p: NetNewRangePdu): (r: seq<u8>)
    ensures |r| == NET_NEW_RANGE_SIZE
    ensures r[0] == p.pduType
  {
    WellTypedFieldwise(NET_NEW_RANGE_FIELDS, NetNewRangeRecord(p));
    Encode(NET_NEW_RANGE_FIELDS, NetNewRangeRecord(p))
  }

  /** The derived `ParsePdu::try_parse` of `NetNewRangePdu`. */
  function NetNewRangeTryParse(buffer: seq<u8>): (r: Option<(NetNewRangePdu, nat)>)
    ensures r.None? <==> |buffer| < NET_NEW_RANGE_SIZE
    ensures r.Some? ==> r.value.1 == NET_NEW_RANGE_SIZE
    ensures r.Some? ==> r.value.0.pduType == buffer[0]
    ensures r.Some? ==> NetNewRangeToBytes(r.value.0) == buffer[..NET_NEW_RANGE_SIZE]
  {
    match TryParse(NET_NEW_RANGE_FIELDS, buffer)
    case None => None
    case Some((rec, size)) =>
      var p := NetNewRangeOfRecord(rec);
      assert NetNewRangeRecord(p) == rec;
      Some((p, size))
  }

  /** Decoding an encoded `NetNewRangePdu`, whatever follows it, gives it back with
      consumed length `NET_NEW_RANGE_SIZE`; a strict prefix of the encoding decodes to `None`. */
  lemma NetNewRangeRoundTrip(p: NetNewRangePdu, extra: seq<u8>)
    ensures NetNewRangeTryParse(NetNewRangeToBytes(p) + extra) == Some((p, NET_NEW_RANGE_SIZE))
    ensures forall k :: 0 <= k < NET_NEW_RANGE_SIZE ==> NetNewRangeTryParse(NetNewRangeToBytes(p)[..k]).None?
  {
    WellTypedFieldwise(NET_NEW_RANGE_FIELDS, NetNewRangeRecord(p));
    TryParseEncode(NET_NEW_RANGE_FIELDS, NetNewRangeRecord(p), extra);
  }

  /** `NetNewRangeResponsePdu`: acknowledges a new range. */
  datatype NetNewRangeResponsePdu = NetNewRangeResponsePdu(pduType: u8)

  /** The field types of `NetNewRangeResponsePdu`, in declaration order. */
  const NET_NEW_RANGE_RESPONSE_FIELDS: Schema := [W8]

  function NetNewRangeResponseRecord(p: NetNewRangeResponsePdu): Record
  {
    [p.pduType]
  }

  function NetNewRangeResponseOfRecord(rec: Record): NetNewRangeResponsePdu
    requires WellTyped(NET_NEW_RANGE_RESPONSE_FIELDS, rec)
  {
    WellTypedFieldwise(NET_NEW_RANGE_RESPONSE_FIELDS, rec);
    NetNewRangeResponsePdu(rec[0])
  }

  /** `NetNewRangeResponsePdu::new`. */
  function NewNetNewRangeResponse(): (p: NetNewRangeResponsePdu)
  {
    NetNewRangeResponsePdu(NET_NEW_RANGE_RESPONSE_ID)
  }

  /** The derived `From<NetNewRangeResponsePdu> for Vec<u8>`. */
  function NetNewRangeResponseToBytes(p: NetNewRangeResponsePdu): (r: seq<u8>)
    ensures |r| == NET_NEW_RANGE_RESPONSE_SIZE
    ensures r == [p.pduType]
  {
    WellTypedFieldwise(NET_NEW_RANGE_RESPONSE_FIELDS, NetNewRangeResponseRecord(p));
    Encode(NET_NEW_RANGE_RESPONSE_FIELDS, NetNewRangeResponseRecord(p))
  }

  /** The derived `ParsePdu::try_parse` of `NetNewRangeResponsePdu`. */
  function NetNewRangeResponseTryParse(buffer: seq<u8>): (r: Option<(NetNewRangeResponsePdu, nat)>)
    ensures r.None? <==> |buffer| < NET_NEW_RANGE_RESPONSE_SIZE
    ensures r.Some? ==> r.value.1 == NET_NEW_RANGE_RESPONSE_SIZE
    ensures r.Some? ==> r.value.0.pduType == buffer[0]
    ensures r.Some? ==> NetNewRangeResponseToBytes(r.value.0) == buffer[..NET_NEW_RANGE_RESPONSE_SIZE]
  {
    match TryParse(NET_NEW_RANGE_RESPONSE_FIELDS, buffer)
    case None => None
    case Some((rec, size)) =>
      var p := NetNewRangeResponseOfRecord(rec);
      assert NetNewRangeResponseRecord(p) == rec;
      Some((p, size))
  }

  /** Decoding an encoded `NetNewRangeResponsePdu`, whatever follows it, gives it back with
      consumed length `NET_NEW_RANGE_RESPONSE_SIZE`; a strict prefix of the encoding decodes to `None`. */
  lemma NetNewRangeResponseRoundTrip(p: NetNewRangeResponsePdu, extra: seq<u8>)
    ensures NetNewRangeResponseTryParse(NetNewRangeResponseToBytes(p) + extra) == Some((p, NET_NEW_RANGE_RESPONSE_SIZE))
    ensures forall k :: 0 <= k < NET_NEW_RANGE_RESPONSE_SIZE ==> NetNewRangeResponseTryParse(NetNewRangeResponseToBytes(p)[..k]).None?
  {
    WellTypedFieldwise(NET_NEW_RANGE_RESPONSE_FIELDS, NetNewRangeResponseRecord(p));
    TryParseEncode(NET_NEW_RANGE_RESPONSE_FIELDS, NetNewRangeResponseRecord(p), extra);
  }

  /** `NetLeavingPdu`: announces departure and names the node taking over. */
  datatype NetLeavingPdu = NetLeavingPdu(pduType: u8, newAddress: u32, newPort: u16)

  /** The field types of `NetLeavingPdu`, in declaration order. */
  const NET_LEAVING_FIELDS: Schema := [W8, W32, W16]

  function NetLeavingRecord(p: NetLeavingPdu): Record
  {
    [p.pduType, p.newAddress, p.newPort]
  }

  function NetLeavingOfRecord(rec: Record): NetLeavingPdu
    requires WellTyped(NET_LEAVING_FIELDS, rec)
  {
    WellTypedFieldwise(NET_LEAVING_FIELDS, rec);
    NetLeavingPdu(rec[0], rec[1], rec[2])
  }

  /** `NetLeavingPdu::new`. */
  function NewNetLeaving(newAddress: u32, newPort: u16): (p: NetLeavingPdu)
  {
    NetLeavingPdu(NET_LEAVING_ID, newAddress, newPort)
  }

  /** The derived `From<NetLeavingPdu> for Vec<u8>`. */
  function NetLeavingToBytes(p: NetLeavingPdu): (r: seq<u8>)
    ensures |r| == NET_LEAVING_SIZE
    ensures r[0] == p.pduType
  {
    WellTypedFieldwise(NET_LEAVING_FIELDS, NetLeavingRecord(p));
    Encode(NET_LEAVING_FIELDS, NetLeavingRecord(p))
  }

  /** The derived `ParsePdu::try_parse` of `NetLeavingPdu`. */
  function NetLeavingTryParse(buffer: seq<u8>): (r: Option<(NetLeavingPdu, nat)>)
    ensures r.None? <==> |buffer| < NET_LEAVING_SIZE
    ensures r.Some? ==> r.value.1 == NET_LEAVING_SIZE
    ensures r.Some? ==> r.value.0.pduType == buffer[0]
    ensures r.Some? ==> NetLeavingToBytes(r.value.0) == buffer[..NET_LEAVING_SIZE]
  {
    match TryParse(NET_LEAVING_FIELDS, buffer)
    case None => None
    case Some((rec, size)) =>
      var p := NetLeavingOfRecord(rec);
      assert NetLeavingRecord(p) == rec;
      Some((p, size))
  }

  /** Decoding an encoded `NetLeavingPdu`, whatever follows it, gives it back with
      consumed length `NET_LEAVING_SIZE`; a strict prefix of the encoding decodes to `None`. */
  lemma NetLeavingRoundTrip(p: NetLeavingPdu, extra: seq<u8>)
    ensures NetLeavingTryParse(NetLeavingToBytes(p) + extra) == Some((p, NET_LEAVING_SIZE))
    ensures forall k :: 0 <= k < NET_LEAVING_SIZE ==> NetLeavingTryParse(NetLeavingToBytes(p)[..k]).None?
  {
    WellTypedFieldwise(NET_LEAVING_FIELDS, NetLeavingRecord(p));
    TryParseEncode(NET_LEAVING_FIELDS, NetLeavingRecord(p), extra);
  }

  /** Every derived size agrees with the hand-written size constant. */
  lemma NetSizesMatchDerived()
    ensures SizeOf(NET_ALIVE_FIELDS) == NET_ALIVE_SIZE
    ensures SizeOf(NET_GET_NODE_FIELDS) == NET_GET_NODE_SIZE
    ensures SizeOf(NET_GET_NODE_RESPONSE_FIELDS) == NET_GET_NODE_RESPONSE_SIZE
    ensures SizeOf(NET_JOIN_FIELDS) == NET_JOIN_SIZE
    ensures SizeOf(NET_JOIN_RESPONSE_FIELDS) == NET_JOIN_RESPONSE_SIZE
    ensures SizeOf(NET_CLOSE_CONNECTION_FIELDS) == NET_CLOSE_CONNECTION_SIZE
    ensures SizeOf(NET_NEW_RANGE_FIELDS) == NET_NEW_RANGE_SIZE
    ensures SizeOf(NET_LEAVING_FIELDS) == NET_LEAVING_SIZE
    ensures SizeOf(NET_NEW_RANGE_RESPONSE_FIELDS) == NET_NEW_RANGE_RESPONSE_SIZE
  {
  }
}
