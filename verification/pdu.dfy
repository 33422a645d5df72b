/** The message union of `mod.rs`: one variant per message type and the
    encoder that dispatches on the variant. The source has no decoder that
    dispatches on the tag byte, so none is modelled. */
module Pdus {
  import opened PduIo
  import opened NetPdus
  import opened StunPdus
  import opened ValPdus

  /** `PDU`: every message the node sends or receives. */
  datatype Pdu =
      NetAlive(netAlive: NetAlivePdu)
    | NetGetNode(netGetNode: NetGetNodePdu)
    | NetGetNodeResponse(netGetNodeResponse: NetGetNodeResponsePdu)
    | NetJoin(netJoin: NetJoinPdu)
    | NetJoinResponse(netJoinResponse: NetJoinResponsePdu)
    | NetCloseConnection(netCloseConnection: NetCloseConnectionPdu)
    | NetNewRange(netNewRange: NetNewRangePdu)
    | NetNewRangeResponse(netNewRangeResponse: NetNewRangeResponsePdu)
    | NetLeaving(netLeaving: NetLeavingPdu)
    | ValInsert(valInsert: ValInsertPdu)
    | ValRemove(valRemove: ValRemovePdu)
    | ValLookup(valLookup: ValLookupPdu)
    | ValLookupResponse(valLookupResponse: ValLookupResponsePdu)
    | StunLookup(stunLookup: StunLookupPdu)
    | StunResponse(stunResponse: StunResponsePdu)

  /** The message types, without payloads. */
  datatype Kind =
      NetAliveKind
    | NetGetNodeKind
    | NetGetNodeResponseKind
    | NetJoinKind
    | NetJoinResponseKind
    | NetCloseConnectionKind
    | NetNewRangeKind
    | NetNewRangeResponseKind
    | NetLeavingKind
    | ValInsertKind
    | ValRemoveKind
    | ValLookupKind
    | ValLookupResponseKind
    | StunLookupKind
    | StunResponseKind

  /** Which message type `p` is. */
  function KindOf(p: Pdu): Kind
  {
    match p
    case NetAlive(_) => NetAliveKind
    case NetGetNode(_) => NetGetNodeKind
    case NetGetNodeResponse(_) => NetGetNodeResponseKind
    case NetJoin(_) => NetJoinKind
    case NetJoinResponse(_) => NetJoinResponseKind
    case NetCloseConnection(_) => NetCloseConnectionKind
    case NetNewRange(_) => NetNewRangeKind
    case NetNewRangeResponse(_) => NetNewRangeResponseKind
    case NetLeaving(_) => NetLeavingKind
    case ValInsert(_) => ValInsertKind
    case ValRemove(_) => ValRemoveKind
    case ValLookup(_) => ValLookupKind
    case ValLookupResponse(_) => ValLookupResponseKind
    case StunLookup(_) => StunLookupKind
    case StunResponse(_) => StunResponseKind
  }

  /** The id constant of each message type: the tag its `new` stores. */
  function KindId(k: Kind): u8
  {
    match k
    case NetAliveKind => NET_ALIVE_ID
    case NetGetNodeKind => NET_GET_NODE_ID
    case NetGetNodeResponseKind => NET_GET_NODE_RESPONSE_ID
    case NetJoinKind => NET_JOIN_ID
    case NetJoinResponseKind => NET_JOIN_RESPONSE_ID
    case NetCloseConnectionKind => NET_CLOSE_CONNECTION_ID
    case NetNewRangeKind => NET_NEW_RANGE_ID
    case NetNewRangeResponseKind => NET_NEW_RANGE_RESPONSE_ID
    case NetLeavingKind => NET_LEAVING_ID
    case ValInsertKind => VAL_INSERT_ID
    case ValRemoveKind => VAL_REMOVE_ID
    case ValLookupKind => VAL_LOOKUP_ID
    case ValLookupResponseKind => VAL_LOOKUP_RESPONSE_ID
    case StunLookupKind => STUN_LOOKUP_ID
    case StunResponseKind => STUN_RESPONSE_ID
  }

  /** The `pdu_type` field of the payload, whatever the variant. */
  function PduType(p: Pdu): u8
  {
    match p
    case NetAlive(x) => x.pduType
    case NetGetNode(x) => x.pduType
    case NetGetNodeResponse(x) => x.pduType
    case NetJoin(x) => x.pduType
    case NetJoinResponse(x) => x.pduType
    case NetCloseConnection(x) => x.pduType
    case NetNewRange(x) => x.pduType
    case NetNewRangeResponse(x) => x.pduType
    case NetLeaving(x) => x.pduType
    case ValInsert(x) => x.pduType
    case ValRemove(x) => x.pduType
    case ValLookup(x) => x.pduType
    case ValLookupResponse(x) => x.pduType
    case StunLookup(x) => x.pduType
    case StunResponse(x) => x.pduType
  }

  /** `PDU::to_bytes`: the payload's own encoder, chosen by the variant.
      */
  function ToBytes(p: Pdu): seq<u8>
  {
    match p
    case NetAlive(x) => NetAliveToBytes(x)
    case NetGetNode(x) => NetGetNodeToBytes(x)
    case NetGetNodeResponse(x) => NetGetNodeResponseToBytes(x)
    case NetJoin(x) => NetJoinToBytes(x)
    case NetJoinResponse(x) => NetJoinResponseToBytes(x)
    case NetCloseConnection(x) => NetCloseConnectionToBytes(x)
    case NetNewRange(x) => NetNewRangeToBytes(x)
    case NetNewRangeResponse(x) => NetNewRangeResponseToBytes(x)
    case NetLeaving(x) => NetLeavingToBytes(x)
    case ValInsert(x) => ValInsertToBytes(x)
    case ValRemove(x) => ValRemoveToBytes(x)
    case ValLookup(x) => ValLookupToBytes(x)
    case ValLookupResponse(x) => ValLookupResponseToBytes(x)
    case StunLookup(x) => StunLookupToBytes(x)
    case StunResponse(x) => StunResponseToBytes(x)
  }

  /** Every encoding is non-empty and starts with the payload's `pdu_type`. */
  lemma ToBytesStartsWithType(p: Pdu)
    ensures |ToBytes(p)| >= 1 && ToBytes(p)[0] == PduType(p)
  {
    match p
    case NetAlive(x) => assert ToBytes(p) == NetAliveToBytes(x);
    case NetGetNode(x) => assert ToBytes(p) == NetGetNodeToBytes(x);
    case NetGetNodeResponse(x) => assert ToBytes(p) == NetGetNodeResponseToBytes(x);
    case NetJoin(x) => assert ToBytes(p) == NetJoinToBytes(x);
    case NetJoinResponse(x) => assert ToBytes(p) == NetJoinResponseToBytes(x);
    case NetCloseConnection(x) => assert ToBytes(p) == NetCloseConnectionToBytes(x);
    case NetNewRange(x) => assert ToBytes(p) == NetNewRangeToBytes(x);
    case NetNewRangeResponse(x) => assert ToBytes(p) == NetNewRangeResponseToBytes(x);
    case NetLeaving(x) => assert ToBytes(p) == NetLeavingToBytes(x);
    case ValInsert(x) => assert ToBytes(p) == ValInsertToBytes(x);
    case ValRemove(x) => assert ToBytes(p) == ValRemoveToBytes(x);
    case ValLookup(x) => assert ToBytes(p) == ValLookupToBytes(x);
    case ValLookupResponse(x) => assert ToBytes(p) == ValLookupResponseToBytes(x);
    case StunLookup(x) => assert ToBytes(p) == StunLookupToBytes(x);
    case StunResponse(x) => assert ToBytes(p) == StunResponseToBytes(x);
  }

  /** The fifteen ids are pairwise distinct: equal ids mean the same type. */
  lemma KindIdInjective(k: Kind, k': Kind)
    ensures KindId(k) == KindId(k') <==> k == k'
  {
  }

  /** A message as its constructor builds it: the payload carries the id
      of its own type. */
  predicate Stamped(p: Pdu)
  {
    PduType(p) == KindId(KindOf(p))
  }

  /** The first byte of a stamped message names its type: two stamped
      messages of different types never encode alike. */
  lemma TagIdentifiesKind(p: Pdu, q: Pdu)
    requires Stamped(p) && Stamped(q)
    ensures ToBytes(p)[0] == ToBytes(q)[0] <==> KindOf(p) == KindOf(q)
    ensures KindOf(p) != KindOf(q) ==> ToBytes(p) != ToBytes(q)
  {
    ToBytesStartsWithType(p);
    ToBytesStartsWithType(q);
    KindIdInjective(KindOf(p), KindOf(q));
  }

  /** Every message a constructor builds is stamped. */
  lemma NetConstructorsStamp(address: u32, port: u16, address': u32, port': u16, span: u8, rangeStart: u8, rangeEnd: u8)
    ensures Stamped(NetAlive(NewNetAlive()))
    ensures Stamped(NetGetNode(NewNetGetNode()))
    ensures Stamped(NetGetNodeResponse(NewNetGetNodeResponse(address, port)))
    ensures Stamped(NetJoin(NewNetJoin(address, port, span, address', port')))
    ensures Stamped(NetJoinResponse(NewNetJoinResponse(address, port, rangeStart, rangeEnd)))
    ensures Stamped(NetCloseConnection(NewNetCloseConnection()))
    ensures Stamped(NetNewRange(NewNetNewRange(rangeStart, rangeEnd)))
    ensures Stamped(NetNewRangeResponse(NewNetNewRangeResponse()))
    ensures Stamped(NetLeaving(NewNetLeaving(address, port)))
  {
  }

  lemma ValStunConstructorsStamp(ssn: string, name: string, email: string, address: u32, port: u16)
    ensures Stamped(ValInsert(NewValInsert(ssn, name, email)))
    ensures Stamped(ValRemove(NewValRemove(ssn)))
    ensures Stamped(ValLookup(NewValLookup(ssn, address, port)))
    ensures Stamped(ValLookupResponse(NewValLookupResponse(ssn, name, email)))
    ensures Stamped(StunLookup(NewStunLookup()))
    ensures Stamped(StunResponse(NewStunResponse(address)))
  {
  }
}
