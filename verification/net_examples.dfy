/** A worked example of the derived codec on `NetJoinPdu`. */
module NetExamples {
  import opened Wrappers
  import opened PduIo
  import opened PduDerive
  import opened NetPdus

  /** The values of the example join below, field by field, as bytes. */
  lemma NetJoinExampleFields()
    ensures U32ToBytes(0x0102_0304) == [1, 2, 3, 4]
    ensures U16ToBytes(1000) == [3, 232]
    ensures U32ToBytes(0x0506_0708) == [5, 6, 7, 8]
    ensures U16ToBytes(2000) == [7, 208]
  {
  }

  /** The last three fields of the example join below: its span and the
      address and port of the node holding it. */
  lemma NetJoinExampleTail()
    ensures WellTyped([W8, W32, W16], [50, 0x0506_0708, 2000])
    ensures Encode([W8, W32, W16], [50, 0x0506_0708, 2000]) == [50, 5, 6, 7, 8, 7, 208]
  {
    NetJoinExampleFields();
    EncodeCons(W16, 2000, [], []);
    EncodeCons(W32, 0x0506_0708, [W16], [2000]);
    EncodeCons(W8, 50, [W32, W16], [0x0506_0708, 2000]);
  }

  /** The fourteen example bytes as the concatenation the encoder builds. */
  lemma JoinBytes(bytes: seq<u8>, tail: seq<u8>)
    requires tail == [50, 5, 6, 7, 8, 7, 208]
    requires bytes == [3] + ([1, 2, 3, 4] + ([3, 232] + tail))
    ensures bytes == [3, 1, 2, 3, 4, 3, 232, 50, 5, 6, 7, 8, 7, 208]
  {
  }

  /** A join from 1.2.3.4:1000 naming 5.6.7.8:2000 as holder of a span of
      50 is these fourteen bytes. */
  lemma NetJoinExampleBytes()
    ensures NetJoinToBytes(NewNetJoin(0x0102_0304, 1000, 50, 0x0506_0708, 2000))
         == [3, 1, 2, 3, 4, 3, 232, 50, 5, 6, 7, 8, 7, 208]
  {
    var p := NewNetJoin(0x0102_0304, 1000, 50, 0x0506_0708, 2000);
    var tail := Encode([W8, W32, W16], [50, 0x0506_0708, 2000]);
    NetJoinExampleTail();
    NetJoinExampleFields();
    EncodeCons(W16, 1000, [W8, W32, W16], [50, 0x0506_0708, 2000]);
    EncodeCons(W32, 0x0102_0304, [W16, W8, W32, W16], [1000, 50, 0x0506_0708, 2000]);
    EncodeCons(W8, NET_JOIN_ID, [W32, W16, W8, W32, W16], [0x0102_0304, 1000, 50, 0x0506_0708, 2000]);
    assert NET_JOIN_FIELDS == [W8] + [W32, W16, W8, W32, W16];
    assert NetJoinRecord(p) == [NET_JOIN_ID as int] + [0x0102_0304, 1000, 50, 0x0506_0708, 2000];
    assert NetJoinToBytes(p) == [3] + ([1, 2, 3, 4] + ([3, 232] + tail));
    JoinBytes(NetJoinToBytes(p), tail);
  }

  /** The same fourteen bytes decode back to that join, consuming all of them. */
  lemma NetJoinExampleParse()
    ensures NetJoinTryParse([3, 1, 2, 3, 4, 3, 232, 50, 5, 6, 7, 8, 7, 208])
         == Some((NewNetJoin(0x0102_0304, 1000, 50, 0x0506_0708, 2000), 14))
  {
    var p := NewNetJoin(0x0102_0304, 1000, 50, 0x0506_0708, 2000);
    NetJoinExampleBytes();
    NetJoinRoundTrip(p, []);
    assert NetJoinToBytes(p) + [] == NetJoinToBytes(p);
  }
}
