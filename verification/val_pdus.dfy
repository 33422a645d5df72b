/** The value-store messages (`val_pdus.rs`): insert, remove, lookup and
    lookup response. Their codecs are written by hand and, for insert and
    lookup response, the consumed length depends on the data.

    A Rust `String` is a sequence of chars. The encoders emit each char's
    low byte (`x as u8`), the decoders turn each byte into the char with
    that code point (`x as char`), and `len()` counts UTF-8 bytes. */
module ValPdus {
  import opened Wrappers
  import opened PduIo

  /** `SSN_LENGTH` (declared in `mod.rs`): SSN characters on the wire. */
  const SSN_LENGTH: nat := 12

  const VAL_INSERT_ID: u8 := 100
  const VAL_REMOVE_ID: u8 := 101
  const VAL_LOOKUP_ID: u8 := 102
  const VAL_LOOKUP_RESPONSE_ID: u8 := 103

  const VAL_REMOVE_SIZE: nat := 1 + SSN_LENGTH
  const VAL_LOOKUP_SIZE: nat := 1 + SSN_LENGTH + 4 + 2

  // ---------------------------------------------------------------- text

  /** Rust's `c as u8` on a char: its code point truncated to the low byte. */
  function CharToByte(c: char): u8
  {
    (c as int) % 0x100
  }

  /** `s.chars().map(|x| x as u8)`. */
  function CharsToBytes(s: string): (r: seq<u8>)
    ensures |r| == |s|
  {
    seq(|s|, i requires 0 <= i < |s| => CharToByte(s[i]))
  }

  /** `bytes.iter().map(|&x| x as char).collect()`. */
  function BytesToChars(b: seq<u8>): (r: string)
    ensures |r| == |b|
  {
    seq(|b|, i requires 0 <= i < |b| => b[i] as char)
  }

  /** Every char of `s` has a code point below 256, so `x as u8` loses nothing. */
  predicate Latin1(s: string)
  {
    forall i :: 0 <= i < |s| ==> s[i] as int < 0x100
  }

  /** Every char of `s` is ASCII, so it is one UTF-8 byte long. */
  predicate Ascii(s: string)
  {
    forall i :: 0 <= i < |s| ==> s[i] as int < 0x80
  }

  /** Decoding bytes as chars and encoding them again gives back the bytes,
      and the decoded text is Latin-1. */
  lemma BytesToCharsToBytes(b: seq<u8>)
    ensures Latin1(BytesToChars(b))
    ensures CharsToBytes(BytesToChars(b)) == b
  {
  }

  /** A Latin-1 text survives encoding and decoding. */
  lemma CharsToBytesToChars(s: string)
    requires Latin1(s)
    ensures BytesToChars(CharsToBytes(s)) == s
  {
    var t := BytesToChars(CharsToBytes(s));
    forall i | 0 <= i < |s|
      ensures t[i] == s[i]
    {
      assert t[i] as int == s[i] as int;
    }
  }

  /** The number of UTF-8 bytes of one char. */
  function Utf8Width(c: char): nat
  {
    if c as int < 0x80 then 1
    else if c as int < 0x800 then 2
    else if c as int < 0x1_0000 then 3
    else 4
  }

  /** `String::len`: the length of the UTF-8 encoding, not the char count. */
  function Utf8Len(s: string): nat
  {
    if |s| == 0 then 0 else Utf8Width(s[0]) + Utf8Len(s[1..])
  }

  /** `len()` counts chars only for ASCII text; any other char makes it
      larger than the number of bytes the encoder emits. */
  lemma {:induction false} Utf8LenCountsChars(s: string)
    ensures Utf8Len(s) >= |s|
    ensures Utf8Len(s) == |s| <==> Ascii(s)
  {
    if |s| > 0 {
      Utf8LenCountsChars(s[1..]);
      if Ascii(s) {
        assert Ascii(s[1..]) by {
          forall i | 0 <= i < |s[1..]|
            ensures s[1..][i] as int < 0x80
          {
            assert s[1..][i] == s[i + 1];
          }
        }
      }
      if Ascii(s[1..]) && s[0] as int < 0x80 {
        forall i | 0 <= i < |s|
          ensures s[i] as int < 0x80
        {
          if i > 0 {
            assert s[i] == s[1..][i - 1];
          }
        }
      }
    }
  }

  /** `ssn.chars().take(SSN_LENGTH)`. */
  function TakeSsn(ssn: string): (r: string)
    ensures |r| == if |ssn| < SSN_LENGTH then |ssn| else SSN_LENGTH
    ensures r == ssn[..|r|]
  {
    if |ssn| < SSN_LENGTH then ssn else ssn[..SSN_LENGTH]
  }

  // ------------------------------------------------- insert / lookup response

  /** The layout insert and lookup response share: the tag, the first
      `SSN_LENGTH` SSN chars, the name length, the name, the email length
      and the email. */
  function EntryBytes(pduType: u8, ssn: string, nameLength: u8, name: string, emailLength: u8, email: string): seq<u8>
  {
    [pduType] + CharsToBytes(TakeSsn(ssn)) + [nameLength] + CharsToBytes(name) + [emailLength] + CharsToBytes(email)
  }

  /** `ValInsertPdu`: store `name` and `email` under the key `ssn`. */
  datatype ValInsertPdu = ValInsertPdu(pduType: u8, ssn: string, nameLength: u8, name: string, emailLength: u8, email: string)

  /** An insert its own decoder reproduces: a full-length SSN, length fields
      that count their texts, and only chars that fit a byte. */
  predicate ValInsertWellFormed(p: ValInsertPdu)
  {
    && |p.ssn| == SSN_LENGTH
    && p.nameLength == |p.name|
    && p.emailLength == |p.email|
    && Latin1(p.ssn) && Latin1(p.name) && Latin1(p.email)
  }

  /** `ValInsertPdu::new`: the length fields are `len() as u8`, the UTF-8
      length truncated to a byte. */
  function NewValInsert(ssn: string, name: string, email: string): (p: ValInsertPdu)
    ensures p.pduType == VAL_INSERT_ID
    ensures p.ssn == ssn && p.name == name && p.email == email
    ensures p.nameLength == Utf8Len(name) % 0x100 && p.emailLength == Utf8Len(email) % 0x100
    ensures Ascii(name) && |name| < 0x100 ==> p.nameLength == |name|
    ensures Ascii(email) && |email| < 0x100 ==> p.emailLength == |email|
  {
    Utf8LenCountsChars(name);
    Utf8LenCountsChars(email);
    ValInsertPdu(VAL_INSERT_ID, ssn, Utf8Len(name) % 0x100, name, Utf8Len(email) % 0x100, email)
  }

  /** `From<ValInsertPdu> for Vec<u8>`. */
  function ValInsertToBytes(p: ValInsertPdu): (r: seq<u8>)
    ensures |r| == 1 + |TakeSsn(p.ssn)| + 1 + |p.name| + 1 + |p.email|
    ensures r[0] == p.pduType
  {
    EntryBytes(p.pduType, p.ssn, p.nameLength, p.name, p.emailLength, p.email)
  }

  /** Cutting a slice in two at `b` and gluing the halves gives the slice back. */
  lemma SliceSplit(s: seq<u8>, a: nat, b: nat, c: nat)
    requires a <= b <= c <= |s|
    ensures s[a..b] + s[b..c] == s[a..c]
  {
  }

  /** A buffer holding a complete entry is, up to the entry's end, the
      concatenation of its six parts. */
  lemma EntryOfBuffer(buffer: seq<u8>, nameLength: nat, emailLength: nat)
    requires 1 + SSN_LENGTH + 1 + nameLength + 1 + emailLength <= |buffer|
    requires buffer[1 + SSN_LENGTH] == nameLength
    requires buffer[1 + SSN_LENGTH + 1 + nameLength] == emailLength
    ensures EntryBytes(buffer[0], BytesToChars(buffer[1..1 + SSN_LENGTH]), buffer[1 + SSN_LENGTH],
                       BytesToChars(buffer[2 + SSN_LENGTH..2 + SSN_LENGTH + nameLength]),
                       buffer[2 + SSN_LENGTH + nameLength],
                       BytesToChars(buffer[3 + SSN_LENGTH + nameLength..3 + SSN_LENGTH + nameLength + emailLength]))
         == buffer[..3 + SSN_LENGTH + nameLength + emailLength]
  {
    var a, b, c := 2 + SSN_LENGTH, 2 + SSN_LENGTH + nameLength, 3 + SSN_LENGTH + nameLength;
    var d := c + emailLength;
    var ssn := BytesToChars(buffer[1..a - 1]);
    BytesToCharsToBytes(buffer[1..a - 1]);
    BytesToCharsToBytes(buffer[a..b]);
    BytesToCharsToBytes(buffer[c..d]);
    assert TakeSsn(ssn) == ssn;
    assert CharsToBytes(TakeSsn(ssn)) == buffer[1..a - 1];
    assert [buffer[0]] == buffer[0..1];
    assert [buffer[a - 1]] == buffer[a - 1..a];
    assert [buffer[b]] == buffer[b..c];
    SliceSplit(buffer, 0, 1, a - 1);
    SliceSplit(buffer, 0, a - 1, a);
    SliceSplit(buffer, 0, a, b);
    SliceSplit(buffer, 0, b, c);
    SliceSplit(buffer, 0, c, d);
  }

  /** `ValInsertPdu::try_parse`. `None` when the buffer cannot hold the
      fixed part, the name or the email; a panic when it ends right after
      the name, because the email length is read without a length check. */
  function ValInsertTryParse(buffer: seq<u8>): (r: Attempt<Option<(ValInsertPdu, nat)>>)
    ensures r.Panics? <==> |buffer| >= 1 + SSN_LENGTH + 1 && |buffer| == 1 + SSN_LENGTH + 1 + buffer[1 + SSN_LENGTH]
    ensures r == Returns(None) <==>
      || |buffer| < 1 + SSN_LENGTH + 1
      || |buffer| < 1 + SSN_LENGTH + 1 + buffer[1 + SSN_LENGTH]
      || (|buffer| > 1 + SSN_LENGTH + 1 + buffer[1 + SSN_LENGTH]
          && |buffer| < 1 + SSN_LENGTH + 1 + buffer[1 + SSN_LENGTH] + 1 + buffer[1 + SSN_LENGTH + 1 + buffer[1 + SSN_LENGTH]])
    ensures r.Returns? && r.value.Some? ==>
      var (p, size) := r.value.value;
      && size <= |buffer|
      && size == 1 + SSN_LENGTH + 1 + p.nameLength + 1 + p.emailLength
      && p.pduType == buffer[0]
      && ValInsertWellFormed(p)
      && ValInsertToBytes(p) == buffer[..size]
  {
    if |buffer| < 1 + SSN_LENGTH + 1 then Returns(None)
    else
      var (pduType, afterType) := ReadBeU8(buffer);
      var (ssn, afterSsn) := (afterType[..SSN_LENGTH], afterType[SSN_LENGTH..]);
      var (nameLength, afterNameLength) := ReadBeU8(afterSsn);
      if |afterNameLength| < nameLength then Returns(None)
      else
        var (name, afterName) := (afterNameLength[..nameLength], afterNameLength[nameLength..]);
        if |afterName| < U8_SIZE then Panics
        else
          var (emailLength, afterEmailLength) := ReadBeU8(afterName);
          if |afterEmailLength| < emailLength then Returns(None)
          else
            var email := afterEmailLength[..emailLength];
            var pdu := ValInsertPdu(pduType, BytesToChars(ssn), nameLength, BytesToChars(name), emailLength, BytesToChars(email));
            var size := 1 + SSN_LENGTH + 1 + nameLength + 1 + emailLength;
            ValInsertParsed(buffer, pdu, size);
            Returns(Some((pdu, size)))
  }

  /** The pieces `ValInsertTryParse` cuts from a buffer re-encode to its front. */
  lemma ValInsertParsed(buffer: seq<u8>, pdu: ValInsertPdu, size: nat)
    requires 1 + SSN_LENGTH + 1 <= |buffer|
    requires pdu.nameLength == buffer[1 + SSN_LENGTH]
    requires 1 + SSN_LENGTH + 1 + pdu.nameLength + 1 <= |buffer|
    requires pdu.emailLength == buffer[1 + SSN_LENGTH + 1 + pdu.nameLength]
    requires size == 1 + SSN_LENGTH + 1 + pdu.nameLength + 1 + pdu.emailLength <= |buffer|
    requires pdu.pduType == buffer[0]
    requires pdu.ssn == BytesToChars(buffer[1..1 + SSN_LENGTH])
    requires pdu.name == BytesToChars(buffer[2 + SSN_LENGTH..2 + SSN_LENGTH + pdu.nameLength])
    requires pdu.email == BytesToChars(buffer[3 + SSN_LENGTH + pdu.nameLength..size])
    ensures ValInsertWellFormed(pdu)
    ensures ValInsertToBytes(pdu) == buffer[..size]
  {
    EntryOfBuffer(buffer, pdu.nameLength, pdu.emailLength);
    BytesToCharsToBytes(buffer[1..1 + SSN_LENGTH]);
    BytesToCharsToBytes(buffer[2 + SSN_LENGTH..2 + SSN_LENGTH + pdu.nameLength]);
    BytesToCharsToBytes(buffer[3 + SSN_LENGTH + pdu.nameLength..size]);
  }

  /** Where each part of an insert lies in its encoding: the tag, the SSN
      cut to at most 12 chars, the name length byte, the name, the e-mail
      length byte and the e-mail, whatever the fields hold. */
  lemma EntryParts(p: ValInsertPdu)
    ensures var e, k, n := ValInsertToBytes(p), |TakeSsn(p.ssn)|, |p.name|;
      && |e| == 1 + k + 1 + n + 1 + |p.email|
      && e[0] == p.pduType
      && e[1..1 + k] == CharsToBytes(TakeSsn(p.ssn))
      && e[1 + k] == p.nameLength
      && e[2 + k..2 + k + n] == CharsToBytes(p.name)
      && e[2 + k + n] == p.emailLength
      && e[3 + k + n..] == CharsToBytes(p.email)
  {
    var s, nm, em := CharsToBytes(TakeSsn(p.ssn)), CharsToBytes(p.name), CharsToBytes(p.email);
    var k, n := |s|, |nm|;
    var e := ValInsertToBytes(p);
    var x := [p.pduType] + s + [p.nameLength] + nm + [p.emailLength];
    assert e == x + em;
    assert e[3 + k + n..] == em;
    var y := [p.pduType] + s + [p.nameLength];
    assert x == y + nm + [p.emailLength];
    assert e[2 + k..2 + k + n] == x[2 + k..2 + k + n] == nm;
    assert e[1..1 + k] == y[1..1 + k] == s;
  }

  /** The layout of a well-formed insert, with the full 12-char SSN. */
  lemma WellFormedEntryParts(p: ValInsertPdu)
    requires ValInsertWellFormed(p)
    ensures var e, n := ValInsertToBytes(p), p.nameLength;
      && |e| == 1 + SSN_LENGTH + 1 + n + 1 + p.emailLength
      && e[0] == p.pduType
      && e[1..1 + SSN_LENGTH] == CharsToBytes(p.ssn)
      && e[1 + SSN_LENGTH] == n
      && e[2 + SSN_LENGTH..2 + SSN_LENGTH + n] == CharsToBytes(p.name)
      && e[2 + SSN_LENGTH + n] == p.emailLength
      && e[3 + SSN_LENGTH + n..] == CharsToBytes(p.email)
  {
    EntryParts(p);
    assert TakeSsn(p.ssn) == p.ssn;
  }

  /** A well-formed insert is determined by its encoding. */
  lemma ValInsertInjective(p: ValInsertPdu, q: ValInsertPdu)
    requires ValInsertWellFormed(p) && ValInsertWellFormed(q)
    requires ValInsertToBytes(p) == ValInsertToBytes(q)
    ensures p == q
  {
    WellFormedEntryParts(p);
    WellFormedEntryParts(q);
    CharsToBytesToChars(p.ssn);
    CharsToBytesToChars(q.ssn);
    CharsToBytesToChars(p.name);
    CharsToBytesToChars(q.name);
    CharsToBytesToChars(p.email);
    CharsToBytesToChars(q.email);
  }

  /** A well-formed insert, whatever bytes follow it, decodes to itself and
      consumes exactly its encoding. */
  lemma ValInsertRoundTrip(p: ValInsertPdu, extra: seq<u8>)
    requires ValInsertWellFormed(p)
    ensures ValInsertTryParse(ValInsertToBytes(p) + extra)
         == Returns(Some((p, 1 + SSN_LENGTH + 1 + p.nameLength + 1 + p.emailLength)))
  {
    var e := ValInsertToBytes(p);
    var b := e + extra;
    WellFormedEntryParts(p);
    assert b[1 + SSN_LENGTH] == e[1 + SSN_LENGTH];
    assert b[2 + SSN_LENGTH + p.nameLength] == e[2 + SSN_LENGTH + p.nameLength];
    var r := ValInsertTryParse(b);
    var (q, size) := r.value.value;
    assert b[..size] == e;
    ValInsertInjective(p, q);
  }

  /** An encoded insert cut right after its name makes the decoder panic. */
  lemma ValInsertCutAfterName(p: ValInsertPdu)
    requires ValInsertWellFormed(p)
    ensures ValInsertTryParse(ValInsertToBytes(p)[..1 + SSN_LENGTH + 1 + p.nameLength]).Panics?
  {
    WellFormedEntryParts(p);
  }

  /** The SSN "111111111111" with name "Test" and email "Emai" is a 23-byte
      insert, and those bytes decode back to it. */
  lemma ValInsertExample()
    ensures |ValInsertToBytes(NewValInsert("111111111111", "Test", "Emai"))| == 23
    ensures ValInsertTryParse(ValInsertToBytes(NewValInsert("111111111111", "Test", "Emai")))
         == Returns(Some((NewValInsert("111111111111", "Test", "Emai"), 23)))
  {
    var p := NewValInsert("111111111111", "Test", "Emai");
    assert Ascii("Test") && Ascii("Emai");
    ValInsertRoundTrip(p, []);
    assert ValInsertToBytes(p) + [] == ValInsertToBytes(p);
  }

  /** `ValLookupResponsePdu`: the answer to a lookup, laid out like an insert. */
  datatype ValLookupResponsePdu = ValLookupResponsePdu(pduType: u8, ssn: string, nameLength: u8, name: string, emailLength: u8, email: string)

  /** The insert with the same fields: the two share one layout. */
  function ResponseAsInsert(p: ValLookupResponsePdu): ValInsertPdu
  {
    ValInsertPdu(p.pduType, p.ssn, p.nameLength, p.name, p.emailLength, p.email)
  }

  /** `ValLookupResponsePdu::new`. */
  function NewValLookupResponse(ssn: string, name: string, email: string): (p: ValLookupResponsePdu)
    ensures p.pduType == VAL_LOOKUP_RESPONSE_ID
    ensures ResponseAsInsert(p) == NewValInsert(ssn, name, email).(pduType := VAL_LOOKUP_RESPONSE_ID)
  {
    ValLookupResponsePdu(VAL_LOOKUP_RESPONSE_ID, ssn, Utf8Len(name) % 0x100, name, Utf8Len(email) % 0x100, email)
  }

  /** `From<ValLookupResponsePdu> for Vec<u8>`: byte for byte the insert layout. */
  function ValLookupResponseToBytes(p: ValLookupResponsePdu): (r: seq<u8>)
    ensures r == ValInsertToBytes(ResponseAsInsert(p))
  {
    EntryBytes(p.pduType, p.ssn, p.nameLength, p.name, p.emailLength, p.email)
  }

  /** `ValLookupResponsePdu::try_parse`: the insert decoder, whose `None`
      and panic it passes on, with the tag replaced by `VAL_LOOKUP_ID`
      rather than `VAL_LOOKUP_RESPONSE_ID`. */
  function ValLookupResponseTryParse(buffer: seq<u8>): (r: Attempt<Option<(ValLookupResponsePdu, nat)>>)
    ensures r.Panics? <==> |buffer| >= 1 + SSN_LENGTH + 1 && |buffer| == 1 + SSN_LENGTH + 1 + buffer[1 + SSN_LENGTH]
    ensures r == Returns(None) <==>
      || |buffer| < 1 + SSN_LENGTH + 1
      || |buffer| < 1 + SSN_LENGTH + 1 + buffer[1 + SSN_LENGTH]
      || (|buffer| > 1 + SSN_LENGTH + 1 + buffer[1 + SSN_LENGTH]
          && |buffer| < 1 + SSN_LENGTH + 1 + buffer[1 + SSN_LENGTH] + 1 + buffer[1 + SSN_LENGTH + 1 + buffer[1 + SSN_LENGTH]])
    ensures r.Returns? && r.value.Some? ==>
      var (p, size) := r.value.value;
      && size <= |buffer|
      && size == 1 + SSN_LENGTH + 1 + p.nameLength + 1 + p.emailLength
      && p.pduType == VAL_LOOKUP_ID
      && ValInsertWellFormed(ResponseAsInsert(p))
      && ValLookupResponseToBytes(p.(pduType := buffer[0])) == buffer[..size]
  {
    match ValInsertTryParse(buffer)
    case Panics => Panics
    case Returns(None) => Returns(None)
    case Returns(Some((pdu, s))) =>
      Returns(Some((ValLookupResponsePdu(VAL_LOOKUP_ID, pdu.ssn, pdu.nameLength, pdu.name, pdu.emailLength, pdu.email), s)))
  }

  /** A well-formed lookup response decodes to itself except for the tag,
      which comes back as `VAL_LOOKUP_ID` whatever was sent; so a response
      built by `new` never decodes to itself. */
  lemma ValLookupResponseRoundTrip(p: ValLookupResponsePdu, extra: seq<u8>)
    requires ValInsertWellFormed(ResponseAsInsert(p))
    ensures ValLookupResponseTryParse(ValLookupResponseToBytes(p) + extra)
         == Returns(Some((p.(pduType := VAL_LOOKUP_ID), 1 + SSN_LENGTH + 1 + p.nameLength + 1 + p.emailLength)))
    ensures p.pduType == VAL_LOOKUP_RESPONSE_ID ==>
      ValLookupResponseTryParse(ValLookupResponseToBytes(p) + extra).value.value.0 != p
  {
    ValInsertRoundTrip(ResponseAsInsert(p), extra);
  }

  // ------------------------------------------------------------- lookup

  /** `ValLookupPdu`: ask for the entry under `ssn`, answering to the sender. */
  datatype ValLookupPdu = ValLookupPdu(pduType: u8, ssn: string, senderAddress: u32, senderPort: u16)

  /** `ValLookupPdu::new`. */
  function NewValLookup(ssn: string, senderAddress: u32, senderPort: u16): (p: ValLookupPdu)
    ensures p.pduType == VAL_LOOKUP_ID
    ensures p.ssn == ssn && p.senderAddress == senderAddress && p.senderPort == senderPort
  {
    ValLookupPdu(VAL_LOOKUP_ID, ssn, senderAddress, senderPort)
  }

  /** `From<ValLookupPdu> for Vec<u8>`: tag, SSN, then address and port big-endian. */
  function ValLookupToBytes(p: ValLookupPdu): (r: seq<u8>)
    ensures |r| == 1 + |TakeSsn(p.ssn)| + 4 + 2
    ensures r[0] == p.pduType
  {
    [p.pduType] + CharsToBytes(TakeSsn(p.ssn)) + U32ToBytes(p.senderAddress) + U16ToBytes(p.senderPort)
  }

  /** `ValLookupPdu::try_parse`: `None` below `VAL_LOOKUP_SIZE` bytes,
      otherwise the tag, 12 SSN bytes, a big-endian u32 address and a
      big-endian u16 port, consuming `VAL_LOOKUP_SIZE`. */
  function ValLookupTryParse(buffer: seq<u8>): (r: Option<(ValLookupPdu, nat)>)
    ensures r.None? <==> |buffer| < VAL_LOOKUP_SIZE
    ensures r.Some? ==>
      var (p, size) := r.value;
      && size == VAL_LOOKUP_SIZE
      && p.pduType == buffer[0]
      && p.senderAddress == BeValue(buffer[1 + SSN_LENGTH..5 + SSN_LENGTH])
      && p.senderPort == BeValue(buffer[5 + SSN_LENGTH..7 + SSN_LENGTH])
      && |p.ssn| == SSN_LENGTH && Latin1(p.ssn)
      && ValLookupToBytes(p) == buffer[..size]
  {
    if |buffer| < VAL_LOOKUP_SIZE then None
    else
      var (pduType, afterType) := ReadBeU8(buffer);
      var (ssn, afterSsn) := (afterType[..SSN_LENGTH], afterType[SSN_LENGTH..]);
      var (senderAddress, afterAddress) := ReadBeU32(afterSsn);
      var (senderPort, _) := ReadBeU16(afterAddress);
      var pdu := ValLookupPdu(pduType, BytesToChars(ssn), senderAddress, senderPort);
      assert afterSsn[..U32_SIZE] == buffer[1 + SSN_LENGTH..5 + SSN_LENGTH];
      assert afterAddress[..U16_SIZE] == buffer[5 + SSN_LENGTH..7 + SSN_LENGTH];
      ValLookupParsed(buffer, pdu);
      Some((pdu, VAL_LOOKUP_SIZE))
  }

  /** The fields `ValLookupTryParse` reads re-encode to the buffer's front. */
  lemma ValLookupParsed(buffer: seq<u8>, pdu: ValLookupPdu)
    requires |buffer| >= VAL_LOOKUP_SIZE
    requires pdu.pduType == buffer[0]
    requires pdu.ssn == BytesToChars(buffer[1..1 + SSN_LENGTH])
    requires pdu.senderAddress == BeValue(buffer[1 + SSN_LENGTH..5 + SSN_LENGTH])
    requires pdu.senderPort == BeValue(buffer[5 + SSN_LENGTH..7 + SSN_LENGTH])
    ensures |pdu.ssn| == SSN_LENGTH && Latin1(pdu.ssn)
    ensures ValLookupToBytes(pdu) == buffer[..VAL_LOOKUP_SIZE]
  {
    BytesToCharsToBytes(buffer[1..1 + SSN_LENGTH]);
    BeValueInjective(U32ToBytes(pdu.senderAddress), buffer[1 + SSN_LENGTH..5 + SSN_LENGTH]);
    BeValueInjective(U16ToBytes(pdu.senderPort), buffer[5 + SSN_LENGTH..7 + SSN_LENGTH]);
    assert [buffer[0]] == buffer[0..1];
    SliceSplit(buffer, 0, 1, 1 + SSN_LENGTH);
    SliceSplit(buffer, 0, 1 + SSN_LENGTH, 5 + SSN_LENGTH);
    SliceSplit(buffer, 0, 5 + SSN_LENGTH, 7 + SSN_LENGTH);
  }

  /** A lookup with a full Latin-1 SSN, whatever follows it, decodes to
      itself and consumes `VAL_LOOKUP_SIZE` bytes. */
  lemma ValLookupRoundTrip(p: ValLookupPdu, extra: seq<u8>)
    requires |p.ssn| == SSN_LENGTH && Latin1(p.ssn)
    ensures ValLookupTryParse(ValLookupToBytes(p) + extra) == Some((p, VAL_LOOKUP_SIZE))
  {
    var e := ValLookupToBytes(p);
    var b := e + extra;
    var q := ValLookupTryParse(b).value.0;
    assert b[..VAL_LOOKUP_SIZE] == e;
    var s := CharsToBytes(p.ssn);
    assert e == [p.pduType] + s + U32ToBytes(p.senderAddress) + U16ToBytes(p.senderPort);
    assert e[1..1 + SSN_LENGTH] == s;
    assert e[1 + SSN_LENGTH..5 + SSN_LENGTH] == U32ToBytes(p.senderAddress);
    assert e[5 + SSN_LENGTH..] == U16ToBytes(p.senderPort);
    assert q.ssn == BytesToChars(s) by {
      assert b[1..1 + SSN_LENGTH] == s;
    }
    CharsToBytesToChars(p.ssn);
  }

  // ------------------------------------------------------------- remove

  /** `ValRemovePdu`: delete the entry under `ssn`. */
  datatype ValRemovePdu = ValRemovePdu(pduType: u8, ssn: string)

  /** `ValRemovePdu::new`. */
  function NewValRemove(ssn: string): (p: ValRemovePdu)
    ensures p.pduType == VAL_REMOVE_ID && p.ssn == ssn
  {
    ValRemovePdu(VAL_REMOVE_ID, ssn)
  }

  /** `From<ValRemovePdu> for Vec<u8>`: the tag and at most `SSN_LENGTH`
      SSN chars, so a shorter SSN gives a shorter message. */
  function ValRemoveToBytes(p: ValRemovePdu): (r: seq<u8>)
    ensures |r| == 1 + |TakeSsn(p.ssn)|
    ensures r[0] == p.pduType
  {
    [p.pduType] + CharsToBytes(TakeSsn(p.ssn))
  }

  /** `ValRemovePdu::try_parse`: `None` below `VAL_REMOVE_SIZE` bytes,
      otherwise the tag and 12 SSN bytes, consuming `VAL_REMOVE_SIZE`. */
  function ValRemoveTryParse(buffer: seq<u8>): (r: Option<(ValRemovePdu, nat)>)
    ensures r.None? <==> |buffer| < VAL_REMOVE_SIZE
    ensures r.Some? ==>
      var (p, size) := r.value;
      && size == VAL_REMOVE_SIZE
      && p.pduType == buffer[0]
      && |p.ssn| == SSN_LENGTH && Latin1(p.ssn)
      && ValRemoveToBytes(p) == buffer[..size]
  {
    if |buffer| < VAL_REMOVE_SIZE then None
    else
      var (pduType, afterType) := ReadBeU8(buffer);
      var pdu := ValRemovePdu(pduType, BytesToChars(afterType[..SSN_LENGTH]));
      BytesToCharsToBytes(afterType[..SSN_LENGTH]);
      assert buffer[..VAL_REMOVE_SIZE] == [buffer[0]] + buffer[1..VAL_REMOVE_SIZE];
      Some((pdu, VAL_REMOVE_SIZE))
  }

  /** A remove with a full Latin-1 SSN, whatever follows it, decodes to
      itself and consumes `VAL_REMOVE_SIZE` bytes. */
  lemma ValRemoveRoundTrip(p: ValRemovePdu, extra: seq<u8>)
    requires |p.ssn| == SSN_LENGTH && Latin1(p.ssn)
    ensures ValRemoveTryParse(ValRemoveToBytes(p) + extra) == Some((p, VAL_REMOVE_SIZE))
  {
    var e := ValRemoveToBytes(p);
    var b := e + extra;
    assert b[1..][..SSN_LENGTH] == CharsToBytes(p.ssn);
    CharsToBytesToChars(p.ssn);
  }

  /** An SSN of k < 12 chars makes a remove of only 1 + k bytes, which
      alone does not decode; followed by more bytes it decodes with the
      first 12 - k of them taken into the SSN, still consuming 13. */
  lemma ValRemoveShortSsn(ssn: string, next: seq<u8>)
    requires |ssn| < SSN_LENGTH && Latin1(ssn)
    ensures |ValRemoveToBytes(NewValRemove(ssn))| == 1 + |ssn|
    ensures ValRemoveTryParse(ValRemoveToBytes(NewValRemove(ssn))).None?
    ensures |next| >= SSN_LENGTH - |ssn| ==>
      ValRemoveTryParse(ValRemoveToBytes(NewValRemove(ssn)) + next)
        == Some((ValRemovePdu(VAL_REMOVE_ID, ssn + BytesToChars(next[..SSN_LENGTH - |ssn|])), VAL_REMOVE_SIZE))
  {
    if |next| >= SSN_LENGTH - |ssn| {
      var b := ValRemoveToBytes(NewValRemove(ssn)) + next;
      var k := SSN_LENGTH - |ssn|;
      assert b[1..][..SSN_LENGTH] == CharsToBytes(ssn) + next[..k];
      CharsToBytesToChars(ssn);
      assert BytesToChars(CharsToBytes(ssn) + next[..k]) == BytesToChars(CharsToBytes(ssn)) + BytesToChars(next[..k]);
    }
  }
}
