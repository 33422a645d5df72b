# DHT node wire codec and address conversion, in Dafny

This project models the message codec of a distributed hash table node.
The node is written in Rust; beside it sits a small Java utility class,
`Convert.java`. Six parts are modelled.

- **`pdu_io`**: the big-endian primitive codec for `u8`, `u16` and `u32`
  (`to_bytes`, `from_bytes`, `size_of` and the `read_be_*` cursor
  readers). Module `PduIo`, file `pdu_io.dfy`.
- **`pdu_io_derive`**: the runtime behaviour of the code that
  `#[derive(PduSerialize, PduDeserialize)]` generates. It is modelled once,
  generically, over a *schema*: the widths of a struct's fields in
  declaration order. Module `PduDerive`, file `pdu_derive.dfy`.
- **Fixed-size messages**: the nine `Net*` messages and the two `Stun*`
  messages. Each is a datatype, its schema, its `new` constructor and its
  derived encoder and decoder, with round-trip lemmas. Modules `NetPdus` and
  `StunPdus`; a worked `NetJoinPdu` encoding is in `NetExamples`.
- **Value-store messages**: the hand-written variable-length codecs of
  `ValInsertPdu`, `ValLookupPdu`, `ValLookupResponsePdu` and `ValRemovePdu`.
  Module `ValPdus`.
- **The `PDU` union and its `to_bytes` dispatch**. Module `Pdus`.
- **`Convert.java`**: `addressToString` and `stringToIntAddress`. These
  print an IPv4 address held in a Java `int` as a dotted quad and parse it
  back. Module `Convert`, with worked cases in `ConvertExamples`.

Modelling choices:

- Rust integers are subsets of `int` (`u8`, `u16`, `u32`). Byte strings are
  `seq<u8>`. `BeValue` gives the reference meaning of "big-endian".
- A `&mut &[u8]` cursor is a function that returns the value read together
  with the rest of the slice.
- `Attempt` models a call that can panic. `ValInsertPdu::try_parse` can
  panic in `split_at`.
- Rust `String`s and Java `String`s are Dafny `string`s.
  - `x as u8` on a `char` keeps the low byte of its code point
    (`CharToByte`).
  - `x as char` on a byte is the char with that code point
    (`BytesToChars`).
  - `String::len` counts UTF-8 bytes (`Utf8Len`).
- A Java `int` is its 32 bits (`bv32`). `ToSigned` and `FromSigned` give
  the two's-complement reading used when Java prints an `int` or gets one
  from `Integer.parseInt`. `>>` and `<<` shift by the low five bits of the
  distance, as Java does (`Sar`, `Shl`).
- Java exceptions are values: `JavaResult` is `Ok` or `Throws`.

Several behaviours of the source are reproduced as written rather than
corrected:

- `ValLookupResponsePdu::try_parse` stamps the decoded message with
  `VAL_LOOKUP_ID` (102), not 103. A response built by `new` therefore never
  decodes to itself.
- `ValInsertPdu::try_parse` reads the e-mail length without checking that a
  byte is left. A buffer that ends right after the name panics.
- An SSN shorter than 12 chars encodes to fewer than 12 bytes. The decoders
  always read 12 bytes, so they read the bytes that follow the short SSN
  into the SSN: the rest of the same message (the name length and name, or
  the address and port), and for a remove the next message.
- No decoder checks the leading tag byte.
- The top component of `addressToString` is shifted with the sign-copying
  `>>`, so it prints as a negative number when bit 31 is set.
  `stringToIntAddress` still reads it back exactly.
- `stringToIntAddress` does not mask the parts. "256.0.0.0" reads as the
  same address as "0.1.0.0".

## Model

| member | source | states |
|---|---|---|
| PduIo.U8ToBytes | files/complete_node/pdu_io/src/lib.rs:19-23 | one byte whose big-endian value is `v` |
| PduIo.U16ToBytes | files/complete_node/pdu_io/src/lib.rs:31-37 | two bytes whose big-endian value is `v` (high byte first) |
| PduIo.U32ToBytes | files/complete_node/pdu_io/src/lib.rs:45-51 | four bytes whose big-endian value is `v` (most significant first) |
| PduIo.ReadBeU8 | files/complete_node/pdu_io/src/lib.rs:80-84 | needs one byte; returns it and advances the cursor by exactly one |
| PduIo.ReadBeU16 | files/complete_node/pdu_io/src/lib.rs:92-96 | needs two bytes; returns their big-endian value and advances by exactly two |
| PduIo.ReadBeU32 | files/complete_node/pdu_io/src/lib.rs:86-90 | needs four bytes; returns their big-endian value and advances by exactly four |
| PduIo.U8RoundTrip | files/complete_node/pdu_io/src/lib.rs:25-29 | reading what `to_bytes` wrote gives `v` back and leaves the cursor at the bytes that followed |
| PduIo.U16RoundTrip | files/complete_node/pdu_io/src/lib.rs:39-43 | the same for u16 |
| PduIo.U32RoundTrip | files/complete_node/pdu_io/src/lib.rs:53-57 | the same for u32 |
| PduIo.U8ReadThenWrite | files/complete_node/pdu_io/src/lib.rs:80-84 | re-encoding the byte read, followed by the rest, is the input |
| PduIo.U16ReadThenWrite | files/complete_node/pdu_io/src/lib.rs:92-96 | re-encoding the u16 read, followed by the rest, is the input |
| PduIo.U32ReadThenWrite | files/complete_node/pdu_io/src/lib.rs:86-90 | re-encoding the u32 read, followed by the rest, is the input |
| PduDerive.FieldToBytes | files/complete_node/pdu_io_derive/src/lib.rs:36-42 | a field's bytes are exactly `size_of` of its type long |
| PduDerive.FieldFromBytes | files/complete_node/pdu_io_derive/src/lib.rs:121-125 | a field read fits its type and re-encodes to exactly the bytes consumed |
| PduDerive.Encode | files/complete_node/pdu_io_derive/src/lib.rs:31-46 | the generated encoder's output is as long as the generated size `0 + Σ size_of` |
| PduDerive.EncodeCons | files/complete_node/pdu_io_derive/src/lib.rs:36-46 | the fields' bytes are concatenated in declaration order |
| PduDerive.EncodeInjective | files/complete_node/pdu_io_derive/src/lib.rs:36-46 | two well-typed records with the same encoding are equal |
| PduDerive.ReadFields | files/complete_node/pdu_io_derive/src/lib.rs:116-131 | fields read left to right from consecutive offsets re-encode to the bytes consumed |
| PduDerive.TryParse | files/complete_node/pdu_io_derive/src/lib.rs:68-79 | `None` exactly when the buffer is shorter than the size; otherwise consumes exactly the size, and the record read re-encodes to the buffer's first `size` bytes |
| PduDerive.TryParseEncode | files/complete_node/pdu_io_derive/src/lib.rs:68-79 | decoding an encoding followed by anything gives the record and the size; every strict prefix gives `None` |
| NetPdus.NetGetNodeResponseToBytes | files/complete_node/dist_hash_table/src/pdu/net_pdus.rs:28-33 | `NET_GET_NODE_RESPONSE_SIZE` bytes starting with `pdu_type` |
| NetPdus.NetGetNodeResponseTryParse | files/complete_node/dist_hash_table/src/pdu/net_pdus.rs:28-33 | `None` iff shorter than 7 bytes; otherwise consumes 7, the tag is byte 0 unchecked, and the message re-encodes to the bytes consumed |
| NetPdus.NetGetNodeResponseRoundTrip | files/complete_node/dist_hash_table/src/pdu/net_pdus.rs:28-33 | decode after encode gives the message back with size 7; strict prefixes give `None` |
| NetPdus.NetAliveToBytes | files/complete_node/dist_hash_table/src/pdu/net_pdus.rs:56-59 | the single byte `[pdu_type]` |
| NetPdus.NetAliveTryParse | files/complete_node/dist_hash_table/src/pdu/net_pdus.rs:56-59 | `None` iff empty; otherwise consumes 1 byte |
| NetPdus.NetAliveRoundTrip | files/complete_node/dist_hash_table/src/pdu/net_pdus.rs:56-59 | decode after encode gives the message back |
| NetPdus.NetGetNodeToBytes | files/complete_node/dist_hash_table/src/pdu/net_pdus.rs:75-78 | the single byte `[pdu_type]` |
| NetPdus.NetGetNodeTryParse | files/complete_node/dist_hash_table/src/pdu/net_pdus.rs:75-78 | `None` iff empty; otherwise consumes 1 byte |
| NetPdus.NetGetNodeRoundTrip | files/complete_node/dist_hash_table/src/pdu/net_pdus.rs:75-78 | decode after encode gives the message back |
| NetPdus.NetCloseConnectionToBytes | files/complete_node/dist_hash_table/src/pdu/net_pdus.rs:95-98 | the single byte `[pdu_type]` |
| NetPdus.NetCloseConnectionTryParse | files/complete_node/dist_hash_table/src/pdu/net_pdus.rs:95-98 | `None` iff empty; otherwise consumes 1 byte |
| NetPdus.NetCloseConnectionRoundTrip | files/complete_node/dist_hash_table/src/pdu/net_pdus.rs:95-98 | decode after encode gives the message back |
| NetPdus.NetJoinToBytes | files/complete_node/dist_hash_table/src/pdu/net_pdus.rs:115-123 | `NET_JOIN_SIZE` (14) bytes starting with `pdu_type` |
| NetPdus.NetJoinTryParse | files/complete_node/dist_hash_table/src/pdu/net_pdus.rs:115-123 | `None` iff shorter than 14 bytes; otherwise consumes 14 and re-encodes to them |
| NetPdus.NetJoinRoundTrip | files/complete_node/dist_hash_table/src/pdu/net_pdus.rs:115-123 | decode after encode gives the message back with size 14; strict prefixes give `None` |
| NetPdus.NetJoinResponseToBytes | files/complete_node/dist_hash_table/src/pdu/net_pdus.rs:161-168 | `NET_JOIN_RESPONSE_SIZE` (9) bytes starting with `pdu_type` |
| NetPdus.NetJoinResponseTryParse | files/complete_node/dist_hash_table/src/pdu/net_pdus.rs:161-168 | `None` iff shorter than 9 bytes; otherwise consumes 9 and re-encodes to them |
| NetPdus.NetJoinResponseRoundTrip | files/complete_node/dist_hash_table/src/pdu/net_pdus.rs:161-168 | decode after encode gives the message back; strict prefixes give `None` |
| NetPdus.NetNewRangeToBytes | files/complete_node/dist_hash_table/src/pdu/net_pdus.rs:193-198 | `NET_NEW_RANGE_SIZE` (3) bytes starting with `pdu_type` |
| NetPdus.NetNewRangeTryParse | files/complete_node/dist_hash_table/src/pdu/net_pdus.rs:193-198 | `None` iff shorter than 3 bytes; otherwise consumes 3 and re-encodes to them |
| NetPdus.NetNewRangeRoundTrip | files/complete_node/dist_hash_table/src/pdu/net_pdus.rs:193-198 | decode after encode gives the message back; strict prefixes give `None` |
| NetPdus.NetNewRangeResponseToBytes | files/complete_node/dist_hash_table/src/pdu/net_pdus.rs:217-220 | the single byte `[pdu_type]` |
| NetPdus.NetNewRangeResponseTryParse | files/complete_node/dist_hash_table/src/pdu/net_pdus.rs:217-220 | `None` iff empty; otherwise consumes 1 byte |
| NetPdus.NetNewRangeResponseRoundTrip | files/complete_node/dist_hash_table/src/pdu/net_pdus.rs:217-220 | decode after encode gives the message back |
| NetPdus.NetLeavingToBytes | files/complete_node/dist_hash_table/src/pdu/net_pdus.rs:237-242 | `NET_LEAVING_SIZE` (7) bytes starting with `pdu_type` |
| NetPdus.NetLeavingTryParse | files/complete_node/dist_hash_table/src/pdu/net_pdus.rs:237-242 | `None` iff shorter than 7 bytes; otherwise consumes 7 and re-encodes to them |
| NetPdus.NetLeavingRoundTrip | files/complete_node/dist_hash_table/src/pdu/net_pdus.rs:237-242 | decode after encode gives the message back; strict prefixes give `None` |
| NetPdus.NetSizesMatchDerived | files/complete_node/dist_hash_table/src/pdu/net_pdus.rs:18-26 | each hand-written `NET_*_SIZE` equals the derived size of its struct's fields |
| NetExamples.NetJoinExampleBytes | files/complete_node/dist_hash_table/src/pdu/net_pdus.rs:125-141 | `NetJoinPdu::new(0x01020304, 1000, 50, 0x05060708, 2000)` encodes to `[3,1,2,3,4,3,232,50,5,6,7,8,7,208]` |
| NetExamples.NetJoinExampleParse | files/complete_node/dist_hash_table/src/pdu/net_pdus.rs:115-141 | those fourteen bytes decode to that join with size 14 |
| StunPdus.StunResponseToBytes | files/complete_node/dist_hash_table/src/pdu/stun_pdus.rs:11-15 | `STUN_RESPONSE_SIZE` (5) bytes starting with `pdu_type` |
| StunPdus.StunResponseTryParse | files/complete_node/dist_hash_table/src/pdu/stun_pdus.rs:11-15 | `None` iff shorter than 5 bytes; otherwise consumes 5 and re-encodes to them |
| StunPdus.StunResponseRoundTrip | files/complete_node/dist_hash_table/src/pdu/stun_pdus.rs:11-15 | decode after encode gives the message back; strict prefixes give `None` |
| StunPdus.StunLookupToBytes | files/complete_node/dist_hash_table/src/pdu/stun_pdus.rs:32-35 | the single byte `[pdu_type]` |
| StunPdus.StunLookupTryParse | files/complete_node/dist_hash_table/src/pdu/stun_pdus.rs:32-35 | `None` iff empty; otherwise consumes 1 byte |
| StunPdus.StunLookupRoundTrip | files/complete_node/dist_hash_table/src/pdu/stun_pdus.rs:32-35 | decode after encode gives the message back |
| StunPdus.StunSizesMatchDerived | files/complete_node/dist_hash_table/src/pdu/stun_pdus.rs:8-9 | `STUN_LOOKUP_SIZE` and `STUN_RESPONSE_SIZE` equal the derived sizes |
| StunPdus.StunResponseLayout | files/complete_node/dist_hash_table/src/pdu/stun_pdus.rs:17-24 | `new(a)` encodes as 201 followed by `a` big-endian, and decodes back with size 5 |
| ValPdus.CharsToBytes | files/complete_node/dist_hash_table/src/pdu/val_pdus.rs:39 | one byte per char |
| ValPdus.BytesToChars | files/complete_node/dist_hash_table/src/pdu/val_pdus.rs:58 | one char per byte |
| ValPdus.BytesToCharsToBytes | files/complete_node/dist_hash_table/src/pdu/val_pdus.rs:58 | bytes turned into chars are Latin-1 and turn back into the same bytes |
| ValPdus.CharsToBytesToChars | files/complete_node/dist_hash_table/src/pdu/val_pdus.rs:39 | Latin-1 text turned into bytes turns back into the same text |
| ValPdus.Utf8LenCountsChars | files/complete_node/dist_hash_table/src/pdu/val_pdus.rs:26-27 | `len()` is at least the char count, and equal to it exactly for ASCII text |
| ValPdus.TakeSsn | files/complete_node/dist_hash_table/src/pdu/val_pdus.rs:39 | the first `min(len, 12)` chars of the SSN |
| ValPdus.NewValInsert | files/complete_node/dist_hash_table/src/pdu/val_pdus.rs:22-33 | tag 100; `ssn`, `name` and `email` stored unchanged; length fields are `len() mod 256`; for ASCII text under 256 chars they are the char counts |
| ValPdus.ValInsertToBytes | files/complete_node/dist_hash_table/src/pdu/val_pdus.rs:35-46 | `1 + min(|ssn|,12) + 1 + |name| + 1 + |email|` bytes starting with `pdu_type` |
| ValPdus.EntryParts | files/complete_node/dist_hash_table/src/pdu/val_pdus.rs:35-45 | for every insert, the bytes are the tag, the first `min(|ssn|,12)` SSN chars as bytes, `name_length`, the name's bytes, `email_length` and the e-mail's bytes, in that order and nothing else; a short SSN shifts everything after it forward |
| ValPdus.ValInsertTryParse | files/complete_node/dist_hash_table/src/pdu/val_pdus.rs:48-92 | panics iff the buffer ends right after the name; `None` iff under 14 bytes or too short for the name or e-mail; otherwise consumes `15 + name_length + email_length` and re-encodes to them |
| ValPdus.ValInsertInjective | files/complete_node/dist_hash_table/src/pdu/val_pdus.rs:35-46 | two well-formed inserts with the same bytes are equal |
| ValPdus.ValInsertRoundTrip | files/complete_node/dist_hash_table/src/pdu/val_pdus.rs:48-92 | a well-formed insert followed by anything decodes back with size `15 + name_length + email_length` |
| ValPdus.ValInsertCutAfterName | files/complete_node/dist_hash_table/src/pdu/val_pdus.rs:68 | an encoding cut right after the name makes the decoder panic |
| ValPdus.ValInsertExample | files/complete_node/dist_hash_table/src/pdu/val_pdus.rs:22-92 | `new("111111111111", "Test", "Emai")` encodes to 23 bytes and decodes back |
| ValPdus.NewValLookupResponse | files/complete_node/dist_hash_table/src/pdu/val_pdus.rs:164-175 | tag 103 and otherwise the fields `ValInsertPdu::new` computes |
| ValPdus.ValLookupResponseToBytes | files/complete_node/dist_hash_table/src/pdu/val_pdus.rs:177-188 | byte for byte the insert layout |
| ValPdus.ValLookupResponseTryParse | files/complete_node/dist_hash_table/src/pdu/val_pdus.rs:190-203 | panics exactly when the insert decoder does (buffer ends right after the name); `None` exactly on its short-buffer cases; on success the tag is 102 whatever byte 0 was |
| ValPdus.ValLookupResponseRoundTrip | files/complete_node/dist_hash_table/src/pdu/val_pdus.rs:190-203 | a well-formed response decodes back with tag 102, so one tagged 103 never decodes to itself |
| ValPdus.NewValLookup | files/complete_node/dist_hash_table/src/pdu/val_pdus.rs:107-116 | tag 102 and the given SSN, address and port |
| ValPdus.ValLookupToBytes | files/complete_node/dist_hash_table/src/pdu/val_pdus.rs:118-127 | `1 + min(|ssn|,12) + 4 + 2` bytes starting with `pdu_type` |
| ValPdus.ValLookupTryParse | files/complete_node/dist_hash_table/src/pdu/val_pdus.rs:129-147 | `None` iff under 19 bytes; otherwise consumes 19, the address and port are big-endian after the 12-byte SSN, and the message re-encodes to the bytes consumed |
| ValPdus.ValLookupRoundTrip | files/complete_node/dist_hash_table/src/pdu/val_pdus.rs:129-147 | a lookup with a 12-char Latin-1 SSN decodes back with size 19 |
| ValPdus.NewValRemove | files/complete_node/dist_hash_table/src/pdu/val_pdus.rs:216-223 | tag 101 and the given SSN |
| ValPdus.ValRemoveToBytes | files/complete_node/dist_hash_table/src/pdu/val_pdus.rs:225-232 | `1 + min(|ssn|,12)` bytes starting with `pdu_type` |
| ValPdus.ValRemoveTryParse | files/complete_node/dist_hash_table/src/pdu/val_pdus.rs:234-249 | `None` iff under 13 bytes; otherwise consumes 13 and re-encodes to them |
| ValPdus.ValRemoveRoundTrip | files/complete_node/dist_hash_table/src/pdu/val_pdus.rs:234-249 | a remove with a 12-char Latin-1 SSN decodes back with size 13 |
| ValPdus.ValRemoveShortSsn | files/complete_node/dist_hash_table/src/pdu/val_pdus.rs:225-248 | a short SSN encodes to `1 + k` bytes, which alone decode to `None`; with more bytes after it, those bytes are read into the SSN |
| Pdus.ToBytesStartsWithType | files/complete_node/dist_hash_table/src/pdu/mod.rs:54-72 | every variant's encoding is non-empty and starts with its payload's `pdu_type` |
| Pdus.KindIdInjective | files/complete_node/dist_hash_table/src/pdu/mod.rs:12-28 | the 15 variants' ids are pairwise distinct |
| Pdus.TagIdentifiesKind | files/complete_node/dist_hash_table/src/pdu/mod.rs:54-72 | for messages carrying their own id, the first byte determines the variant, and messages of different variants encode differently |
| Pdus.NetConstructorsStamp | files/complete_node/dist_hash_table/src/pdu/net_pdus.rs:7-15 | every net `new` stores its own id |
| Pdus.ValStunConstructorsStamp | files/complete_node/dist_hash_table/src/pdu/val_pdus.rs:4-7 | every value-store and STUN `new` stores its own id |
| Convert.ToSigned | files/java_files/Convert.java:12 | the int that 32 bits denote lies in the Java `int` range |
| Convert.FromToSigned | files/java_files/Convert.java:29 | storing the int read from some bits gives those bits back |
| Convert.NatToDecimal | files/java_files/Convert.java:13 | the printed digits are never empty |
| Convert.NatToDecimalValue | files/java_files/Convert.java:13 | the printed text is all digits and denotes the number |
| Convert.ParseInt | files/java_files/Convert.java:29 | a successful `Integer.parseInt` lies in the `int` range |
| Convert.ParsePrinted | files/java_files/Convert.java:29 | `Integer.parseInt` of `Integer.toString(n)` is `n` |
| Convert.ParseIntBits | files/java_files/Convert.java:29 | succeeds exactly when `Integer.parseInt` does |
| Convert.ParseBitsPrinted | files/java_files/Convert.java:29 | parsing the printed int of some bits gives those bits back |
| Convert.SplitJoin | files/java_files/Convert.java:27 | splitting undoes joining for parts without the separator |
| Convert.DropTrailingEmpty | files/java_files/Convert.java:27 | a prefix of the parts whose dropped tail is all empty and whose last part is not |
| Convert.JavaSplitPieces | files/java_files/Convert.java:27 | `split("\\.")` (`JavaSplit`) gives dot-free pieces that, joined with dots, are the input less its trailing dots; the last piece is non-empty when there was a dot; a dot-free input is its own single piece |
| Convert.JavaSplitJoin | files/java_files/Convert.java:27 | `split("\\.")` of dot-free parts joined by dots, the last non-empty, gives the parts back |
| Convert.PrintedInt | files/java_files/Convert.java:13 | `Integer.toString(n)` (`IntToDecimal`) is a minus sign exactly when `n < 0`, then digits denoting `|n|`, with a leading `0` only for zero, which prints as exactly "0" |
| Convert.DecimalText | files/java_files/Convert.java:13 | a printed int is non-empty and has no dot |
| Convert.JoinStep | files/java_files/Convert.java:13 | one loop iteration extends the dot-join by one part |
| Convert.AddressToString | files/java_files/Convert.java:8-17 | the four components, least significant byte first, printed in decimal and joined by dots |
| Convert.ComponentBytes | files/java_files/Convert.java:10-12 | `(a & mask[i]) >> (i * 8)` (`Component`) is byte `i` of `a` for `i < 3`, and `a >> 24` with the sign copied for `i = 3` |
| Convert.ComponentRanges | files/java_files/Convert.java:10-12 | components 0-2 print as 0..255; component 3 prints as -128..127 and is negative exactly when bit 31 is set |
| Convert.TopComponentRange | files/java_files/Convert.java:12 | the arithmetic `>>` makes component 3 negative exactly when bit 31 is set |
| Convert.OrComponents | files/java_files/Convert.java:28-30 | succeeds iff there are four parts and each parses; throws `ArrayIndexOutOfBounds` iff the parts run out before one fails to parse |
| Convert.StringToIntAddress | files/java_files/Convert.java:25-33 | succeeds iff the split has at least four parts and the first four parse; throws `ArrayIndexOutOfBounds` iff it has fewer, all parsing |
| Convert.OrFour | files/java_files/Convert.java:28-30 | four parsed parts are or-ed in at offsets 0, 8, 16 and 24, unmasked |
| Convert.OrComponentsFirstFour | files/java_files/Convert.java:28-30 | parts after the fourth are never read |
| Convert.ReassembleComponents | files/java_files/Convert.java:10-30 | or-ing the four components back at their offsets gives the address, sign copies included |
| Convert.TextsOfComponents | files/java_files/Convert.java:13 | each printed component is dot-free, non-empty and parses back to the component's bits |
| Convert.AddressRoundTrip | files/java_files/Convert.java:8-33 | `stringToIntAddress(addressToString(a)) == a` for every 32-bit `a` |
| ConvertExamples.OverlargePartBleeds | files/java_files/Convert.java:29 | "256.0.0.0" reads as 0x100 |
| ConvertExamples.ByteOneAddress | files/java_files/Convert.java:29 | "0.1.0.0" reads as 0x100 too |
| ConvertExamples.ThreePartsThrow | files/java_files/Convert.java:28-29 | "1.2.3" throws `ArrayIndexOutOfBoundsException` |
| ConvertExamples.NonNumericPartThrows | files/java_files/Convert.java:29 | "1.x.3.4" throws `NumberFormatException` |
| ConvertExamples.LoopbackPrinted | files/java_files/Convert.java:8-17 | 0x0100007F prints as "127.0.0.1" |
| ConvertExamples.NegativeTopPrinted | files/java_files/Convert.java:12 | 0xC000A8C0 prints as "192.168.0.-64" |

## Left out

- `files/c_files/read_write_helpers.c` is not part of this model. Its
  type-punned pointer reads depend on the host's memory layout.
- `SSN.java` is not part of this model. Its hash delegates to a `Hasher`
  class whose source is not included here.
- The `get_addr` and `get_*_socket_addr` accessors are left out. They only
  convert into the standard library's `Ipv4Addr` and `SocketAddr`.
- The `Debug` impl of `PDU` is left out. It only formats.
- The `From<X> for PDU` impls are left out as functions. They are the
  constructors of the `Pdu` datatype.
- The proc macros' token handling is left out, and so are their
  `unimplemented!()` branches for enums, tuple structs and unit structs.
  Only the code they generate for structs with named u8/u16/u32 fields is
  modelled.
- There is no decode-by-tag dispatcher, because the source has none.
  `Pdus.ToBytes` models the encode dispatch only.
- `Integer.parseInt` is modelled for ASCII digits only. Java also accepts
  other Unicode decimal digits.
- `String.split` is modelled only for the literal-dot pattern that
  `stringToIntAddress` uses, not for general regular expressions.
- `Pdus.ToBytes` carries no contract of its own. Its properties are stated
  by `Pdus.ToBytesStartsWithType` and `Pdus.TagIdentifiesKind`.
- The `new` constructors of the `Net*` and `Stun*` messages carry no
  contract of their own. That each stores its own id is stated by
  `Pdus.NetConstructorsStamp` and `Pdus.ValStunConstructorsStamp`.
