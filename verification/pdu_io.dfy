/** The primitive field codec of the `pdu_io` crate: big-endian `to_bytes`,
    `size_of` and `from_bytes` for the unsigned types u8, u16 and u32, and
    the `read_be_*` cursor readers that `from_bytes` delegates to.

    A Rust `&mut &[u8]` cursor is modelled by returning the value read
    together with the rest of the slice. */
module PduIo {

  type u8 = x: int | 0 <= x < 0x100
  type u16 = x: int | 0 <= x < 0x1_0000
  type u32 = x: int | 0 <= x < 0x1_0000_0000

  /** A Rust call that either returns its value or panics (here: a
      `split_at` past the end of a slice). */
  datatype Attempt<+T> = Returns(value: T) | Panics

  /** `std::mem::size_of` of u8, u16 and u32. */
  const U8_SIZE: nat := 1
  const U16_SIZE: nat := 2
  const U32_SIZE: nat := 4

  /** The number a byte string denotes when its first byte is the most
      significant one: the reference meaning of "big-endian". */
  function BeValue(s: seq<u8>): nat
  {
    if |s| == 0 then 0 else BeValue(s[..|s| - 1]) * 0x100 + s[|s| - 1]
  }

  /** Two byte strings of one length that denote the same number are equal. */
  lemma {:induction false} BeValueInjective(a: seq<u8>, b: seq<u8>)
    requires |a| == |b|
    requires BeValue(a) == BeValue(b)
    ensures a == b
  {
    if |a| > 0 {
      var n := |a| - 1;
      assert a[n] == BeValue(a) % 0x100 == b[n];
      assert BeValue(a[..n]) == BeValue(a) / 0x100 == BeValue(b[..n]);
      BeValueInjective(a[..n], b[..n]);
      assert a == a[..n] + [a[n]];
      assert b == b[..n] + [b[n]];
    }
  }

  /** Unfolds `BeValue` on a four-byte string. */
  lemma BeValueOfFour(s: seq<u8>)
    requires |s| == 4
    ensures BeValue(s) == s[0] as int * 0x100_0000 + s[1] as int * 0x1_0000 + s[2] as int * 0x100 + s[3] as int
  {
    assert s[..3][..2] == s[..2];
    assert BeValue(s[..3]) == BeValue(s[..2]) * 0x100 + s[2];
    BeValueOfTwo(s[..2]);
  }

  /** Unfolds `BeValue` on a two-byte string. */
  lemma BeValueOfTwo(s: seq<u8>)
    requires |s| == 2
    ensures BeValue(s) == s[0] as int * 0x100 + s[1] as int
  {
    assert s[..1][..0] == [];
    assert BeValue(s[..1]) == s[0];
  }

  /** `u8::to_bytes`. */
  function U8ToBytes(v: u8): (r: seq<u8>)
    ensures |r| == U8_SIZE
    ensures BeValue(r) == v
  {
    [v]
  }

  /** `u16::to_bytes`, i.e. `to_be_bytes`. */
  function U16ToBytes(v: u16): (r: seq<u8>)
    ensures |r| == U16_SIZE
    ensures BeValue(r) == v
  {
    var r := [v / 0x100, v % 0x100];
    BeValueOfTwo(r);
    r
  }

  /** `u32::to_bytes`, i.e. `to_be_bytes`. */
  function U32ToBytes(v: u32): (r: seq<u8>)
    ensures |r| == U32_SIZE
    ensures BeValue(r) == v
  {
    var q1 := v / 0x100;
    var q2 := q1 / 0x100;
    var q3 := q2 / 0x100;
    var r := [q3, q2 % 0x100, q1 % 0x100, v % 0x100];
    BeValueOfFour(r);
    r
  }

  /** `util::read_be_u8`: split off one byte and decode it. */
  function ReadBeU8(input: seq<u8>): (r: (u8, seq<u8>))
    requires |input| >= U8_SIZE
    ensures r.0 == BeValue(input[..U8_SIZE]) == input[0]
    ensures r.1 == input[U8_SIZE..]
  {
    var (intBytes, rest) := (input[..U8_SIZE], input[U8_SIZE..]);
    assert intBytes[..0] == [];
    (intBytes[0], rest)
  }

  /** `util::read_be_u16`: split off two bytes and decode them big-endian. */
  function ReadBeU16(input: seq<u8>): (r: (u16, seq<u8>))
    requires |input| >= U16_SIZE
    ensures r.0 == BeValue(input[..U16_SIZE])
    ensures r.1 == input[U16_SIZE..]
  {
    var (intBytes, rest) := (input[..U16_SIZE], input[U16_SIZE..]);
    BeValueOfTwo(intBytes);
    (intBytes[0] as int * 0x100 + intBytes[1] as int, rest)
  }

  /** `util::read_be_u32`: split off four bytes and decode them big-endian. */
  function ReadBeU32(input: seq<u8>): (r: (u32, seq<u8>))
    requires |input| >= U32_SIZE
    ensures r.0 == BeValue(input[..U32_SIZE])
    ensures r.1 == input[U32_SIZE..]
  {
    var (intBytes, rest) := (input[..U32_SIZE], input[U32_SIZE..]);
    BeValueOfFour(intBytes);
    (intBytes[0] as int * 0x100_0000 + intBytes[1] as int * 0x1_0000 + intBytes[2] as int * 0x100 + intBytes[3] as int, rest)
  }

  /** Reading back what `to_bytes` wrote yields the value and leaves the
      cursor exactly at the bytes that followed. */
  lemma U8RoundTrip(v: u8, rest: seq<u8>)
    ensures ReadBeU8(U8ToBytes(v) + rest) == (v, rest)
  {
    assert (U8ToBytes(v) + rest)[..U8_SIZE] == U8ToBytes(v);
  }

  lemma U16RoundTrip(v: u16, rest: seq<u8>)
    ensures ReadBeU16(U16ToBytes(v) + rest) == (v, rest)
  {
    assert (U16ToBytes(v) + rest)[..U16_SIZE] == U16ToBytes(v);
  }

  lemma U32RoundTrip(v: u32, rest: seq<u8>)
    ensures ReadBeU32(U32ToBytes(v) + rest) == (v, rest)
  {
    assert (U32ToBytes(v) + rest)[..U32_SIZE] == U32ToBytes(v);
  }

  /** Re-encoding what a reader decoded gives back the bytes it consumed. */
  lemma U8ReadThenWrite(input: seq<u8>)
    requires |input| >= U8_SIZE
    ensures U8ToBytes(ReadBeU8(input).0) + ReadBeU8(input).1 == input
  {
    BeValueInjective(U8ToBytes(ReadBeU8(input).0), input[..U8_SIZE]);
    assert input == input[..U8_SIZE] + input[U8_SIZE..];
  }

  lemma U16ReadThenWrite(input: seq<u8>)
    requires |input| >= U16_SIZE
    ensures U16ToBytes(ReadBeU16(input).0) + ReadBeU16(input).1 == input
  {
    BeValueInjective(U16ToBytes(ReadBeU16(input).0), input[..U16_SIZE]);
    assert input == input[..U16_SIZE] + input[U16_SIZE..];
  }

  lemma U32ReadThenWrite(input: seq<u8>)
    requires |input| >= U32_SIZE
    ensures U32ToBytes(ReadBeU32(input).0) + ReadBeU32(input).1 == input
  {
    BeValueInjective(U32ToBytes(ReadBeU32(input).0), input[..U32_SIZE]);
    assert input == input[..U32_SIZE] + input[U32_SIZE..];
  }
}
