/** `Convert.java`: an IPv4 address held in a Java `int` printed as a
    dotted quad, and parsed back.

    A Java `int` is modelled by its 32 bits (`bv32`); `ToSigned` and
    `FromSigned` give the two's-complement reading where Java turns the
    int into decimal text or an `Integer.parseInt` result into bits. */
module Convert {
  import opened Wrappers

  /** The exceptions `stringToIntAddress` can throw. */
  datatype JavaException = ArrayIndexOutOfBounds | NumberFormat

  /** A Java call that returns a value or throws. */
  datatype JavaResult<+T> = Ok(value: T) | Throws(exception: JavaException)

  const INT_MIN: int := -0x8000_0000
  const INT_MAX: int := 0x7FFF_FFFF

  // ------------------------------------------------------------- ints

  /** The value of the bits `x` as a Java `int`. */
  function ToSigned(x: bv32): (n: int)
    ensures INT_MIN <= n <= INT_MAX
  {
    BitsAsInt(x);
    if x < 0x8000_0000 then x as int else x as int - 0x1_0000_0000
  }

  /** The unsigned reading of 32 bits, and where its sign bit flips. */
  lemma BitsAsInt(x: bv32)
    ensures 0 <= x as int < 0x1_0000_0000
    ensures x < 0x8000_0000 <==> x as int < 0x8000_0000
  {
  }

  /** The bits of the Java `int` `n`. */
  function FromSigned(n: int): bv32
    requires INT_MIN <= n <= INT_MAX
  {
    (if n < 0 then n + 0x1_0000_0000 else n) as bv32
  }

  /** Reading bits as an int and storing the int back gives the same bits. */
  lemma FromToSigned(x: bv32)
    ensures FromSigned(ToSigned(x)) == x
  {
    BitsAsInt(x);
  }

  /** Java's `>>` on an `int`: the shift that copies the sign bit, by the
      low five bits of the shift distance. */
  function Sar(x: bv32, n: bv32): bv32
  {
    if x & 0x8000_0000 == 0 then x >> (n & 31) else !((!x) >> (n & 31))
  }

  /** Java's `<<` on an `int`, by the low five bits of the shift distance. */
  function Shl(x: bv32, n: bv32): bv32
  {
    x << (n & 31)
  }

  // ------------------------------------------------------------ decimal

  predicate IsDigit(c: char)
  {
    '0' <= c <= '9'
  }

  predicate AllDigits(s: string)
  {
    forall i :: 0 <= i < |s| ==> IsDigit(s[i])
  }

  function DigitChar(d: nat): (c: char)
    requires d < 10
    ensures IsDigit(c) && c as int - '0' as int == d
  {
    ('0' as int + d) as char
  }

  /** The number a string of decimal digits denotes. */
  function DigitsValue(s: string): nat
    requires AllDigits(s)
  {
    if |s| == 0 then 0 else DigitsValue(s[..|s| - 1]) * 10 + (s[|s| - 1] as int - '0' as int)
  }

  /** The decimal digits of `n`, most significant first, without leading zeros. */
  function NatToDecimal(n: nat): (s: string)
    ensures |s| >= 1
  {
    if n < 10 then [DigitChar(n)] else NatToDecimal(n / 10) + [DigitChar(n % 10)]
  }

  /** `Integer.toString`, which string concatenation applies to an `int`. */
  function IntToDecimal(n: int): string
  {
    if n < 0 then "-" + NatToDecimal(-n) else NatToDecimal(n)
  }

  /** The digits `NatToDecimal` prints denote the number printed. */
  lemma {:induction false} NatToDecimalValue(n: nat)
    ensures AllDigits(NatToDecimal(n))
    ensures DigitsValue(NatToDecimal(n)) == n
  {
    var s := NatToDecimal(n);
    if n >= 10 {
      NatToDecimalValue(n / 10);
      assert s[..|s| - 1] == NatToDecimal(n / 10);
    }
  }

  /** The leading digit `NatToDecimal` prints is `0` only for zero. */
  lemma {:induction false} NatToDecimalLeading(n: nat)
    ensures NatToDecimal(n)[0] == '0' <==> n == 0
  {
    if n >= 10 {
      NatToDecimalLeading(n / 10);
    }
  }

  /** What `Integer.toString(n)` prints: a minus sign exactly when `n` is
      negative, then the decimal digits of its magnitude, with a leading
      zero only for zero itself. */
  lemma PrintedInt(n: int)
    ensures var s, k := IntToDecimal(n), if n < 0 then 1 else 0;
      && |s| > k
      && (s[0] == '-' <==> n < 0)
      && AllDigits(s[k..])
      && DigitsValue(s[k..]) == (if n < 0 then -n else n)
      && (s[k] == '0' <==> n == 0)
      && (n == 0 ==> s == "0")
  {
    var m := if n < 0 then -n else n;
    NatToDecimalValue(m);
    NatToDecimalLeading(m);
    assert IntToDecimal(n)[(if n < 0 then 1 else 0)..] == NatToDecimal(m);
  }

  /** `Integer.parseInt(s)`: an optional sign and at least one decimal
      digit, denoting a value in the `int` range; anything else throws
      `NumberFormatException` (here `None`). */
  function ParseInt(s: string): (r: Option<int>)
    ensures r.Some? ==> INT_MIN <= r.value <= INT_MAX
  {
    if |s| == 0 then None
    else
      var negative := s[0] == '-';
      var digits := if s[0] == '-' || s[0] == '+' then s[1..] else s;
      if |digits| == 0 || !AllDigits(digits) then None
      else
        var magnitude: int := DigitsValue(digits);
        var v := if negative then -magnitude else magnitude;
        if INT_MIN <= v <= INT_MAX then Some(v) else None
  }

  /** Parsing what `Integer.toString` prints gives back the int. */
  lemma ParsePrinted(n: int)
    requires INT_MIN <= n <= INT_MAX
    ensures ParseInt(IntToDecimal(n)) == Some(n)
  {
    var m := if n < 0 then -n else n;
    NatToDecimalValue(m);
    var s := IntToDecimal(n);
    if n < 0 {
      assert s[1..] == NatToDecimal(m);
    }
  }

  /** `Integer.parseInt` as the bits of the `int` it returns. */
  function ParseIntBits(s: string): (r: Option<bv32>)
    ensures r.Some? <==> ParseInt(s).Some?
  {
    match ParseInt(s)
    case None => None
    case Some(v) => Some(FromSigned(v))
  }

  /** Parsing the text Java prints for an `int` gives back its bits. */
  lemma ParseBitsPrinted(c: bv32)
    ensures ParseIntBits(IntToDecimal(ToSigned(c))) == Some(c)
  {
    ParsePrinted(ToSigned(c));
    FromToSigned(c);
  }

  // -------------------------------------------------------------- split

  /** The pieces of `s` between the `sep` chars, empty ones included. */
  function SplitOn(s: string, sep: char): (r: seq<string>)
    ensures |r| >= 1
  {
    if |s| == 0 then [""]
    else if s[0] == sep then [""] + SplitOn(s[1..], sep)
    else
      var rest := SplitOn(s[1..], sep);
      [[s[0]] + rest[0]] + rest[1..]
  }

  /** `parts` glued together with `sep` between neighbours. */
  function Join(parts: seq<string>, sep: char): string
  {
    if |parts| == 0 then ""
    else if |parts| == 1 then parts[0]
    else parts[0] + [sep] + Join(parts[1..], sep)
  }

  /** Splitting a string that starts with a separator-free piece: the
      piece is the front of the first part. */
  lemma {:induction false} SplitAfterPiece(piece: string, t: string, sep: char)
    requires sep !in piece
    ensures SplitOn(piece + t, sep) == [piece + SplitOn(t, sep)[0]] + SplitOn(t, sep)[1..]
  {
    if |piece| > 0 {
      SplitAfterPiece(piece[1..], t, sep);
      assert (piece + t)[1..] == piece[1..] + t;
      assert [piece[0]] + (piece[1..] + SplitOn(t, sep)[0]) == piece + SplitOn(t, sep)[0];
    } else {
      var r := SplitOn(t, sep);
      assert piece + t == t && piece + r[0] == r[0];
      assert [r[0]] + r[1..] == r;
    }
  }

  /** Splitting undoes joining when no part contains the separator. */
  lemma {:induction false} SplitJoin(parts: seq<string>, sep: char)
    requires |parts| >= 1
    requires forall i :: 0 <= i < |parts| ==> sep !in parts[i]
    ensures SplitOn(Join(parts, sep), sep) == parts
  {
    if |parts| == 1 {
      SplitAfterPiece(parts[0], "", sep);
      assert parts[0] + "" == parts[0];
    } else {
      var rest := Join(parts[1..], sep);
      SplitJoin(parts[1..], sep);
      SplitAfterPiece(parts[0], [sep] + rest, sep);
      assert parts[0] + [sep] + rest == parts[0] + ([sep] + rest);
      assert ([sep] + rest)[1..] == rest;
      assert SplitOn([sep] + rest, sep) == [""] + parts[1..];
      assert parts[0] + "" == parts[0];
      assert parts == [parts[0]] + parts[1..];
    }
  }

  /** `parts` without its trailing empty strings. */
  function DropTrailingEmpty(parts: seq<string>): (r: seq<string>)
    ensures |r| <= |parts| && r == parts[..|r|]
    ensures |r| > 0 ==> r[|r| - 1] != ""
    ensures forall i :: |r| <= i < |parts| ==> parts[i] == ""
  {
    if |parts| > 0 && parts[|parts| - 1] == "" then DropTrailingEmpty(parts[..|parts| - 1]) else parts
  }

  /** `s.split("\\.")`: the string itself when it has no dot, otherwise
      the pieces between dots with the trailing empty ones removed. */
  function JavaSplit(s: string): seq<string>
  {
    if '.' !in s then [s] else DropTrailingEmpty(SplitOn(s, '.'))
  }

  /** `k` copies of `c`. */
  function Repeat(c: char, k: nat): (s: string)
    ensures |s| == k && forall i :: 0 <= i < k ==> s[i] == c
  {
    if k == 0 then "" else Repeat(c, k - 1) + [c]
  }

  /** No piece of a split contains the separator. */
  lemma {:induction false} SplitOnPieces(s: string, sep: char)
    ensures forall i :: 0 <= i < |SplitOn(s, sep)| ==> sep !in SplitOn(s, sep)[i]
  {
    if |s| > 0 {
      SplitOnPieces(s[1..], sep);
      var rest := SplitOn(s[1..], sep);
      if s[0] != sep {
        assert forall i :: 1 <= i < |SplitOn(s, sep)| ==> SplitOn(s, sep)[i] == rest[i];
      } else {
        assert forall i :: 1 <= i < |SplitOn(s, sep)| ==> SplitOn(s, sep)[i] == rest[i - 1];
      }
    }
  }

  /** Joining the pieces of a split with the separator gives the string back. */
  lemma {:induction false} JoinSplitOn(s: string, sep: char)
    ensures Join(SplitOn(s, sep), sep) == s
  {
    if |s| > 0 {
      var rest := SplitOn(s[1..], sep);
      JoinSplitOn(s[1..], sep);
      if s[0] == sep {
        assert ([""] + rest)[1..] == rest;
        assert s == [sep] + s[1..];
      } else if |rest| == 1 {
        assert s == [s[0]] + s[1..];
      } else {
        var parts := [[s[0]] + rest[0]] + rest[1..];
        assert parts[1..] == rest[1..];
        assert s == [s[0]] + s[1..];
      }
    }
  }

  /** Dropping the trailing empty parts takes only separators off the end
      of the joined text: one per dropped part, less one when every part
      was empty. */
  lemma {:induction false} JoinDropTrailingEmpty(parts: seq<string>, sep: char)
    requires |parts| >= 1
    ensures var d := DropTrailingEmpty(parts);
      Join(parts, sep) == Join(d, sep) + Repeat(sep, if |d| == 0 then |parts| - 1 else |parts| - |d|)
  {
    var n := |parts|;
    if parts[n - 1] == "" && n > 1 {
      var front := parts[..n - 1];
      var d := DropTrailingEmpty(front);
      assert DropTrailingEmpty(parts) == d;
      JoinDropTrailingEmpty(front, sep);
      JoinSnoc(front, "", sep);
      assert parts == front + [""];
      var m := if |d| == 0 then n - 2 else n - 1 - |d|;
      assert Join(front, sep) + [sep] + "" == Join(front, sep) + [sep];
      assert Join(front, sep) == Join(d, sep) + Repeat(sep, m);
      assert Join(parts, sep) == Join(d, sep) + Repeat(sep, m) + [sep];
      assert Repeat(sep, m + 1) == Repeat(sep, m) + [sep];
      assert (if |d| == 0 then n - 1 else n - |d|) == m + 1;
    } else if parts[n - 1] == "" {
      assert DropTrailingEmpty(parts) == DropTrailingEmpty([]) == [];
      assert Join(parts, sep) == "" == Join([], sep) + Repeat(sep, 0);
    } else {
      assert DropTrailingEmpty(parts) == parts;
      assert Join(parts, sep) == Join(parts, sep) + Repeat(sep, 0);
    }
  }

  /** `split("\\.")` cuts `s` into dot-free pieces that, joined with dots,
      give `s` back less its trailing dots; the last piece is non-empty
      when `s` has a dot, and a string without a dot is its own single
      piece. */
  lemma JavaSplitPieces(s: string)
    ensures var r := JavaSplit(s);
      && (forall i :: 0 <= i < |r| ==> '.' !in r[i])
      && ('.' !in s ==> r == [s])
      && ('.' in s && |r| > 0 ==> r[|r| - 1] != "")
      && |Join(r, '.')| <= |s|
      && s == Join(r, '.') + Repeat('.', |s| - |Join(r, '.')|)
  {
    if '.' in s {
      var parts := SplitOn(s, '.');
      var d := DropTrailingEmpty(parts);
      assert JavaSplit(s) == d;
      assert |d| > 0 ==> d[|d| - 1] != "";
      SplitOnPieces(s, '.');
      JoinSplitOn(s, '.');
      JoinDropTrailingEmpty(parts, '.');
      var m := if |d| == 0 then |parts| - 1 else |parts| - |d|;
      assert s == Join(d, '.') + Repeat('.', m);
      assert m == |s| - |Join(d, '.')|;
      assert forall i :: 0 <= i < |d| ==> d[i] == parts[i];
    } else {
      assert JavaSplit(s) == [s] && Join([s], '.') == s;
      assert s + Repeat('.', 0) == s;
    }
  }

  // ----------------------------------------------------------- addresses

  /** The masks `addressToString` applies, least significant byte first. */
  const MASK: seq<bv32> := [0x0000_00FF, 0x0000_FF00, 0x00FF_0000, 0xFF00_0000]

  /** `i * 8`, the Java `int` by which iteration `i` of either loop shifts. */
  function ByteOffset(i: nat): (r: bv32)
    requires i < 4
    ensures r as int == 8 * i
  {
    if i == 0 then 0 else if i == 1 then 8 else if i == 2 then 16 else 24
  }

  /** `(a & mask[i]) >> (i * 8)`: the i-th component `addressToString` prints. */
  function Component(a: bv32, i: nat): bv32
    requires i < 4
  {
    Sar(a & MASK[i], ByteOffset(i))
  }

  /** The i-th component as the decimal text Java prints for it. */
  function ComponentText(a: bv32, i: nat): string
    requires i < 4
  {
    IntToDecimal(ToSigned(Component(a, i)))
  }

  /** The four component texts, least significant first. */
  function ComponentTexts(a: bv32): (r: seq<string>)
    ensures |r| == 4
  {
    [ComponentText(a, 0), ComponentText(a, 1), ComponentText(a, 2), ComponentText(a, 3)]
  }

  /** The text of component `i` is the i-th of the four texts. */
  lemma ComponentTextAt(a: bv32, i: nat)
    requires i < 4
    ensures ComponentTexts(a)[i] == IntToDecimal(ToSigned(Component(a, i)))
  {
    if i == 0 {
      assert ComponentTexts(a)[0] == ComponentText(a, 0);
    } else if i == 1 {
      assert ComponentTexts(a)[1] == ComponentText(a, 1);
    } else if i == 2 {
      assert ComponentTexts(a)[2] == ComponentText(a, 2);
    } else {
      assert ComponentTexts(a)[3] == ComponentText(a, 3);
    }
  }

  /** Joining one more part onto a non-empty list appends a separator and the part. */
  lemma {:induction false} JoinSnoc(parts: seq<string>, part: string, sep: char)
    requires |parts| >= 1
    ensures Join(parts + [part], sep) == Join(parts, sep) + [sep] + part
  {
    if |parts| > 1 {
      JoinSnoc(parts[1..], part, sep);
      assert (parts + [part])[1..] == parts[1..] + [part];
    } else {
      assert (parts + [part])[1..] == [part];
    }
  }

  /** One iteration of `addressToString`'s loop: appending the next part,
      after a dot unless it is the first, extends the join by that part. */
  lemma JoinStep(parts: seq<string>, i: nat, res: string)
    requires i < |parts| && res == Join(parts[..i], '.')
    ensures res + (if i != 0 then "." else "") + parts[i] == Join(parts[..i + 1], '.')
  {
    TakeOneMore(parts, i);
    if i != 0 {
      JoinSnoc(parts[..i], parts[i], '.');
    } else {
      assert res + "" == res;
    }
  }

  lemma TakeOneMore<T>(s: seq<T>, i: nat)
    requires i < |s|
    ensures s[..i + 1] == s[..i] + [s[i]]
  {
  }

  lemma TakeAll<T>(s: seq<T>)
    ensures s[..|s|] == s
  {
  }

  /** `addressToString`: the four components, least significant first,
      printed in decimal and separated by dots. */
  method AddressToString(a: bv32) returns (res: string)
    ensures res == Join(ComponentTexts(a), '.')
  {
    res := "";
    var i := 0;
    while i < 4
      invariant 0 <= i <= 4
      invariant res == Join(ComponentTexts(a)[..i], '.')
    {
      var b := Component(a, i);
      var text := IntToDecimal(ToSigned(b));
      ComponentTextAt(a, i);
      JoinStep(ComponentTexts(a), i, res);
      res := res + (if i != 0 then "." else "") + text;
      i := i + 1;
    }
    TakeAll(ComponentTexts(a));
  }

  /** Iterations `i` to 3 of `stringToIntAddress`'s loop, with `res` the
      bits gathered so far: `addr[i]` throws when the split gave too few
      parts, `Integer.parseInt` when the part is no int, and otherwise the
      parsed value shifted left by `i * 8` is or-ed into `res`. */
  function OrComponents(addr: seq<string>, i: nat, res: bv32): (r: JavaResult<bv32>)
    requires i <= 4 && i <= |addr|
    ensures r.Ok? <==> |addr| >= 4 && forall j :: i <= j < 4 ==> ParseIntBits(addr[j]).Some?
    ensures r == Throws(ArrayIndexOutOfBounds) <==> |addr| < 4 && forall j :: i <= j < |addr| ==> ParseIntBits(addr[j]).Some?
    decreases 4 - i
  {
    if i == 4 then Ok(res)
    else if i >= |addr| then Throws(ArrayIndexOutOfBounds)
    else
      match ParseIntBits(addr[i])
      case None => Throws(NumberFormat)
      case Some(b) => OrComponents(addr, i + 1, res | Shl(b, ByteOffset(i)))
  }

  /** `stringToIntAddress`: split at the dots, then or together the first
      four parts, each shifted to its byte. It succeeds exactly when there
      are at least four parts and the first four are ints; further parts
      are never looked at. */
  function StringToIntAddress(s: string): (r: JavaResult<bv32>)
    ensures r.Ok? <==> |JavaSplit(s)| >= 4 && forall j :: 0 <= j < 4 ==> ParseIntBits(JavaSplit(s)[j]).Some?
    ensures r == Throws(ArrayIndexOutOfBounds) <==>
      |JavaSplit(s)| < 4 && forall j :: 0 <= j < |JavaSplit(s)| ==> ParseIntBits(JavaSplit(s)[j]).Some?
  {
    OrComponents(JavaSplit(s), 0, 0)
  }

  /** Component `i` is byte `i` of the address, counting from the least
      significant; the top byte comes out sign-extended, because `>>`
      copies the sign bit. */
  lemma ComponentBytes(a: bv32)
    ensures Component(a, 0) == a & 0xFF
    ensures Component(a, 1) == (a >> 8) & 0xFF
    ensures Component(a, 2) == (a >> 16) & 0xFF
    ensures Component(a, 3) == Sar(a, 24)
  {
    ComponentZero(a);
    ComponentOne(a);
    ComponentTwo(a);
    ComponentThree(a);
  }

  /** The mask and shift amount of each iteration, written out. */
  lemma ComponentZero(a: bv32)
    ensures Component(a, 0) == Sar(a & 0xFF, 0)
  {
    assert MASK[0] == 0xFF && ByteOffset(0) == 0;
  }

  lemma ComponentOne(a: bv32)
    ensures Component(a, 1) == Sar(a & 0xFF00, 8)
  {
    assert MASK[1] == 0xFF00 && ByteOffset(1) == 8;
  }

  lemma ComponentTwo(a: bv32)
    ensures Component(a, 2) == Sar(a & 0xFF_0000, 16)
  {
    assert MASK[2] == 0xFF_0000 && ByteOffset(2) == 16;
  }

  lemma ComponentThree(a: bv32)
    ensures Component(a, 3) == Sar(a & 0xFF00_0000, 24)
  {
    assert MASK[3] == 0xFF00_0000 && ByteOffset(3) == 24;
  }

  /** Components 0 to 2 are a masked byte below bit 31 moved down to bits 0..7. */
  lemma LowComponentBits(a: bv32)
    ensures Sar(a & 0xFF, 0) < 0x100
    ensures Sar(a & 0xFF00, 8) < 0x100
    ensures Sar(a & 0xFF_0000, 16) < 0x100
  {
  }

  /** The top byte shifted right with sign copying: below 0x80 when bit 31
      is clear, at least 0xFFFF_FF80 (a negative int) when it is set. */
  lemma TopComponentBits(a: bv32)
    ensures a & 0x8000_0000 == 0 ==> Sar(a & 0xFF00_0000, 24) < 0x80
    ensures a & 0x8000_0000 != 0 ==> Sar(a & 0xFF00_0000, 24) >= 0xFFFF_FF80
  {
  }

  /** Bits below 0x100 read as the same small non-negative int. */
  lemma SmallBitsAsInt(c: bv32)
    requires c < 0x100
    ensures ToSigned(c) == c as int && 0 <= c as int < 0x100
  {
    assert c as int < 0x100;
  }

  /** Bits below 0x80 read as an int in 0..127. */
  lemma PositiveByteAsInt(c: bv32)
    requires c < 0x80
    ensures 0 <= ToSigned(c) < 0x80
  {
    assert c as int < 0x80;
  }

  /** Bits from 0xFFFF_FF80 on read as an int in -128..-1. */
  lemma NegativeByteAsInt(c: bv32)
    requires c >= 0xFFFF_FF80
    ensures -128 <= ToSigned(c) < 0
  {
    BitsAsInt(c);
    assert c as int >= 0xFFFF_FF80;
  }

  /** Components 0 to 2 print as 0..255. Component 3 is shifted with the
      sign-copying `>>`, so it prints as -128..127 and is negative exactly
      when bit 31 of the address is set. */
  lemma ComponentRanges(a: bv32)
    ensures 0 <= ToSigned(Component(a, 0)) <= 255
    ensures 0 <= ToSigned(Component(a, 1)) <= 255
    ensures 0 <= ToSigned(Component(a, 2)) <= 255
    ensures -128 <= ToSigned(Component(a, 3)) <= 127
    ensures ToSigned(Component(a, 3)) < 0 <==> a & 0x8000_0000 != 0
  {
    LowComponentRanges(a);
    TopComponentRange(a);
  }

  lemma LowComponentRanges(a: bv32)
    ensures 0 <= ToSigned(Component(a, 0)) <= 255
    ensures 0 <= ToSigned(Component(a, 1)) <= 255
    ensures 0 <= ToSigned(Component(a, 2)) <= 255
  {
    ComponentZero(a);
    ComponentOne(a);
    ComponentTwo(a);
    LowComponentBits(a);
    SmallBitsAsInt(Component(a, 0));
    SmallBitsAsInt(Component(a, 1));
    SmallBitsAsInt(Component(a, 2));
  }

  lemma TopComponentRange(a: bv32)
    ensures -128 <= ToSigned(Component(a, 3)) <= 127
    ensures ToSigned(Component(a, 3)) < 0 <==> a & 0x8000_0000 != 0
  {
    var c := Component(a, 3);
    TopComponentSign(a, c);
    if a & 0x8000_0000 == 0 {
      PositiveByteAsInt(c);
    } else {
      NegativeByteAsInt(c);
    }
  }

  lemma TopComponentSign(a: bv32, c: bv32)
    requires c == Component(a, 3)
    ensures a & 0x8000_0000 == 0 ==> c < 0x80
    ensures a & 0x8000_0000 != 0 ==> c >= 0xFFFF_FF80
  {
    ComponentThree(a);
    TopComponentBits(a);
  }

  /** Shifting each component back to its offset and or-ing the four
      together gives the address back, sign copies included. */
  lemma ShiftBack(a: bv32)
    ensures (((0 | Shl(Sar(a & 0xFF, 0), 0)) | Shl(Sar(a & 0xFF00, 8), 8)) | Shl(Sar(a & 0xFF_0000, 16), 16)) | Shl(Sar(a & 0xFF00_0000, 24), 24) == a
  {
  }

  lemma ReassembleComponents(a: bv32)
    ensures OrAll(Component(a, 0), Component(a, 1), Component(a, 2), Component(a, 3)) == a
  {
    ComponentZero(a);
    ComponentOne(a);
    ComponentTwo(a);
    ComponentThree(a);
    ShiftBack(a);
  }

  /** What `Integer.toString` prints is non-empty and has no dot. */
  lemma DecimalText(n: int)
    ensures |IntToDecimal(n)| >= 1 && '.' !in IntToDecimal(n)
  {
    var m := if n < 0 then -n else n;
    NatToDecimalValue(m);
    var s := IntToDecimal(n);
    if n < 0 {
      assert s == "-" + NatToDecimal(m);
      assert forall k :: 1 <= k < |s| ==> s[k] == NatToDecimal(m)[k - 1];
    }
  }

  /** A join of at least two parts holds a separator right after the first part. */
  lemma JoinHasSeparator(parts: seq<string>, sep: char)
    requires |parts| >= 2
    ensures sep in Join(parts, sep)
  {
    var s := Join(parts, sep);
    assert s == parts[0] + [sep] + Join(parts[1..], sep);
    assert s[|parts[0]|] == sep;
  }

  /** `split("\\.")` undoes joining at least two dot-free parts the last
      of which is not empty. */
  lemma JavaSplitJoin(parts: seq<string>)
    requires |parts| >= 2
    requires forall i :: 0 <= i < |parts| ==> '.' !in parts[i]
    requires parts[|parts| - 1] != ""
    ensures JavaSplit(Join(parts, '.')) == parts
  {
    JoinHasSeparator(parts, '.');
    SplitJoin(parts, '.');
  }

  /** Four parts that parse to the bits `b0` to `b3` make the loop of
      `stringToIntAddress` or together their bits at their offsets. */
  lemma OrFour(addr: seq<string>, b0: bv32, b1: bv32, b2: bv32, b3: bv32)
    requires |addr| >= 4
    requires ParseIntBits(addr[0]) == Some(b0) && ParseIntBits(addr[1]) == Some(b1)
    requires ParseIntBits(addr[2]) == Some(b2) && ParseIntBits(addr[3]) == Some(b3)
    ensures OrComponents(addr, 0, 0) == Ok(OrAll(b0, b1, b2, b3))
  {
    var r1 := 0 | Shl(b0, ByteOffset(0));
    var r2 := r1 | Shl(b1, ByteOffset(1));
    var r3 := r2 | Shl(b2, ByteOffset(2));
    OrStep(addr, 0, 0, b0);
    OrStep(addr, 1, r1, b1);
    OrStep(addr, 2, r2, b2);
    OrStep(addr, 3, r3, b3);
  }

  /** One iteration of the loop of `stringToIntAddress` on a part that parses. */
  lemma OrStep(addr: seq<string>, i: nat, res: bv32, b: bv32)
    requires i < 4 && i < |addr|
    requires ParseIntBits(addr[i]) == Some(b)
    ensures OrComponents(addr, i, res) == OrComponents(addr, i + 1, res | Shl(b, ByteOffset(i)))
  {
  }

  /** The four values or-ed together at their offsets, in loop order. */
  function OrAll(b0: bv32, b1: bv32, b2: bv32, b3: bv32): bv32
  {
    (((0 | Shl(b0, ByteOffset(0))) | Shl(b1, ByteOffset(1))) | Shl(b2, ByteOffset(2))) | Shl(b3, ByteOffset(3))
  }

  /** `stringToIntAddress` reads back every address `addressToString`
      prints, including those whose top component prints negative. */
  lemma AddressRoundTrip(a: bv32)
    ensures StringToIntAddress(Join(ComponentTexts(a), '.')) == Ok(a)
  {
    var texts := ComponentTexts(a);
    TextsOfComponents(a);
    JavaSplitJoin(texts);
    OrFour(texts, Component(a, 0), Component(a, 1), Component(a, 2), Component(a, 3));
    ReassembleComponents(a);
  }

  /** The printed components are dot-free, non-empty and parse back to
      the components' bits. */
  lemma TextsOfComponents(a: bv32)
    ensures forall i :: 0 <= i < 4 ==> '.' !in ComponentTexts(a)[i] && ComponentTexts(a)[i] != ""
    ensures forall i :: 0 <= i < 4 ==> ParseIntBits(ComponentTexts(a)[i]) == Some(Component(a, i))
  {
    forall i | 0 <= i < 4
      ensures '.' !in ComponentTexts(a)[i] && ComponentTexts(a)[i] != ""
      ensures ParseIntBits(ComponentTexts(a)[i]) == Some(Component(a, i))
    {
      ComponentTextAt(a, i);
      DecimalText(ToSigned(Component(a, i)));
      ParseBitsPrinted(Component(a, i));
    }
  }

  /** Parts after the fourth are never read. */
  lemma {:induction false} OrComponentsFirstFour(addr: seq<string>, i: nat, res: bv32)
    requires |addr| >= 4 && i <= 4
    ensures OrComponents(addr, i, res) == OrComponents(addr[..4], i, res)
    decreases 4 - i
  {
    if i < 4 {
      assert addr[..4][i] == addr[i];
      match ParseIntBits(addr[i])
      case None =>
      case Some(b) =>
        OrStep(addr, i, res, b);
        OrStep(addr[..4], i, res, b);
        OrComponentsFirstFour(addr, i + 1, res | Shl(b, ByteOffset(i)));
    }
  }
}
