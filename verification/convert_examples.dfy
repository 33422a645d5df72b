/** Worked instances of `Convert.java`'s behaviour on particular strings
    and addresses. */
module ConvertExamples {
  import opened Wrappers
  import opened Convert

  /** A non-negative int below 2^31 printed and parsed back. */
  lemma ParseSmall(n: nat, b: bv32)
    requires n <= INT_MAX && b as int == n
    ensures ParseIntBits(NatToDecimal(n)) == Some(b)
  {
    BitsAsInt(b);
    assert ToSigned(b) == n;
    ParseBitsPrinted(b);
  }

  lemma SplitOverlarge()
    ensures JavaSplit("256.0.0.0") == ["256", "0", "0", "0"]
  {
    var parts := ["256", "0", "0", "0"];
    assert Join(parts, '.') == "256.0.0.0";
    JavaSplitJoin(parts);
  }

  lemma SplitSmall()
    ensures JavaSplit("0.1.0.0") == ["0", "1", "0", "0"]
  {
    var parts := ["0", "1", "0", "0"];
    assert Join(parts, '.') == "0.1.0.0";
    JavaSplitJoin(parts);
  }

  lemma PrintedSmall()
    ensures NatToDecimal(0) == "0" && NatToDecimal(1) == "1"
    ensures NatToDecimal(2) == "2" && NatToDecimal(3) == "3"
    ensures NatToDecimal(256) == "256"
  {
  }

  /** An over-large part is or-ed in unmasked and spills into the next
      byte: "256.0.0.0" reads as the same address as "0.1.0.0". */
  lemma OverlargePartBleeds()
    ensures StringToIntAddress("256.0.0.0") == Ok(0x100)
  {
    SplitOverlarge();
    PrintedSmall();
    ParseSmall(256, 0x100);
    ParseSmall(0, 0);
    OrFour(["256", "0", "0", "0"], 0x100, 0, 0, 0);
  }

  lemma ByteOneAddress()
    ensures StringToIntAddress("0.1.0.0") == Ok(0x100)
  {
    SplitSmall();
    PrintedSmall();
    ParseSmall(0, 0);
    ParseSmall(1, 1);
    OrFour(["0", "1", "0", "0"], 0, 1, 0, 0);
  }

  lemma SplitThree()
    ensures JavaSplit("1.2.3") == ["1", "2", "3"]
  {
    var parts := ["1", "2", "3"];
    assert Join(parts, '.') == "1.2.3";
    JavaSplitJoin(parts);
  }

  /** Three parts run off the end of the split array. */
  lemma ThreePartsThrow()
    ensures StringToIntAddress("1.2.3") == Throws(ArrayIndexOutOfBounds)
  {
    SplitThree();
    PrintedSmall();
    ParseSmall(1, 1);
    ParseSmall(2, 2);
    ParseSmall(3, 3);
  }

  lemma SplitNonNumeric()
    ensures JavaSplit("1.x.3.4") == ["1", "x", "3", "4"]
  {
    var parts := ["1", "x", "3", "4"];
    assert Join(parts, '.') == "1.x.3.4";
    JavaSplitJoin(parts);
  }

  /** A part that is not a decimal int throws `NumberFormatException`. */
  lemma NonNumericPartThrows()
    ensures StringToIntAddress("1.x.3.4") == Throws(NumberFormat)
  {
    SplitNonNumeric();
    PrintedSmall();
    ParseSmall(1, 1);
    assert ParseIntBits("x") == None;
  }

  /** The components of 0x0100_007F, least significant byte first. */
  lemma LoopbackComponents()
    ensures Component(0x0100_007F, 0) == 0x7F && Component(0x0100_007F, 1) == 0
    ensures Component(0x0100_007F, 2) == 0 && Component(0x0100_007F, 3) == 1
  {
    ComponentZero(0x0100_007F);
    ComponentOne(0x0100_007F);
    ComponentTwo(0x0100_007F);
    ComponentThree(0x0100_007F);
  }

  /** The address whose low byte is 127 and top byte 1 prints as "127.0.0.1". */
  lemma LoopbackPrinted()
    ensures Join(ComponentTexts(0x0100_007F), '.') == "127.0.0.1"
  {
    LoopbackComponents();
    SmallBitsAsInt(0x7F);
    SmallBitsAsInt(0);
    SmallBitsAsInt(1);
    assert IntToDecimal(127) == "127" && IntToDecimal(0) == "0" && IntToDecimal(1) == "1";
    assert ComponentTexts(0x0100_007F) == ["127", "0", "0", "1"];
  }

  /** The components of 0xC000_A8C0: the top byte 0xC0 shifts down with
      its sign bit copied and becomes the int -64. */
  lemma NegativeTopComponents()
    ensures Component(0xC000_A8C0, 0) == 0xC0 && Component(0xC000_A8C0, 1) == 0xA8
    ensures Component(0xC000_A8C0, 2) == 0 && Component(0xC000_A8C0, 3) == 0xFFFF_FFC0
  {
    ComponentZero(0xC000_A8C0);
    ComponentOne(0xC000_A8C0);
    ComponentTwo(0xC000_A8C0);
    ComponentThree(0xC000_A8C0);
  }

  /** An address with bit 31 set prints its last component negative. */
  lemma NegativeTopPrinted()
    ensures Join(ComponentTexts(0xC000_A8C0), '.') == "192.168.0.-64"
  {
    NegativeTopTexts();
  }

  lemma NegativeTopTexts()
    ensures ComponentTexts(0xC000_A8C0) == ["192", "168", "0", "-64"]
  {
    NegativeTopComponents();
    SmallBitsAsInt(0xC0);
    SmallBitsAsInt(0xA8);
    SmallBitsAsInt(0);
    NegativeSixtyFour();
    PrintedExamples();
  }

  lemma NegativeSixtyFour()
    ensures ToSigned(0xFFFF_FFC0) == -64
  {
    BitsAsInt(0xFFFF_FFC0);
  }

  lemma PrintedExamples()
    ensures IntToDecimal(192) == "192" && IntToDecimal(168) == "168"
    ensures IntToDecimal(0) == "0" && IntToDecimal(-64) == "-64"
  {
  }
}
