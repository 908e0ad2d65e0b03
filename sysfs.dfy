/** The sysfs register attributes: their names, the offsets the names parse to, and the text a
    read of one renders. */
module Sysfs {

  import opened Types
  import opened Text
  import opened Kstrtox

  /** The attribute table, in declaration order. */
  const ATTRIBUTE_NAMES: seq<string> := ["00", "04", "08", "0c"]

  /** The registers the attributes are meant to reach, in the same order. */
  const REGISTER_OFFSETS: seq<nat> :=
    [ASIC_STATUS_REG, ASIC_CONTROL_REG, ASIC_DATA_REG, ASIC_INT_MASK_REG]

  /** sprintf(buf, "0x%08x\n", value): the text a read of a register attribute returns. */
  function RegisterText(v: U32): (s: string)
    ensures |s| == 11
    ensures s[..2] == "0x" && s[10] == '\n'
    ensures forall i | 2 <= i < 10 :: IsLowerHexDigit(s[i])
    ensures forall i | 2 <= i < 10 :: IsHexDigit(s[i])
    ensures HexValue(s[2..10]) == v
  {
    var s := "0x" + Hex8(v) + "\n";
    assert s[2..10] == Hex8(v);
    Hex8Value(v);
    s
  }

  /** What a register attribute renders parses back, by the store path, to the same value. */
  lemma RegisterTextParses(v: U32)
    ensures Kstrtou32(RegisterText(v)) == Ok(v)
  {
    var s := RegisterText(v);
    Hex8Value(v);
    assert s == "" + ("0x" + (Hex8(v) + "\n"));
    ParseWellFormed(s, "", "0x", Hex8(v), "\n");
  }

  /** An offset printed as two hex digits parses back to itself. */
  lemma NameParses(offset: nat)
    requires offset < 256
    ensures Kstrtoul(HexDigits(offset, 2)) == Ok(offset)
  {
    var name := HexDigits(offset, 2);
    assert HexValue(name) == offset by {
      assert Pow16(2) == 256;
      HexDigitsValue(offset, 2);
    }
    assert name == "" + ("" + (name + ""));
    ParseWellFormed(name, "", "", name, "");
  }

  /** There are four attributes and each name parses to the offset of its register. */
  lemma AttributeOffsets()
    ensures |ATTRIBUTE_NAMES| == |REGISTER_OFFSETS| == 4
    ensures forall i | 0 <= i < 4 :: Kstrtoul(ATTRIBUTE_NAMES[i]) == Ok(REGISTER_OFFSETS[i])
  {
    AttributeNamesAreOffsets();
    forall i | 0 <= i < 4
      ensures Kstrtoul(ATTRIBUTE_NAMES[i]) == Ok(REGISTER_OFFSETS[i])
    {
      NameParses(REGISTER_OFFSETS[i]);
    }
  }

  /** Each name is its offset printed as two lowercase hex digits. */
  lemma AttributeNamesAreOffsets()
    ensures forall i | 0 <= i < 4 :: ATTRIBUTE_NAMES[i] == HexDigits(REGISTER_OFFSETS[i], 2)
  {
    assert HexDigits(0, 2) == "00";
    assert HexDigits(4, 2) == "04";
    assert HexDigits(8, 2) == "08";
    assert HexDigits(12, 2) == "0c";
  }

  lemma ParsesOne()
    ensures Kstrtou32("0x1") == Ok(1)
  {
    assert "0x1" == "" + ("0x" + ("1" + ""));
    ParseWellFormed("0x1", "", "0x", "1", "");
  }

  lemma {:induction false} ZeroDigits(width: nat)
    ensures forall i | 0 <= i < width :: HexDigits(0, width)[i] == '0'
  {
    if width > 0 {
      ZeroDigits(width - 1);
    }
  }

  lemma ShowsOne()
    ensures RegisterText(1) == "0x00000001\n"
  {
    assert HexDigits(1, 8) == HexDigits(0, 7) + ['1'];
    ZeroDigits(7);
    assert HexDigits(1, 8) == "00000001";
  }

  /** The text "0x1" parses to 1, and 1 is shown as "0x00000001\n". */
  lemma ControlOneText()
    ensures Kstrtou32("0x1") == Ok(1)
    ensures RegisterText(1) == "0x00000001\n"
  {
    ParsesOne();
    ShowsOne();
  }
}
