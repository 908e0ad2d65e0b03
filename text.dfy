/** The two number renderings the driver prints: `%u` (decimal) and `%08x` (eight lowercase hex
    digits, zero padded), with the digit-string values that read them back. */
module Text {

  import opened Types

  predicate IsDecDigit(c: char) {
    '0' <= c <= '9'
  }

  /** A hex digit as kstrtox and printf accept it: either case. */
  predicate IsHexDigit(c: char) {
    '0' <= c <= '9' || 'a' <= c <= 'f' || 'A' <= c <= 'F'
  }

  predicate IsLowerHexDigit(c: char) {
    '0' <= c <= '9' || 'a' <= c <= 'f'
  }

  function DecChar(d: nat): (c: char)
    requires d < 10
    ensures IsDecDigit(c) && (c == '0' <==> d == 0)
  {
    ('0' as int + d) as char
  }

  function HexChar(d: nat): (c: char)
    requires d < 16
    ensures IsLowerHexDigit(c) && IsHexDigit(c)
  {
    if d < 10 then ('0' as int + d) as char else ('a' as int + d - 10) as char
  }

  function DigitValue(c: char): (d: nat)
    requires IsHexDigit(c)
    ensures d < 16
    ensures IsDecDigit(c) ==> d < 10
  {
    if '0' <= c <= '9' then c as int - '0' as int
    else if 'a' <= c <= 'f' then c as int - 'a' as int + 10
    else c as int - 'A' as int + 10
  }

  function DecDigitValue(c: char): (d: nat)
    requires IsDecDigit(c)
    ensures d < 10
  {
    c as int - '0' as int
  }

  lemma HexCharValue(d: nat)
    requires d < 16
    ensures DigitValue(HexChar(d)) == d
  {
  }

  function Pow16(n: nat): (p: nat)
    ensures p >= 1
  {
    if n == 0 then 1 else 16 * Pow16(n - 1)
  }

  lemma Pow16Of8()
    ensures Pow16(8) == 0x1_0000_0000
  {
    assert Pow16(2) == 0x100;
    assert Pow16(4) == 0x1_0000;
    assert Pow16(6) == 0x100_0000;
  }

  /** The value of a hex digit string, most significant digit first. */
  function HexValue(s: string): (v: nat)
    requires forall i | 0 <= i < |s| :: IsHexDigit(s[i])
  {
    if s == [] then 0 else 16 * HexValue(s[..|s| - 1]) + DigitValue(s[|s| - 1])
  }

  /** The value of a decimal digit string, most significant digit first. */
  function DecValue(s: string): (v: nat)
    requires forall i | 0 <= i < |s| :: IsDecDigit(s[i])
  {
    if s == [] then 0 else 10 * DecValue(s[..|s| - 1]) + DecDigitValue(s[|s| - 1])
  }

  /** The `width` low-order hex digits of v, lowercase, most significant first. */
  function HexDigits(v: nat, width: nat): (s: string)
    ensures |s| == width
    ensures forall i | 0 <= i < |s| :: IsLowerHexDigit(s[i]) && IsHexDigit(s[i])
  {
    if width == 0 then "" else HexDigits(v / 16, width - 1) + [HexChar(v % 16)]
  }

  /** printf's `%08x` of a 32-bit value. */
  function Hex8(v: U32): (s: string)
    ensures |s| == 8
    ensures forall i | 0 <= i < |s| :: IsLowerHexDigit(s[i]) && IsHexDigit(s[i])
  {
    HexDigits(v, 8)
  }

  /** printf's `%u`: decimal without leading zeros. */
  function Decimal(n: nat): (s: string)
    ensures |s| >= 1
    ensures forall i | 0 <= i < |s| :: IsDecDigit(s[i])
    ensures s[0] == '0' ==> n == 0
  {
    if n < 10 then [DecChar(n)] else Decimal(n / 10) + [DecChar(n % 10)]
  }

  /** Reading the digits back gives the value, when it fits in the width. */
  lemma {:induction false} HexDigitsValue(v: nat, width: nat)
    requires v < Pow16(width)
    ensures HexValue(HexDigits(v, width)) == v
  {
    if width > 0 {
      var s := HexDigits(v, width);
      assert s[..width - 1] == HexDigits(v / 16, width - 1);
      HexDigitsValue(v / 16, width - 1);
      HexCharValue(v % 16);
    }
  }

  /** `%08x` loses nothing: its eight digits read back as the same 32-bit value. */
  lemma Hex8Value(v: U32)
    ensures HexValue(Hex8(v)) == v
  {
    Pow16Of8();
    HexDigitsValue(v, 8);
  }

  /** `%u` loses nothing: its digits read back as the same value. */
  lemma {:induction false} DecimalValue(n: nat)
    ensures DecValue(Decimal(n)) == n
  {
    if n >= 10 {
      var s := Decimal(n);
      assert s[..|s| - 1] == Decimal(n / 10);
      DecimalValue(n / 10);
    }
  }
}
