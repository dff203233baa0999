/** Decimal and hexadecimal numerals as Python writes them: `str(n)` for an
    integer, `'%02X'` for a percent-encoded byte and `'%04x'` for a JSON
    `\u` escape. Each writer is paired with a reader and a round-trip proof. */
module Numerals {

  predicate IsDigit(c: char) { '0' <= c <= '9' }

  predicate AllDigits(s: string) { forall i :: 0 <= i < |s| ==> IsDigit(s[i]) }

  predicate IsHexDigit(c: char) { IsDigit(c) || 'a' <= c <= 'f' || 'A' <= c <= 'F' }

  predicate AllHexDigits(s: string) { forall i :: 0 <= i < |s| ==> IsHexDigit(s[i]) }

  /** `c` is not a letter of the other case: upper case writes `A-F`,
      lower case `a-f`. */
  predicate InCase(c: char, upper: bool)
  {
    if upper then !('a' <= c <= 'f') else !('A' <= c <= 'F')
  }

  function DigitChar(d: nat): (c: char)
    requires d < 10
    ensures IsDigit(c)
  {
    ('0' as int + d) as char
  }

  function DigitValue(c: char): (d: nat)
    requires IsDigit(c)
    ensures d < 10
  {
    c as int - '0' as int
  }

  /** The decimal numeral of `n`: at least one digit, no leading zero. */
  function NatToDecimal(n: nat): (s: string)
    ensures |s| >= 1 && AllDigits(s)
    ensures s[0] == '0' ==> n == 0
    decreases n
  {
    if n < 10 then [DigitChar(n)] else NatToDecimal(n / 10) + [DigitChar(n % 10)]
  }

  /** The number a string of decimal digits denotes. */
  function DecimalValue(s: string): nat
    requires AllDigits(s)
    decreases |s|
  {
    if s == [] then 0 else 10 * DecimalValue(s[..|s| - 1]) + DigitValue(s[|s| - 1])
  }

  lemma {:induction false} DecimalRoundTrip(n: nat)
    ensures DecimalValue(NatToDecimal(n)) == n
    decreases n
  {
    if n >= 10 {
      DecimalRoundTrip(n / 10);
      var s := NatToDecimal(n);
      assert s[..|s| - 1] == NatToDecimal(n / 10);
    }
  }

  /** `str(i)` for a Python `int`: a minus sign, then the magnitude, for a negative number. */
  function IntToDecimal(i: int): (s: string)
    ensures |s| >= 1
    ensures s[0] == '-' <==> i < 0
    ensures i < 0 ==> s[1..] == NatToDecimal(-i)
    ensures i >= 0 ==> s == NatToDecimal(i)
  {
    if i < 0 then "-" + NatToDecimal(-i) else NatToDecimal(i)
  }

  function HexValue(c: char): (d: nat)
    requires IsHexDigit(c)
    ensures d < 16
  {
    if IsDigit(c) then DigitValue(c)
    else if 'a' <= c <= 'f' then c as int - 'a' as int + 10
    else c as int - 'A' as int + 10
  }

  /** The hexadecimal digit for `d`, with upper- or lower-case letters. */
  function HexDigit(d: nat, upper: bool): (c: char)
    requires d < 16
    ensures IsHexDigit(c) && HexValue(c) == d && InCase(c, upper)
  {
    if d < 10 then DigitChar(d)
    else ((if upper then 'A' as int else 'a' as int) + d - 10) as char
  }

  function Hex2Value(s: string): (n: nat)
    requires |s| == 2 && AllHexDigits(s)
    ensures n < 0x100
  {
    16 * HexValue(s[0]) + HexValue(s[1])
  }

  function Hex4Value(s: string): (n: nat)
    requires |s| == 4 && AllHexDigits(s)
    ensures n < 0x1_0000
  {
    0x100 * Hex2Value(s[..2]) + Hex2Value(s[2..])
  }

  /** Two hexadecimal digits for a byte, as `'%02X'` (upper) or `'%02x'` writes it. */
  function Hex2(b: nat, upper: bool): (s: string)
    requires b < 0x100
    ensures |s| == 2 && AllHexDigits(s) && Hex2Value(s) == b
    ensures forall i :: 0 <= i < 2 ==> InCase(s[i], upper)
  {
    [HexDigit(b / 16, upper), HexDigit(b % 16, upper)]
  }

  /** Four lower-case hexadecimal digits, as `'%04x'` writes a number below 0x10000. */
  function Hex4(n: nat): (s: string)
    requires n < 0x1_0000
    ensures |s| == 4 && AllHexDigits(s) && Hex4Value(s) == n
    ensures forall i :: 0 <= i < 4 ==> InCase(s[i], false)
  {
    var s := Hex2(n / 0x100, false) + Hex2(n % 0x100, false);
    assert s[..2] == Hex2(n / 0x100, false) && s[2..] == Hex2(n % 0x100, false);
    s
  }
}
