/**
 * Fixed-width integers and the two text conversions the client relies on:
 * `b.ToString("X2")` (two upper-case hexadecimal digits) and the decimal
 * parse of `Convert.ToInt32`, `Convert.ToByte` and `byte.Parse`.
 */
module NumberFormat {
  import opened Wrappers

  newtype uint8 = x: int | 0 <= x < 0x100
  newtype uint32 = x: int | 0 <= x < 0x1_0000_0000

  /** The high and the low nibble of a byte. */
  function Hi(b: uint8): int { b as int / 16 }
  function Lo(b: uint8): int { b as int % 16 }

  /** The upper-case hexadecimal digit of a nibble. */
  function HexDigit(n: int): (c: char)
    requires 0 <= n < 16
    ensures '0' <= c <= '9' || 'A' <= c <= 'F'
  {
    if n < 10 then ('0' as int + n) as char else ('A' as int + n - 10) as char
  }

  /** `b.ToString("X2")`. */
  function X2(b: uint8): string
  {
    [HexDigit(Hi(b)), HexDigit(Lo(b))]
  }

  /** The value of a decimal digit character, `None` for any other character. */
  function DigitValue(c: char): Option<int>
  {
    if '0' <= c <= '9' then Some(c as int - '0' as int) else None
  }

  /** The value of a hexadecimal digit character (either case), `None` for any other character. */
  function HexDigitValue(c: char): Option<int>
  {
    if '0' <= c <= '9' then Some(c as int - '0' as int)
    else if 'A' <= c <= 'F' then Some(c as int - 'A' as int + 10)
    else if 'a' <= c <= 'f' then Some(c as int - 'a' as int + 10)
    else None
  }

  /**
   * Decimal parse of a string of digits: `None` (a FormatException) for the
   * empty string or any character that is not a decimal digit. Signs and
   * surrounding white space, which the .NET parsers also accept, never occur
   * in the output of `X2`, so they are not part of this model.
   */
  function ParseDecimal(s: string): (r: Option<nat>)
    decreases |s|
  {
    if |s| == 0 then None
    else
      match DigitValue(s[|s| - 1])
      case None => None
      case Some(d) =>
        if |s| == 1 then Some(d)
        else
          match ParseDecimal(s[..|s| - 1])
          case None => None
          case Some(v) => Some(10 * v + d)
  }

  /** The parse succeeds exactly on the non-empty strings of decimal digits. */
  lemma {:induction false} ParseDecimalSucceeds(s: string)
    ensures ParseDecimal(s).Some? <==> |s| > 0 && forall i :: 0 <= i < |s| ==> '0' <= s[i] <= '9'
    decreases |s|
  {
    if |s| > 1 {
      var p := s[..|s| - 1];
      ParseDecimalSucceeds(p);
      assert forall i :: 0 <= i < |p| ==> p[i] == s[i];
    }
  }

  lemma HexDigitIsDecimal(n: int)
    requires 0 <= n < 16
    ensures DigitValue(HexDigit(n)) == if n <= 9 then Some(n) else None
  {
  }

  lemma HexDigitRoundTrip(n: int)
    requires 0 <= n < 16
    ensures HexDigitValue(HexDigit(n)) == Some(n)
  {
  }

  /**
   * Reading the hexadecimal text of a byte as a decimal number succeeds
   * exactly when both nibbles are decimal digits, and then yields the
   * binary-coded-decimal value of the byte.
   */
  lemma ParseX2(b: uint8)
    ensures ParseDecimal(X2(b)) ==
      if Hi(b) <= 9 && Lo(b) <= 9 then Some(10 * Hi(b) + Lo(b)) else None
  {
    var s := X2(b);
    HexDigitIsDecimal(Hi(b));
    HexDigitIsDecimal(Lo(b));
    assert s[..1] == [HexDigit(Hi(b))];
  }

  /** Reading the first character of the hexadecimal text yields the high nibble, if it is a decimal digit. */
  lemma ParseX2High(b: uint8)
    ensures ParseDecimal(X2(b)[..1]) == if Hi(b) <= 9 then Some(Hi(b)) else None
  {
    HexDigitIsDecimal(Hi(b));
    assert X2(b)[..1] == [HexDigit(Hi(b))];
  }
}
