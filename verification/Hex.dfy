/** Percent escapes: a percent sign and two hexadecimal digits, given by their codes. */
module Hex {
  import opened Bytes

  const PERCENT: byte := 0x25

  /** The value of a hexadecimal digit, or -1. */
  function HexValue(c: int): (r: int)
    ensures -1 <= r < 16
  {
    if 0x30 <= c <= 0x39 then c - 0x30
    else if 0x41 <= c <= 0x46 then c - 0x41 + 10
    else if 0x61 <= c <= 0x66 then c - 0x61 + 10
    else -1
  }

  function HexDigit(n: int): byte
    requires 0 <= n < 16
  {
    if n < 10 then 0x30 + n else 0x41 + n - 10
  }

  const LOWER: string := "0123456789abcdef"
  const UPPER: string := "0123456789ABCDEF"

  /** `c` is a digit for `v`, in either case. */
  predicate IsDigitFor(c: int, v: int)
    requires 0 <= v < 16
  {
    c == LOWER[v] as int || c == UPPER[v] as int
  }

  /** The digits are read as what they stand for, and nothing else is a digit. */
  lemma HexValueIff(c: int, v: int)
    requires 0 <= v < 16
    ensures HexValue(c) == v <==> IsDigitFor(c, v)
  {
    match v {
      case 0 => case 1 => case 2 => case 3 => case 4 => case 5 => case 6 => case 7 =>
      case 8 => case 9 => case 10 => case 11 => case 12 => case 13 => case 14 => case _ =>
    }
  }

  /** Digits are written in upper case. */
  lemma HexDigitIs(n: int)
    requires 0 <= n < 16
    ensures HexDigit(n) == UPPER[n] as int
  {
    match n {
      case 0 => case 1 => case 2 => case 3 => case 4 => case 5 => case 6 => case 7 =>
      case 8 => case 9 => case 10 => case 11 => case 12 => case 13 => case 14 => case _ =>
    }
  }

  /** `a`, `b`, `c` spell the byte `n`: a percent sign and two digits, in either case. */
  predicate Spells(a: int, b: int, c: int, n: int) {
    0 <= n < 256 && a == '%' as int && IsDigitFor(b, n / 16) && IsDigitFor(c, n % 16)
  }

  /** An escape is read as `n` exactly when it spells `n`. */
  lemma EscapeIff(a: int, b: int, c: int, n: int)
    ensures IsEscape(a, b, c) && EscapeValue(b, c) == n <==> Spells(a, b, c, n)
  {
    hide HexValue, IsDigitFor;
    if 0 <= n < 256 {
      HexValueIff(b, n / 16);
      HexValueIff(c, n % 16);
    }
  }

  lemma HexRoundTrip(n: int)
    requires 0 <= n < 16
    ensures HexValue(HexDigit(n)) == n
    ensures 0x30 <= HexDigit(n) <= 0x39 || 0x41 <= HexDigit(n) <= 0x46
  {
  }

  predicate IsEscape(a: int, b: int, c: int) {
    a == PERCENT && HexValue(b) >= 0 && HexValue(c) >= 0
  }

  function EscapeValue(b: int, c: int): byte
    requires HexValue(b) >= 0 && HexValue(c) >= 0
  {
    16 * HexValue(b) + HexValue(c)
  }

  /** The two digits of a byte spell it. */
  lemma EscapeReadsBack(n: byte)
    ensures IsEscape(PERCENT, HexDigit(n / 16), HexDigit(n % 16))
    ensures EscapeValue(HexDigit(n / 16), HexDigit(n % 16)) == n
  {
    hide HexValue, HexDigit;
    HexRoundTrip(n / 16);
    HexRoundTrip(n % 16);
  }
}
