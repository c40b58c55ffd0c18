/** Bytes of a Go string and the one observable effect of `strconv.Atoi`
    on a single byte that the Luhn check relies on. */
module Bytes {

  /** A Go string is a sequence of bytes; `len` counts them. */
  newtype byte = x: int | 0 <= x < 256

  /** The separator that is stripped before the check. */
  const Hyphen: byte := 45   // '-'
  const Zero: byte := 48     // '0'
  const Nine: byte := 57     // '9'

  /** A decimal digit value. */
  type Digit = d: nat | d <= 9

  predicate IsDigit(b: byte) {
    Zero <= b <= Nine
  }

  /** The value `strconv.Atoi(string(b))` yields once its error is discarded:
      the digit's value for '0'..'9', and 0 for every other byte. */
  function DigitValue(b: byte): (d: Digit)
    ensures IsDigit(b) ==> d as int == b as int - Zero as int
    ensures !IsDigit(b) ==> d == 0
  {
    if IsDigit(b) then (b - Zero) as int else 0
  }

  /** The bytes of an ASCII string, one byte per character, as a Go string
      literal of ASCII characters is laid out. */
  function Ascii(s: string): (r: seq<byte>)
    requires forall i :: 0 <= i < |s| ==> s[i] as int < 128
    ensures |r| == |s|
    ensures forall i :: 0 <= i < |s| ==> r[i] as int == s[i] as int
  {
    seq(|s|, i requires 0 <= i < |s| => s[i] as int as byte)
  }
}
