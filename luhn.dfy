/** The Luhn mod-10 check of `luhnAlgorithm`: strip hyphens, gate on the
    byte length, sum the digits right to left doubling every second one,
    and accept when the sum is a multiple of ten. */
module Luhn {
  import opened Bytes
  import opened Hyphens

  /** Shortest and longest accepted card number, in bytes after stripping. */
  const MinLength: nat := 13
  const MaxLength: nat := 19

  /** What one position adds to the sum: the digit itself, or, at a doubling
      position, its double with the two decimal digits of that double added
      up (that is, 2d - 9 once 2d passes 9). */
  function Contribution(d: Digit, doubled: bool): (c: Digit)
    ensures !doubled ==> c == d
    ensures doubled && d <= 4 ==> c == 2 * d
    ensures doubled && d >= 5 ==> c == 2 * d - 9
  {
    if !doubled then d
    else if 2 * d > 9 then (2 * d) % 10 + 1
    else 2 * d
  }

  /** The sum the loop adds up over `s`, read from its last byte to its
      first, when the flag is `alternate` at the last byte and flips at
      every byte. Every byte adds at most 9, so for at most 19 bytes the
      running sum stays below 172 and a Go `int` cannot overflow. */
  function SumFrom(s: seq<byte>, alternate: bool): (sum: nat)
    ensures sum <= 9 * |s|
  {
    if s == [] then 0
    else Contribution(DigitValue(s[|s| - 1]), alternate) + SumFrom(s[..|s| - 1], !alternate)
  }

  /** The Luhn sum of a (stripped) number: the rightmost byte is not doubled. */
  function WeightedSum(s: seq<byte>): (sum: nat)
    ensures sum <= 9 * |s|
  {
    SumFrom(s, false)
  }

  predicate LengthOk(n: seq<byte>) {
    MinLength <= |n| <= MaxLength
  }

  /** The verdict of `luhnAlgorithm`, as a specification. Since stripping
      never lengthens the input, an accepted input has at least 13 bytes. */
  predicate IsValid(cardNumber: seq<byte>)
    ensures IsValid(cardNumber) ==> LengthOk(Strip(cardNumber)) && MinLength <= |cardNumber|
  {
    var n := Strip(cardNumber);
    LengthOk(n) && WeightedSum(n) % 10 == 0
  }

  /** `luhnAlgorithm`: the right-to-left loop over the stripped bytes with a
      running `sum`, an `alternate` flag and the per-byte value `mod`. It is
      total: every byte sequence gets a verdict. */
  method LuhnAlgorithm(cardNumber: seq<byte>) returns (valid: bool)
    ensures valid == IsValid(cardNumber)
    ensures valid ==> LengthOk(Strip(cardNumber))
  {
    var number := Strip(cardNumber);
    var sum: int := 0;
    var alternate := false;
    var numberLen := |number|;
    if numberLen < MinLength as int || numberLen > MaxLength as int {
      return false;
    }
    var i := numberLen - 1;
    assert number[..i + 1] == number;
    while i > -1
      invariant -1 <= i < numberLen
      invariant alternate == ((numberLen - 1 - i) % 2 == 1)
      invariant sum + SumFrom(number[..i + 1], alternate) == WeightedSum(number)
    {
      var mod: int := DigitValue(number[i]);
      if alternate {
        mod := mod * 2;
        if mod > 9 {
          mod := (mod % 10) + 1;
        }
      }
      assert number[..i + 1][..i] == number[..i];
      alternate := !alternate;
      sum := sum + mod;
      i := i - 1;
    }
    valid := sum % 10 == 0;
  }
}
