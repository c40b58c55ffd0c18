/** What the Luhn check promises, proved about the specification in `Luhn`. */
module LuhnProperties {
  import opened Bytes
  import opened Hyphens
  import opened Luhn

  predicate Odd(k: nat) {
    k % 2 == 1
  }

  /** Reference definition of the Luhn sum, read left to right: the byte at
      distance k from the right end is doubled exactly when k is odd. */
  function PositionalSum(s: seq<byte>): nat {
    if s == [] then 0
    else Contribution(DigitValue(s[0]), Odd(|s| - 1)) + PositionalSum(s[1..])
  }

  /** Under doubling, the digits 0..9 are sent to 0..9 one-to-one, so
      doubling is a permutation of the digits. */
  lemma ContributionInjective(d: Digit, e: Digit, doubled: bool)
    requires d != e
    ensures Contribution(d, doubled) != Contribution(e, doubled)
  {
  }

  /** Splitting the input: the right part is summed with the starting flag,
      the left part with the flag it has after |b| flips. */
  lemma {:induction false} SumFromAppend(a: seq<byte>, b: seq<byte>, alternate: bool)
    ensures SumFrom(a + b, alternate) == SumFrom(b, alternate) + SumFrom(a, alternate != Odd(|b|))
  {
    if b == [] {
      assert a + b == a;
    } else {
      var b' := b[..|b| - 1];
      assert (a + b)[|a + b| - 1] == b[|b| - 1];
      assert (a + b)[..|a + b| - 1] == a + b';
      SumFromAppend(a, b', !alternate);
    }
  }

  /** The loop's right-to-left sum is the positional sum. */
  lemma {:induction false} WeightedSumIsPositional(s: seq<byte>)
    ensures WeightedSum(s) == PositionalSum(s)
  {
    if s != [] {
      assert s == [s[0]] + s[1..];
      SumFromAppend([s[0]], s[1..], false);
      var one: seq<byte> := [s[0]];
      assert one[..0] == [];
      WeightedSumIsPositional(s[1..]);
    }
  }

  /** The rightmost byte is never doubled. */
  lemma RightmostNotDoubled(a: seq<byte>, x: byte)
    ensures WeightedSum(a + [x]) == DigitValue(x) + SumFrom(a, true)
  {
    assert (a + [x])[..|a|] == a;
  }

  /** The Luhn sum with one byte singled out: it weighs that byte by its
      distance |b| from the right end. */
  lemma WeightedSumAround(a: seq<byte>, x: byte, b: seq<byte>)
    ensures WeightedSum(a + [x] + b)
      == SumFrom(b, false) + Contribution(DigitValue(x), Odd(|b|)) + SumFrom(a, !Odd(|b|))
  {
    SumFromAppend(a + [x], b, false);
    assert (a + [x])[..|a|] == a;
  }

  /** The verdict is the positional definition's verdict. */
  lemma IsValidPositional(cardNumber: seq<byte>)
    ensures IsValid(cardNumber)
      <==> LengthOk(Strip(cardNumber)) && PositionalSum(Strip(cardNumber)) % 10 == 0
  {
    WeightedSumIsPositional(Strip(cardNumber));
  }

  /** Outside 13..19 bytes after stripping, the answer is no, whatever the bytes. */
  lemma LengthGate(cardNumber: seq<byte>)
    requires |Strip(cardNumber)| < MinLength || |Strip(cardNumber)| > MaxLength
    ensures !IsValid(cardNumber)
  {
  }

  /** The verdict only sees the stripped input. */
  lemma IsValidStripped(cardNumber: seq<byte>)
    ensures IsValid(Strip(cardNumber)) == IsValid(cardNumber)
  {
    StripIdempotent(cardNumber);
  }

  /** Inserting or deleting a hyphen anywhere never changes the verdict. */
  lemma HyphenInsensitive(a: seq<byte>, b: seq<byte>)
    ensures IsValid(a + [Hyphen] + b) == IsValid(a + b)
  {
    StripInsertHyphen(a, b);
  }

  /** A byte that is neither a digit nor a hyphen counts as the digit 0:
      it neither fails the check nor is removed. */
  lemma NonDigitCountsAsZero(a: seq<byte>, x: byte, b: seq<byte>)
    requires x != Hyphen && !IsDigit(x)
    ensures IsValid(a + [x] + b) == IsValid(a + [Zero] + b)
  {
    var sa, sb := Strip(a), Strip(b);
    StripAround(a, x, b);
    StripAround(a, Zero, b);
    WeightedSumAround(sa, x, sb);
    WeightedSumAround(sa, Zero, sb);
    assert WeightedSum(sa + [x] + sb) == WeightedSum(sa + [Zero] + sb);
  }

  /** Two sums that differ in one summand between 0 and 9 cannot both be
      multiples of ten. */
  lemma DistinctDigitsChangeRemainder(rest: int, c: Digit, c': Digit)
    requires c != c'
    ensures (rest + c) % 10 == 0 ==> (rest + c') % 10 != 0
  {
  }

  /** Single-error detection: replacing one byte by one with a different
      digit value turns an accepted number into a rejected one. */
  lemma SingleDigitErrorDetected(a: seq<byte>, x: byte, y: byte, b: seq<byte>)
    requires x != Hyphen && y != Hyphen
    requires DigitValue(x) != DigitValue(y)
    requires IsValid(a + [x] + b)
    ensures !IsValid(a + [y] + b)
  {
    var sa, sb := Strip(a), Strip(b);
    StripAround(a, x, b);
    StripAround(a, y, b);
    var p := Odd(|sb|);
    WeightedSumAround(sa, x, sb);
    WeightedSumAround(sa, y, sb);
    var cx, cy := Contribution(DigitValue(x), p), Contribution(DigitValue(y), p);
    ContributionInjective(DigitValue(x), DigitValue(y), p);
    var rest := SumFrom(sb, false) + SumFrom(sa, !p);
    assert WeightedSum(sa + [x] + sb) == rest + cx;
    assert WeightedSum(sa + [y] + sb) == rest + cy;
    DistinctDigitsChangeRemainder(rest, cx, cy);
  }

  /** Bytes that all count as 0 add nothing, whatever the flag. */
  lemma {:induction false} ZeroValuedSum(s: seq<byte>, alternate: bool)
    requires forall i :: 0 <= i < |s| ==> DigitValue(s[i]) == 0
    ensures SumFrom(s, alternate) == 0
  {
    if s != [] {
      ZeroValuedSum(s[..|s| - 1], !alternate);
    }
  }

  /** An even-length block on the right leaves the doubling of the left part
      as it would be on its own. */
  lemma EvenBlockSum(a: seq<byte>, b: seq<byte>)
    requires |b| % 2 == 0
    ensures WeightedSum(a + b) == WeightedSum(a) + WeightedSum(b)
  {
    SumFromAppend(a, b, false);
  }

  /** Every hyphen-free prefix of 12 to 18 bytes has a check digit that
      makes it a valid number. */
  lemma CheckDigitExists(p: seq<byte>)
    requires HyphenFree(p) && 12 <= |p| <= 18
    ensures exists c: byte :: IsDigit(c) && IsValid(p + [c])
  {
    var d := (10 - SumFrom(p, true) % 10) % 10;
    var c: byte := (Zero as int + d) as byte;
    assert HyphenFree(p + [c]);
    StripHyphenFree(p + [c]);
    RightmostNotDoubled(p, c);
    assert IsDigit(c) && IsValid(p + [c]);
  }
}
