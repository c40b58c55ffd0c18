/** The documented example number and boundary cases of the Luhn check,
    proved from the lemmas. */
module LuhnExamples {
  import opened Bytes
  import opened Hyphens
  import opened Luhn
  import opened LuhnProperties

  /** The four groups of the example number 5333-6195-0371-5702. */
  const G1: seq<byte> := [53, 51, 51, 51]
  const G2: seq<byte> := [54, 49, 57, 53]
  const G3: seq<byte> := [48, 51, 55, 49]
  const G4: seq<byte> := [53, 55, 48, 50]

  /** The example as bytes, grouped from the right. */
  function Grouped(): seq<byte> {
    G1 + ([Hyphen] + (G2 + ([Hyphen] + (G3 + ([Hyphen] + G4)))))
  }

  lemma ExampleBytes()
    ensures Ascii("5333-6195-0371-5702") == Grouped()
  {
  }

  lemma ExampleStripped()
    ensures Strip(Grouped()) == G1 + G2 + G3 + G4
  {
    StripGroup(G1, G2 + ([Hyphen] + (G3 + ([Hyphen] + G4))));
    StripGroup(G2, G3 + ([Hyphen] + G4));
    StripGroup(G3, G4);
    StripHyphenFree(G4);
  }

  lemma ExampleSum()
    ensures WeightedSum(G1 + G2 + G3 + G4) == 50
  {
    EvenBlockSum(G1 + G2 + G3, G4);
    EvenBlockSum(G1 + G2, G3);
    EvenBlockSum(G1, G2);
    WeightedSumIsPositional(G1);
    WeightedSumIsPositional(G2);
    WeightedSumIsPositional(G3);
    WeightedSumIsPositional(G4);
  }

  /** The example card number "5333-6195-0371-5702" is accepted. */
  lemma ExampleValid()
    ensures IsValid(Ascii("5333-6195-0371-5702"))
  {
    ExampleBytes();
    ExampleStripped();
    ExampleSum();
  }

  /** Changing the check digit of the example by one gives a rejected number. */
  lemma ExampleCheckDigitAltered()
    ensures !IsValid(Ascii("5333-6195-0371-5703"))
  {
    var prefix := Ascii("5333-6195-0371-570");
    assert Ascii("5333-6195-0371-5702") == prefix + [50] + [];
    assert Ascii("5333-6195-0371-5703") == prefix + [51] + [];
    ExampleValid();
    SingleDigitErrorDetected(prefix, 50, 51, []);
  }

  /** A letter in place of the check digit is rejected, not a failure: it
      counts as 0. */
  lemma ExampleWithLetter()
    ensures !IsValid(Ascii("5333-6195-0371-570A"))
  {
    var prefix := Ascii("5333-6195-0371-570");
    assert Ascii("5333-6195-0371-5702") == prefix + [50] + [];
    assert Ascii("5333-6195-0371-570A") == prefix + [65] + [];
    ExampleValid();
    SingleDigitErrorDetected(prefix, 50, 65, []);
  }

  /** Twelve nines are rejected on length alone. */
  lemma ExampleTooShort()
    ensures !IsValid(Ascii("999999999999"))
  {
    StripHyphenFree(Ascii("999999999999"));
    LengthGate(Ascii("999999999999"));
  }

  /** Seventeen zeros between a 4 and a 6. */
  function LongestCard(): seq<byte> {
    [52] + seq(17, _ => Zero) + [54]
  }

  lemma LongestCardBytes()
    ensures Ascii("4000000000000000006") == LongestCard()
  {
  }

  lemma LongestCardSum()
    ensures WeightedSum(LongestCard()) == 10
  {
    var zeros: seq<byte> := seq(17, _ => Zero);
    RightmostNotDoubled([52] + zeros, 54);
    SumFromAppend([52], zeros, true);
    ZeroValuedSum(zeros, true);
    var four: seq<byte> := [52];
    assert four[..0] == [];
  }

  /** A 19-digit number is accepted: the upper length bound is inclusive. */
  lemma ExampleLongestValid()
    ensures IsValid(Ascii("4000000000000000006"))
  {
    LongestCardBytes();
    StripHyphenFree(LongestCard());
    LongestCardSum();
  }
}
