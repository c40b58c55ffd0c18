# Luhn card-number verifier, modelled in Dafny

The repository is a small Go web service. It receives a card number and answers
whether the number passes the Luhn mod-10 check. Its one piece of logic is
`luhnAlgorithm` in `main.go`. This project models that function and proves what
it promises:

- every `'-'` is removed, and nothing else is (`strings.Replace(cardNumber, "-", "", -1)`);
- the result is `false` when the stripped number has fewer than 13 or more
  than 19 bytes;
- otherwise the bytes are read from the right. Every second one is doubled,
  starting with the second from the right, and a double above 9 becomes
  `double % 10 + 1`. The values are summed and the verdict is `sum % 10 == 0`.

The input is a Go `string`, that is, a sequence of bytes: `len` counts bytes.
It is modelled as `seq<byte>`. `Bytes.Ascii` turns an ASCII literal into such
a sequence, one byte per character, for the examples.

Files and modules:

- `bytes.dfy` (`Bytes`): the byte type, the hyphen, and `DigitValue`. This is
  what `strconv.Atoi(string(cardNumber[i]))` yields once its error is
  discarded: the digit's value for `'0'..'9'` and 0 for any other byte.
- `hyphens.dfy` (`Hyphens`): `Strip`, the hyphen removal, and its laws.
- `luhn.dfy` (`Luhn`): the specification (`Contribution`, `SumFrom`,
  `WeightedSum`, `IsValid`) and `LuhnAlgorithm`, the imperative loop of the Go
  function. The loop is proved to compute `IsValid`.
- `luhn_properties.dfy` (`LuhnProperties`): a left-to-right reference
  definition (`PositionalSum`) and the properties of the check.
- `luhn_examples.dfy` (`LuhnExamples`): the documented example number and
  boundary cases, proved from the lemmas.

Non-digit bytes: one could reject them outright or count them as 0. The Go code
discards the error of `strconv.Atoi`, which returns 0 on failure, so every byte
other than `'0'..'9'` and `'-'` counts as digit 0 and never makes the function
fail. The model follows the code. A byte of 128 or more becomes a
two-byte UTF-8 string under `string(b)`; `Atoi` fails on it too, so it also counts as 0.

## Model

| member | source | states |
|---|---|---|
| Bytes.DigitValue | main.go:114 | A digit byte yields its value `b - '0'`; every other byte yields 0; the result is always a digit 0..9 |
| Hyphens.Strip | main.go:102 | The result holds no hyphen and is no longer than the input |
| Hyphens.StripMultiset | main.go:102 | Stripping removes every hyphen and keeps every other byte exactly as many times as it occurs |
| Hyphens.StripAppend | main.go:102 | Stripping distributes over concatenation, so the kept bytes stay in their original order |
| Hyphens.StripHyphenFree | main.go:102 | An input without hyphens is returned unchanged |
| Hyphens.StripIdempotent | main.go:102 | Stripping twice gives the same as stripping once |
| Hyphens.StripInsertHyphen | main.go:102 | Inserting or deleting a hyphen anywhere leaves the stripped input the same |
| Hyphens.StripAround | main.go:102 | A non-hyphen byte between two pieces stays between the two stripped pieces |
| Hyphens.StripGroup | main.go:102 | A hyphen-free group followed by a hyphen is kept and the hyphen dropped |
| Luhn.Contribution | main.go:115-120 | An undoubled digit adds itself; a doubled digit d adds 2d when d <= 4 and 2d - 9 when d >= 5; the result is always 0..9 |
| Luhn.SumFrom | main.go:104-125 | The right-to-left sum with the `alternate` flag flipping at every byte; it never exceeds 9 per byte, so 19 bytes cannot overflow the Go `int` |
| Luhn.WeightedSum | main.go:104-125 | The Luhn sum with the rightmost byte undoubled (`alternate` starts false); at most 9 per byte |
| Luhn.IsValid | main.go:100-128 | The verdict: strip hyphens, length gate, right-to-left sum divisible by 10; an accepted input has 13 to 19 bytes after stripping and at least 13 bytes before |
| Luhn.LuhnAlgorithm | main.go:100-128 | The loop returns exactly `IsValid`: hyphens stripped, length 13..19, and the right-to-left alternating-doubling sum divisible by 10; a `true` verdict implies the length gate passed; every input gets a verdict |
| LuhnProperties.ContributionInjective | main.go:115-120 | Doubling maps distinct digits to distinct values: it is a permutation of 0..9 |
| LuhnProperties.SumFromAppend | main.go:113-125 | The sum of `a + b` is the sum of `b` from the starting flag plus the sum of `a` with the flag flipped `|b|` times |
| LuhnProperties.WeightedSumIsPositional | main.go:113-122 | The right-to-left loop sum equals the positional sum in which the byte at distance k from the right end is doubled exactly when k is odd |
| LuhnProperties.RightmostNotDoubled | main.go:105-122 | The rightmost byte adds its plain digit value and the rest is summed starting at a doubling position |
| LuhnProperties.WeightedSumAround | main.go:113-125 | One byte at distance `|b|` from the right end contributes its value, doubled iff `|b|` is odd |
| LuhnProperties.IsValidPositional | main.go:107-127 | The verdict is true iff the length gate passes and the positional sum is divisible by 10 |
| LuhnProperties.LengthGate | main.go:107-111 | Fewer than 13 or more than 19 bytes after stripping always gives false |
| LuhnProperties.IsValidStripped | main.go:102 | The verdict depends only on the input with its hyphens removed |
| LuhnProperties.HyphenInsensitive | main.go:102 | Inserting or deleting a hyphen anywhere never changes the verdict |
| LuhnProperties.NonDigitCountsAsZero | main.go:114 | A byte that is neither a digit nor a hyphen gives the same verdict as the digit 0 in its place |
| LuhnProperties.SingleDigitErrorDetected | main.go:113-127 | Replacing one non-hyphen byte by one of a different digit value turns an accepted number into a rejected one |
| LuhnProperties.CheckDigitExists | main.go:107-127 | Every hyphen-free prefix of 12 to 18 bytes can be completed by some digit into a number the check accepts |
| LuhnProperties.ZeroValuedSum | main.go:114-124 | Bytes that all count as 0 add nothing to the sum |
| LuhnProperties.EvenBlockSum | main.go:113-124 | Appending an even-length block on the right adds its own sum and leaves the doubling of the left part unchanged |
| LuhnExamples.ExampleValid | main.go:12 | The documented example `5333-6195-0371-5702` is accepted |
| LuhnExamples.ExampleCheckDigitAltered | main.go:113-127 | `5333-6195-0371-5703`, the example with its last digit changed, is rejected |
| LuhnExamples.ExampleWithLetter | main.go:114 | `5333-6195-0371-570A` is rejected, and does not fail: the letter counts as 0 |
| LuhnExamples.ExampleTooShort | main.go:107-111 | Twelve nines are rejected on length alone |
| LuhnExamples.ExampleLongestValid | main.go:109 | The 19-digit `4000000000000000006` is accepted: the upper bound is inclusive |

## Left out

- `main`, `HTTPServer` and `validateCreditCardNumber` (main.go:42-80): process start-up, HTTP routing, JSON decoding and encoding, the 400 and 500 responses and `log.Fatal`. They are I/O around the check and calls into the Go standard library.
- `CreditCard` and `Response` (main.go:32-39): JSON carriers with no logic.
- The pseudocode comment (main.go:84-98): it describes a parity-indexed formulation compared against a check digit, which the code does not run.
- `strings.Replace` and `strconv.Atoi` are library calls. Only their effect on this input is modelled: `Strip` as a pure function, and `DigitValue` on one byte.
- Rejecting non-digit bytes outright would be the other possible policy; the code discards the `Atoi` error, so they count as 0, and the model follows the code.
