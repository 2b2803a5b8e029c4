# CPF request validator, modelled in Dafny

This project models the request validator of an Azure Function that checks a
Brazilian individual taxpayer number (CPF). The validator has two layers:

- `BeValidCpf` is a predicate on a possibly-null string. It rejects null
  or blank input. It keeps only the digit characters, in order. It requires
  exactly eleven digits that are not all the same. It then checks the two
  modulo-11 check digits: weights 10..2 over digits 1-9, then weights 11..2
  over digits 1-10. Each expected digit is 0 when the remainder is below 2,
  and 11 minus the remainder otherwise.
- The constructor's rule chain, `RuleFor(x => x.Cpf).NotEmpty().Must(BeValidCpf)`,
  turns the verdict into FluentValidation failures on property `Cpf`. The
  messages are "CPF é obrigatório" and "CPF inválido".

Files:

- `wrappers.dfy`: `Option`, which stands in for a C# string that may be null.
- `validators.dfy`: module `Validators`, with these parts:
  - the character classes;
  - the digit filter (`Digits`) and `Distinct().Count()` (`DistinctCount`);
  - the weighted sums and the check digit;
  - the specification predicate `ValidCpf`;
  - the method `BeValidCpf`, which keeps the source's two `for` loops over the
    multiplier tables and is proved equal to `ValidCpf`;
  - the rule chain (`RunComponents`, `CpfRule`, `Validate`);
  - the lemmas about all of these.

Cascade mode: the model assumes FluentValidation's default rule-level cascade
mode, `Continue`, because the source does not set one. Every component of the
chain therefore runs. `BeValidCpf` also returns false on blank input, so
null, empty or blank input gets BOTH failures: "required" first, then
"invalid", with the Portuguese messages written in the rule chain.

## Model

| member | source | states |
|---|---|---|
| `Validators.IsWhiteSpace` | Validators/CpfValidatorRequestValidator.cs:17 | the .NET white-space characters; none of them is a digit |
| `Validators.IsNullOrWhiteSpace` | Validators/CpfValidatorRequestValidator.cs:17 | null, empty or white-space-only input; such input has no digits |
| `Validators.BlankHasNoDigits` | Validators/CpfValidatorRequestValidator.cs:17-20 | a string made only of white space has an empty digit sequence |
| `Validators.DistinctCount` | Validators/CpfValidatorRequestValidator.cs:25 | the number of distinct characters is zero exactly for the empty string |
| `Validators.ComplementarySums` | Validators/CpfValidatorRequestValidator.cs:31-32 | the sum with descending weights and the sum with the complementary ascending weights add up to 11 times the digit total |
| `Validators.CheckDigitOfComplement` | Validators/CpfValidatorRequestValidator.cs:34-35 | when s + t is a multiple of 11, the check digit of s is t mod 11 mod 10 |
| `Validators.CheckDigitByAscendingWeights` | Validators/CpfValidatorRequestValidator.cs:34-35 | the check digit of a descending-weight sum equals the ascending-weight sum mod 11 mod 10 |
| `Validators.ChecksumsMatch` | Validators/CpfValidatorRequestValidator.cs:37-49 | both check digits match exactly when digit 10 is the ascending sum with weights 1..9 mod 11 mod 10 and digit 11 the ascending sum with weights 0..9 mod 11 mod 10 |
| `Validators.ValidCpf` | Validators/CpfValidatorRequestValidator.cs:15-50 | holds exactly when the input is not blank, has 11 digits that are not all the same, and both check digits match |
| `Validators.BeValidCpf` | Validators/CpfValidatorRequestValidator.cs:15-50 | accepts exactly when the input is non-null and non-blank, its digit sequence has 11 digits that are not all the same, and both check digits match; its loops' running sums equal the closed-form weighted sums, and its result equals `ValidCpf` |
| `Validators.DigitCharacters` | Validators/CpfValidatorRequestValidator.cs:20 | `IsDigit`, the model of `char.IsDigit`, holds exactly for the ten characters '0'..'9' |
| `Validators.DigitValue` | Validators/CpfValidatorRequestValidator.cs:32 | parsing one decimal digit yields the value v in 0..9 whose decimal numeral is that character |
| `Validators.Digits` | Validators/CpfValidatorRequestValidator.cs:20 | the filtered string holds only digits and is no longer than the input |
| `Validators.DigitsAppend` | Validators/CpfValidatorRequestValidator.cs:20 | filtering distributes over concatenation, so digits keep their original order |
| `Validators.DigitsOfDigitString` | Validators/CpfValidatorRequestValidator.cs:20 | a string made only of digits is left unchanged by the filter |
| `Validators.DigitsIgnoresNonDigit` | Validators/CpfValidatorRequestValidator.cs:20 | removing a non-digit character anywhere leaves the digit sequence unchanged |
| `Validators.WeightedSum` | Validators/CpfValidatorRequestValidator.cs:31-32 | the weighted sum of digits by positive weights is never negative, so C#'s truncating `%` agrees with Dafny's |
| `Validators.CheckDigit` | Validators/CpfValidatorRequestValidator.cs:34-35 | the check digit lies in 0..9; it is 0 when the remainder is 1, and otherwise it makes sum + digit divisible by 11 |
| `Validators.CheckDigitUnique` | Validators/CpfValidatorRequestValidator.cs:46-47 | those two conditions determine the check digit uniquely among 0..9 |
| `Validators.BlankRejected` | Validators/CpfValidatorRequestValidator.cs:17-18 | null, empty and whitespace-only input is never accepted |
| `Validators.FormattingInsensitive` | Validators/CpfValidatorRequestValidator.cs:17-22 | two non-null inputs with the same digit sequence get the same verdict, blank or not |
| `Validators.InsertNonDigitKeepsVerdict` | Validators/CpfValidatorRequestValidator.cs:17-20 | inserting a non-digit character anywhere into non-null input does not change the verdict |
| `Validators.MaskedDigits` | Validators/CpfValidatorRequestValidator.cs:20 | filtering the digits out of ddd.ddd.ddd-dd gives back the eleven digits |
| `Validators.MaskKeepsVerdict` | Validators/CpfValidatorRequestValidator.cs:20 | eleven digits written as ddd.ddd.ddd-dd get the same verdict as the bare digits |
| `Validators.WrongLengthRejected` | Validators/CpfValidatorRequestValidator.cs:22-23 | input whose digit sequence is not exactly 11 long is rejected |
| `Validators.DistinctCountOneIffAllSame` | Validators/CpfValidatorRequestValidator.cs:25 | on a non-empty string, `Distinct().Count() == 1` holds exactly when every character is the same |
| `Validators.RepeatedDigitsRejected` | Validators/CpfValidatorRequestValidator.cs:25-26 | eleven repetitions of one digit are rejected, whatever the punctuation around them |
| `Validators.WeightedSumOfRepeated` | Validators/CpfValidatorRequestValidator.cs:31-32 | the weighted sum of n copies of one digit is that digit times the sum of the weights |
| `Validators.RepeatedDigitsPassChecksum` | Validators/CpfValidatorRequestValidator.cs:28-49 | every string of eleven equal digits passes both checksums, so only the repetition guard rejects them |
| `Validators.ValidDigitString` | Validators/CpfValidatorRequestValidator.cs:22-49 | eleven digits, not all equal, are accepted exactly when both check digits match |
| `Validators.KnownCpfSums` | Validators/CpfValidatorRequestValidator.cs:28-44 | the weighted sums over the first ten digits 5299822472 are 295 and 347 |
| `Validators.AcceptsKnownCpf` | Validators/CpfValidatorRequestValidator.cs:28-49 | 52998224725 is accepted |
| `Validators.RejectsAlteredCheckDigit` | Validators/CpfValidatorRequestValidator.cs:43-49 | 52998224726 is rejected |
| `Validators.AcceptsFormattedCpf` | Validators/CpfValidatorRequestValidator.cs:20-49 | 529.982.247-25 is accepted |
| `Validators.RejectsElevenOnes` | Validators/CpfValidatorRequestValidator.cs:25-26 | 11111111111 passes the checksum arithmetic but is rejected |
| `Validators.Passes` | Validators/CpfValidatorRequestValidator.cs:11-12 | the `Must(BeValidCpf)` component passes only on input that also passes `NotEmpty` |
| `Validators.RunComponents` | Validators/CpfValidatorRequestValidator.cs:10-12 | under the Continue cascade, every failing component's failure is in the list, on the rule's property; every failure's message comes from a failing component; the list is empty exactly when every component passes |
| `Validators.RunComponentsSingle` | Validators/CpfValidatorRequestValidator.cs:10-12 | one component yields no failure if it passes, else exactly one failure with its message |
| `Validators.RunComponentsCons` | Validators/CpfValidatorRequestValidator.cs:10-12 | the first component's failures come before those of the rest |
| `Validators.RunComponentsAppend` | Validators/CpfValidatorRequestValidator.cs:10-12 | the failures of a chain are those of its first part followed by those of its second, so failures keep the components' order and each failing component contributes exactly one |
| `Validators.Validate` | Validators/CpfValidatorRequestValidator.cs:10-12 | the outcome is valid exactly when `BeValidCpf` holds; "required" is reported exactly on null or blank input and "invalid" exactly when `BeValidCpf` fails, in that order; the rule `CpfRule` it runs is fixed to `NotEmpty` then `Must(BeValidCpf)` on property `Cpf` |
| `Validators.BlankYieldsBothFailures` | Validators/CpfValidatorRequestValidator.cs:10-18 | null or blank input gets both failures, "required" then "invalid" |
| `Validators.InvalidYieldsOneFailure` | Validators/CpfValidatorRequestValidator.cs:10-12 | non-blank input that is not a valid CPF gets only the "invalid" failure |
| `Validators.KnownCpfRequestIsValid` | Validators/CpfValidatorRequestValidator.cs:10-12 | a request carrying 52998224725 gets no failures |

## Left out

- The HTTP function in Functions/CpfValidatorFunction.cs is not part of this model. That covers reading the body, JSON deserialisation and its errors, logging, the OpenAPI attributes, and the mapping to 200/400/500 results. None of it is algorithmic, and it rests on framework types.
- FluentValidation's rule registration, reflection and asynchronous `ValidateAsync` are left out. The one rule chain is modelled directly as data (`CpfRule`) and a function that produces the failure list.
- `IsDigit` covers only the ASCII digits '0'..'9', so the model drops every other Unicode decimal digit (for example U+0663) from the digit sequence. `char.IsDigit` keeps them, and they count in the length guard and the repetition guard. The model therefore accepts some input that the source rejects by its length guard (52998224725 followed by U+0663 has 12 digits in C#). Where the source's eleven digits include a non-ASCII one, the source either returns false (all eleven the same, or the non-ASCII digit only in the last position and the first check digit wrong) or `int.Parse` throws `FormatException`. The model rejects all of these with "CPF inválido"; the exception is not modelled.
- Validators.InsertNonDigitKeepsVerdict and Validators.FormattingInsensitive describe the source only for inputs that hold no non-ASCII decimal digits, for the reason in the previous line.
- Characters are Unicode scalar values, while C# strings are UTF-16 code units. A character outside the Basic Multilingual Plane is one `char` here and two surrogates in C#. Neither form is white space or an ASCII digit, so the verdict is the same.
- The idempotence of `BeValidCpf` is not stated separately: its `ensures ok == ValidCpf(cpf)` fixes the result as a function of the input, so two calls on the same input agree.
- `Validators.WeightedSum`: its contract states only that the sum is non-negative. The link between the loop sums and the closed form is stated by `BeValidCpf`'s loop invariants, and the sums of the known CPF are stated by `KnownCpfSums`.
