/**
 * The CPF request validator: the predicate BeValidCpf (digit filter, length
 * and repetition guards, two weighted modulo-11 check digits) and the
 * FluentValidation rule chain that turns it into a list of failures.
 */
module Validators {
  import opened Wrappers

  /* ---------------------------------------------------------------------- */
  /* Characters                                                              */
  /* ---------------------------------------------------------------------- */

  /** char.IsWhiteSpace: the Unicode white-space characters as .NET lists them. */
  predicate IsWhiteSpace(c: char)
    ensures IsWhiteSpace(c) ==> !IsDigit(c)
  {
    ('\t' <= c <= '\r') || c == ' ' || c == '\U{0085}' || c == '\U{00A0}' ||
    c == '\U{1680}' || ('\U{2000}' <= c <= '\U{200A}') || c == '\U{2028}' ||
    c == '\U{2029}' || c == '\U{202F}' || c == '\U{205F}' || c == '\U{3000}'
  }

  /** string.IsNullOrWhiteSpace: null, empty, or white space only. */
  predicate IsNullOrWhiteSpace(s: Option<string>)
    ensures IsNullOrWhiteSpace(s) ==> s.None? || Digits(s.value) == []
  {
    match s
    case None => true
    case Some(t) => BlankHasNoDigits(t); forall i :: 0 <= i < |t| ==> IsWhiteSpace(t[i])
  }

  /** char.IsDigit, restricted to the ASCII decimal digits. */
  predicate IsDigit(c: char) {
    '0' <= c <= '9'
  }

  /** The digits kept by the filter are exactly the ten decimal numerals. */
  lemma DigitCharacters(c: char)
    ensures IsDigit(c) <==> c in "0123456789"
  {
  }

  predicate AllDigits(s: string) {
    forall i :: 0 <= i < |s| ==> IsDigit(s[i])
  }

  /** int.Parse(c.ToString()) on a decimal digit. */
  function DigitValue(c: char): (v: int)
    requires IsDigit(c)
    ensures 0 <= v <= 9 && "0123456789"[v] == c
  {
    c as int - '0' as int
  }

  /* ---------------------------------------------------------------------- */
  /* The digit sequence                                                      */
  /* ---------------------------------------------------------------------- */

  /** cpf.Where(char.IsDigit): the digits of s, in their original order. */
  function Digits(s: string): (d: string)
    ensures AllDigits(d)
    ensures |d| <= |s|
  {
    if s == [] then []
    else (if IsDigit(s[0]) then [s[0]] else []) + Digits(s[1..])
  }

  /** cpf.Distinct().Count(): the number of different characters in s. */
  function DistinctCount(s: string): (r: nat)
    ensures r == 0 <==> |s| == 0
  {
    var chars := set c | c in s;
    assert |s| > 0 ==> s[0] in chars;
    |chars|
  }

  /** Every character of s is its first one. */
  predicate AllSame(s: string) {
    forall i :: 0 <= i < |s| ==> s[i] == s[0]
  }

  /* ---------------------------------------------------------------------- */
  /* Check digits                                                            */
  /* ---------------------------------------------------------------------- */

  /** The weights 10..2 applied to the first nine digits. */
  const Multiplicador1: seq<int> := [10, 9, 8, 7, 6, 5, 4, 3, 2]

  /** The weights 11..2 applied to the first ten digits. */
  const Multiplicador2: seq<int> := [11, 10, 9, 8, 7, 6, 5, 4, 3, 2]

  /** The closed form of the weighted sum: the sum of DigitValue(d[i]) * (top - i) for i < n. */
  function WeightedSum(d: string, n: nat, top: int): (soma: int)
    requires n <= |d| && n <= top
    requires forall i :: 0 <= i < n ==> IsDigit(d[i])
    ensures 0 <= soma
  {
    if n == 0 then 0
    else
      var term := DigitValue(d[n - 1]) * (top - (n - 1));
      assert term >= 0;
      WeightedSum(d, n - 1, top) + term
  }

  /**
   * The check digit of a non-negative weighted sum: 0 when the remainder
   * modulo 11 is below 2, 11 minus the remainder otherwise. (On the
   * non-negative sums used here C#'s truncating % agrees with Dafny's.)
   * The digit is the one that makes soma + digit divisible by 11, except
   * for remainder 1, where no single digit does and 0 is used.
   */
  function CheckDigit(soma: int): (digit: int)
    requires soma >= 0
    ensures 0 <= digit <= 9
    ensures soma % 11 == 1 ==> digit == 0
    ensures soma % 11 != 1 ==> (soma + digit) % 11 == 0
  {
    var resto := soma % 11;
    if resto < 2 then 0 else 11 - resto
  }

  /** The two conditions of CheckDigit's contract single out one digit. */
  lemma CheckDigitUnique(soma: int, k: int)
    requires soma >= 0 && 0 <= k <= 9
    requires soma % 11 == 1 ==> k == 0
    requires soma % 11 != 1 ==> (soma + k) % 11 == 0
    ensures k == CheckDigit(soma)
  {
    var digit := CheckDigit(soma);
    if soma % 11 != 1 {
      assert (soma + k) - (soma + digit) == k - digit;
      assert (k - digit) % 11 == 0;
    }
  }

  /** The sum of DigitValue(d[i]) * (base + i) for i < n: weights ascending from base. */
  function AscendingSum(d: string, n: nat, base: nat): (soma: nat)
    requires n <= |d|
    requires forall i :: 0 <= i < n ==> IsDigit(d[i])
  {
    if n == 0 then 0
    else AscendingSum(d, n - 1, base) + DigitValue(d[n - 1]) * (base + (n - 1))
  }

  /** The sum of the first n digit values. */
  function DigitTotal(d: string, n: nat): int
    requires n <= |d|
    requires forall i :: 0 <= i < n ==> IsDigit(d[i])
  {
    if n == 0 then 0 else DigitTotal(d, n - 1) + DigitValue(d[n - 1])
  }

  /** Descending weights top - i and ascending weights 11 - top + i add up to 11 at every position. */
  lemma {:induction false} ComplementarySums(d: string, n: nat, top: nat)
    requires n <= |d| && n <= top <= 11
    requires forall i :: 0 <= i < n ==> IsDigit(d[i])
    ensures WeightedSum(d, n, top) + AscendingSum(d, n, 11 - top) == 11 * DigitTotal(d, n)
  {
    if n > 0 {
      ComplementarySums(d, n - 1, top);
      var v := DigitValue(d[n - 1]);
      assert v * (top - (n - 1)) + v * (11 - top + (n - 1)) == 11 * v;
    }
  }

  /** When s + t is a multiple of 11, the check digit of s is t modulo 11, with 10 read as 0. */
  lemma CheckDigitOfComplement(s: int, t: int)
    requires s >= 0 && t >= 0 && (s + t) % 11 == 0
    ensures CheckDigit(s) == t % 11 % 10
  {
    var r, u := s % 11, t % 11;
    assert s + t == 11 * (s / 11 + t / 11) + (r + u);
    assert (r + u) % 11 == 0;
    assert r + u == 0 || r + u == 11;
  }

  /**
   * The usual alternative formula: the check digit is the sum with ascending
   * weights 1..9 (first digit) or 0..9 (second digit), modulo 11, with 10 read as 0.
   */
  lemma CheckDigitByAscendingWeights(d: string, n: nat, top: nat)
    requires n <= |d| && n <= top <= 11
    requires forall i :: 0 <= i < n ==> IsDigit(d[i])
    ensures CheckDigit(WeightedSum(d, n, top)) == AscendingSum(d, n, 11 - top) % 11 % 10
  {
    ComplementarySums(d, n, top);
    CheckDigitOfComplement(WeightedSum(d, n, top), AscendingSum(d, n, 11 - top));
  }

  /** Both check digits of the eleven digits d match. */
  predicate ChecksumsMatch(d: string)
    requires |d| == 11 && AllDigits(d)
    ensures ChecksumsMatch(d) <==>
              DigitValue(d[9]) == AscendingSum(d, 9, 1) % 11 % 10 &&
              DigitValue(d[10]) == AscendingSum(d, 10, 0) % 11 % 10
  {
    CheckDigitByAscendingWeights(d, 9, 10);
    CheckDigitByAscendingWeights(d, 10, 11);
    DigitValue(d[9]) == CheckDigit(WeightedSum(d, 9, 10)) &&
    DigitValue(d[10]) == CheckDigit(WeightedSum(d, 10, 11))
  }

  /** What BeValidCpf accepts. */
  predicate ValidCpf(cpf: Option<string>)
    ensures ValidCpf(cpf) <==> !IsNullOrWhiteSpace(cpf) && |Digits(cpf.value)| == 11 &&
                               !AllSame(Digits(cpf.value)) && ChecksumsMatch(Digits(cpf.value))
  {
    !IsNullOrWhiteSpace(cpf) &&
    var d := Digits(cpf.value);
    |d| == 11 && (DistinctCountOneIffAllSame(d); DistinctCount(d) != 1) && ChecksumsMatch(d)
  }

  /** BeValidCpf: the guards, then the two check-digit loops. */
  method BeValidCpf(cpf: Option<string>) returns (ok: bool)
    ensures ok <==> !IsNullOrWhiteSpace(cpf) && |Digits(cpf.value)| == 11 &&
                    !AllSame(Digits(cpf.value)) && ChecksumsMatch(Digits(cpf.value))
    ensures ok == ValidCpf(cpf)
  {
    if IsNullOrWhiteSpace(cpf) {
      return false;
    }
    var d := Digits(cpf.value);
    if |d| != 11 {
      return false;
    }
    DistinctCountOneIffAllSame(d);
    if DistinctCount(d) == 1 {
      return false;
    }

    var soma := 0;
    for i := 0 to 9
      invariant soma == WeightedSum(d, i, 10)
    {
      soma := soma + DigitValue(d[i]) * Multiplicador1[i];
    }
    var digito1 := CheckDigit(soma);
    if DigitValue(d[9]) != digito1 {
      return false;
    }

    soma := 0;
    for i := 0 to 10
      invariant soma == WeightedSum(d, i, 11)
    {
      soma := soma + DigitValue(d[i]) * Multiplicador2[i];
    }
    var digito2 := CheckDigit(soma);
    ok := DigitValue(d[10]) == digito2;
  }

  /* ---------------------------------------------------------------------- */
  /* The rule chain                                                          */
  /* ---------------------------------------------------------------------- */

  /** The request body: { "cpf": ... }, where the string may be null. */
  datatype CpfValidatorRequest = CpfValidatorRequest(cpf: Option<string>)

  datatype ValidationFailure = ValidationFailure(propertyName: string, errorMessage: string)

  datatype ValidationResult = ValidationResult(errors: seq<ValidationFailure>) {
    /** FluentValidation: valid exactly when no failure was recorded. */
    predicate IsValid() {
      |errors| == 0
    }
  }

  /** The property validators used on the Cpf property. */
  datatype PropertyCheck = NotEmpty | MustBeValidCpf

  /** One link of a RuleFor chain: a validator and its WithMessage text. */
  datatype RuleComponent = RuleComponent(check: PropertyCheck, message: string)

  datatype PropertyRule = PropertyRule(propertyName: string, components: seq<RuleComponent>)

  /** Whether a property validator accepts the value; Must(BeValidCpf) is the stronger of the two. */
  predicate Passes(check: PropertyCheck, value: Option<string>)
    ensures check == MustBeValidCpf && Passes(check, value) ==> !IsNullOrWhiteSpace(value)
  {
    match check
    case NotEmpty => !IsNullOrWhiteSpace(value)
    case MustBeValidCpf => ValidCpf(value)
  }

  /**
   * The failures of a rule chain under the Continue cascade mode (the
   * FluentValidation default): every component runs, and each failing one
   * adds its message, in declaration order.
   */
  function RunComponents(propertyName: string, components: seq<RuleComponent>, value: Option<string>)
    : (failures: seq<ValidationFailure>)
    ensures |failures| <= |components|
    ensures forall f :: f in failures ==> f.propertyName == propertyName
    ensures forall i :: 0 <= i < |components| && !Passes(components[i].check, value) ==>
              ValidationFailure(propertyName, components[i].message) in failures
    ensures forall f :: f in failures ==>
              exists i :: 0 <= i < |components| && !Passes(components[i].check, value) &&
                          f.errorMessage == components[i].message
    ensures failures == [] <==> forall i :: 0 <= i < |components| ==> Passes(components[i].check, value)
  {
    if components == [] then []
    else
      var rest := RunComponents(propertyName, components[1..], value);
      assert forall i :: 1 <= i < |components| ==> components[i] == components[1..][i - 1];
      var head := if Passes(components[0].check, value) then []
                  else [ValidationFailure(propertyName, components[0].message)];
      head + rest
  }

  const RequiredMessage: string := "CPF é obrigatório"
  const InvalidMessage: string := "CPF inválido"

  /** The constructor's RuleFor(x => x.Cpf).NotEmpty()...Must(BeValidCpf)... */
  const CpfRule: PropertyRule :=
    PropertyRule("Cpf", [RuleComponent(NotEmpty, RequiredMessage), RuleComponent(MustBeValidCpf, InvalidMessage)])

  const RequiredFailure: ValidationFailure := ValidationFailure("Cpf", RequiredMessage)
  const InvalidFailure: ValidationFailure := ValidationFailure("Cpf", InvalidMessage)

  /** Validate(request) on the validator the constructor builds. */
  function Validate(request: CpfValidatorRequest): (result: ValidationResult)
    ensures result.IsValid() <==> ValidCpf(request.cpf)
    ensures RequiredFailure in result.errors <==> IsNullOrWhiteSpace(request.cpf)
    ensures InvalidFailure in result.errors <==> !ValidCpf(request.cpf)
    ensures result.errors == (if IsNullOrWhiteSpace(request.cpf) then [RequiredFailure] else []) +
                             (if ValidCpf(request.cpf) then [] else [InvalidFailure])
  {
    var required, invalid := CpfRule.components[0], CpfRule.components[1];
    assert CpfRule.components == [required] + [invalid];
    RunComponentsAppend(CpfRule.propertyName, [required], [invalid], request.cpf);
    RunComponentsSingle(CpfRule.propertyName, required, request.cpf);
    RunComponentsSingle(CpfRule.propertyName, invalid, request.cpf);
    ValidationResult(RunComponents(CpfRule.propertyName, CpfRule.components, request.cpf))
  }

  /** A one-component chain reports that component's failure, or nothing. */
  lemma RunComponentsSingle(propertyName: string, c: RuleComponent, value: Option<string>)
    ensures RunComponents(propertyName, [c], value) ==
            if Passes(c.check, value) then [] else [ValidationFailure(propertyName, c.message)]
  {
  }

  /** Sequence concatenation is associative (a helper for RunComponentsAppend). */
  lemma Associative<X>(x: seq<X>, y: seq<X>, z: seq<X>)
    ensures (x + y) + z == x + (y + z)
  {
  }

  /** A chain reports its first component's failure, if any, before the rest's. */
  lemma RunComponentsCons(propertyName: string, c: RuleComponent, rest: seq<RuleComponent>,
                          value: Option<string>)
    ensures RunComponents(propertyName, [c] + rest, value) ==
            RunComponents(propertyName, [c], value) + RunComponents(propertyName, rest, value)
  {
    var head := if Passes(c.check, value) then [] else [ValidationFailure(propertyName, c.message)];
    assert RunComponents(propertyName, [c], value) == head by {
      assert [c][1..] == [];
    }
    assert RunComponents(propertyName, [c] + rest, value) == head + RunComponents(propertyName, rest, value) by {
      assert ([c] + rest)[0] == c;
      assert ([c] + rest)[1..] == rest;
    }
  }

  /** The failures of a chain are those of its first part followed by those of the rest. */
  lemma {:induction false} RunComponentsAppend(propertyName: string, a: seq<RuleComponent>,
                                               b: seq<RuleComponent>, value: Option<string>)
    ensures RunComponents(propertyName, a + b, value) ==
            RunComponents(propertyName, a, value) + RunComponents(propertyName, b, value)
    decreases |a|
  {
    if a == [] {
      assert a + b == b;
      assert RunComponents(propertyName, a, value) == [];
    } else {
      var c, tail := a[0], a[1..];
      var fc, ft, fb := RunComponents(propertyName, [c], value), RunComponents(propertyName, tail, value),
                        RunComponents(propertyName, b, value);
      assert RunComponents(propertyName, a + b, value) == fc + RunComponents(propertyName, tail + b, value) by {
        assert a + b == [c] + (tail + b) by {
          assert a == [c] + tail;
          Associative([c], tail, b);
        }
        RunComponentsCons(propertyName, c, tail + b, value);
      }
      assert RunComponents(propertyName, a, value) == fc + ft by {
        assert a == [c] + tail;
        RunComponentsCons(propertyName, c, tail, value);
      }
      RunComponentsAppend(propertyName, tail, b, value);
      Associative(fc, ft, fb);
    }
  }

  /* ---------------------------------------------------------------------- */
  /* Properties                                                              */
  /* ---------------------------------------------------------------------- */

  /** A white-space-only string has no digits. */
  lemma {:induction false} BlankHasNoDigits(t: string)
    ensures (forall i :: 0 <= i < |t| ==> IsWhiteSpace(t[i])) ==> Digits(t) == []
  {
    if t != [] && forall i :: 0 <= i < |t| ==> IsWhiteSpace(t[i]) {
      assert forall i :: 0 <= i < |t[1..]| ==> t[1..][i] == t[i + 1];
      BlankHasNoDigits(t[1..]);
    }
  }

  /** Filtering distributes over concatenation: the digits keep their order. */
  lemma {:induction false} DigitsAppend(a: string, b: string)
    ensures Digits(a + b) == Digits(a) + Digits(b)
  {
    if a == [] {
      assert a + b == b;
    } else {
      assert (a + b)[1..] == a[1..] + b;
      DigitsAppend(a[1..], b);
    }
  }

  /** A string of digits is its own digit sequence. */
  lemma {:induction false} DigitsOfDigitString(s: string)
    requires AllDigits(s)
    ensures Digits(s) == s
  {
    if s != [] {
      DigitsOfDigitString(s[1..]);
    }
  }

  /** Removing a non-digit character leaves the digit sequence unchanged. */
  lemma DigitsIgnoresNonDigit(a: string, c: char, b: string)
    requires !IsDigit(c)
    ensures Digits(a + [c] + b) == Digits(a + b)
  {
    DigitsAppend(a + [c], b);
    DigitsAppend(a, [c]);
    DigitsAppend(a, b);
    assert Digits([c]) == [];
  }

  /** Null, empty and blank input is never accepted. */
  lemma BlankRejected(cpf: Option<string>)
    requires IsNullOrWhiteSpace(cpf)
    ensures !ValidCpf(cpf)
  {
  }

  /** Only the digit sequence decides the verdict on non-null input. */
  lemma FormattingInsensitive(s: string, t: string)
    requires Digits(s) == Digits(t)
    ensures ValidCpf(Some(s)) == ValidCpf(Some(t))
  {
  }

  /** Inserting a non-digit character anywhere keeps the verdict. */
  lemma InsertNonDigitKeepsVerdict(a: string, c: char, b: string)
    requires !IsDigit(c)
    ensures ValidCpf(Some(a + [c] + b)) == ValidCpf(Some(a + b))
  {
    DigitsIgnoresNonDigit(a, c, b);
  }

  /** A digit sequence that is not exactly eleven long is rejected. */
  lemma WrongLengthRejected(s: string)
    requires |Digits(s)| != 11
    ensures !ValidCpf(Some(s))
  {
  }

  /** Distinct().Count() == 1 on a non-empty string means every character is the same. */
  lemma DistinctCountOneIffAllSame(s: string)
    requires |s| > 0
    ensures DistinctCount(s) == 1 <==> AllSame(s)
  {
    var chars := set c | c in s;
    assert s[0] in chars;
    if AllSame(s) {
      assert chars == {s[0]};
    } else {
      var i :| 0 <= i < |s| && s[i] != s[0];
      assert s[i] in chars - {s[0]};
      assert |chars - {s[0]}| == |chars| - 1;
    }
  }

  /** Eleven repetitions of one digit are rejected, whatever the formatting. */
  lemma RepeatedDigitsRejected(s: string)
    requires |Digits(s)| == 11 && AllSame(Digits(s))
    ensures !ValidCpf(Some(s))
  {
    DistinctCountOneIffAllSame(Digits(s));
  }

  /** The sum of the weights top, top - 1, ..., top - n + 1. */
  function TotalWeight(n: nat, top: int): int {
    if n == 0 then 0 else TotalWeight(n - 1, top) + (top - (n - 1))
  }

  /** The weighted sum of n copies of the digit with value k is k times the total weight. */
  lemma {:induction false} WeightedSumOfRepeated(d: string, n: nat, top: int, k: int)
    requires n <= |d| && n <= top
    requires forall i :: 0 <= i < n ==> IsDigit(d[i]) && DigitValue(d[i]) == k
    ensures WeightedSum(d, n, top) == k * TotalWeight(n, top)
  {
    if n > 0 {
      WeightedSumOfRepeated(d, n - 1, top, k);
      assert k * TotalWeight(n, top) == k * TotalWeight(n - 1, top) + k * (top - (n - 1));
    }
  }

  /**
   * Every sequence of eleven equal digits passes both checksums, so the
   * repetition guard, not the arithmetic, is what rejects them.
   */
  lemma RepeatedDigitsPassChecksum(d: string)
    requires |d| == 11 && AllDigits(d) && AllSame(d)
    ensures ChecksumsMatch(d)
  {
    var k := DigitValue(d[0]);
    WeightedSumOfRepeated(d, 9, 10, k);
    WeightedSumOfRepeated(d, 10, 11, k);
    assert TotalWeight(9, 10) == 54 && TotalWeight(10, 11) == 65;
    assert WeightedSum(d, 9, 10) == 54 * k;
    assert WeightedSum(d, 10, 11) == 65 * k;
    assert 0 <= k <= 9;
    if k == 0 {
    } else if k == 1 {
    } else if k == 2 {
    } else if k == 3 {
    } else if k == 4 {
    } else if k == 5 {
    } else if k == 6 {
    } else if k == 7 {
    } else if k == 8 {
    } else {
      assert k == 9;
    }
  }

  /**
   * A string of eleven digits, not all the same, is accepted exactly when
   * both check digits match: the guards and the formatting add nothing.
   */
  lemma ValidDigitString(s: string)
    requires |s| == 11 && AllDigits(s) && !AllSame(s)
    ensures ValidCpf(Some(s)) <==> ChecksumsMatch(s)
  {
    assert !IsWhiteSpace(s[0]);
    DigitsOfDigitString(s);
    DistinctCountOneIffAllSame(s);
  }

  /** The two weighted sums over the first ten digits 5299822472, position by position. */
  lemma KnownCpfSums(s: string)
    requires |s| == 11 && s[..10] == "5299822472"
    ensures AllDigits(s[..10])
    ensures WeightedSum(s, 9, 10) == 295
    ensures WeightedSum(s, 10, 11) == 347
  {
    var p := s[..10];
    assert p[0] == '5' && p[1] == '2' && p[2] == '9' && p[3] == '9' && p[4] == '8';
    assert p[5] == '2' && p[6] == '2' && p[7] == '4' && p[8] == '7' && p[9] == '2';
    assert forall i :: 0 <= i < 10 ==> s[i] == p[i];
    assert WeightedSum(s, 1, 10) == 50;
    assert WeightedSum(s, 2, 10) == 68;
    assert WeightedSum(s, 3, 10) == 140;
    assert WeightedSum(s, 4, 10) == 203;
    assert WeightedSum(s, 5, 10) == 251;
    assert WeightedSum(s, 6, 10) == 261;
    assert WeightedSum(s, 7, 10) == 269;
    assert WeightedSum(s, 8, 10) == 281;
    assert WeightedSum(s, 9, 10) == 295;
    assert WeightedSum(s, 1, 11) == 55;
    assert WeightedSum(s, 2, 11) == 75;
    assert WeightedSum(s, 3, 11) == 156;
    assert WeightedSum(s, 4, 11) == 228;
    assert WeightedSum(s, 5, 11) == 284;
    assert WeightedSum(s, 6, 11) == 296;
    assert WeightedSum(s, 7, 11) == 306;
    assert WeightedSum(s, 8, 11) == 322;
    assert WeightedSum(s, 9, 11) == 343;
    assert WeightedSum(s, 10, 11) == 347;
  }

  /** A known valid CPF: the sums are 295 and 347, giving check digits 2 and 5. */
  lemma AcceptsKnownCpf(s: string)
    requires s == "52998224725"
    ensures ValidCpf(Some(s))
  {
    assert AllDigits(s);
    assert s[0] != s[1];
    KnownCpfSums(s);
    ValidDigitString(s);
  }

  /** Altering the last digit of that CPF makes it invalid. */
  lemma RejectsAlteredCheckDigit(s: string)
    requires s == "52998224726"
    ensures !ValidCpf(Some(s))
  {
    assert AllDigits(s);
    assert s[0] != s[1];
    KnownCpfSums(s);
    ValidDigitString(s);
  }

  /** The usual written form of eleven digits: ddd.ddd.ddd-dd. */
  function Masked(p: string): (s: string)
    requires |p| == 11
    ensures |s| == 14 && s[3] == '.' && s[7] == '.' && s[11] == '-'
  {
    p[..3] + "." + p[3..6] + "." + p[6..9] + "-" + p[9..]
  }

  /** The digit filter undoes the ddd.ddd.ddd-dd mask. */
  lemma MaskedDigits(p: string)
    requires |p| == 11 && AllDigits(p)
    ensures Digits(Masked(p)) == p
  {
    var a, b, c, d := p[..3], p[3..6], p[6..9], p[9..];
    DigitsOfDigitString(a);
    DigitsOfDigitString(b);
    DigitsOfDigitString(c);
    DigitsOfDigitString(d);
    assert Digits(".") == [] && Digits("-") == [];
    var m1 := a + ".";
    DigitsAppend(a, ".");
    var m2 := m1 + b;
    DigitsAppend(m1, b);
    assert Digits(m2) == a + b;
    var m3 := m2 + ".";
    DigitsAppend(m2, ".");
    var m4 := m3 + c;
    DigitsAppend(m3, c);
    assert Digits(m4) == a + b + c;
    var m5 := m4 + "-";
    DigitsAppend(m4, "-");
    var m6 := m5 + d;
    DigitsAppend(m5, d);
    assert Digits(m6) == a + b + c + d;
    assert Masked(p) == m6;
    assert a + b + c + d == p;
  }

  /** Writing eleven digits in the usual ddd.ddd.ddd-dd form does not change the verdict. */
  lemma MaskKeepsVerdict(p: string)
    requires |p| == 11 && AllDigits(p)
    ensures ValidCpf(Some(Masked(p))) == ValidCpf(Some(p))
  {
    MaskedDigits(p);
    DigitsOfDigitString(p);
    assert !IsWhiteSpace(Masked(p)[3]);
    assert !IsWhiteSpace(p[0]);
  }

  /** The same CPF written 529.982.247-25 is accepted too. */
  lemma AcceptsFormattedCpf(p: string)
    requires p == "52998224725"
    ensures Masked(p) == "529.982.247-25"
    ensures ValidCpf(Some(Masked(p)))
  {
    AcceptsKnownCpf(p);
    MaskKeepsVerdict(p);
  }

  /** Eleven ones pass the checksum but are rejected by the repetition guard. */
  lemma RejectsElevenOnes(s: string)
    requires s == "11111111111"
    ensures !ValidCpf(Some(s))
    ensures ChecksumsMatch(s)
  {
    assert AllDigits(s) && AllSame(s);
    DigitsOfDigitString(s);
    RepeatedDigitsRejected(s);
    RepeatedDigitsPassChecksum(s);
  }

  /** Blank or null input fails both rules: "required" first, then "invalid". */
  lemma BlankYieldsBothFailures(request: CpfValidatorRequest)
    requires IsNullOrWhiteSpace(request.cpf)
    ensures Validate(request).errors == [RequiredFailure, InvalidFailure]
  {
  }

  /** Non-blank input that is not a valid CPF fails only the second rule. */
  lemma InvalidYieldsOneFailure(request: CpfValidatorRequest)
    requires !IsNullOrWhiteSpace(request.cpf) && !ValidCpf(request.cpf)
    ensures Validate(request).errors == [InvalidFailure]
  {
  }

  /** The known valid CPF yields a valid outcome with no failures. */
  lemma KnownCpfRequestIsValid(s: string)
    requires s == "52998224725"
    ensures Validate(CpfValidatorRequest(Some(s))).errors == []
  {
    AcceptsKnownCpf(s);
  }
}
