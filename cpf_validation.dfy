/**
 * The CPF (Brazilian taxpayer number) validator.
 *
 * A `CpfValidation` object keeps the input as given (`cpf`) and, from the
 * moment it is constructed, its normalised form (`rawCpf`, the input without
 * `.` and `-`). `IsValid` runs four stages joined by short-circuiting `&&`:
 * the normalised length is eleven, the raw input has the exact shape
 * `DDD.DDD.DDD-DD`, the eleven digits are not all equal, and both mod-11
 * check digits agree with a recursive weighted sum over the reversed digits.
 *
 * The private helpers of the validator read `cpf` or `rawCpf`, which are never
 * changed after construction; they are modelled as functions of that value.
 */
module Cpf {
  import opened RegexClasses

  /** `cpfLength`: the number of digits of a CPF. */
  const CPF_LENGTH: int := 11

  /** The length of the punctuated form `DDD.DDD.DDD-DD`. */
  const MASKED_LENGTH: int := 14

  // ---------------------------------------------------------------------------
  // Characters and normalisation
  // ---------------------------------------------------------------------------

  /**
   * `Char.getNumericValue`: the value of a digit character. The original
   * throws on a non-digit; here that is the precondition, so every call the
   * verifier accepts is one that cannot throw.
   */
  function GetNumericValue(c: char): (r: int)
    requires IsAsciiDigit(c)
    ensures 0 <= r <= 9 && ('0' as int + r) as char == c
  {
    c as int - '0' as int
  }

  /** The two characters of the CPF mask that normalisation deletes. */
  predicate IsSeparator(c: char) {
    c == '.' || c == '-'
  }

  /** `s.replace(Regex("[c]"), "")` for a single literal character `c`. */
  function RemoveAll(s: string, c: char): (r: string)
    ensures c !in r
    ensures forall x :: x != c ==> multiset(r)[x] == multiset(s)[x]
  {
    if s == [] then []
    else
      var rest := RemoveAll(s[1..], c);
      assert s == [s[0]] + s[1..];
      if s[0] == c then rest else [s[0]] + rest
  }

  /**
   * The normalised identifier as a reference definition: the characters of
   * `s` that are not separators, in their original order.
   */
  function StripSeparators(s: string): (r: string)
  {
    if s == [] then []
    else
      var rest := StripSeparators(s[1..]);
      assert s == [s[0]] + s[1..];
      if IsSeparator(s[0]) then rest else [s[0]] + rest
  }

  /**
   * What the normal form keeps: no separator is left, and every other
   * character occurs as often as in the input.
   */
  lemma {:induction false} StripSeparatorsDeletesExactlySeparators(s: string)
    ensures forall i :: 0 <= i < |StripSeparators(s)| ==> !IsSeparator(StripSeparators(s)[i])
    ensures forall x :: !IsSeparator(x) ==> multiset(StripSeparators(s))[x] == multiset(s)[x]
    decreases |s|
  {
    if s != [] {
      StripSeparatorsDeletesExactlySeparators(s[1..]);
      assert s == [s[0]] + s[1..];
    }
  }

  lemma {:induction false} RemoveAllConcat(a: string, b: string, c: char)
    ensures RemoveAll(a + b, c) == RemoveAll(a, c) + RemoveAll(b, c)
    decreases |a|
  {
    if a != [] {
      assert (a + b)[1..] == a[1..] + b;
      RemoveAllConcat(a[1..], b, c);
    } else {
      assert a + b == b;
    }
  }

  /** Deleting the separators commutes with concatenation, so order is kept. */
  lemma {:induction false} StripSeparatorsConcat(a: string, b: string)
    ensures StripSeparators(a + b) == StripSeparators(a) + StripSeparators(b)
    decreases |a|
  {
    if a != [] {
      assert (a + b)[1..] == a[1..] + b;
      StripSeparatorsConcat(a[1..], b);
    } else {
      assert a + b == b;
    }
  }

  /** A string without separators is its own normal form. */
  lemma {:induction false} StripSeparatorsKeepsPlainText(s: string)
    requires forall i :: 0 <= i < |s| ==> !IsSeparator(s[i])
    ensures StripSeparators(s) == s
    decreases |s|
  {
    if s != [] {
      StripSeparatorsKeepsPlainText(s[1..]);
    }
  }

  /**
   * `cleanCpfLeftOvers` deletes `.` and then `-` in two passes; the result is
   * exactly the single-pass reference: every separator deleted and every
   * other character kept, in order.
   */
  lemma {:induction false} TwoPassesStripSeparators(s: string)
    ensures RemoveAll(RemoveAll(s, '.'), '-') == StripSeparators(s)
    decreases |s|
  {
    if s != [] {
      TwoPassesStripSeparators(s[1..]);
      var head := if s[0] == '.' then [] else [s[0]];
      assert RemoveAll(s, '.') == head + RemoveAll(s[1..], '.');
      RemoveAllConcat(head, RemoveAll(s[1..], '.'), '-');
    }
  }

  /** Kotlin's `CharSequence.reversed()`. */
  function Reverse(s: string): (r: string)
    ensures |r| == |s|
    ensures forall i :: 0 <= i < |s| ==> r[i] == s[|s| - 1 - i]
  {
    if s == [] then [] else Reverse(s[1..]) + [s[0]]
  }

  // ---------------------------------------------------------------------------
  // The stages of isValid
  // ---------------------------------------------------------------------------

  /** `hasAllDigits`: the normalised identifier has eleven characters. */
  predicate HasAllDigits(rawCpf: string) {
    |rawCpf| == CPF_LENGTH
  }

  /** What the mask `DDD.DDD.DDD-DD` admits at position `i`. */
  predicate MaskAllows(i: int, c: char) {
    if i == 3 || i == 7 then c == '.'
    else if i == 11 then c == '-'
    else IsAsciiDigit(c)
  }

  /**
   * `hasValidSymbols`: the RAW input matches `^((\d{3}[.]){2})(\d{3})([-](\d{2}))$`
   * as a whole (`String.matches`), with the ASCII-only `\d` of the JVM.
   */
  predicate HasValidSymbols(cpf: string) {
    |cpf| == MASKED_LENGTH && forall i :: 0 <= i < MASKED_LENGTH ==> MaskAllows(i, cpf[i])
  }

  /**
   * `isSpecialCase`: the normalised identifier matches `^(\d)\1*$` as a
   * whole, i.e. it is a non-empty repetition of one ASCII digit.
   */
  predicate IsSpecialCase(rawCpf: string) {
    |rawCpf| > 0 && IsAsciiDigit(rawCpf[0]) && forall i :: 0 <= i < |rawCpf| ==> rawCpf[i] == rawCpf[0]
  }

  /**
   * `calculateRemainValueSum`: the check digit for a weighted sum. Kotlin's
   * `%` truncates toward zero, so a negative sum has a remainder of at most
   * zero and yields 0. For the non-negative sums the validator produces, the
   * result is the digit that makes `sum + r` a multiple of eleven, or 0 when
   * that would take two digits.
   */
  function CalculateRemainValueSum(sum: int): (r: int)
    ensures 0 <= r <= 9
    ensures sum >= 0 ==> (r == 0 <==> sum % CPF_LENGTH < 2)
    ensures sum >= 0 && sum % CPF_LENGTH >= 2 ==> (sum + r) % CPF_LENGTH == 0
    ensures sum < 0 ==> r == 0
  {
    var remainValue := if sum >= 0 then sum % CPF_LENGTH else -((-sum) % CPF_LENGTH);
    if remainValue > 1 then CPF_LENGTH - remainValue else 0
  }

  /** `getOriginalFirstDigit`: the value of the tenth normalised digit. */
  function GetOriginalFirstDigit(rawCpf: string): (r: int)
    requires |rawCpf| >= 2 && IsAsciiDigit(rawCpf[|rawCpf| - 2])
    ensures 0 <= r <= 9 && ('0' as int + r) as char == rawCpf[|rawCpf| - 2]
  {
    GetNumericValue(rawCpf[|rawCpf| - 2])
  }

  /** `getOriginalSecondDigit`: the value of the last normalised digit. */
  function GetOriginalSecondDigit(rawCpf: string): (r: int)
    requires |rawCpf| >= 1 && IsAsciiDigit(rawCpf[|rawCpf| - 1])
    ensures 0 <= r <= 9 && ('0' as int + r) as char == rawCpf[|rawCpf| - 1]
  {
    GetNumericValue(rawCpf[|rawCpf| - 1])
  }

  /**
   * The indexed sum `Σ_{i = index .. 10} reversed[i] · (i + offset)` over a
   * reversed identifier: offset 0 is the weighting of the first pass, offset 1
   * that of the second.
   */
  function ReversedWeightedSum(reversed: string, index: int, offset: int): (sum: int)
    requires |reversed| == CPF_LENGTH && AllAsciiDigits(reversed)
    requires 0 <= index <= CPF_LENGTH
    decreases CPF_LENGTH - index
  {
    if index == CPF_LENGTH then 0
    else GetNumericValue(reversed[index]) * (index + offset) + ReversedWeightedSum(reversed, index + 1, offset)
  }

  /**
   * `numbersAreValid`: the tail-recursive accumulator over the reversed
   * identifier. The first pass (`hasValidatedFirstDigit == false`) weighs
   * position `i` by `i`; at the end it compares the check digit with the
   * tenth normalised digit and, on success, restarts at index 1 with weights
   * `i + 1`, whose check digit must equal the last digit. An index outside
   * `0..11` yields false.
   *
   * The preconditions are what the original needs to never throw: every
   * character it reads is an ASCII digit.
   */
  function NumbersAreValid(rawCpf: string, hasValidatedFirstDigit: bool, index: int, sum: int,
                           reversedCpf: string): (r: bool)
    requires |rawCpf| == CPF_LENGTH && AllAsciiDigits(rawCpf)
    requires |reversedCpf| == CPF_LENGTH && AllAsciiDigits(reversedCpf)
    ensures (index < 0 || index > CPF_LENGTH) ==> !r
    ensures hasValidatedFirstDigit && 0 <= index <= CPF_LENGTH ==>
      (r <==> CalculateRemainValueSum(sum + ReversedWeightedSum(reversedCpf, index, 1))
                == GetOriginalSecondDigit(rawCpf))
    ensures !hasValidatedFirstDigit && 0 <= index <= CPF_LENGTH ==>
      (r <==> CalculateRemainValueSum(sum + ReversedWeightedSum(reversedCpf, index, 0))
                == GetOriginalFirstDigit(rawCpf)
              && CalculateRemainValueSum(ReversedWeightedSum(reversedCpf, 1, 1))
                == GetOriginalSecondDigit(rawCpf))
    decreases if hasValidatedFirstDigit then 0 else 1, CPF_LENGTH - index
  {
    if index == CPF_LENGTH then
      var remainValue := CalculateRemainValueSum(sum);
      if hasValidatedFirstDigit then remainValue == GetOriginalSecondDigit(rawCpf)
      else if remainValue == GetOriginalFirstDigit(rawCpf) then NumbersAreValid(rawCpf, true, 1, 0, reversedCpf)
      else false
    else if 0 <= index < CPF_LENGTH then
      var digitSum := GetNumericValue(reversedCpf[index]) * (if hasValidatedFirstDigit then index + 1 else index);
      NumbersAreValid(rawCpf, hasValidatedFirstDigit, index + 1, sum + digitSum, reversedCpf)
    else
      false
  }

  // ---------------------------------------------------------------------------
  // The rule the validator implements, stated on the raw input
  // ---------------------------------------------------------------------------

  /** `Σ_{k = 0 .. n-1} d[k] · (top - k)`. */
  function WeightedSum(d: seq<int>, n: nat, top: int): (sum: int)
    requires n <= |d|
  {
    if n == 0 then 0 else WeightedSum(d, n - 1, top) + d[n - 1] * (top - (n - 1))
  }

  /** The numeric values of a string of digits. */
  function DigitValues(s: string): (d: seq<int>)
    requires AllAsciiDigits(s)
    ensures |d| == |s| && forall i :: 0 <= i < |s| ==> d[i] == GetNumericValue(s[i])
  {
    seq(|s|, i requires 0 <= i < |s| => GetNumericValue(s[i]))
  }

  /** Where the `k`-th digit stands in `DDD.DDD.DDD-DD`. */
  function MaskPosition(k: int): (i: int) {
    if k < 3 then k else if k < 6 then k + 1 else if k < 9 then k + 2 else k + 3
  }

  /** The eleven digit values read straight off the punctuated input. */
  function MaskedDigits(cpf: string): (d: seq<int>)
    requires HasValidSymbols(cpf)
    ensures |d| == CPF_LENGTH
    ensures forall k :: 0 <= k < CPF_LENGTH ==> d[k] == GetNumericValue(cpf[MaskPosition(k)])
  {
    seq(CPF_LENGTH, k requires 0 <= k < CPF_LENGTH =>
      assert MaskAllows(MaskPosition(k), cpf[MaskPosition(k)]);
      GetNumericValue(cpf[MaskPosition(k)]))
  }

  /** Both mod-11 check digits of an eleven-digit sequence are correct. */
  predicate CheckDigitsHold(d: seq<int>)
    requires |d| == CPF_LENGTH
  {
    CalculateRemainValueSum(WeightedSum(d, 9, 10)) == d[9] &&
    CalculateRemainValueSum(WeightedSum(d, 10, 11)) == d[10]
  }

  /**
   * The CPF rule as the code applies it: the raw input is punctuated exactly
   * as `DDD.DDD.DDD-DD`, its digits are not all equal, and both check digits
   * (weights 10..2 over the first nine digits, 11..2 over the first ten) hold.
   */
  predicate CpfRules(cpf: string) {
    HasValidSymbols(cpf) &&
    var d := MaskedDigits(cpf);
    !(forall k :: 0 <= k < CPF_LENGTH ==> d[k] == d[0]) &&
    CheckDigitsHold(d)
  }

  // ---------------------------------------------------------------------------
  // Lemmas connecting the implementation to the rule
  // ---------------------------------------------------------------------------

  lemma StripSingleSeparator(c: char)
    requires IsSeparator(c)
    ensures StripSeparators([c]) == []
  {
    assert [c][1..] == [];
  }

  /** Deleting the separators from four separator-free blocks joined by three separators joins the blocks. */
  lemma StripJoinedBlocks(b0: string, s1: char, b1: string, s2: char, b2: string, s3: char, b3: string)
    requires StripSeparators(b0) == b0 && StripSeparators(b1) == b1
    requires StripSeparators(b2) == b2 && StripSeparators(b3) == b3
    requires IsSeparator(s1) && IsSeparator(s2) && IsSeparator(s3)
    ensures StripSeparators(b0 + ([s1] + (b1 + ([s2] + (b2 + ([s3] + b3))))))
         == b0 + (b1 + (b2 + b3))
  {
    StripSingleSeparator(s1);
    StripSingleSeparator(s2);
    StripSingleSeparator(s3);
    var t3 := [s3] + b3;
    StripSeparatorsConcat([s3], b3);
    assert StripSeparators(t3) == b3;
    var u2 := b2 + t3;
    StripSeparatorsConcat(b2, t3);
    var t2 := [s2] + u2;
    StripSeparatorsConcat([s2], u2);
    assert StripSeparators(t2) == b2 + b3;
    var u1 := b1 + t2;
    StripSeparatorsConcat(b1, t2);
    var t1 := [s1] + u1;
    StripSeparatorsConcat([s1], u1);
    assert StripSeparators(t1) == b1 + (b2 + b3);
    StripSeparatorsConcat(b0, t1);
  }

  /**
   * An input that passes `hasValidSymbols` normalises to exactly its eleven
   * ASCII digits, in mask order; in particular `hasAllDigits` holds too.
   */
  lemma MaskedInputNormalisesToDigits(cpf: string)
    requires HasValidSymbols(cpf)
    ensures |StripSeparators(cpf)| == CPF_LENGTH
    ensures forall k :: 0 <= k < CPF_LENGTH ==> StripSeparators(cpf)[k] == cpf[MaskPosition(k)]
    ensures AllAsciiDigits(StripSeparators(cpf)) && HasAllDigits(StripSeparators(cpf))
  {
    var b0, b1, b2, b3 := cpf[..3], cpf[4..7], cpf[8..11], cpf[12..];
    forall i | 0 <= i < |b0| ensures !IsSeparator(b0[i]) {
      assert MaskAllows(i, cpf[i]);
    }
    forall i | 0 <= i < |b1| ensures !IsSeparator(b1[i]) {
      assert MaskAllows(i + 4, cpf[i + 4]);
    }
    forall i | 0 <= i < |b2| ensures !IsSeparator(b2[i]) {
      assert MaskAllows(i + 8, cpf[i + 8]);
    }
    forall i | 0 <= i < |b3| ensures !IsSeparator(b3[i]) {
      assert MaskAllows(i + 12, cpf[i + 12]);
    }
    StripSeparatorsKeepsPlainText(b0);
    StripSeparatorsKeepsPlainText(b1);
    StripSeparatorsKeepsPlainText(b2);
    StripSeparatorsKeepsPlainText(b3);
    assert MaskAllows(3, cpf[3]) && MaskAllows(7, cpf[7]) && MaskAllows(11, cpf[11]);
    assert cpf == b0 + ([cpf[3]] + (b1 + ([cpf[7]] + (b2 + ([cpf[11]] + b3)))));
    StripJoinedBlocks(b0, cpf[3], b1, cpf[7], b2, cpf[11], b3);
    var raw := b0 + (b1 + (b2 + b3));
    forall k | 0 <= k < CPF_LENGTH ensures raw[k] == cpf[MaskPosition(k)] && IsAsciiDigit(raw[k]) {
      assert MaskAllows(MaskPosition(k), cpf[MaskPosition(k)]);
    }
  }

  /**
   * The walk over `rawCpf.reversed()` from index `index`
   * (weights `i + offset`) is the indexed sum over the first `11 - index`
   * digits with weights counting down from `10 + offset`.
   */
  lemma {:induction false} ReversedWalkIsIndexedSum(reversed: string, d: seq<int>, index: int, offset: int,
                                                    n: nat, top: int)
    requires |reversed| == CPF_LENGTH && AllAsciiDigits(reversed) && |d| == CPF_LENGTH
    requires forall k :: 0 <= k < CPF_LENGTH ==> d[k] == GetNumericValue(reversed[CPF_LENGTH - 1 - k])
    requires 0 <= index <= CPF_LENGTH && n == CPF_LENGTH - index && top == 10 + offset
    ensures ReversedWeightedSum(reversed, index, offset) == WeightedSum(d, n, top)
    decreases CPF_LENGTH - index
  {
    if index < CPF_LENGTH {
      ReversedWalkIsIndexedSum(reversed, d, index + 1, offset, n - 1, top);
      var k := CPF_LENGTH - 1 - index;
      assert d[k] == GetNumericValue(reversed[index]);
      assert (10 + offset) - k == index + offset;
    }
  }

  /** The digits of `rawCpf`, read from its reversal right to left. */
  lemma ReversedDigitValues(rawCpf: string)
    requires |rawCpf| == CPF_LENGTH && AllAsciiDigits(rawCpf)
    ensures AllAsciiDigits(Reverse(rawCpf))
    ensures forall k :: 0 <= k < CPF_LENGTH ==>
      DigitValues(rawCpf)[k] == GetNumericValue(Reverse(rawCpf)[CPF_LENGTH - 1 - k])
  {
  }

  /** Pass 1 is `Σ_{i = 2..10} reversed[i] · i`, i.e. weights 10..2 over digits 0..8. */
  lemma FirstPassSum(rawCpf: string)
    requires |rawCpf| == CPF_LENGTH && AllAsciiDigits(rawCpf)
    ensures ReversedWeightedSum(Reverse(rawCpf), 2, 0) == WeightedSum(DigitValues(rawCpf), 9, 10)
  {
    ReversedDigitValues(rawCpf);
    ReversedWalkIsIndexedSum(Reverse(rawCpf), DigitValues(rawCpf), 2, 0, 9, 10);
  }

  /** Pass 2 is `Σ_{i = 1..10} reversed[i] · (i + 1)`, i.e. weights 11..2 over digits 0..9. */
  lemma SecondPassSum(rawCpf: string)
    requires |rawCpf| == CPF_LENGTH && AllAsciiDigits(rawCpf)
    ensures ReversedWeightedSum(Reverse(rawCpf), 1, 1) == WeightedSum(DigitValues(rawCpf), 10, 11)
  {
    ReversedDigitValues(rawCpf);
    ReversedWalkIsIndexedSum(Reverse(rawCpf), DigitValues(rawCpf), 1, 1, 10, 11);
  }

  /**
   * Started as `isValid` starts it, `numbersAreValid` checks exactly the two
   * standard indexed check-digit equations `dv(Σ_{k<9} d[k]·(10-k)) == d[9]`
   * and `dv(Σ_{k<10} d[k]·(11-k)) == d[10]`.
   */
  lemma NumbersAreValidChecksDigits(rawCpf: string)
    requires |rawCpf| == CPF_LENGTH && AllAsciiDigits(rawCpf)
    ensures NumbersAreValid(rawCpf, false, 2, 0, Reverse(rawCpf)) <==> CheckDigitsHold(DigitValues(rawCpf))
  {
    var d := DigitValues(rawCpf);
    FirstPassSum(rawCpf);
    SecondPassSum(rawCpf);
    assert GetOriginalFirstDigit(rawCpf) == d[9] && GetOriginalSecondDigit(rawCpf) == d[10];
  }

  /**
   * For a masked input, the stages `isSpecialCase` and `numbersAreValid`
   * applied to the normalised identifier decide exactly the repdigit and
   * check-digit parts of the rule.
   */
  lemma StagesMatchRules(cpf: string)
    ensures HasValidSymbols(cpf) ==>
      |StripSeparators(cpf)| == CPF_LENGTH && AllAsciiDigits(StripSeparators(cpf))
    ensures HasValidSymbols(cpf) ==>
      (IsSpecialCase(StripSeparators(cpf)) <==>
         forall k :: 0 <= k < CPF_LENGTH ==> MaskedDigits(cpf)[k] == MaskedDigits(cpf)[0])
    ensures HasValidSymbols(cpf) ==>
      (NumbersAreValid(StripSeparators(cpf), false, 2, 0, Reverse(StripSeparators(cpf))) <==>
         CheckDigitsHold(MaskedDigits(cpf)))
  {
    if HasValidSymbols(cpf) {
      var raw := StripSeparators(cpf);
      MaskedInputNormalisesToDigits(cpf);
      var d := MaskedDigits(cpf);
      assert DigitValues(raw) == d;
      NumbersAreValidChecksDigits(raw);
      if forall k :: 0 <= k < CPF_LENGTH ==> d[k] == d[0] {
        forall i | 0 <= i < |raw| ensures raw[i] == raw[0] {
          assert ('0' as int + d[i]) as char == raw[i] && ('0' as int + d[0]) as char == raw[0];
        }
      }
      if IsSpecialCase(raw) {
        forall k | 0 <= k < CPF_LENGTH ensures d[k] == d[0] {
          assert raw[k] == raw[0];
        }
      }
    }
  }

  // ---------------------------------------------------------------------------
  // The shape the format check admits
  // ---------------------------------------------------------------------------

  /** The punctuated form `DDD.DDD.DDD-DD` of an eleven-character identifier. */
  function Mask(raw: string): (cpf: string)
    requires |raw| == CPF_LENGTH
  {
    raw[..3] + "." + raw[3..6] + "." + raw[6..9] + "-" + raw[9..]
  }

  /** Punctuating eleven digits passes `hasValidSymbols` and normalises back to them. */
  lemma MaskRoundTrip(raw: string)
    requires |raw| == CPF_LENGTH && AllAsciiDigits(raw)
    ensures HasValidSymbols(Mask(raw)) && StripSeparators(Mask(raw)) == raw
  {
    var cpf := Mask(raw);
    assert |cpf| == MASKED_LENGTH;
    assert forall k :: 0 <= k < CPF_LENGTH ==> cpf[MaskPosition(k)] == raw[k];
    assert cpf[3] == '.' && cpf[7] == '.' && cpf[11] == '-';
    forall i | 0 <= i < MASKED_LENGTH ensures MaskAllows(i, cpf[i]) {
      if i != 3 && i != 7 && i != 11 {
        var k := if i < 3 then i else if i < 7 then i - 1 else if i < 11 then i - 2 else i - 3;
        assert MaskPosition(k) == i;
      }
    }
    MaskedInputNormalisesToDigits(cpf);
  }

  /** Every input that passes `hasValidSymbols` is the punctuated form of its digits. */
  lemma ValidSymbolsAreMasked(cpf: string)
    requires HasValidSymbols(cpf)
    ensures |StripSeparators(cpf)| == CPF_LENGTH && Mask(StripSeparators(cpf)) == cpf
  {
    MaskedInputNormalisesToDigits(cpf);
    var m := Mask(StripSeparators(cpf));
    assert |m| == MASKED_LENGTH;
    forall i | 0 <= i < MASKED_LENGTH ensures m[i] == cpf[i] {
      assert MaskAllows(i, cpf[i]);
      if i != 3 && i != 7 && i != 11 {
        var k := if i < 3 then i else if i < 7 then i - 1 else if i < 11 then i - 2 else i - 3;
        assert MaskPosition(k) == i;
      }
    }
  }

  // ---------------------------------------------------------------------------
  // Worked cases
  // ---------------------------------------------------------------------------

  /** Both weighted sums written out term by term. */
  lemma WeightedSumsExpanded(d: seq<int>)
    requires |d| == CPF_LENGTH
    ensures WeightedSum(d, 9, 10)
         == 10 * d[0] + 9 * d[1] + 8 * d[2] + 7 * d[3] + 6 * d[4] + 5 * d[5] + 4 * d[6] + 3 * d[7] + 2 * d[8]
    ensures WeightedSum(d, 10, 11)
         == 11 * d[0] + 10 * d[1] + 9 * d[2] + 8 * d[3] + 7 * d[4] + 6 * d[5] + 5 * d[6] + 4 * d[7]
            + 3 * d[8] + 2 * d[9]
  {
    assert WeightedSum(d, 1, 10) == 10 * d[0];
    assert WeightedSum(d, 2, 10) == 10 * d[0] + 9 * d[1];
    assert WeightedSum(d, 3, 10) == 10 * d[0] + 9 * d[1] + 8 * d[2];
    assert WeightedSum(d, 4, 10) == 10 * d[0] + 9 * d[1] + 8 * d[2] + 7 * d[3];
    assert WeightedSum(d, 5, 10) == 10 * d[0] + 9 * d[1] + 8 * d[2] + 7 * d[3] + 6 * d[4];
    assert WeightedSum(d, 6, 10) == 10 * d[0] + 9 * d[1] + 8 * d[2] + 7 * d[3] + 6 * d[4] + 5 * d[5];
    assert WeightedSum(d, 7, 10) == 10 * d[0] + 9 * d[1] + 8 * d[2] + 7 * d[3] + 6 * d[4] + 5 * d[5] + 4 * d[6];
    assert WeightedSum(d, 8, 10)
        == 10 * d[0] + 9 * d[1] + 8 * d[2] + 7 * d[3] + 6 * d[4] + 5 * d[5] + 4 * d[6] + 3 * d[7];
    assert WeightedSum(d, 1, 11) == 11 * d[0];
    assert WeightedSum(d, 2, 11) == 11 * d[0] + 10 * d[1];
    assert WeightedSum(d, 3, 11) == 11 * d[0] + 10 * d[1] + 9 * d[2];
    assert WeightedSum(d, 4, 11) == 11 * d[0] + 10 * d[1] + 9 * d[2] + 8 * d[3];
    assert WeightedSum(d, 5, 11) == 11 * d[0] + 10 * d[1] + 9 * d[2] + 8 * d[3] + 7 * d[4];
    assert WeightedSum(d, 6, 11) == 11 * d[0] + 10 * d[1] + 9 * d[2] + 8 * d[3] + 7 * d[4] + 6 * d[5];
    assert WeightedSum(d, 7, 11)
        == 11 * d[0] + 10 * d[1] + 9 * d[2] + 8 * d[3] + 7 * d[4] + 6 * d[5] + 5 * d[6];
    assert WeightedSum(d, 8, 11)
        == 11 * d[0] + 10 * d[1] + 9 * d[2] + 8 * d[3] + 7 * d[4] + 6 * d[5] + 5 * d[6] + 4 * d[7];
    assert WeightedSum(d, 9, 11)
        == 11 * d[0] + 10 * d[1] + 9 * d[2] + 8 * d[3] + 7 * d[4] + 6 * d[5] + 5 * d[6] + 4 * d[7] + 3 * d[8];
  }

  /** `164.934.070-28` satisfies the rule: its check digits are 2 and 8. */
  lemma AcceptedExample()
    ensures CpfRules("164.934.070-28")
  {
    var cpf := "164.934.070-28";
    assert HasValidSymbols(cpf);
    var d := MaskedDigits(cpf);
    assert d[0] == 1 && d[1] == 6 && d[2] == 4 && d[3] == 9 && d[4] == 3 && d[5] == 4;
    assert d[6] == 0 && d[7] == 7 && d[8] == 0 && d[9] == 2 && d[10] == 8;
    WeightedSumsExpanded(d);
    assert WeightedSum(d, 9, 10) == 218 && WeightedSum(d, 10, 11) == 256;
  }

  /**
   * `123.456.789-01` is rejected on the second check digit: the first sum is
   * 210 (check digit 0, as stored), the second 255, whose check digit 9
   * differs from the stored 1.
   */
  lemma RejectedOnSecondDigit()
    ensures HasValidSymbols("123.456.789-01")
    ensures CalculateRemainValueSum(WeightedSum(MaskedDigits("123.456.789-01"), 9, 10)) == 0
         == MaskedDigits("123.456.789-01")[9]
    ensures CalculateRemainValueSum(WeightedSum(MaskedDigits("123.456.789-01"), 10, 11)) == 9
         != MaskedDigits("123.456.789-01")[10]
    ensures !CpfRules("123.456.789-01")
  {
    var cpf := "123.456.789-01";
    assert HasValidSymbols(cpf);
    var d := MaskedDigits(cpf);
    assert d[0] == 1 && d[1] == 2 && d[2] == 3 && d[3] == 4 && d[4] == 5 && d[5] == 6;
    assert d[6] == 7 && d[7] == 8 && d[8] == 9 && d[9] == 0 && d[10] == 1;
    WeightedSumsExpanded(d);
    assert WeightedSum(d, 9, 10) == 210 && WeightedSum(d, 10, 11) == 255;
  }

  /**
   * Anything not punctuated exactly as `DDD.DDD.DDD-DD` is rejected: too few
   * digits, the separators swapped, and the bare digits of a valid CPF.
   */
  lemma RejectedShapes()
    ensures !CpfRules("164.934.070")
    ensures !CpfRules("164.934-070.28")
    ensures !CpfRules("16493407028") && StripSeparators("164.934.070-28") == "16493407028"
  {
    assert !MaskAllows(7, "164.934-070.28"[7]);
    MaskRoundTrip("16493407028");
    assert Mask("16493407028") == "164.934.070-28";
  }

  /** The CPF whose eleven digits all equal `c`, punctuated. */
  function Repdigit(c: char): (cpf: string) {
    [c, c, c, '.', c, c, c, '.', c, c, c, '-', c, c]
  }

  lemma RepdigitCheckDigits(v: int)
    requires 0 <= v <= 9
    ensures CalculateRemainValueSum(54 * v) == v && CalculateRemainValueSum(65 * v) == v
  {
    if v == 0 {} else if v == 1 {} else if v == 2 {} else if v == 3 {} else if v == 4 {}
    else if v == 5 {} else if v == 6 {} else if v == 7 {} else if v == 8 {} else {}
  }

  /**
   * A repdigit such as `111.111.111-11` has the right shape and correct check
   * digits, and `isSpecialCase` alone is what rejects it.
   */
  lemma RepdigitsPassChecksumButAreRejected(c: char)
    requires IsAsciiDigit(c)
    ensures HasValidSymbols(Repdigit(c))
    ensures CheckDigitsHold(MaskedDigits(Repdigit(c)))
    ensures IsSpecialCase(StripSeparators(Repdigit(c)))
    ensures !CpfRules(Repdigit(c))
  {
    var cpf := Repdigit(c);
    assert HasValidSymbols(cpf);
    var d := MaskedDigits(cpf);
    var v := GetNumericValue(c);
    assert forall k :: 0 <= k < CPF_LENGTH ==> d[k] == v;
    WeightedSumsExpanded(d);
    assert WeightedSum(d, 9, 10) == 54 * v && WeightedSum(d, 10, 11) == 65 * v;
    RepdigitCheckDigits(v);
    StagesMatchRules(cpf);
  }

  // ---------------------------------------------------------------------------
  // The validator object
  // ---------------------------------------------------------------------------

  class CpfValidation {
    /** The input exactly as given. */
    const cpf: string
    /** The input without `.` and `-`; set by `cleanCpfLeftOvers` in `init`. */
    var rawCpf: string

    /** The object invariant established by `init`. */
    ghost predicate Valid()
      reads this
    {
      rawCpf == StripSeparators(cpf)
    }

    /** The constructor stores the input and runs `cleanCpfLeftOvers`. */
    constructor (cpf: string)
      ensures this.cpf == cpf
      ensures Valid()
    {
      this.cpf := cpf;
      new;
      CleanCpfLeftOvers();
    }

    /** `cleanCpfLeftOvers`: two `replace` passes, first `.`, then `-`. */
    method CleanCpfLeftOvers()
      modifies this`rawCpf
      ensures rawCpf == RemoveAll(RemoveAll(cpf, '.'), '-')
      ensures Valid()
    {
      rawCpf := RemoveAll(cpf, '.');
      rawCpf := RemoveAll(rawCpf, '-');
      TwoPassesStripSeparators(cpf);
    }

    /**
     * `isValid`. The order of the conjuncts is the original's; the verifier
     * checks that once `HasValidSymbols` has held, every character
     * `numbersAreValid` and its helpers read is an ASCII digit, so
     * `getNumericValue` never throws.
     */
    function IsValid(): (r: bool)
      reads this
      requires Valid()
      ensures r <==> CpfRules(cpf)
    {
      StagesMatchRules(cpf);
      HasAllDigits(rawCpf) && HasValidSymbols(cpf) && !IsSpecialCase(rawCpf) &&
      NumbersAreValid(rawCpf, false, 2, 0, Reverse(rawCpf))
    }
  }

  /**
   * The verdicts of the inputs the unit tests construct. The bare
   * `16493407028`, which the class comment and the tests describe as
   * accepted, is rejected by the code.
   */
  lemma TestInputVerdicts(v: CpfValidation)
    requires v.Valid()
    ensures v.cpf == "164.934.070-28" ==> v.IsValid()
    ensures v.cpf == "16493407028" ==> !v.IsValid()
    ensures v.cpf == "123.456.789-01" ==> !v.IsValid()
    ensures v.cpf == "12345678901" ==> !v.IsValid()
    ensures v.cpf == "111.111.111-11" ==> !v.IsValid()
    ensures v.cpf == "164.934.070" ==> !v.IsValid()
    ensures v.cpf == "164.934-070.28" ==> !v.IsValid()
  {
    AcceptedExample();
    RejectedOnSecondDigit();
    RejectedShapes();
    RepdigitsPassChecksumButAreRejected('1');
    assert Repdigit('1') == "111.111.111-11";
  }
}
