/**
 * The password policy: a password is accepted when it contains at least one
 * digit, one "special" character and one upper-case letter. Each check is a
 * `contains` of a one-character JVM regular expression (`\d`, `\W`, `[A-Z]`),
 * so all three classes are ASCII-only.
 */
module Password {
  import opened RegexClasses

  /** The three one-character regular expressions the policy searches for. */
  datatype CharClass = Digit | NonWord | Upper

  /** Whether `cls` matches the single character `c`. */
  predicate Matches(cls: CharClass, c: char) {
    match cls
    case Digit => IsAsciiDigit(c)
    case NonWord => IsNonWordChar(c)
    case Upper => IsAsciiUpper(c)
  }

  /**
   * `s.contains(Regex(cls))`: since every class matches exactly one
   * character, the regex occurs in `s` iff some character of `s` matches.
   */
  function Contains(s: string, cls: CharClass): (r: bool)
    ensures r <==> exists i :: 0 <= i < |s| && Matches(cls, s[i])
  {
    if s == [] then false
    else if Matches(cls, s[0]) then true
    else
      var rest := Contains(s[1..], cls);
      assert forall i :: 0 < i < |s| ==> s[i] == s[1..][i - 1];
      rest
  }

  /** `hasAtLeastOneNumber`: `password.contains(Regex("\\d"))`. */
  function HasAtLeastOneNumber(password: string): (r: bool)
    ensures r <==> exists i :: 0 <= i < |password| && IsAsciiDigit(password[i])
  {
    Contains(password, Digit)
  }

  /** `hasAtLeastOneSpecialCase`: `password.contains(Regex("\\W"))`. */
  function HasAtLeastOneSpecialCase(password: string): (r: bool)
    ensures r <==> exists i :: 0 <= i < |password| && !IsWordChar(password[i])
  {
    Contains(password, NonWord)
  }

  /** `hasAtLeastOneUpperCase`: `password.contains(Regex("[A-Z]"))`. */
  function HasAtLeastOneUpperCase(password: string): (r: bool)
    ensures r <==> exists i :: 0 <= i < |password| && IsAsciiUpper(password[i])
  {
    Contains(password, Upper)
  }

  /**
   * `isValid`: the three checks in the original's order. The result is true
   * iff the password has an ASCII digit, a character outside `[A-Za-z0-9_]`
   * and an ASCII capital.
   */
  function IsValid(password: string): (r: bool)
    ensures r <==>
      (exists i :: 0 <= i < |password| && IsAsciiDigit(password[i])) &&
      (exists i :: 0 <= i < |password| && !IsWordChar(password[i])) &&
      (exists i :: 0 <= i < |password| && IsAsciiUpper(password[i]))
  {
    HasAtLeastOneNumber(password) && HasAtLeastOneSpecialCase(password) && HasAtLeastOneUpperCase(password)
  }

  /** Every check is a "contains", so what `p` contains, `p + q` and `q + p` contain too. */
  lemma {:induction false} ContainsExtends(p: string, q: string, cls: CharClass)
    requires Contains(p, cls)
    ensures Contains(p + q, cls) && Contains(q + p, cls)
  {
    var i :| 0 <= i < |p| && Matches(cls, p[i]);
    assert (p + q)[i] == p[i];
    assert (q + p)[|q| + i] == p[i];
  }

  /** Adding characters before or after a valid password keeps it valid. */
  lemma ValidStaysValidWhenExtended(p: string, q: string)
    requires IsValid(p)
    ensures IsValid(p + q) && IsValid(q + p)
  {
    ContainsExtends(p, q, Digit);
    ContainsExtends(p, q, NonWord);
    ContainsExtends(p, q, Upper);
  }

  /** The accepted password of the unit tests. */
  lemma AcceptedTestCase()
    ensures IsValid("aB1$")
  {
    assert IsAsciiDigit("aB1$"[2]) && !IsWordChar("aB1$"[3]) && IsAsciiUpper("aB1$"[1]);
  }

  /** The rejected passwords of the unit tests; each lacks exactly the class its test names. */
  lemma RejectedWithoutUpperCase()
    ensures !IsValid("ab1$") && !HasAtLeastOneUpperCase("ab1$")
  {
    assert IsAsciiDigit("ab1$"[2]) && !IsWordChar("ab1$"[3]);
  }

  lemma RejectedWithoutSpecialCase()
    ensures !IsValid("aB1s") && !HasAtLeastOneSpecialCase("aB1s")
  {
    assert IsAsciiDigit("aB1s"[2]) && IsAsciiUpper("aB1s"[1]);
  }

  lemma RejectedWithoutNumber()
    ensures !IsValid("aBi$") && !HasAtLeastOneNumber("aBi$")
  {
    assert !IsWordChar("aBi$"[3]) && IsAsciiUpper("aBi$"[1]);
  }

  /**
   * The classes are ASCII-only: `_` is a word character, so not special;
   * a non-ASCII letter such as `É` is special and not upper case.
   */
  lemma AsciiOnlyClasses()
    ensures !IsValid("A1_") && !HasAtLeastOneSpecialCase("_")
    ensures IsValid("É1A") && HasAtLeastOneSpecialCase("É") && !HasAtLeastOneUpperCase("É")
  {
    assert IsAsciiDigit("É1A"[1]) && !IsWordChar("É1A"[0]) && IsAsciiUpper("É1A"[2]);
  }
}
