/**
 * The character classes of the JVM's default (non-UNICODE_CHARACTER_CLASS)
 * regular expressions that the validators and the interceptor use. All of
 * them are defined over ASCII: `\d` is `[0-9]`, `[A-Z]` is the 26 ASCII
 * capitals, `\w` is `[a-zA-Z_0-9]` and `\W` is the complement of that ASCII
 * word class, so it accepts every other character.
 */
module RegexClasses {

  /** `\d` */
  predicate IsAsciiDigit(c: char) {
    '0' <= c <= '9'
  }

  /** `[A-Z]` */
  predicate IsAsciiUpper(c: char) {
    'A' <= c <= 'Z'
  }

  /** `\w` */
  predicate IsWordChar(c: char) {
    'a' <= c <= 'z' || IsAsciiUpper(c) || c == '_' || IsAsciiDigit(c)
  }

  /** `\W` */
  predicate IsNonWordChar(c: char) {
    !IsWordChar(c)
  }

  /** Every character of `s` is matched by `\d`. */
  predicate AllAsciiDigits(s: string) {
    forall i :: 0 <= i < |s| ==> IsAsciiDigit(s[i])
  }
}
