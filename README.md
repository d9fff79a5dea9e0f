# CPF, password and response-key validation

A Dafny model of the input-validation core of an Android banking client and
of the one piece of its web-service layer that rewrites server responses:

* **`CpfValidation`** decides whether a Brazilian taxpayer number (CPF) is
  acceptable. On construction it stores the input (`cpf`) and its normalised
  form (`rawCpf`, the input with every `.` and then every `-` deleted).
  `isValid` runs four stages joined by a short-circuiting `&&`:
  1. the normalised form has eleven characters (`hasAllDigits`);
  2. the raw input matches `DDD.DDD.DDD-DD` exactly (`hasValidSymbols`);
  3. the digits are not all equal (`isSpecialCase`);
  4. both mod-11 check digits agree with the recursive weighted sum over the
     reversed digits (`numbersAreValid`, `calculateRemainValueSum`,
     `getOriginalFirstDigit`, `getOriginalSecondDigit`).

  Only stage 4 depends on an earlier one: it reads every normalised
  character as a digit, which is safe only once `hasValidSymbols` has held.
  Stage 1 is implied by stage 2 (`Cpf.MaskedInputNormalisesToDigits`), so it
  never decides a verdict by itself. Stage 3 matches the whole normalised
  string and needs nothing before it.
* **`PasswordValidation`** accepts a password that contains a digit (`\d`),
  a non-word character (`\W`) and an upper-case letter (`[A-Z]`).
* **`ChangeObjectNameInterceptor.getBodyWithModifiedKeyName`** replaces the
  first run of word characters of a response body by `KEY_NAME` (`"data"`).
  This turns `{"userAccount": …}` and `{"statementList": …}` into the
  `{"data": …}` the client expects. A missing body becomes the text `"null"`.

Files and modules:

* `regex_classes.dfy` (`RegexClasses`) holds the JVM regex classes the code
  uses: `\d`, `[A-Z]`, `\w` and `\W`. With the default flags of the desktop
  JVM's `java.util.regex`, all of them are defined over ASCII: `\d`, `[A-Z]`
  and `\w` accept only ASCII characters, and `\W` is the complement of the
  ASCII word class.
* `cpf_validation.dfy` (`Cpf`) models the CPF validator:
  * the class `CpfValidation` has a `const cpf`, a `var rawCpf`, a
    constructor, the state-changing `CleanCpfLeftOvers` and the query
    `IsValid`;
  * the private helpers are module functions of the field they read. The
    fields never change after construction.
  * the reference rule `CpfRules` is stated directly on the punctuated
    input, together with the lemmas that `IsValid` decides it.
* `password_validation.dfy` (`Password`) models the password policy as pure
  functions of the password.
* `change_object_name_interceptor.dfy` (`Interceptor`) models the body
  rewrite with an explicit leftmost-longest regex match. It proves that the
  rewrite is idempotent and that it changes only the first key.

The code and its documentation disagree in two places. The model follows the
code in both:

* **Bare eleven-digit CPFs.** The class comment and the test
  `isValidatingAnyCpf` say `16493407028` (no punctuation) is accepted.
  `hasValidSymbols` matches the *raw* input against the punctuated pattern,
  so the code rejects it. `Cpf.RejectedShapes` and `Cpf.TestInputVerdicts`
  state this.
* **The worked example in the comment of `numbersAreValid`.** That comment
  compares the computed second check digit 9 with a stored "2". The example
  input `123.456.789-01` stores 1. Either way the input is rejected, as
  `Cpf.RejectedOnSecondDigit` states.

## Model

| member | source | states |
|---|---|---|
| `Cpf.GetNumericValue` | AndroidApp/validator/src/main/java/com/nschirmer/validator/CpfValidation.kt:16-19 | for a digit character, the value 0..9 whose digit character is that character; the throwing non-digit case is excluded by the precondition |
| `Cpf.RemoveAll` | AndroidApp/validator/src/main/java/com/nschirmer/validator/CpfValidation.kt:28-29 | `replace(Regex("[c]"), "")` leaves no `c`, and every other character occurs exactly as often as before |
| `Cpf.StripSeparatorsDeletesExactlySeparators` | AndroidApp/validator/src/main/java/com/nschirmer/validator/CpfValidation.kt:26-30 | the normal form holds no `.` or `-`, and every other character occurs as often as in the input |
| `Cpf.StripSeparatorsConcat` | AndroidApp/validator/src/main/java/com/nschirmer/validator/CpfValidation.kt:26-30 | normalisation commutes with concatenation, so the kept characters stay in their order |
| `Cpf.TwoPassesStripSeparators` | AndroidApp/validator/src/main/java/com/nschirmer/validator/CpfValidation.kt:27-30 | deleting `.` and then `-` in two passes gives exactly the single-pass normal form |
| `Cpf.StripSeparators` | AndroidApp/validator/src/main/java/com/nschirmer/validator/CpfValidation.kt:26-30 | the reference normal form: the characters that are not `.` or `-`, in order. `Cpf.TwoPassesStripSeparators` ties it to the two passes; `Cpf.StripSeparatorsDeletesExactlySeparators` and `Cpf.StripSeparatorsConcat` characterise it |
| `Cpf.HasAllDigits` | AndroidApp/validator/src/main/java/com/nschirmer/validator/CpfValidation.kt:41-43 | the normalised length is eleven; `Cpf.MaskedInputNormalisesToDigits` shows it follows from `hasValidSymbols` |
| `Cpf.HasValidSymbols` | AndroidApp/validator/src/main/java/com/nschirmer/validator/CpfValidation.kt:47-49 | a whole-input match of the mask with the ASCII `\d`. These inputs are exactly the punctuations of eleven ASCII digits (`Cpf.MaskRoundTrip`, `Cpf.ValidSymbolsAreMasked`) |
| `Cpf.IsSpecialCase` | AndroidApp/validator/src/main/java/com/nschirmer/validator/CpfValidation.kt:55-57 | a non-empty repetition of one ASCII digit. On a punctuated input it holds exactly when all digit values are equal (`Cpf.StagesMatchRules`) |
| `Cpf.WeightedSum` | AndroidApp/validator/src/main/java/com/nschirmer/validator/CpfValidation.kt:69-78 | the forward check-digit sum with weights counting down from `top`, as the comment lays it out; `Cpf.WeightedSumsExpanded` writes both sums out term by term |
| `Cpf.CpfRules` | AndroidApp/validator/src/main/java/com/nschirmer/validator/CpfValidation.kt:3-6 | the rule stated on the raw input: the `DDD.DDD.DDD-DD` shape, not all digits equal, and both check digits correct. `Cpf.CpfValidation.IsValid` decides exactly this rule |
| `Cpf.Reverse` | AndroidApp/validator/src/main/java/com/nschirmer/validator/CpfValidation.kt:36 | `reversed()` keeps the length and puts character `n-1-i` at index `i` |
| `Cpf.CalculateRemainValueSum` | AndroidApp/validator/src/main/java/com/nschirmer/validator/CpfValidation.kt:148-154 | the result is a digit; for a non-negative sum it is 0 exactly when `sum mod 11 < 2`, and otherwise the digit that makes `sum + r` a multiple of 11; a negative sum (truncating `%`) gives 0 |
| `Cpf.GetOriginalFirstDigit` | AndroidApp/validator/src/main/java/com/nschirmer/validator/CpfValidation.kt:158-160 | the value of the second-to-last normalised character |
| `Cpf.GetOriginalSecondDigit` | AndroidApp/validator/src/main/java/com/nschirmer/validator/CpfValidation.kt:164-166 | the value of the last normalised character |
| `Cpf.NumbersAreValid` | AndroidApp/validator/src/main/java/com/nschirmer/validator/CpfValidation.kt:128-145 | an index outside 0..11 gives false; in the second pass the result is "the check digit of `sum` plus the remaining terms weighted `i + 1` equals the last digit"; in the first pass it is "the first check digit matches and then the full second pass matches" |
| `Cpf.ReversedWalkIsIndexedSum` | AndroidApp/validator/src/main/java/com/nschirmer/validator/CpfValidation.kt:139-142 | walking the reversed digits from `index` with weight `i + offset` gives the forward sum over the first `11 - index` digits with weights counting down from `10 + offset` |
| `Cpf.FirstPassSum` | AndroidApp/validator/src/main/java/com/nschirmer/validator/CpfValidation.kt:66-78 | the first pass from index 2 is the sum of digits 1..9 weighted 10 down to 2 |
| `Cpf.SecondPassSum` | AndroidApp/validator/src/main/java/com/nschirmer/validator/CpfValidation.kt:93-106 | the second pass from index 1 is the sum of digits 1..10 weighted 11 down to 2 |
| `Cpf.NumbersAreValidChecksDigits` | AndroidApp/validator/src/main/java/com/nschirmer/validator/CpfValidation.kt:36 | started as `isValid` starts it, `numbersAreValid` holds exactly when both check-digit equations hold |
| `Cpf.MaskedInputNormalisesToDigits` | AndroidApp/validator/src/main/java/com/nschirmer/validator/CpfValidation.kt:41-49 | an input that passes `hasValidSymbols` normalises to its eleven ASCII digits in order, so `hasAllDigits` holds too |
| `Cpf.StagesMatchRules` | AndroidApp/validator/src/main/java/com/nschirmer/validator/CpfValidation.kt:55-57 | for a punctuated input, `isSpecialCase` holds exactly when all eleven digits are equal, and `numbersAreValid` holds exactly when both check digits are right |
| `Cpf.MaskRoundTrip` | AndroidApp/validator/src/main/java/com/nschirmer/validator/CpfValidation.kt:47-49 | punctuating any eleven digits gives an input that passes `hasValidSymbols` and normalises back to those digits |
| `Cpf.ValidSymbolsAreMasked` | AndroidApp/validator/src/main/java/com/nschirmer/validator/CpfValidation.kt:46-49 | every input that passes `hasValidSymbols` is the punctuation of its normal form |
| `Cpf.AcceptedExample` | AndroidApp/validator/src/test/java/com/nschirmer/validator/CpfValidationTest.kt:11 | `164.934.070-28` satisfies the rule |
| `Cpf.RejectedOnSecondDigit` | AndroidApp/validator/src/main/java/com/nschirmer/validator/CpfValidation.kt:71-117 | for `123.456.789-01`, the sums are 210 and 255 and the check digits 0 and 9; the stored 1 fails the second one |
| `Cpf.RejectedShapes` | AndroidApp/validator/src/test/java/com/nschirmer/validator/CpfValidationTest.kt:34-56 | a short input, swapped separators and the bare digits of a valid CPF all break the rule |
| `Cpf.RepdigitsPassChecksumButAreRejected` | AndroidApp/validator/src/main/java/com/nschirmer/validator/CpfValidation.kt:52-57 | every repdigit such as `111.111.111-11` has the right shape and right check digits; `isSpecialCase` alone rejects it |
| `Cpf.CpfValidation.constructor` | AndroidApp/validator/src/main/java/com/nschirmer/validator/CpfValidation.kt:22-23 | the object keeps the input and holds its normal form in `rawCpf` |
| `Cpf.CpfValidation.CleanCpfLeftOvers` | AndroidApp/validator/src/main/java/com/nschirmer/validator/CpfValidation.kt:27-30 | `rawCpf` becomes the input without `.` and then without `-`; nothing else changes; the object invariant holds afterwards |
| `Cpf.CpfValidation.IsValid` | AndroidApp/validator/src/main/java/com/nschirmer/validator/CpfValidation.kt:34-37 | the four stages in their order accept exactly the inputs that follow the CPF rule, and `getNumericValue` never throws on the way |
| `Cpf.TestInputVerdicts` | AndroidApp/validator/src/test/java/com/nschirmer/validator/CpfValidationTest.kt:9-56 | the verdict for every input the unit tests build; only `164.934.070-28` is accepted |
| `Password.Contains` | AndroidApp/validator/src/main/java/com/nschirmer/validator/PasswordValidation.kt:14 | `contains` of a one-character class holds exactly when some character matches the class |
| `Password.HasAtLeastOneNumber` | AndroidApp/validator/src/main/java/com/nschirmer/validator/PasswordValidation.kt:13-15 | true exactly when some character is an ASCII digit |
| `Password.HasAtLeastOneUpperCase` | AndroidApp/validator/src/main/java/com/nschirmer/validator/PasswordValidation.kt:19-21 | true exactly when some character is an ASCII capital |
| `Password.HasAtLeastOneSpecialCase` | AndroidApp/validator/src/main/java/com/nschirmer/validator/PasswordValidation.kt:27-29 | true exactly when some character is outside `[A-Za-z0-9_]` |
| `Password.IsValid` | AndroidApp/validator/src/main/java/com/nschirmer/validator/PasswordValidation.kt:7-9 | accepted exactly when the password has a digit, a non-word character and an upper-case letter |
| `Password.ContainsExtends` | AndroidApp/validator/src/main/java/com/nschirmer/validator/PasswordValidation.kt:12-29 | a class found in `p` is still found in `p + q` and in `q + p` |
| `Password.ValidStaysValidWhenExtended` | AndroidApp/validator/src/main/java/com/nschirmer/validator/PasswordValidation.kt:7-9 | adding characters before or after an accepted password keeps it accepted |
| `Password.AcceptedTestCase` | AndroidApp/validator/src/test/java/com/nschirmer/validator/PasswordValidationTest.kt:13 | `aB1$` is accepted |
| `Password.RejectedWithoutUpperCase` | AndroidApp/validator/src/test/java/com/nschirmer/validator/PasswordValidationTest.kt:16 | `ab1$` is rejected, and it has no upper-case letter |
| `Password.RejectedWithoutSpecialCase` | AndroidApp/validator/src/test/java/com/nschirmer/validator/PasswordValidationTest.kt:26 | `aB1s` is rejected, and it has no special character |
| `Password.RejectedWithoutNumber` | AndroidApp/validator/src/test/java/com/nschirmer/validator/PasswordValidationTest.kt:36 | `aBi$` is rejected, and it has no digit |
| `Password.AsciiOnlyClasses` | AndroidApp/validator/src/main/java/com/nschirmer/validator/PasswordValidation.kt:24-29 | `_` is not special, so `A1_` is rejected; a non-ASCII letter such as `É` counts as special and not as upper case |
| `Interceptor.KeyNameIsAWordRun` | AndroidApp/webservice/src/main/java/com/nschirmer/webservice/requestapi/retrofit/ChangeObjectNameInterceptor.kt:50-52 | `KEY_NAME` is `"data"`: non-empty and made only of word characters, so it is one whole match of `[\w]+` |
| `Interceptor.IsFirstWordRun` | AndroidApp/webservice/src/main/java/com/nschirmer/webservice/requestapi/retrofit/ChangeObjectNameInterceptor.kt:85 | the leftmost-longest match of `[\w]+` as a split into a non-word prefix, a non-empty word run and a rest that does not continue the run. A body with a word character has such a split (`Interceptor.FirstWordRunExists`), and any such split is the one the regex engine finds (`Interceptor.FirstWordRunIsUnique`) |
| `Interceptor.FirstWordIndex` | AndroidApp/webservice/src/main/java/com/nschirmer/webservice/requestapi/retrofit/ChangeObjectNameInterceptor.kt:85 | the position where the first match of `[\w]+` starts: every earlier character is a non-word character, and the character there is a word character (or the body has none) |
| `Interceptor.WordRunEnd` | AndroidApp/webservice/src/main/java/com/nschirmer/webservice/requestapi/retrofit/ChangeObjectNameInterceptor.kt:85 | the greedy `+` stops at the first non-word character after the start, or at the end |
| `Interceptor.FirstWordRunIsUnique` | AndroidApp/webservice/src/main/java/com/nschirmer/webservice/requestapi/retrofit/ChangeObjectNameInterceptor.kt:85-86 | any split into non-word prefix, maximal word run and rest is the match the regex engine finds |
| `Interceptor.FirstWordRunExists` | AndroidApp/webservice/src/main/java/com/nschirmer/webservice/requestapi/retrofit/ChangeObjectNameInterceptor.kt:85-86 | a body with a word character splits into prefix, first run and rest |
| `Interceptor.ReplaceFirstWordRun` | AndroidApp/webservice/src/main/java/com/nschirmer/webservice/requestapi/retrofit/ChangeObjectNameInterceptor.kt:86 | a body without word characters is unchanged; otherwise the first maximal run becomes `KEY_NAME` and the text before and after it is kept |
| `Interceptor.GetBodyWithModifiedKeyName` | AndroidApp/webservice/src/main/java/com/nschirmer/webservice/requestapi/retrofit/ChangeObjectNameInterceptor.kt:84-87 | a missing body gives `"null"`; a present body is rewritten as above |
| `Interceptor.ReplaceFirstWordRunIsIdempotent` | AndroidApp/webservice/src/main/java/com/nschirmer/webservice/requestapi/retrofit/ChangeObjectNameInterceptor.kt:73 | rewriting a rewritten body changes nothing, since its first key already is `data` |
| `Interceptor.GetBodyWithModifiedKeyNameIsIdempotent` | AndroidApp/webservice/src/main/java/com/nschirmer/webservice/requestapi/retrofit/ChangeObjectNameInterceptor.kt:84-87 | the same for the whole rewrite of a present body; a missing body is not covered (`Interceptor.MissingBodyIsNotStable`) |
| `Interceptor.MissingBodyIsNotStable` | AndroidApp/webservice/src/main/java/com/nschirmer/webservice/requestapi/retrofit/ChangeObjectNameInterceptor.kt:86 | a missing body becomes `"null"`, and `"null"` fed back as a present body becomes `"data"`, so idempotence does not extend to a missing body |
| `Interceptor.UnchangedIffNoKeyOrAlreadyData` | AndroidApp/webservice/src/main/java/com/nschirmer/webservice/requestapi/retrofit/ChangeObjectNameInterceptor.kt:73-74 | a body comes back unchanged exactly when it has no word character or its first key already is `data` |
| `Interceptor.RootKeyIsRenamed` | AndroidApp/webservice/src/main/java/com/nschirmer/webservice/requestapi/retrofit/ChangeObjectNameInterceptor.kt:68-74 | for `{"key…`, whatever `key` is and whatever follows it, only the key becomes `data` |
| `Interceptor.UserAccountResponse` | AndroidApp/webservice/src/main/java/com/nschirmer/webservice/requestapi/retrofit/ChangeObjectNameInterceptor.kt:15-35 | `{"userAccount":v}` becomes `{"data":v}` for every `v` |
| `Interceptor.StatementListResponse` | AndroidApp/webservice/src/main/java/com/nschirmer/webservice/requestapi/retrofit/ChangeObjectNameInterceptor.kt:21-35 | `{"statementList":v}` becomes `{"data":v}` for every `v` |

## Left out

- `EmailValidation`: its pattern is not part of this model.
- `ChangeObjectNameInterceptor.intercept`: the OkHttp chain, `proceed`, the content type and rebuilding the response are I/O and library calls. They are not modelled.
- `ResponseBody.string()` is not modelled. It reads the network buffer and can be consumed only once. The model receives its result as an `Option<string>`, where `None` is a missing body.
- The rest of the repository is not modelled: UI activities, widgets, the network checker, Retrofit services and response objects.
- `Cpf.GetNumericValue`: the `NumberFormatException` path is a precondition, not a value. `IsValid` proves that the precondition always holds when the original calls it.
- `Cpf.GetNumericValue`: only ASCII digits are admitted. Kotlin's `isDigit` also accepts other Unicode digits. Under the desktop JVM's classes no such character reaches it, because every character it sees has passed the ASCII-only `\d`.
- The regex classes are those of the desktop JVM's `java.util.regex`, the engine the unit tests run on. They are defined over ASCII. On an Android device the same API is backed by ICU. There `\d` means any Unicode decimal digit and `\w` includes non-ASCII letters and digits. The model's verdicts on non-ASCII input therefore do not carry over to the device:
  - `hasValidSymbols` would accept, say, Arabic-Indic digits in the mask. `getNumericValue` would then let them through with values far above 9.
  - `É` would be a word character, so `É1A` would have no special character. `Password.AsciiOnlyClasses` states the opposite, which holds only for the desktop classes.
  - `[\w]+` would also rename keys spelled with non-ASCII letters.
- Kotlin `Int` is 32-bit; the model uses unbounded integers. No wrap-around is modelled: the largest weighted sum is 9 · (11 + 10 + … + 2) = 585.
- Strings are modelled as sequences of Unicode scalar values, not UTF-16 code units. `\d`, `[A-Z]` and `\w` accept only ASCII. `\W` accepts every other character, including those outside the Basic Multilingual Plane. But `java.util.regex` classifies code points, not UTF-16 code units, so a supplementary character is one character both to the regex and to the model.
- `Cpf.HasAllDigits` counts scalar values; `rawCpf.length` in the original counts UTF-16 code units. The two differ on input with characters outside the Basic Multilingual Plane. For `1234567890😀` Kotlin's length is 12 and the model's is 11, so `hasAllDigits` is false in Kotlin and true in the model. This never changes the verdict of `IsValid`: `hasValidSymbols` demands fourteen ASCII characters, and for such input the two counts agree.
- The private helpers of `CpfValidation` read the fields `cpf` and `rawCpf`. They are modelled as module functions taking the field value. The fields never change after construction, so this loses nothing. `cpf` is declared `var` in the original but never reassigned; here it is a `const`.
- `PasswordValidation` only holds an immutable field, so it is modelled as functions of the password, not as a class.
