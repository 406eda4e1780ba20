# Registration schema of the react-hook-forms example

This project models `userSchema`, the zod schema that validates the
registration form of the `react-hook-forms` example application, and proves
what it accepts and which message it shows for each field.

The schema has six fields: `firstName`, `lastName`, `age`, `email`,
`password` and `confirmPassword`. Every field except `lastName` is a string
chain. The chain first trims the value, then applies its rules in
declaration order. Each rule has its own Spanish message. The form shows one
message per field, and that message is the message of the field's first
failing rule.

The model is organised as follows:

- `Text` (text.dfy) models JavaScript's `trim`. Its whitespace set is written
  out: the ECMAScript WhiteSpace and LineTerminator code points. `Trim` is
  characterised as the one string left once the whitespace at both ends is
  cut off. The module also gives the length JavaScript reports (UTF-16 code
  units) and the character classes the password rules test for.
- `Numbers` (numbers.dfy) models `parseFloat`. It skips leading whitespace
  and reads an optional sign. It then reads `Infinity` or the longest decimal
  literal: digits, an optional point and fraction, an optional exponent. The
  rest of the string is ignored, so `"17abc"` reads as 17.
- `Rules` (rules.dfy) defines a rule as a check paired with a message.
  `FirstFailure` evaluates a chain short-circuit. `Issues` lists every
  failing rule's message in order, which is what zod collects. A lemma shows
  that the message the form shows (the first issue) is the short-circuit
  result.
- `UserSchema` (user_schema.dfy) holds the six chains with their exact
  messages and one validator per field. It also gives the whole-record
  `Validate`, and `SafeParse`, which returns the trimmed record or the
  per-field report.
- `SchemaCases` (cases.dfy) states the schema's result for concrete values.
  Among them: ages `"17"`, `"abc"`, `"18"` and `"17abc"`; passwords `"abc"`,
  `"abcdefgh"`, `"ABCDEFG1!"`, `"Abcdefg1"`, `"Abcdefg1-_"`, `"Abcdefg1!"`
  and `"Aa1!😀😀"` (six characters, eight UTF-16 code units); and a record
  whose two passwords differ.

Two quirks of the code are modelled as written:

- The messages for a missing lowercase letter and a missing uppercase letter
  are swapped. A password with no lowercase letter is told to add an
  uppercase one, and the other way round. This holds for both password
  fields.
- No rule compares `confirmPassword` with `password`. The confirmation is
  validated on its own with the password's checks, so two different strong
  passwords are both accepted.

So `"abcdefgh"` is rejected at the uppercase rule (type-userData.ts:34-36),
and that rule's message asks for a lowercase letter ("…letra minúscula").

The e-mail format test is zod's own regular expression, which is not part of
this model. The `.email()` rule carries that test as a parameter of type
`string -> bool`, supplied by the caller of `ValidateEmail`, `Validate` and
`SafeParse`.

## Model

| member | source | states |
|---|---|---|
| Text.Trim | react-hook-forms/src/models/type-userData.ts:6 | the trimmed value is the unique slice of the input whose cut-off ends are all whitespace and whose own ends are not |
| Text.TrimCharacterization | react-hook-forms/src/models/type-userData.ts:6 | a string is the trimming of the input exactly when it equals `Trim` of the input |
| Text.TrimIdempotent | react-hook-forms/src/models/type-userData.ts:6 | trimming an already trimmed value changes nothing |
| Text.TrimAt | react-hook-forms/src/models/type-userData.ts:6 | any cut that removes exactly the whitespace at both ends of a value gives its trimming |
| Text.TrimIgnoresPrefix | react-hook-forms/src/models/type-userData.ts:6 | whitespace added before a value does not change its trimming |
| Text.TrimIgnoresSuffix | react-hook-forms/src/models/type-userData.ts:6 | whitespace added after a value does not change its trimming |
| Text.TrimIgnoresPadding | react-hook-forms/src/models/type-userData.ts:6 | whitespace added before or after a value does not change its trimming |
| Text.TrimEmptyIff | react-hook-forms/src/models/type-userData.ts:6-7 | a value trims to the empty string exactly when it is all whitespace |
| Text.Utf16Length | react-hook-forms/src/models/type-userData.ts:8 | the length `.min`/`.max` compare lies between the number of characters and twice that number |
| Text.Utf16LengthIsCharCount | react-hook-forms/src/models/type-userData.ts:8 | that length equals the number of characters exactly when no character lies above U+FFFF |
| Text.Utf16LengthOfChar | react-hook-forms/src/models/type-userData.ts:8 | one code point is two code units above U+FFFF and one otherwise |
| Text.Utf16LengthAppend | react-hook-forms/src/models/type-userData.ts:8 | the code-unit length of a concatenation is the sum of the lengths, so with the single-character lemma it counts every supplementary character twice |
| Text.Utf16LengthOfBmp | react-hook-forms/src/models/type-userData.ts:29-30 | for characters up to U+FFFF, the length the rules compare is the number of characters |
| Numbers.AtLeast | react-hook-forms/src/models/type-userData.ts:17 | JavaScript's `parseFloat(val) >= 18`: true exactly when the number is not NaN and not less than the bound, with negative infinity below and positive infinity above every value |
| Numbers.ParseFloat | react-hook-forms/src/models/type-userData.ts:14 | `parseFloat` gives not-a-number exactly when the value, after leading whitespace and an optional sign, does not start with a digit, with a point and a digit, or with `Infinity` |
| Numbers.ParseFraction | react-hook-forms/src/models/type-userData.ts:14-17 | a literal with a decimal point is a number unless the point has no digit before or after it |
| Numbers.ParseDigitsPrefix | react-hook-forms/src/models/type-userData.ts:14-17 | digits followed by anything that cannot continue a number parse to the digits' value; the rest is ignored |
| Numbers.ParseDigits | react-hook-forms/src/models/type-userData.ts:17 | a string of digits parses to its decimal value |
| Rules.Holds | react-hook-forms/src/models/type-userData.ts:7-42 | the meaning of each check: `.min`/`.max` compare the UTF-16 code-unit length, the refinements at lines 14 and 17 apply `parseFloat` to the trimmed value, lines 31-40 test a one-class pattern, and `.email()` applies the format test |
| Rules.CheckBounds | react-hook-forms/src/models/type-userData.ts:7-42 | `.min(n)` holds with at least n characters and fails with fewer than n/2; `.max(n)` fails with more than n characters and holds with at most n/2; a character-class match needs a non-empty value; a value that passes `parseFloat(val) >= bound` also passes `!isNaN(parseFloat(val))` |
| Text.Contains | react-hook-forms/src/models/type-userData.ts:31-40 | `/[a-z]/.test(val)` and the other one-class tests: some character of the value is in the class |
| Text.FirstMatch | react-hook-forms/src/models/type-userData.ts:31-40 | the regular-expression search stops at the first character in the class: every earlier character is outside it, or it reaches the end when there is none |
| Text.ContainsIffFirstMatch | react-hook-forms/src/models/type-userData.ts:31-40 | a one-class test is true exactly when the search stops before the end of the value |
| Rules.FirstFailure | react-hook-forms/src/models/type-userData.ts:25-43 | a chain accepts a value exactly when every rule holds; otherwise it reports the message of a rule that fails while every earlier rule holds |
| Rules.FirstFailureAt | react-hook-forms/src/models/type-userData.ts:27-43 | when rule k is the first failing rule, its message is reported, whatever later rules say |
| Rules.Issues | react-hook-forms/src/models/type-userData.ts:25-43 | zod's issue list is empty exactly when every rule holds, and has at most one issue per rule |
| Rules.FirstFailureIsFirstIssue | react-hook-forms/src/components/customInput/customInput.tsx:28 | the message shown under a field, the first issue zod collected for it, is the short-circuit result of its chain |
| Rules.CheckTrimmed | react-hook-forms/src/models/type-userData.ts:4-8 | a trimming chain accepts a raw value exactly when every rule holds of the trimmed value |
| Rules.CheckTrimmedIgnoresPadding | react-hook-forms/src/models/type-userData.ts:6 | surrounding whitespace never changes a trimming chain's result |
| Rules.CheckTrimmedOfTrimmed | react-hook-forms/src/models/type-userData.ts:6 | a value and its trimmed form get the same result from a trimming chain |
| Rules.MirroredChains | react-hook-forms/src/models/type-userData.ts:25-68 | two chains with the same checks in the same order (and distinct messages) accept the same values and fail at the same position |
| Rules.NotFirstMessage | react-hook-forms/src/models/type-userData.ts:27-43 | once the first rule holds, the chain's result is that of the remaining rules and is never the first rule's message |
| UserSchema.FirstNameChain | react-hook-forms/src/models/type-userData.ts:7-8 | on a trimmed value the first-name chain reports "required" for the empty string, "at least 5" below five code units, and accepts otherwise |
| UserSchema.ValidateFirstName | react-hook-forms/src/models/type-userData.ts:4-8 | `firstName` is accepted exactly when its trimmed length is at least 5; blank reports "El nombre es obligatorio", otherwise too short reports the length message |
| UserSchema.AgeChain | react-hook-forms/src/models/type-userData.ts:13-19 | on a trimmed value the age chain asks, in order, non-empty, then a number, then at least 18, each failure with its own message |
| UserSchema.ValidateAge | react-hook-forms/src/models/type-userData.ts:10-19 | `age` is accepted exactly when `parseFloat` of its trimmed value is at least 18; blank reports "obligatoria", a non-number reports "debe ser un número" rather than "mayor de edad", a number under 18 reports "Debes ser mayor de edad" |
| UserSchema.EmailChain | react-hook-forms/src/models/type-userData.ts:23-24 | on a trimmed value the e-mail chain reports "required" for the empty string before it runs the format test |
| UserSchema.ValidateEmail | react-hook-forms/src/models/type-userData.ts:20-24 | `email` is accepted exactly when its trimmed value is non-empty and passes the format test; blank reports "El email es obligatorio" whatever the test says |
| UserSchema.PasswordShapedChain | react-hook-forms/src/models/type-userData.ts:28-43 | any chain with the password checks in the password order reports the message of the first of: empty, under 8, over 32, no a-z, no A-Z, no 0-9, no listed special character |
| UserSchema.PasswordClassesChain | react-hook-forms/src/models/type-userData.ts:31-43 | once the length checks pass, a password-shaped chain reports the first of the four character classes the value lacks, in the order a-z, A-Z, 0-9, special |
| UserSchema.PasswordLateClassesChain | react-hook-forms/src/models/type-userData.ts:37-43 | with both letter classes present, the chain reports a missing digit before a missing special character |
| UserSchema.ValidatePassword | react-hook-forms/src/models/type-userData.ts:25-43 | `password` is accepted exactly when its trimmed value has 8 to 32 code units, a letter a-z, a letter A-Z, a digit and one of the twenty characters `!@#$%^&*(),.?":{}\|<>` |
| UserSchema.ValidateConfirmPassword | react-hook-forms/src/models/type-userData.ts:44-68 | `confirmPassword` is accepted by exactly the same condition as `password`, with its own messages |
| UserSchema.Validate | react-hook-forms/src/models/type-userData.ts:3-69 | a record passes every field exactly when each field meets its condition; `lastName` is always accepted, present or absent |
| UserSchema.SafeParse | react-hook-forms/src/models/type-userData.ts:3-69 | parsing succeeds exactly when the record is acceptable; each string field of the result is then the trimming of the same input field (and so has no whitespace at its ends), the record is still acceptable, and the optional last name is unchanged; a failure carries the per-field report |
| UserSchema.BlankFieldsReportRequired | react-hook-forms/src/models/type-userData.ts:6-47 | a whitespace-only value reports each field's "obligatorio/obligatoria/confirmar" message |
| UserSchema.PaddingIgnored | react-hook-forms/src/models/type-userData.ts:6 | a value with surrounding whitespace gets the same result as the bare value, in every field |
| UserSchema.TrimmedValueSameResult | react-hook-forms/src/models/type-userData.ts:6 | a value and its trimmed form get the same result, in every field |
| UserSchema.EmptyPasswordReportsRequired | react-hook-forms/src/models/type-userData.ts:27-29 | an empty password reports "La contraseña es obligatoria", not the length message |
| UserSchema.MissingLowercaseReportsUppercaseMessage | react-hook-forms/src/models/type-userData.ts:31-33 | a password of valid length with no lowercase letter reports the "…letra mayúscula" message (in both password fields) |
| UserSchema.MissingUppercaseReportsLowercaseMessage | react-hook-forms/src/models/type-userData.ts:34-36 | a password of valid length with a lowercase but no uppercase letter reports the "…letra minúscula" message (in both password fields) |
| UserSchema.UnlistedSymbolsRejected | react-hook-forms/src/models/type-userData.ts:40-42 | a password meeting every other rule whose symbols all lie outside the twenty listed characters reports the special-character message |
| UserSchema.ConfirmationMirrorsPassword | react-hook-forms/src/models/type-userData.ts:44-68 | the confirmation accepts exactly what the password accepts and fails at the same rule, with that rule's confirmation message |
| UserSchema.NoCrossFieldRule | react-hook-forms/src/models/type-userData.ts:44-68 | changing either password field changes only that field's result: no rule relates the two |
| UserSchema.ParseIsStable | react-hook-forms/src/models/type-userData.ts:3-69 | parsing the record a successful parse returned gives the same result again |
| SchemaCases.AgeSeventeen | react-hook-forms/src/models/type-userData.ts:17-18 | "17" reports "Debes ser mayor de edad" |
| SchemaCases.AgeNotANumber | react-hook-forms/src/models/type-userData.ts:14-15 | "abc" reports "La edad debe ser un número" |
| SchemaCases.AgeEighteen | react-hook-forms/src/models/type-userData.ts:17 | "18" is accepted |
| SchemaCases.AgePrefixRead | react-hook-forms/src/models/type-userData.ts:14-18 | "17abc" is read as 17 and reports "Debes ser mayor de edad" |
| SchemaCases.AgeBlank | react-hook-forms/src/models/type-userData.ts:12-13 | "   " reports "La edad es obligatoria" |
| SchemaCases.PasswordTooShortCase | react-hook-forms/src/models/type-userData.ts:29 | "abc" reports the eight-character message |
| SchemaCases.PasswordLowercaseOnly | react-hook-forms/src/models/type-userData.ts:34-36 | "abcdefgh" fails at the uppercase rule, whose message asks for a lowercase letter |
| SchemaCases.PasswordNoLowercaseCase | react-hook-forms/src/models/type-userData.ts:31-33 | "ABCDEFG1!" fails at the lowercase rule, whose message asks for an uppercase letter |
| SchemaCases.PasswordNoSpecialCase | react-hook-forms/src/models/type-userData.ts:40-42 | "Abcdefg1" reports the special-character message |
| SchemaCases.PasswordUnlistedSymbols | react-hook-forms/src/models/type-userData.ts:40-42 | "Abcdefg1-_" reports the special-character message: `-` and `_` are not listed |
| SchemaCases.PasswordAccepted | react-hook-forms/src/models/type-userData.ts:25-43 | "Abcdefg1!" is accepted |
| SchemaCases.PasswordCountsCodeUnits | react-hook-forms/src/models/type-userData.ts:29-30 | "Aa1!😀😀" has six characters but eight UTF-16 code units, so it meets `.min(8)` and is accepted |
| SchemaCases.MismatchedConfirmationAccepted | react-hook-forms/src/models/type-userData.ts:44-68 | a record with password "Abcdefg1!" and confirmation "Xyz12345!" parses successfully |

## Left out

- The form controller in `customForm.tsx` is not modelled: the `useForm`/`zodResolver` wiring, the `handleSubmit` gating, the `console.log` in `onSubmit`, and `reset`. This is react-hook-form framework behaviour whose code is not part of this model. Only its outcome is kept: the resolver shows the first zod issue per field (`Rules.FirstFailureIsFirstIssue`).
- The input components (`customInput.tsx`) and the page layout (`App.tsx`) are presentation only.
- The e-mail format check of `.email()` uses zod's internal regular expression. The model takes it as a caller-supplied predicate, so nothing is proved about which addresses it accepts.
- Numbers.ParseFloat: values are exact reals, not IEEE doubles. A value whose rounding to a double crosses 18 is judged differently: `"17.99999999999999999"` rounds to 18 in JavaScript but stays below 18 here. Overflow to infinity and underflow to zero cannot change the `>= 18` outcome, so they are not modelled either.
- Text.IsWhitespace: the space-separator (Zs) set is the one of Unicode 6.3 and later, written out by hand. Later Unicode versions could add code points to it.
- Values that are not strings (such as `undefined` for a required field) are not modelled. zod would report its own type error for them, but the form always submits strings.
- Rules.Issues: models zod 3 running later rules after an earlier one has failed. If zod stopped at the first failure instead, the issue list would be shorter but would start with the same message, so the shown message is the same.
