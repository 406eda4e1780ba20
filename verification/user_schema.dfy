/** `userSchema`, the validation schema of the registration form: six
    fields, each validated on its own by a chain of rules, with a Spanish
    message per rule. Two things are kept exactly as the schema has them:
    the messages for a missing lowercase and a missing uppercase letter are
    swapped, and no rule compares `confirmPassword` with `password`. */
module UserSchema {
  import Text
  import Numbers
  import opened Rules

  // The messages, as the schema spells them.

  const FirstNameRequired := "El nombre es obligatorio"
  const FirstNameTooShort := "El nombre debe tener al menos 5 caracteres"

  const AgeRequired := "La edad es obligatoria"
  const AgeNotNumber := "La edad debe ser un número"
  const Underage := "Debes ser mayor de edad"

  const EmailRequired := "El email es obligatorio"
  const EmailInvalid := "El correo electrónico no es válido"

  const PasswordRequired := "La contraseña es obligatoria"
  const PasswordTooShort := "La contraseña debe tener al menos 8 caracteres"
  const PasswordTooLong := "La contraseña no debe exceder los 32 caracteres"
  /** Reported when there is no lowercase letter, yet it asks for an uppercase one. */
  const PasswordNoLowercase := "La contraseña debe contener al menos una letra mayúscula"
  /** Reported when there is no uppercase letter, yet it asks for a lowercase one. */
  const PasswordNoUppercase := "La contraseña debe contener al menos una letra minúscula"
  const PasswordNoDigit := "La contraseña debe contener al menos un número"
  const PasswordNoSpecial :=
    "La contraseña debe contener al menos un carácter especial !@#$%^&*(),.?\":{}|<></>"

  const ConfirmRequired := "Debes confirmar la contraseña"
  const ConfirmTooShort := "La confirmación de la contraseña debe tener al menos 8 caracteres"
  const ConfirmTooLong := "La confirmación de la contraseña no debe exceder los 32 caracteres"
  /** Reported when there is no lowercase letter, yet it asks for an uppercase one. */
  const ConfirmNoLowercase := "La confirmación de la contraseña debe contener al menos una letra mayúscula"
  /** Reported when there is no uppercase letter, yet it asks for a lowercase one. */
  const ConfirmNoUppercase := "La confirmación de la contraseña debe contener al menos una letra minúscula"
  const ConfirmNoDigit := "La confirmación de la contraseña debe contener al menos un número"
  const ConfirmNoSpecial :=
    "La confirmación de la contraseña debe contener al menos un carácter especial !@#$%^&*(),.?\":{}|<></>"

  // The rule chains, in declaration order. Every chain below starts with
  // `.trim()`, so its rules see the trimmed value.

  const FirstNameRules: seq<Rule> := [
    Rule(MinLength(1), FirstNameRequired),
    Rule(MinLength(5), FirstNameTooShort)
  ]

  const AgeRules: seq<Rule> := [
    Rule(MinLength(1), AgeRequired),
    Rule(IsNumber, AgeNotNumber),
    Rule(NumberAtLeast(18.0), Underage)
  ]

  function EmailRules(isEmail: EmailTest): seq<Rule> {
    [ Rule(MinLength(1), EmailRequired),
      Rule(EmailFormat(isEmail), EmailInvalid) ]
  }

  const PasswordRules: seq<Rule> := [
    Rule(MinLength(1), PasswordRequired),
    Rule(MinLength(8), PasswordTooShort),
    Rule(MaxLength(32), PasswordTooLong),
    Rule(Matches(Text.LowerLatin), PasswordNoLowercase),
    Rule(Matches(Text.UpperLatin), PasswordNoUppercase),
    Rule(Matches(Text.AsciiDigit), PasswordNoDigit),
    Rule(Matches(Text.Special), PasswordNoSpecial)
  ]

  const ConfirmPasswordRules: seq<Rule> := [
    Rule(MinLength(1), ConfirmRequired),
    Rule(MinLength(8), ConfirmTooShort),
    Rule(MaxLength(32), ConfirmTooLong),
    Rule(Matches(Text.LowerLatin), ConfirmNoLowercase),
    Rule(Matches(Text.UpperLatin), ConfirmNoUppercase),
    Rule(Matches(Text.AsciiDigit), ConfirmNoDigit),
    Rule(Matches(Text.Special), ConfirmNoSpecial)
  ]

  datatype Option<T> = None | Some(value: T)

  /** The values the form submits. `lastName` is optional in the schema. */
  datatype UserData = UserData(
    firstName: string,
    lastName: Option<string>,
    age: string,
    email: string,
    password: string,
    confirmPassword: string)

  /** The outcome for every field of the form. */
  datatype Report = Report(
    firstName: FieldResult,
    lastName: FieldResult,
    age: FieldResult,
    email: FieldResult,
    password: FieldResult,
    confirmPassword: FieldResult)
  {
    predicate AllOk() {
      firstName.Ok? && lastName.Ok? && age.Ok? && email.Ok? && password.Ok? && confirmPassword.Ok?
    }
  }

  /** What `safeParse` returns: the parsed (trimmed) values, or the report
      of the fields that failed. */
  datatype ParseResult = Success(data: UserData) | Failure(report: Report)

  /** A strong password, stated directly: 8 to 32 UTF-16 code units, with a
      lowercase letter, an uppercase letter, a digit and one of the twenty
      special characters. */
  predicate StrongPassword(t: string) {
    && 8 <= Text.Utf16Length(t) <= 32
    && Text.Contains(t, Text.LowerLatin)
    && Text.Contains(t, Text.UpperLatin)
    && Text.Contains(t, Text.AsciiDigit)
    && Text.Contains(t, Text.Special)
  }

  /** A record the schema accepts, stated field by field. */
  predicate Acceptable(u: UserData, isEmail: EmailTest) {
    && Text.Utf16Length(Text.Trim(u.firstName)) >= 5
    && Numbers.AtLeast(Numbers.ParseFloat(Text.Trim(u.age)), 18.0)
    && Text.Trim(u.email) != [] && isEmail(Text.Trim(u.email))
    && StrongPassword(Text.Trim(u.password))
    && StrongPassword(Text.Trim(u.confirmPassword))
  }

  /** A string has a positive UTF-16 length exactly when it is not empty. */
  lemma NonEmptyLength(t: string)
    ensures Text.Utf16Length(t) >= 1 <==> t != []
  {
  }

  /** The first-name chain on a trimmed value: required, then at least five
      code units. */
  lemma FirstNameChain(t: string)
    ensures FirstFailure(FirstNameRules, t) ==
      if t == [] then Err(FirstNameRequired)
      else if Text.Utf16Length(t) < 5 then Err(FirstNameTooShort)
      else Ok
  {
    NonEmptyLength(t);
    if t == [] {
      FirstFailureAt(FirstNameRules, 0, t);
    } else if Text.Utf16Length(t) < 5 {
      assert Holds(FirstNameRules[0].check, t);
      FirstFailureAt(FirstNameRules, 1, t);
    }
  }

  function ValidateFirstName(v: string): (r: FieldResult)
    ensures r.Ok? <==> Text.Utf16Length(Text.Trim(v)) >= 5
    ensures Text.AllWhitespace(v) ==> r == Err(FirstNameRequired)
    ensures !Text.AllWhitespace(v) && Text.Utf16Length(Text.Trim(v)) < 5 ==> r == Err(FirstNameTooShort)
  {
    Text.TrimEmptyIff(v);
    FirstNameChain(Text.Trim(v));
    CheckTrimmed(FirstNameRules, v)
  }

  /** The age chain on a trimmed value: required, then a number, then at
      least 18. */
  lemma AgeChain(t: string)
    ensures var n := Numbers.ParseFloat(t);
      FirstFailure(AgeRules, t) ==
        if t == [] then Err(AgeRequired)
        else if n.NaN? then Err(AgeNotNumber)
        else if !Numbers.AtLeast(n, 18.0) then Err(Underage)
        else Ok
  {
    var n := Numbers.ParseFloat(t);
    NonEmptyLength(t);
    if t == [] {
      FirstFailureAt(AgeRules, 0, t);
    } else if n.NaN? {
      assert Holds(AgeRules[0].check, t);
      FirstFailureAt(AgeRules, 1, t);
    } else if !Numbers.AtLeast(n, 18.0) {
      assert Holds(AgeRules[0].check, t) && Holds(AgeRules[1].check, t);
      FirstFailureAt(AgeRules, 2, t);
    } else {
      assert Holds(AgeRules[0].check, t) && Holds(AgeRules[1].check, t) && Holds(AgeRules[2].check, t);
    }
  }

  function ValidateAge(v: string): (r: FieldResult)
    ensures r.Ok? <==> Numbers.AtLeast(Numbers.ParseFloat(Text.Trim(v)), 18.0)
    ensures Text.AllWhitespace(v) ==> r == Err(AgeRequired)
    ensures !Text.AllWhitespace(v) && Numbers.ParseFloat(Text.Trim(v)).NaN? ==> r == Err(AgeNotNumber)
    ensures !Numbers.ParseFloat(Text.Trim(v)).NaN? && !Numbers.AtLeast(Numbers.ParseFloat(Text.Trim(v)), 18.0)
      ==> r == Err(Underage)
  {
    Text.TrimEmptyIff(v);
    AgeChain(Text.Trim(v));
    CheckTrimmed(AgeRules, v)
  }

  /** The e-mail chain on a trimmed value: required, then the format test. */
  lemma EmailChain(t: string, isEmail: EmailTest)
    ensures FirstFailure(EmailRules(isEmail), t) ==
      if t == [] then Err(EmailRequired)
      else if !isEmail(t) then Err(EmailInvalid)
      else Ok
  {
    var rules := EmailRules(isEmail);
    NonEmptyLength(t);
    if t == [] {
      FirstFailureAt(rules, 0, t);
    } else if !isEmail(t) {
      assert Holds(rules[0].check, t);
      FirstFailureAt(rules, 1, t);
    } else {
      assert Holds(rules[0].check, t) && Holds(rules[1].check, t);
    }
  }

  function ValidateEmail(v: string, isEmail: EmailTest): (r: FieldResult)
    ensures r.Ok? <==> Text.Trim(v) != [] && isEmail(Text.Trim(v))
    ensures Text.AllWhitespace(v) ==> r == Err(EmailRequired)
    ensures !Text.AllWhitespace(v) && !isEmail(Text.Trim(v)) ==> r == Err(EmailInvalid)
  {
    Text.TrimEmptyIff(v);
    EmailChain(Text.Trim(v), isEmail);
    CheckTrimmed(EmailRules(isEmail), v)
  }

  /** The verdict of a password chain on a trimmed value, written as the
      questions the chain asks in turn, each answered no with the message of
      the rule that asks it. */
  function PasswordVerdict(t: string, rules: seq<Rule>): FieldResult
    requires |rules| == 7
  {
    var n := Text.Utf16Length(t);
    if t == [] then Err(rules[0].message)
    else if n < 8 then Err(rules[1].message)
    else if n > 32 then Err(rules[2].message)
    else if !Text.Contains(t, Text.LowerLatin) then Err(rules[3].message)
    else if !Text.Contains(t, Text.UpperLatin) then Err(rules[4].message)
    else if !Text.Contains(t, Text.AsciiDigit) then Err(rules[5].message)
    else if !Text.Contains(t, Text.Special) then Err(rules[6].message)
    else Ok
  }

  /** The two password chains: the same seven checks, in the same order. */
  predicate PasswordShaped(rules: seq<Rule>) {
    && |rules| == 7
    && rules[0].check == MinLength(1)
    && rules[1].check == MinLength(8)
    && rules[2].check == MaxLength(32)
    && rules[3].check == Matches(Text.LowerLatin)
    && rules[4].check == Matches(Text.UpperLatin)
    && rules[5].check == Matches(Text.AsciiDigit)
    && rules[6].check == Matches(Text.Special)
  }

  /** A chain shaped like the password chains reports the message of the
      first question `PasswordVerdict` answers no to. */
  lemma PasswordShapedChain(rules: seq<Rule>, t: string)
    requires PasswordShaped(rules)
    ensures FirstFailure(rules, t) == PasswordVerdict(t, rules)
  {
    NonEmptyLength(t);
    var n := Text.Utf16Length(t);
    if t == [] {
      FirstFailureAt(rules, 0, t);
    } else if n < 8 {
      assert Holds(rules[0].check, t);
      FirstFailureAt(rules, 1, t);
    } else if n > 32 {
      assert Holds(rules[0].check, t) && Holds(rules[1].check, t);
      FirstFailureAt(rules, 2, t);
    } else {
      PasswordClassesChain(rules, t);
    }
  }

  /** Once the length checks pass, a password-shaped chain reports the
      first character class the value lacks. */
  lemma PasswordClassesChain(rules: seq<Rule>, t: string)
    requires PasswordShaped(rules) && 8 <= Text.Utf16Length(t) <= 32
    ensures FirstFailure(rules, t) ==
      if !Text.Contains(t, Text.LowerLatin) then Err(rules[3].message)
      else if !Text.Contains(t, Text.UpperLatin) then Err(rules[4].message)
      else if !Text.Contains(t, Text.AsciiDigit) then Err(rules[5].message)
      else if !Text.Contains(t, Text.Special) then Err(rules[6].message)
      else Ok
  {
    assert Holds(rules[0].check, t) && Holds(rules[1].check, t) && Holds(rules[2].check, t);
    if !Text.Contains(t, Text.LowerLatin) {
      FirstFailureAt(rules, 3, t);
    } else if !Text.Contains(t, Text.UpperLatin) {
      FirstFailureAt(rules, 4, t);
    } else {
      PasswordLateClassesChain(rules, t);
    }
  }

  /** With both letter classes present, the chain reports a missing digit,
      then a missing special character. */
  lemma PasswordLateClassesChain(rules: seq<Rule>, t: string)
    requires PasswordShaped(rules) && 8 <= Text.Utf16Length(t) <= 32
    requires Text.Contains(t, Text.LowerLatin) && Text.Contains(t, Text.UpperLatin)
    ensures FirstFailure(rules, t) ==
      if !Text.Contains(t, Text.AsciiDigit) then Err(rules[5].message)
      else if !Text.Contains(t, Text.Special) then Err(rules[6].message)
      else Ok
  {
    assert forall i :: 0 <= i < 5 ==> Holds(rules[i].check, t);
    if !Text.Contains(t, Text.AsciiDigit) {
      FirstFailureAt(rules, 5, t);
    } else if !Text.Contains(t, Text.Special) {
      FirstFailureAt(rules, 6, t);
    } else {
      assert AllHold(rules, t);
    }
  }

  function ValidatePassword(v: string): (r: FieldResult)
    ensures r.Ok? <==> StrongPassword(Text.Trim(v))
    ensures r == PasswordVerdict(Text.Trim(v), PasswordRules)
  {
    PasswordShapedChain(PasswordRules, Text.Trim(v));
    CheckTrimmed(PasswordRules, v)
  }

  function ValidateConfirmPassword(v: string): (r: FieldResult)
    ensures r.Ok? <==> StrongPassword(Text.Trim(v))
    ensures r == PasswordVerdict(Text.Trim(v), ConfirmPasswordRules)
  {
    PasswordShapedChain(ConfirmPasswordRules, Text.Trim(v));
    CheckTrimmed(ConfirmPasswordRules, v)
  }

  /** The whole schema: every field validated on its own. */
  function Validate(u: UserData, isEmail: EmailTest): (r: Report)
    ensures r.AllOk() <==> Acceptable(u, isEmail)
    ensures r.lastName == Ok
  {
    Report(
      ValidateFirstName(u.firstName),
      Ok,
      ValidateAge(u.age),
      ValidateEmail(u.email, isEmail),
      ValidatePassword(u.password),
      ValidateConfirmPassword(u.confirmPassword))
  }

  /** zod's `safeParse`: the record with every string field trimmed (the
      optional last name is passed through) when all fields pass, and the
      report otherwise. */
  function SafeParse(u: UserData, isEmail: EmailTest): (r: ParseResult)
    ensures r.Success? <==> Acceptable(u, isEmail)
    ensures r.Success? ==> r.data.lastName == u.lastName && Acceptable(r.data, isEmail)
    ensures r.Success? ==>
      forall f :: f in {r.data.firstName, r.data.age, r.data.email, r.data.password, r.data.confirmPassword}
        ==> Text.Trimmed(f)
    ensures r.Success? ==>
      && Text.IsTrimOf(r.data.firstName, u.firstName)
      && Text.IsTrimOf(r.data.age, u.age)
      && Text.IsTrimOf(r.data.email, u.email)
      && Text.IsTrimOf(r.data.password, u.password)
      && Text.IsTrimOf(r.data.confirmPassword, u.confirmPassword)
    ensures r.Failure? ==> !r.report.AllOk() && r.report == Validate(u, isEmail)
  {
    var report := Validate(u, isEmail);
    if report.AllOk() then
      var d := UserData(
        Text.Trim(u.firstName), u.lastName, Text.Trim(u.age), Text.Trim(u.email),
        Text.Trim(u.password), Text.Trim(u.confirmPassword));
      Text.TrimIdempotent(u.firstName);
      Text.TrimIdempotent(u.age);
      Text.TrimIdempotent(u.email);
      Text.TrimIdempotent(u.password);
      Text.TrimIdempotent(u.confirmPassword);
      Success(d)
    else
      Failure(report)
  }

  /** A field holding only whitespace reports that field's "required"
      message: the value is trimmed before the first rule runs. */
  lemma BlankFieldsReportRequired(v: string, isEmail: EmailTest)
    requires Text.AllWhitespace(v)
    ensures ValidateFirstName(v) == Err("El nombre es obligatorio")
    ensures ValidateAge(v) == Err("La edad es obligatoria")
    ensures ValidateEmail(v, isEmail) == Err("El email es obligatorio")
    ensures ValidatePassword(v) == Err("La contraseña es obligatoria")
    ensures ValidateConfirmPassword(v) == Err("Debes confirmar la contraseña")
  {
    Text.TrimEmptyIff(v);
  }

  /** Surrounding whitespace changes no field's result. */
  lemma PaddingIgnored(p: string, v: string, q: string, isEmail: EmailTest)
    requires Text.AllWhitespace(p) && Text.AllWhitespace(q)
    ensures ValidateFirstName(p + v + q) == ValidateFirstName(v)
    ensures ValidateAge(p + v + q) == ValidateAge(v)
    ensures ValidateEmail(p + v + q, isEmail) == ValidateEmail(v, isEmail)
    ensures ValidatePassword(p + v + q) == ValidatePassword(v)
    ensures ValidateConfirmPassword(p + v + q) == ValidateConfirmPassword(v)
  {
    Text.TrimIgnoresPadding(p, v, q);
  }

  /** A value and its trimmed form get the same result in every field. */
  lemma TrimmedValueSameResult(v: string, isEmail: EmailTest)
    ensures ValidateFirstName(Text.Trim(v)) == ValidateFirstName(v)
    ensures ValidateAge(Text.Trim(v)) == ValidateAge(v)
    ensures ValidateEmail(Text.Trim(v), isEmail) == ValidateEmail(v, isEmail)
    ensures ValidatePassword(Text.Trim(v)) == ValidatePassword(v)
    ensures ValidateConfirmPassword(Text.Trim(v)) == ValidateConfirmPassword(v)
  {
    Text.TrimIdempotent(v);
  }

  /** Checks run in declaration order: an empty password reports the
      "required" message, not the length message that also fails. */
  lemma EmptyPasswordReportsRequired()
    ensures ValidatePassword("") == Err("La contraseña es obligatoria")
    ensures ValidateConfirmPassword("") == Err("Debes confirmar la contraseña")
  {
    assert Text.AllWhitespace("");
    BlankFieldsReportRequired("", _ => false);
  }

  /** The case messages are swapped: a password of acceptable length with
      no lowercase letter is told to add an uppercase one. */
  lemma MissingLowercaseReportsUppercaseMessage(v: string)
    requires 8 <= Text.Utf16Length(Text.Trim(v)) <= 32
    requires !Text.Contains(Text.Trim(v), Text.LowerLatin)
    ensures ValidatePassword(v) == Err("La contraseña debe contener al menos una letra mayúscula")
    ensures ValidateConfirmPassword(v) ==
      Err("La confirmación de la contraseña debe contener al menos una letra mayúscula")
  {
    NonEmptyLength(Text.Trim(v));
  }

  /** ... and one with a lowercase but no uppercase letter is told to add a
      lowercase one. */
  lemma MissingUppercaseReportsLowercaseMessage(v: string)
    requires 8 <= Text.Utf16Length(Text.Trim(v)) <= 32
    requires Text.Contains(Text.Trim(v), Text.LowerLatin)
    requires !Text.Contains(Text.Trim(v), Text.UpperLatin)
    ensures ValidatePassword(v) == Err("La contraseña debe contener al menos una letra minúscula")
    ensures ValidateConfirmPassword(v) ==
      Err("La confirmación de la contraseña debe contener al menos una letra minúscula")
  {
    NonEmptyLength(Text.Trim(v));
  }

  /** Only the twenty listed characters count as special: a password that
      passes every other rule but whose symbols all lie outside the list
      (such as `-` or `_`) gets the special-character message. */
  lemma UnlistedSymbolsRejected(v: string)
    requires 8 <= Text.Utf16Length(Text.Trim(v)) <= 32
    requires Text.Contains(Text.Trim(v), Text.LowerLatin)
    requires Text.Contains(Text.Trim(v), Text.UpperLatin)
    requires Text.Contains(Text.Trim(v), Text.AsciiDigit)
    requires forall i :: 0 <= i < |Text.Trim(v)| ==> Text.Trim(v)[i] !in Text.SpecialCharacters
    ensures ValidatePassword(v) == Err(PasswordNoSpecial)
    ensures ValidateConfirmPassword(v) == Err(ConfirmNoSpecial)
  {
    NonEmptyLength(Text.Trim(v));
  }

  /** The confirmation runs the password's checks in the password's order:
      it accepts the same values and fails at the same rule, reporting that
      rule's confirmation message. */
  lemma ConfirmationMirrorsPassword(v: string)
    ensures ValidateConfirmPassword(v).Ok? <==> ValidatePassword(v).Ok?
    ensures forall k :: 0 <= k < |PasswordRules| ==>
      (ValidatePassword(v) == Err(PasswordRules[k].message) <==>
       ValidateConfirmPassword(v) == Err(ConfirmPasswordRules[k].message))
  {
    assert DistinctMessages(PasswordRules);
    assert DistinctMessages(ConfirmPasswordRules);
    MirroredChains(PasswordRules, ConfirmPasswordRules, Text.Trim(v));
  }

  /** No rule relates the two password fields: changing one leaves every
      other field's result as it was. */
  lemma NoCrossFieldRule(u: UserData, other: string, isEmail: EmailTest)
    ensures Validate(u.(confirmPassword := other), isEmail)
      == Validate(u, isEmail).(confirmPassword := ValidateConfirmPassword(other))
    ensures Validate(u.(password := other), isEmail)
      == Validate(u, isEmail).(password := ValidatePassword(other))
  {
  }

  /** Re-parsing the parsed record returns it unchanged. */
  lemma ParseIsStable(u: UserData, isEmail: EmailTest)
    requires SafeParse(u, isEmail).Success?
    ensures SafeParse(SafeParse(u, isEmail).data, isEmail) == SafeParse(u, isEmail)
  {
    Text.TrimIdempotent(u.firstName);
    Text.TrimIdempotent(u.age);
    Text.TrimIdempotent(u.email);
    Text.TrimIdempotent(u.password);
    Text.TrimIdempotent(u.confirmPassword);
  }
}
