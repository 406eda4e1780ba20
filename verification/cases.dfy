/** The schema's result for concrete values: ages below, at and above 18,
    a non-number and a number with trailing text (read by `parseFloat` as
    its numeric prefix), passwords failing each rule in turn (with the
    swapped case messages), a password whose length counts in UTF-16 code
    units, and a record whose two passwords differ. */
module SchemaCases {
  import Text
  import Numbers
  import opened Rules
  import opened UserSchema

  /** A non-blank ASCII literal is its own trimming and as long in UTF-16
      code units as in characters. */
  lemma AsciiLiteral(s: string)
    requires s != [] && !Text.IsWhitespace(s[0]) && !Text.IsWhitespace(s[|s| - 1])
    requires forall i :: 0 <= i < |s| ==> s[i] as int < 128
    ensures Text.Trim(s) == s
    ensures Text.Utf16Length(s) == |s|
    ensures !Text.AllWhitespace(s)
  {
    Text.TrimOfTrimmed(s);
    Text.Utf16LengthOfBmp(s);
  }

  predicate IsAlphanumeric(c: char) {
    'a' <= c <= 'z' || 'A' <= c <= 'Z' || '0' <= c <= '9'
  }

  /** None of the twenty special characters is a letter or a digit. */
  lemma AlphanumericNotSpecial(c: char)
    requires IsAlphanumeric(c)
    ensures !Text.InClass(c, Text.Special)
  {
  }

  /** Neither `-` nor `_` is among the special characters. */
  lemma UnlistedNotSpecial(c: char)
    requires IsAlphanumeric(c) || c == '-' || c == '_'
    ensures !Text.InClass(c, Text.Special)
  {
  }

  /** A string of letters and digits has no special character. */
  lemma AlphanumericHasNoSpecial(s: string)
    requires forall i :: 0 <= i < |s| ==> IsAlphanumeric(s[i])
    ensures !Text.Contains(s, Text.Special)
  {
    forall i | 0 <= i < |s| ensures !Text.InClass(s[i], Text.Special) {
      AlphanumericNotSpecial(s[i]);
    }
  }

  /** An age of digits followed by text that cannot continue a number is
      judged by the value of the digits. */
  lemma DigitsAgeExample(d: string, rest: string)
    requires d != [] && Numbers.AllDigits(d)
    requires rest == [] || (!Numbers.IsDigit(rest[0]) && rest[0] != '.' && rest[0] != 'e' && rest[0] != 'E')
    requires Text.Trimmed(d + rest)
    ensures ValidateAge(d + rest) == if Numbers.DigitsValue(d) >= 18 then Ok else Err(Underage)
  {
    Text.TrimOfTrimmed(d + rest);
    Numbers.ParseDigitsPrefix(d, rest);
  }

  /** A non-blank age that does not start the way a number does gets the
      number message. */
  lemma NonNumericAgeExample(v: string)
    requires v != [] && Text.Trimmed(v) && !Numbers.StartsNumeric(v)
    ensures ValidateAge(v) == Err(AgeNotNumber)
  {
    Text.TrimOfTrimmed(v);
    assert Text.LeadingWhitespace(v) == 0;
    assert Text.TrimStart(v) == v;
  }

  /** "17" is a number below 18. */
  lemma AgeSeventeen()
    ensures ValidateAge("17") == Err("Debes ser mayor de edad")
  {
    assert Numbers.DigitsValue("17") == 17 by { assert "17"[..1] == "1"; }
    DigitsAgeExample("17", []);
    assert "17" + [] == "17";
  }

  /** "abc" is not a number, so the number message comes before the age
      message. */
  lemma AgeNotANumber()
    ensures ValidateAge("abc") == Err("La edad debe ser un número")
  {
    NonNumericAgeExample("abc");
  }

  lemma AgeEighteen()
    ensures ValidateAge("18") == Ok
  {
    assert Numbers.DigitsValue("18") == 18 by { assert "18"[..1] == "1"; }
    DigitsAgeExample("18", []);
    assert "18" + [] == "18";
  }

  /** `parseFloat` reads a prefix: "17abc" is taken as 17, which is a number
      and under age. */
  lemma AgePrefixRead()
    ensures ValidateAge("17abc") == Err("Debes ser mayor de edad")
  {
    var d, rest := "17", "abc";
    assert Numbers.DigitsValue(d) == 17 by { assert d[..1] == "1"; }
    assert d + rest == "17abc";
    assert !Text.IsWhitespace('1') && !Text.IsWhitespace('c');
    DigitsAgeExample(d, rest);
  }

  lemma AgeBlank()
    ensures ValidateAge("   ") == Err("La edad es obligatoria")
  {
    assert Text.AllWhitespace("   ");
  }

  lemma PasswordTooShortCase()
    ensures ValidatePassword("abc") == Err("La contraseña debe tener al menos 8 caracteres")
  {
    AsciiLiteral("abc");
  }

  /** A trimmed ASCII password of acceptable length with no lowercase
      letter gets the message that asks for an uppercase one. */
  lemma NoLowercaseExample(s: string)
    requires s != [] && !Text.IsWhitespace(s[0]) && !Text.IsWhitespace(s[|s| - 1])
    requires forall i :: 0 <= i < |s| ==> s[i] as int < 128
    requires 8 <= |s| <= 32
    requires !Text.Contains(s, Text.LowerLatin)
    ensures ValidatePassword(s) == Err(PasswordNoLowercase)
  {
    AsciiLiteral(s);
    MissingLowercaseReportsUppercaseMessage(s);
  }

  /** A trimmed ASCII password of acceptable length with a lowercase but no
      uppercase letter gets the message that asks for a lowercase one. */
  lemma NoUppercaseExample(s: string, lower: nat)
    requires s != [] && !Text.IsWhitespace(s[0]) && !Text.IsWhitespace(s[|s| - 1])
    requires forall i :: 0 <= i < |s| ==> s[i] as int < 128
    requires 8 <= |s| <= 32
    requires lower < |s| && Text.InClass(s[lower], Text.LowerLatin)
    requires !Text.Contains(s, Text.UpperLatin)
    ensures ValidatePassword(s) == Err(PasswordNoUppercase)
  {
    AsciiLiteral(s);
    MissingUppercaseReportsLowercaseMessage(s);
  }

  /** Lowercase only: the swapped message asks for a lowercase letter. */
  lemma PasswordLowercaseOnly()
    ensures ValidatePassword("abcdefgh") == Err(PasswordNoUppercase)
  {
    var s := "abcdefgh";
    assert !Text.Contains(s, Text.UpperLatin) by {
      assert forall i :: 0 <= i < |s| ==> 'a' <= s[i] <= 'z';
    }
    NoUppercaseExample(s, 0);
  }

  /** No lowercase: the swapped message asks for an uppercase letter. */
  lemma PasswordNoLowercaseCase()
    ensures ValidatePassword("ABCDEFG1!") == Err(PasswordNoLowercase)
  {
    var s := "ABCDEFG1!";
    assert !Text.Contains(s, Text.LowerLatin) by {
      assert forall i :: 0 <= i < |s| ==> s[i] < 'a';
    }
    NoLowercaseExample(s);
  }

  /** A trimmed ASCII password of acceptable length with an uppercase
      letter, a lowercase letter and a digit, but no listed special
      character, gets the special-character message. */
  lemma NoSpecialExample(s: string, upper: nat, lower: nat, digit: nat)
    requires s != [] && !Text.IsWhitespace(s[0]) && !Text.IsWhitespace(s[|s| - 1])
    requires forall i :: 0 <= i < |s| ==> s[i] as int < 128
    requires 8 <= |s| <= 32
    requires upper < |s| && Text.InClass(s[upper], Text.UpperLatin)
    requires lower < |s| && Text.InClass(s[lower], Text.LowerLatin)
    requires digit < |s| && Text.InClass(s[digit], Text.AsciiDigit)
    requires !Text.Contains(s, Text.Special)
    ensures ValidatePassword(s) == Err(PasswordNoSpecial)
  {
    AsciiLiteral(s);
    UnlistedSymbolsRejected(s);
  }

  lemma PasswordNoSpecialCase()
    ensures ValidatePassword("Abcdefg1") == Err(PasswordNoSpecial)
  {
    var s := "Abcdefg1";
    assert !Text.Contains(s, Text.Special) by {
      assert forall i :: 0 <= i < |s| ==> IsAlphanumeric(s[i]);
      AlphanumericHasNoSpecial(s);
    }
    NoSpecialExample(s, 0, 1, 7);
  }

  /** `-` and `_` are not among the special characters. */
  lemma PasswordUnlistedSymbols()
    ensures ValidatePassword("Abcdefg1-_") == Err(PasswordNoSpecial)
  {
    var s := "Abcdefg1-_";
    assert !Text.Contains(s, Text.Special) by {
      forall i | 0 <= i < |s| ensures !Text.InClass(s[i], Text.Special) {
        UnlistedNotSpecial(s[i]);
      }
    }
    NoSpecialExample(s, 0, 1, 7);
  }

  lemma StrongExample(s: string, upper: nat, lower: nat, digit: nat, special: nat)
    requires s != [] && !Text.IsWhitespace(s[0]) && !Text.IsWhitespace(s[|s| - 1])
    requires forall i :: 0 <= i < |s| ==> s[i] as int < 128
    requires 8 <= |s| <= 32
    requires upper < |s| && Text.InClass(s[upper], Text.UpperLatin)
    requires lower < |s| && Text.InClass(s[lower], Text.LowerLatin)
    requires digit < |s| && Text.InClass(s[digit], Text.AsciiDigit)
    requires special < |s| && Text.InClass(s[special], Text.Special)
    ensures ValidatePassword(s) == Ok && ValidateConfirmPassword(s) == Ok
  {
    AsciiLiteral(s);
  }

  lemma PasswordAccepted()
    ensures ValidatePassword("Abcdefg1!") == Ok
  {
    StrongExample("Abcdefg1!", 0, 1, 7, 8);
  }

  /** A password with no whitespace at its ends, of acceptable code-unit
      length, and with a character of each class, is accepted. */
  lemma StrongTrimmedExample(s: string, upper: nat, lower: nat, digit: nat, special: nat)
    requires Text.Trimmed(s) && 8 <= Text.Utf16Length(s) <= 32
    requires upper < |s| && Text.InClass(s[upper], Text.UpperLatin)
    requires lower < |s| && Text.InClass(s[lower], Text.LowerLatin)
    requires digit < |s| && Text.InClass(s[digit], Text.AsciiDigit)
    requires special < |s| && Text.InClass(s[special], Text.Special)
    ensures ValidatePassword(s) == Ok
  {
    assert Text.Contains(s, Text.UpperLatin) && Text.Contains(s, Text.LowerLatin);
    assert Text.Contains(s, Text.AsciiDigit) && Text.Contains(s, Text.Special);
    assert StrongPassword(s);
    Text.TrimOfTrimmed(s);
  }

  /** Each emoji is a surrogate pair, so "Aa1!" and two emoji make eight
      code units. */
  lemma EmojiPasswordLength()
    ensures Text.Utf16Length("Aa1!\U{1F600}\U{1F600}") == 8
  {
    var a, e := "Aa1!", "\U{1F600}\U{1F600}";
    Text.Utf16LengthOfBmp(a);
    Text.Utf16LengthOfChar('\U{1F600}');
    assert e == ['\U{1F600}'] + ['\U{1F600}'];
    Text.Utf16LengthAppend(['\U{1F600}'], ['\U{1F600}']);
    assert a + e == "Aa1!\U{1F600}\U{1F600}";
    Text.Utf16LengthAppend(a, e);
  }

  /** Lengths are counted in UTF-16 code units: two emoji after "Aa1!" make
      six characters but eight code units, enough for `.min(8)`. */
  lemma PasswordCountsCodeUnits()
    ensures |"Aa1!\U{1F600}\U{1F600}"| == 6
    ensures ValidatePassword("Aa1!\U{1F600}\U{1F600}") == Ok
  {
    EmojiPasswordLength();
    StrongTrimmedExample("Aa1!\U{1F600}\U{1F600}", 0, 1, 2, 3);
  }

  lemma AgeThirty()
    ensures ValidateAge("30") == Ok
  {
    assert Numbers.DigitsValue("30") == 30 by { assert "30"[..1] == "3"; }
    DigitsAgeExample("30", []);
    assert "30" + [] == "30";
  }

  lemma FirstNameAccepted()
    ensures ValidateFirstName("Mariana") == Ok
  {
    AsciiLiteral("Mariana");
  }

  lemma EmailAccepted(isEmail: EmailTest)
    requires isEmail("ana@example.com")
    ensures ValidateEmail("ana@example.com", isEmail) == Ok
  {
    AsciiLiteral("ana@example.com");
  }

  lemma ConfirmationAccepted()
    ensures ValidateConfirmPassword("Xyz12345!") == Ok
  {
    StrongExample("Xyz12345!", 0, 1, 3, 8);
  }

  /** A record whose every field passes is parsed successfully. */
  lemma FieldsPassRecordParses(u: UserData, isEmail: EmailTest)
    requires ValidateFirstName(u.firstName) == Ok && ValidateAge(u.age) == Ok
    requires ValidateEmail(u.email, isEmail) == Ok
    requires ValidatePassword(u.password) == Ok && ValidateConfirmPassword(u.confirmPassword) == Ok
    ensures SafeParse(u, isEmail).Success?
  {
    assert Validate(u, isEmail).AllOk();
  }

  /** Two different passwords, each acceptable on its own, pass together:
      nothing asks the confirmation to equal the password. */
  lemma MismatchedConfirmationAccepted(isEmail: EmailTest)
    requires isEmail("ana@example.com")
    ensures var u := UserData("Mariana", None, "30", "ana@example.com", "Abcdefg1!", "Xyz12345!");
      u.password != u.confirmPassword && SafeParse(u, isEmail).Success?
  {
    var u := UserData("Mariana", None, "30", "ana@example.com", "Abcdefg1!", "Xyz12345!");
    FirstNameAccepted();
    AgeThirty();
    EmailAccepted(isEmail);
    PasswordAccepted();
    ConfirmationAccepted();
    FieldsPassRecordParses(u, isEmail);
    assert u.password[0] != u.confirmPassword[0];
  }
}
