/** The decision at the heart of `validateField`: given a field's raw value, its
    `required` marker and its input type, is the value acceptable, and with
    which message if not. Pure: marking the field is left to the `Fields` module. */
module Validator {
  import opened Text
  import opened Patterns

  /** The `type` of a form control, as far as the validator distinguishes it. */
  datatype FieldKind = EmailField | TelField | OtherField

  /** The validator's result: whether the value passes and the message for it
      (empty when it passes). */
  datatype Verdict = Verdict(valid: bool, message: string)

  const RequiredMessage: string := "Dette feltet er påkravd"
  const EmailMessage: string := "Vennligst oppgi ei gyldig e-postadresse"
  const PhoneMessage: string := "Vennligst oppgi eit gyldig telefonnummer"

  /** `validateField` on a control with the given raw value, `required` marker
      and type. The three checks run one after the other on the trimmed value,
      each one that fails overwriting the verdict so far, as in the source. */
  function Validate(raw: string, required: bool, kind: FieldKind): (r: Verdict)
    ensures r.valid <==> r.message == ""
    ensures !r.valid <==> r.message in {RequiredMessage, EmailMessage, PhoneMessage}
  {
    var value := Trim(raw);
    var afterRequired :=
      if required && value == [] then Verdict(false, RequiredMessage)
      else Verdict(true, "");
    var afterEmail :=
      if kind == EmailField && value != [] && !MatchesEmailPattern(value) then Verdict(false, EmailMessage)
      else afterRequired;
    var afterPhone :=
      if kind == TelField && value != [] && !MatchesPhonePattern(RemoveWhitespace(value)) then Verdict(false, PhoneMessage)
      else afterEmail;
    afterPhone
  }

  /** A required field whose value trims to nothing fails with the required-field
      message; the email and phone checks only look at non-empty values, so
      neither can replace it. */
  lemma RequiredEmpty(raw: string, kind: FieldKind)
    requires AllWhitespace(raw)
    ensures Validate(raw, true, kind) == Verdict(false, RequiredMessage)
  {
    TrimEmptyIff(raw);
  }

  /** An optional field whose value trims to nothing passes, whatever its type. */
  lemma OptionalEmpty(raw: string, kind: FieldKind)
    requires AllWhitespace(raw)
    ensures Validate(raw, false, kind) == Verdict(true, "")
  {
    TrimEmptyIff(raw);
  }

  /** A non-empty email value passes exactly when it has the shape of an email
      address, and otherwise fails with the email message, required or not. */
  lemma EmailRule(raw: string, required: bool)
    requires !AllWhitespace(raw)
    ensures Validate(raw, required, EmailField).valid <==> IsEmailShaped(Trim(raw))
    ensures !Validate(raw, required, EmailField).valid ==>
              Validate(raw, required, EmailField).message == EmailMessage
  {
    TrimEmptyIff(raw);
    EmailPatternIffShape(Trim(raw));
  }

  /** A non-empty phone value passes exactly when, with every whitespace
      character removed, it is a Norwegian number; otherwise it fails with the
      phone message. */
  lemma PhoneRule(raw: string, required: bool)
    requires !AllWhitespace(raw)
    ensures Validate(raw, required, TelField).valid <==> IsNorwegianNumber(RemoveWhitespace(Trim(raw)))
    ensures !Validate(raw, required, TelField).valid ==>
              Validate(raw, required, TelField).message == PhoneMessage
  {
    TrimEmptyIff(raw);
    PhonePatternOnStripped(Trim(raw));
  }

  /** Whitespace anywhere in a phone value is irrelevant: the value and the value
      with all its whitespace removed get the same verdict. */
  lemma PhoneIgnoresWhitespace(raw: string, required: bool)
    ensures Validate(raw, required, TelField) == Validate(RemoveWhitespace(raw), required, TelField)
  {
    var w := RemoveWhitespace(raw);
    RemoveWhitespaceOfTrim(raw);
    RemoveWhitespaceNoop(w);
    TrimEmptyIff(raw);
    RemoveWhitespaceEmptyIff(raw);
    if w != [] {
      TrimNoop(w);
    } else {
      TrimEmptyIff(w);
    }
  }

  /** Any other non-empty value passes. */
  lemma OtherRule(raw: string, required: bool)
    requires !AllWhitespace(raw)
    ensures Validate(raw, required, OtherField) == Verdict(true, "")
  {
    TrimEmptyIff(raw);
  }

  /** Trimming does not change the verdict: only the trimmed value is looked at,
      so re-validating an unchanged value, or one that differs only in
      surrounding whitespace, gives the same verdict. */
  lemma DependsOnTrimmedValue(raw1: string, raw2: string, required: bool, kind: FieldKind)
    requires Trim(raw1) == Trim(raw2)
    ensures Validate(raw1, required, kind) == Validate(raw2, required, kind)
  {
  }

  /** Surrounding whitespace is ignored: validating the trimmed value gives the
      same verdict as validating the raw one. */
  lemma TrimmedValueSameVerdict(raw: string, required: bool, kind: FieldKind)
    ensures Validate(Trim(raw), required, kind) == Validate(raw, required, kind)
  {
    TrimIdempotent(raw);
  }

  /** The rules as a precedence list in which the first failing rule decides.
      The source instead lets each later failing check overwrite the verdict;
      the two agree because at most one rule can fail for any input. */
  function FirstFailingRule(raw: string, required: bool, kind: FieldKind): Verdict {
    var value := Trim(raw);
    if required && value == [] then Verdict(false, RequiredMessage)
    else if kind == EmailField && value != [] && !MatchesEmailPattern(value) then Verdict(false, EmailMessage)
    else if kind == TelField && value != [] && !MatchesPhonePattern(RemoveWhitespace(value)) then Verdict(false, PhoneMessage)
    else Verdict(true, "")
  }

  /** Last-write-wins and first-failure-wins give the same verdict. */
  lemma OverwriteOrderIrrelevant(raw: string, required: bool, kind: FieldKind)
    ensures Validate(raw, required, kind) == FirstFailingRule(raw, required, kind)
  {
  }

  /** The verdict on an email value with nothing to trim. */
  lemma EmailVerdictUntrimmed(s: string, required: bool)
    requires s != [] && Trim(s) == s
    ensures Validate(s, required, EmailField)
            == if MatchesEmailPattern(s) then Verdict(true, "") else Verdict(false, EmailMessage)
  {
  }

  /** The verdict on a phone value with nothing to trim, given what stripping
      its whitespace leaves. */
  lemma PhoneVerdictUntrimmed(s: string, stripped: string, required: bool)
    requires s != [] && Trim(s) == s && RemoveWhitespace(s) == stripped
    ensures Validate(s, required, TelField)
            == if MatchesPhonePattern(stripped) then Verdict(true, "") else Verdict(false, PhoneMessage)
  {
  }

  /** `a@b.co` passes a required email field. */
  lemma EmailFieldAccepts()
    ensures Validate("a@b.co", true, EmailField).valid
  {
    EmailExampleValid();
    TrimNoop("a@b.co");
    EmailVerdictUntrimmed("a@b.co", true);
  }

  /** `a@b` fails a required email field with the email message. */
  lemma EmailFieldRejects()
    ensures Validate("a@b", true, EmailField) == Verdict(false, EmailMessage)
  {
    EmailExamplesInvalid();
    TrimNoop("a@b");
    EmailVerdictUntrimmed("a@b", true);
  }

  /** Eight digits pass a required phone field. */
  lemma PhoneFieldAcceptsPlain()
    ensures Validate("12345678", true, TelField).valid
  {
    var s := "12345678";
    NothingToStrip(s);
    PhonePatternExamples();
    PhoneVerdictUntrimmed(s, s, true);
  }

  /** Eight digits after `+47` pass a required phone field. */
  lemma PhoneFieldAcceptsPrefixed()
    ensures Validate("+4712345678", true, TelField).valid
  {
    var s := "+4712345678";
    NothingToStrip(s);
    PhonePatternExamples();
    PhoneVerdictUntrimmed(s, s, true);
  }

  /** `+47 12 34 56 78`: a number written in groups of two after the country
      code, built up from its groups. */
  const GroupedNumber: string := "+47" + " " + ("12" + " " + ("34" + " " + ("56" + " " + "78")))

  /** The same number with its spaces removed. */
  const GroupedDigits: string := "+47" + ("12" + ("34" + ("56" + "78")))

  /** Stripping the grouped number joins its groups. */
  lemma GroupedNumberStrips()
    ensures RemoveWhitespace(GroupedNumber) == GroupedDigits
  {
    RemoveWhitespaceNoop("78");
    RemoveWhitespaceJoins("56", "78");
    RemoveWhitespaceJoins("34", "56" + " " + "78");
    RemoveWhitespaceJoins("12", "34" + " " + ("56" + " " + "78"));
    RemoveWhitespaceJoins("+47", "12" + " " + ("34" + " " + ("56" + " " + "78")));
  }

  /** The joined groups are a `+47` number. */
  lemma GroupedDigitsMatch()
    ensures MatchesPhonePattern(GroupedDigits)
  {
    assert GroupedDigits[..3] == "+47";
    assert forall k :: 3 <= k < 11 ==> IsDigit(GroupedDigits[k]);
  }

  /** A number written in groups passes, because whitespace is stripped first. */
  lemma PhoneFieldAcceptsGrouped()
    ensures Validate(GroupedNumber, true, TelField).valid
  {
    TrimNoop(GroupedNumber);
    GroupedNumberStrips();
    GroupedDigitsMatch();
    PhoneVerdictUntrimmed(GroupedNumber, GroupedDigits, true);
  }

  /** Seven digits fail with the phone message. */
  lemma PhoneFieldRejectsShort()
    ensures Validate("1234567", true, TelField) == Verdict(false, PhoneMessage)
  {
    var s := "1234567";
    NothingToStrip(s);
    assert !MatchesPhonePattern(s);
    PhoneVerdictUntrimmed(s, s, true);
  }

  /** Eight letters fail with the phone message. */
  lemma PhoneFieldRejectsLetters()
    ensures Validate("abcdefgh", true, TelField) == Verdict(false, PhoneMessage)
  {
    var s := "abcdefgh";
    NothingToStrip(s);
    assert !MatchesPhonePattern(s) by { assert !IsDigit(s[0]); }
    PhoneVerdictUntrimmed(s, s, true);
  }

  /** A non-empty value without any whitespace is left alone by both trimming
      and stripping. */
  lemma NothingToStrip(s: string)
    requires s != [] && NoWhitespace(s)
    ensures Trim(s) == s && RemoveWhitespace(s) == s
  {
    TrimNoop(s);
    RemoveWhitespaceNoop(s);
  }

}
