/**
 * The decision `validateField` makes for one control: from whether the
 * control is required, its `name` and its raw value, either Valid or
 * Invalid with one of three fixed messages. Writing that decision onto the
 * page is in the InquiryForm module.
 */
module Validation {
  import opened Text

  const RequiredMessage: string := "This field is required."
  const EmailMessage: string := "Enter a valid email address."
  const MonthMessage: string := "Use the month picker format."

  datatype Verdict = Valid | Invalid(message: string)

  /** The checks run in order on the trimmed value: required-but-empty
      first, then the e-mail pattern for `email`, then the month pattern for
      `travel_month`; the format checks skip empty values. A value made only
      of whitespace counts as empty. */
  function ValidateValue(required: bool, name: string, raw: string): (v: Verdict)
    ensures v == Invalid(RequiredMessage) <==> required && AllWhitespace(raw)
    ensures v.Invalid? ==> v.message == RequiredMessage || v.message == EmailMessage || v.message == MonthMessage
  {
    TrimEmpty(raw);
    var value := Trim(raw);
    if required && |value| == 0 then
      Invalid(RequiredMessage)
    else if name == "email" && |value| > 0 && !EmailMatches(Utf16(value)) then
      Invalid(EmailMessage)
    else if name == "travel_month" && |value| > 0 && !MonthMatches(value) then
      Invalid(MonthMessage)
    else
      Valid
  }

  /** A non-blank `email` value passes exactly when the UTF-16 units of its
      trimmed form have the address shape; otherwise the e-mail message is
      shown. */
  lemma EmailRule(required: bool, raw: string)
    requires !AllWhitespace(raw)
    ensures ValidateValue(required, "email", raw)
      == if EmailShape(Utf16(Trim(raw))) then Valid else Invalid(EmailMessage)
  {
    EmailMatchesShape(Utf16(Trim(raw)));
  }

  /** A non-blank `travel_month` value passes exactly when its trimmed form
      is four digits, a hyphen and two digits; otherwise the month message is
      shown. */
  lemma MonthRule(required: bool, raw: string)
    requires !AllWhitespace(raw)
    ensures ValidateValue(required, "travel_month", raw)
      == if MonthShape(Trim(raw)) then Valid else Invalid(MonthMessage)
  {
    MonthMatchesShape(Trim(raw));
  }

  /** Any other control is checked for presence only, and an optional blank
      control always passes, whatever its name. */
  lemma PresenceOnly(required: bool, name: string, raw: string)
    ensures name != "email" && name != "travel_month" ==>
      ValidateValue(required, name, raw) == if required && AllWhitespace(raw) then Invalid(RequiredMessage) else Valid
    ensures !required && AllWhitespace(raw) ==> ValidateValue(required, name, raw) == Valid
  {
    TrimEmpty(raw);
  }

  lemma EmailExamples()
    ensures ValidateValue(true, "email", "not-an-email") == Invalid(EmailMessage)
    ensures ValidateValue(true, "email", "a@b.c") == Invalid(EmailMessage)
    ensures ValidateValue(false, "email", "a@b.co.") == Valid
  {
    assert !IsWhitespace('n') && !IsWhitespace('l') && !IsWhitespace('a') && !IsWhitespace('c');
    assert !IsWhitespace('.');
    TrimKeeps("not-an-email");
    TrimKeeps("a@b.c");
    TrimKeeps("a@b.co.");
    EmailRejectsMissingAt();
    EmailRejectsShortSuffix();
    EmailAcceptsTrailingDot();
  }

  /** The two-character minimum of the suffix counts UTF-16 units, so a
      single character outside the Basic Multilingual Plane meets it. */
  lemma EmailAstralExample()
    ensures ValidateValue(true, "email", "a@b.\U{1F600}") == Valid
  {
    assert !IsWhitespace('a') && !IsWhitespace('\U{1F600}');
    TrimKeeps("a@b.\U{1F600}");
    EmailCountsCodeUnits();
  }

  /** The month check has no range check, and a blank required control
      fails before any format check. */
  lemma MonthAndBlankExamples()
    ensures ValidateValue(true, "travel_month", "2024-13") == Valid
    ensures ValidateValue(true, "travel_month", " \t") == Invalid(RequiredMessage)
  {
    assert !IsWhitespace('2') && !IsWhitespace('3');
    TrimKeeps("2024-13");
    MonthHasNoRangeCheck();
    assert AllWhitespace(" \t");
  }
}
