/**
 The contact-form field validation of IgarapeCafe.js: the e-mail and phone
 validators and `validateField`, with the field's error marker (the `error`
 class and the `.error-message` element) as an explicit view record.
 */
module Validation {
  import opened Options
  import opened Chars

  // ---------------------------------------------------------------------
  // isValidEmail: /^[^\s@]+@[^\s@]+\.[^\s@]+$/
  // ---------------------------------------------------------------------

  /** The class [^\s@]. */
  predicate IsEmailPartChar(c: char) {
    !IsWhitespace(c) && c != '@'
  }

  predicate AllEmailPart(s: string) {
    forall i :: 0 <= i < |s| ==> IsEmailPartChar(s[i])
  }

  /** One way of matching the regular expression: `s` is a local part, '@' at
      index `i`, a domain label, '.' at index `j`, and a non-empty rest, each
      part built from [^\s@]. */
  predicate EmailSplit(s: string, i: int, j: int) {
    && 0 < i && i + 1 < j && j + 1 < |s|
    && s[i] == '@' && s[j] == '.'
    && AllEmailPart(s[..i]) && AllEmailPart(s[i + 1..j]) && AllEmailPart(s[j + 1..])
  }

  /** The regular expression of `isValidEmail`, read as its set of matches. */
  ghost predicate MatchesEmailPattern(s: string) {
    exists i, j :: EmailSplit(s, i, j)
  }

  /** The domain part holds a '.' with at least one character on each side. */
  predicate HasInnerDot(d: string) {
    exists j | 0 < j < |d| - 1 :: d[j] == '.'
  }

  /** `isValidEmail`, stated by the shape of the address: no whitespace, exactly
      one '@', a non-empty local part, and a dot inside the domain. */
  predicate IsValidEmail(s: string) {
    && NoWhitespace(s)
    && Count(s, '@') == 1
    && exists k | 0 < k < |s| :: s[k] == '@' && HasInnerDot(s[k + 1..])
  }

  /** The shape test accepts exactly the strings the regular expression matches. */
  lemma EmailPatternIff(s: string)
    ensures IsValidEmail(s) <==> MatchesEmailPattern(s)
  {
    if IsValidEmail(s) {
      var k :| 0 < k < |s| && s[k] == '@' && HasInnerDot(s[k + 1..]);
      var d := s[k + 1..];
      var j' :| 0 < j' < |d| - 1 && d[j'] == '.';
      var j := k + 1 + j';
      CountOne(s, '@', k);
      assert EmailSplit(s, k, j) by {
        assert s[j] == d[j'];
        forall m | 0 <= m < |s| && m != k
          ensures IsEmailPartChar(s[m])
        {
          if m < k {
            assert s[m] == s[..k][m];
          } else {
            assert s[m] == s[k + 1..][m - k - 1];
          }
        }
      }
    }
    if MatchesEmailPattern(s) {
      var i, j :| EmailSplit(s, i, j);
      EmailSplitValid(s, i, j);
    }
  }

  /** Every match of the regular expression passes the shape test. */
  lemma EmailSplitValid(s: string, i: int, j: int)
    requires EmailSplit(s, i, j)
    ensures IsValidEmail(s)
  {
    var a, b, c := s[..i], s[i + 1..j], s[j + 1..];
    assert s == a + ['@'] + b + ['.'] + c;
    forall m | 0 <= m < |s|
      ensures !IsWhitespace(s[m])
    {
      if m < i {
        assert s[m] == a[m];
      } else if i < m < j {
        assert s[m] == b[m - i - 1];
      } else if j < m {
        assert s[m] == c[m - j - 1];
      }
    }
    assert '@' !in a && '@' !in b && '@' !in c by {
      forall m | 0 <= m < |b| ensures b[m] != '@' { }
    }
    CountAppend(a + ['@'] + b + ['.'], c, '@');
    CountAppend(a + ['@'] + b, ['.'], '@');
    CountAppend(a + ['@'], b, '@');
    CountAppend(a, ['@'], '@');
    assert s[i + 1..][j - i - 1] == '.';
  }

  // ---------------------------------------------------------------------
  // isValidPhone: /^[\d\s\(\)\-\+]+$/ and at least ten digits
  // ---------------------------------------------------------------------

  /** The class [\d\s\(\)\-\+]. */
  predicate IsPhoneChar(c: char) {
    IsDigit(c) || IsWhitespace(c) || c == '(' || c == ')' || c == '-' || c == '+'
  }

  /** The regular expression of `isValidPhone`: one or more phone characters. */
  predicate MatchesPhonePattern(s: string) {
    |s| > 0 && forall i :: 0 <= i < |s| ==> IsPhoneChar(s[i])
  }

  /** `isValidPhone`: the pattern matches and at least ten digits remain once
      the non-digits are removed. */
  function IsValidPhone(s: string): (ok: bool)
    ensures ok <==> MatchesPhonePattern(s) && DigitCount(s) >= 10
    ensures ok ==> |s| >= 10
  {
    DigitsLengthIsCount(s);
    MatchesPhonePattern(s) && |Digits(s)| >= 10
  }

  // ---------------------------------------------------------------------
  // validateField
  // ---------------------------------------------------------------------

  const RequiredMessage: string := "Este campo é obrigatório"
  const EmailMessage: string := "Email inválido"
  const PhoneMessage: string := "Telefone inválido"

  /** The form control as `validateField` sees it: its raw value, its `type`
      ("text", "email", "tel", "textarea", ...) and its `required` attribute. */
  datatype Field = Field(value: string, fieldType: string, required: bool)

  /** What the page shows for one field: the `error` class and the text of the
      `.error-message` element next to it, if any. */
  datatype FieldView = FieldView(errorClass: bool, errorMessage: Option<string>)

  const Clean := FieldView(false, None)

  /** The result of `validateField`: its return value and the field's view after it. */
  datatype Verdict = Verdict(valid: bool, view: FieldView)

  /** The error the checks of `validateField` select for a field, if any. */
  function FieldError(f: Field): Option<string> {
    var value := Trim(f.value);
    if f.required && value == [] then Some(RequiredMessage)
    else if f.fieldType == "email" && value != [] && !IsValidEmail(value) then Some(EmailMessage)
    else if f.fieldType == "tel" && value != [] && !IsValidPhone(value) then Some(PhoneMessage)
    else None
  }

  /** `validateField`: the previous marker is cleared, then an error class and
      message are added exactly when one of the checks fails. */
  function ValidateField(f: Field, before: FieldView): (r: Verdict)
    ensures r.valid <==> !r.view.errorClass
    ensures r.valid <==> r.view.errorMessage == None
    ensures r.valid <==>
              && !(f.required && Trim(f.value) == [])
              && (f.fieldType == "email" && Trim(f.value) != [] ==> IsValidEmail(Trim(f.value)))
              && (f.fieldType == "tel" && Trim(f.value) != [] ==> IsValidPhone(Trim(f.value)))
  {
    match FieldError(f)
    case None => Verdict(true, Clean)
    case Some(message) => Verdict(false, FieldView(true, Some(message)))
  }

  /** A required field with a blank value fails with the "required" message,
      whatever its type. */
  lemma RequiredBlankFails(f: Field, before: FieldView)
    requires f.required && AllWhitespace(f.value)
    ensures ValidateField(f, before) == Verdict(false, FieldView(true, Some(RequiredMessage)))
  {
    TrimEmptyIff(f.value);
  }

  /** The format checks only run on non-empty values, so a blank optional
      field is always valid. */
  lemma OptionalBlankPasses(f: Field, before: FieldView)
    requires !f.required && AllWhitespace(f.value)
    ensures ValidateField(f, before) == Verdict(true, Clean)
  {
    TrimEmptyIff(f.value);
  }

  /** The checks are exclusive and ordered: the e-mail message only for an
      `email` field, the phone message only for a `tel` field, and each only
      when the required check passed and the trimmed value is non-empty. */
  lemma MessagesBelongToTypes(f: Field, before: FieldView)
    ensures var r := ValidateField(f, before);
      && (r.view.errorMessage == Some(EmailMessage) <==>
            f.fieldType == "email" && Trim(f.value) != [] && !IsValidEmail(Trim(f.value)))
      && (r.view.errorMessage == Some(PhoneMessage) <==>
            f.fieldType == "tel" && Trim(f.value) != [] && !IsValidPhone(Trim(f.value)))
      && (r.view.errorMessage == Some(RequiredMessage) <==>
            f.required && Trim(f.value) == [])
  {
  }

  /** Surrounding whitespace never changes the outcome: only the trimmed value is checked. */
  lemma ValidateIgnoresSurroundingWhitespace(f: Field, before: FieldView)
    ensures ValidateField(f, before) == ValidateField(f.(value := Trim(f.value)), Clean)
  {
    TrimIdempotent(f.value);
  }

  /** The `input` listener: a field is revalidated only while it carries the
      error class. Typing never marks a clean field, a mark that stays means
      the current value fails a check, and fixing the value clears the mark. */
  function OnInput(f: Field, view: FieldView): (r: FieldView)
    ensures !view.errorClass ==> r == view
    ensures r.errorClass ==> view.errorClass && FieldError(f).Some?
    ensures view.errorClass && FieldError(f).None? ==> r == Clean
    ensures view.errorClass ==> r.errorMessage == FieldError(f)
  {
    if view.errorClass then ValidateField(f, view).view else view
  }

  /** The `blur` listener validates unconditionally. */
  function OnBlur(f: Field, view: FieldView): (r: FieldView)
    ensures r.errorClass <==> FieldError(f).Some?
    ensures r.errorMessage == FieldError(f)
  {
    ValidateField(f, view).view
  }

  /** Once a field has been validated, typing into it keeps the view in step with
      the current value: the view is the one a fresh validation would show. */
  lemma InputAfterBlurTracksValue(f: Field, g: Field, view: FieldView)
    ensures var v := OnBlur(f, view);
      v.errorClass ==> OnInput(g, v) == ValidateField(g, Clean).view
  {
  }
}
