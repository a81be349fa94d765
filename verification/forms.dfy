/** The reactive form built by `initForm`: three controls (name, email,
    mobile) and their validators. A control's value is `None` once the form
    has been `reset()`, which Angular implements by setting every control
    back to `null`. */
module Forms {
  import opened Wrappers
  import opened Users

  datatype Form = Form(name: Option<string>, email: Option<string>, mobile: Option<string>)

  /** The value `initForm` gives every control: the empty string. */
  const Blank := Form(Some(""), Some(""), Some(""))

  /** The value every control holds after `userForm.reset()`. */
  const Cleared := Form(None, None, None)

  /** `userForm.setValue` with a record's name, email and mobile; the id and
      the creation time are not form fields. */
  function FromUser(u: User): (f: Form)
    ensures f.name.Some? && f.email.Some? && f.mobile.Some?
    ensures u.(name := f.name.value, email := f.email.value, mobile := f.mobile.value) == u
  {
    Form(Some(u.name), Some(u.email), Some(u.mobile))
  }

  /** Angular's notion of an empty control value: `null` or length zero. */
  predicate IsEmpty(v: Option<string>) {
    v.None? || |v.value| == 0
  }

  /** `Validators.required`. */
  predicate Required(v: Option<string>) {
    !IsEmpty(v)
  }

  /** `Validators.email`, which lets empty values through. Its regular
      expression is Angular's and is taken as the parameter `isEmail`. */
  predicate EmailPattern(v: Option<string>, isEmail: string -> bool) {
    IsEmpty(v) || isEmail(v.value)
  }

  predicate IsDigit(c: char) {
    '0' <= c <= '9'
  }

  /** The anchored regular expression `^[0-9]{n}$`, matched one character
      at a time from the left. */
  predicate MatchesDigitRun(s: string, n: nat) {
    if n == 0 then s == []
    else s != [] && IsDigit(s[0]) && MatchesDigitRun(s[1..], n - 1)
  }

  /** `Validators.pattern('^[0-9]{10}$')`, which lets empty values through. */
  predicate MobilePattern(v: Option<string>) {
    IsEmpty(v) || MatchesDigitRun(v.value, 10)
  }

  /** The mobile control's validity: required and matching the pattern. */
  predicate MobileValid(v: Option<string>) {
    Required(v) && MobilePattern(v)
  }

  /** A form is valid when each of its three controls is. */
  predicate FormValid(f: Form, isEmail: string -> bool) {
    && Required(f.name)
    && Required(f.email) && EmailPattern(f.email, isEmail)
    && MobileValid(f.mobile)
  }

  /** A mobile number as a person reads it: exactly ten ASCII digits. */
  predicate IsMobileNumber(s: string) {
    |s| == 10 && forall i :: 0 <= i < |s| ==> IsDigit(s[i])
  }

  /** `[0-9]{n}` matches exactly the strings of `n` digits. */
  lemma {:induction false} DigitRunMatchesDigits(s: string, n: nat)
    ensures MatchesDigitRun(s, n) <==> |s| == n && forall i :: 0 <= i < |s| ==> IsDigit(s[i])
  {
    if n != 0 && s != [] {
      DigitRunMatchesDigits(s[1..], n - 1);
      assert forall i :: 1 <= i < |s| ==> s[i] == s[1..][i - 1];
    }
  }

  /** The mobile control is valid iff it holds ten digits; an empty, reset or
      non-digit value is invalid. */
  lemma MobileValidIff(v: Option<string>)
    ensures MobileValid(v) <==> v.Some? && IsMobileNumber(v.value)
  {
    if v.Some? {
      DigitRunMatchesDigits(v.value, 10);
    }
  }

  /** A form is valid iff all three fields are present, name and email are
      non-empty, the email passes the email rule and the mobile number has
      ten digits. */
  lemma ValidFormFields(f: Form, isEmail: string -> bool)
    ensures FormValid(f, isEmail) <==>
              && f.name.Some? && |f.name.value| > 0
              && f.email.Some? && |f.email.value| > 0 && isEmail(f.email.value)
              && f.mobile.Some? && IsMobileNumber(f.mobile.value)
  {
    MobileValidIff(f.mobile);
  }

  /** Neither the form `initForm` builds nor a reset form can be submitted. */
  lemma EmptyFormsAreInvalid(isEmail: string -> bool)
    ensures !FormValid(Blank, isEmail) && !FormValid(Cleared, isEmail)
  {
  }

  /** Ten digits are accepted. */
  lemma TenDigitsAccepted()
    ensures MobileValid(Some("1234567890"))
  {
    var s := "1234567890";
    assert forall i :: 0 <= i < |s| ==> IsDigit(s[i]) by {
      assert s == ['1', '2', '3', '4', '5', '6', '7', '8', '9', '0'];
    }
    MobileValidIff(Some(s));
  }

  /** Too short, too long, a letter, empty and reset values are refused. */
  lemma OtherMobilesRefused()
    ensures !MobileValid(Some("12345"))
    ensures !MobileValid(Some("12345678901"))
    ensures !MobileValid(Some("12a4567890"))
    ensures !MobileValid(Some("")) && !MobileValid(None)
  {
    MobileValidIff(Some("12345"));
    MobileValidIff(Some("12345678901"));
    MobileValidIff(Some("12a4567890"));
    assert "12a4567890"[2] == 'a';
  }
}
