/** The reset-password form: the code input filter, the ordered field
    checks, and what a submission sends and keeps. */
module ResetPasswordPage {
  import opened Wrappers
  import Text

  const CodeLength := 6
  const MinPasswordLength := 6

  /** `value.replace(/\D/g, "").slice(0, 6)`. */
  function CodeFilter(s: string): (r: string)
    ensures |r| <= CodeLength
    ensures forall k :: 0 <= k < |r| ==> Text.IsDigit(r[k])
    ensures |r| <= |Text.KeepDigits(s)| && r == Text.KeepDigits(s)[..|r|]
    ensures |Text.KeepDigits(s)| >= CodeLength ==> |r| == CodeLength
    ensures |Text.KeepDigits(s)| < CodeLength ==> r == Text.KeepDigits(s)
  {
    var digits := Text.KeepDigits(s);
    if |digits| <= CodeLength then digits else digits[..CodeLength]
  }

  /** Filtering what the filter produced changes nothing. */
  lemma CodeFilterIdempotent(s: string)
    ensures CodeFilter(CodeFilter(s)) == CodeFilter(s)
  {
    Text.KeepDigitsOfDigits(CodeFilter(s));
  }

  /** A typed string of digits up to six long passes unchanged. */
  lemma CodeFilterKeepsCodes(s: string)
    requires |s| <= CodeLength && forall k :: 0 <= k < |s| ==> Text.IsDigit(s[k])
    ensures CodeFilter(s) == s
  {
    Text.KeepDigitsOfDigits(s);
  }

  /** The four checks of `handleSubmit`, in their order. */
  datatype FormError = FieldsMissing | EmailInvalid | PasswordTooShort | PasswordMismatch

  /** The first failing check, or `None` when the form may be sent. */
  function Validate(email: string, code: string, newPassword: string, confirm: string): (r: Option<FormError>)
    ensures r == Some(FieldsMissing) <==> email == "" || code == "" || newPassword == "" || confirm == ""
    ensures r == Some(EmailInvalid) <==>
      email != "" && code != "" && newPassword != "" && confirm != "" && '@' !in email
    ensures r == Some(PasswordTooShort) <==>
      email != "" && code != "" && newPassword != "" && confirm != "" && '@' in email &&
      Text.Utf16Length(newPassword) < MinPasswordLength
    ensures r == Some(PasswordMismatch) <==>
      email != "" && code != "" && newPassword != "" && confirm != "" && '@' in email &&
      Text.Utf16Length(newPassword) >= MinPasswordLength && newPassword != confirm
    ensures r.None? <==>
      email != "" && code != "" && '@' in email && Text.Utf16Length(newPassword) >= MinPasswordLength && newPassword == confirm
  {
    if email == "" || code == "" || newPassword == "" || confirm == "" then Some(FieldsMissing)
    else if '@' !in email then Some(EmailInvalid)
    else if Text.Utf16Length(newPassword) < MinPasswordLength then Some(PasswordTooShort)
    else if newPassword != confirm then Some(PasswordMismatch)
    else None
  }

  /** The length check counts UTF-16 code units: three emoji make a
      six-unit password, which the form accepts. */
  lemma EmojiPasswordLongEnough()
    ensures Validate("a@b.c", "123456", "\U{1F600}\U{1F600}\U{1F600}", "\U{1F600}\U{1F600}\U{1F600}") == None
  {
    Text.EmojiCountTwice();
  }

  /** The server's answer: a network or JSON failure, or a status and body. */
  datatype Reply = NetworkFailure | Reply(ok: bool, success: bool, message: Option<string>)

  /** The error line the page shows. */
  datatype PageError =
    | Invalid(check: FormError)
    | ServerMessage(text: string)   // `data.message` of a failed response
    | ResetFailed                   // a failed response without a message
    | Unexpected                    // an OK response without `success`
    | NetworkError

  /** The form's state and the email remembered by the forgot-password page. */
  datatype Form = Form(
    email: string, code: string, newPassword: string, confirm: string,
    error: Option<PageError>, success: bool, savedEmail: Option<string>)

  /** The `reset-password` request body. */
  datatype Request = Request(email: string, code: string, newPassword: string)

  /** The first render: a remembered, non-empty email is filled in. */
  function Opened(savedEmail: Option<string>): (f: Form)
    ensures savedEmail.Some? && savedEmail.value != "" ==> f.email == savedEmail.value
    ensures savedEmail.None? || savedEmail == Some("") ==> f.email == ""
    ensures f.error.None? && !f.success && f.savedEmail == savedEmail
  {
    Form(if savedEmail.Some? && savedEmail.value != "" then savedEmail.value else "", "", "", "", None, false, savedEmail)
  }

  /** Typing in the code field. */
  function CodeTyped(f: Form, typed: string): (g: Form)
    ensures g == f.(code := CodeFilter(typed))
  {
    f.(code := CodeFilter(typed))
  }

  /** `handleSubmit`: the first failing check is shown and nothing is sent;
      otherwise the request is sent and the reply decides the outcome. */
  function Submit(f: Form, reply: Reply): (out: (Form, Option<Request>))
    ensures out.1.Some? <==> Validate(f.email, f.code, f.newPassword, f.confirm).None?
    ensures out.1.Some? ==> out.1.value == Request(f.email, f.code, f.newPassword)
    ensures Validate(f.email, f.code, f.newPassword, f.confirm).Some? ==>
      out.0 == f.(error := Some(Invalid(Validate(f.email, f.code, f.newPassword, f.confirm).value)), success := false)
    ensures out.0.success <==> out.1.Some? && reply.Reply? && reply.ok && reply.success
    ensures out.0.success <==> out.0.error.None?
    ensures out.0.savedEmail == (if out.0.success then None else f.savedEmail)
    ensures out.0.email == f.email && out.0.code == f.code
    ensures out.0.newPassword == f.newPassword && out.0.confirm == f.confirm
  {
    var cleared := f.(error := None, success := false);
    match Validate(f.email, f.code, f.newPassword, f.confirm)
    case Some(e) => (cleared.(error := Some(Invalid(e))), None)
    case None =>
      var sent := Some(Request(f.email, f.code, f.newPassword));
      match reply
      case NetworkFailure => (cleared.(error := Some(NetworkError)), sent)
      case Reply(ok, success, message) =>
        if !ok then
          (cleared.(error := Some(if message.Some? && message.value != "" then ServerMessage(message.value) else ResetFailed)), sent)
        else if success then (cleared.(success := true, savedEmail := None), sent)
        else (cleared.(error := Some(Unexpected)), sent)
  }

  /** A form whose code came through the input filter sends at most six
      digits. */
  lemma SentCodeIsFiltered(f: Form, typed: string, reply: Reply)
    ensures var out := Submit(CodeTyped(f, typed), reply);
      out.1.Some? ==>
        (|out.1.value.code| <= CodeLength && forall k :: 0 <= k < |out.1.value.code| ==> Text.IsDigit(out.1.value.code[k]))
  {
  }
}
