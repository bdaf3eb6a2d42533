/** `EmailRequestValidator.ValidateEmailRequest`: three blank checks in a
    fixed order, then the email pattern. Each failure is the exception the
    source throws; a normal return is `true`. */
module EmailRequestValidator {
  import opened Wrappers
  import opened TextClasses
  import opened EmailPattern

  /** The fields of the request that the validator reads; `None` is null. */
  datatype EmailNotificationRequest = EmailNotificationRequest(
    email: Option<string>,
    serviceKey: Option<string>,
    templateId: Option<string>)

  /** What the validator throws: a `ValidationException` with its message,
      or the `NullReferenceException` raised by reading a field of a null
      request. */
  datatype ValidatorException =
    | ValidationException(message: string)
    | NullReferenceException

  const EmailBlank := "Email cannot be blank"
  const ServiceKeyMissing := "A service key must be provided"
  const TemplateIdMissing := "A template id must be provided"
  const EmailInvalid := "Email invalid"

  /** The three blank checks passed, so the pattern check is reached. */
  predicate FieldsPresent(request: EmailNotificationRequest)
  {
    && !IsNullOrWhiteSpace(request.email)
    && !IsNullOrWhiteSpace(request.serviceKey)
    && !IsNullOrWhiteSpace(request.templateId)
  }

  /** `w` is the meaning of `\w` in the pattern; `None` is a null request. */
  function ValidateEmailRequest(w: char -> bool, request: Option<EmailNotificationRequest>)
    : (r: Result<bool, ValidatorException>)
    // a normal return never yields false
    ensures r.Success? ==> r.value
    // a null request fails on its first field access, before any check
    ensures request.None? ==> r == Failure(NullReferenceException)
    // the first failing check, in the order email, service key, template id,
    // decides the message
    ensures request.Some? && IsNullOrWhiteSpace(request.value.email) ==>
              r == Failure(ValidationException(EmailBlank))
    ensures && request.Some? && !IsNullOrWhiteSpace(request.value.email)
            && IsNullOrWhiteSpace(request.value.serviceKey) ==>
              r == Failure(ValidationException(ServiceKeyMissing))
    ensures && request.Some? && !IsNullOrWhiteSpace(request.value.email)
            && !IsNullOrWhiteSpace(request.value.serviceKey)
            && IsNullOrWhiteSpace(request.value.templateId) ==>
              r == Failure(ValidationException(TemplateIdMissing))
    // the pattern is consulted only once all three fields are present
    ensures request.Some? && FieldsPresent(request.value) ==>
              r == if EmailMatches(w, request.value.email.value) then Success(true)
                   else Failure(ValidationException(EmailInvalid))
  {
    match request
    case None => Failure(NullReferenceException)
    case Some(req) =>
      if IsNullOrWhiteSpace(req.email) then
        Failure(ValidationException(EmailBlank))
      else if IsNullOrWhiteSpace(req.serviceKey) then
        Failure(ValidationException(ServiceKeyMissing))
      else if IsNullOrWhiteSpace(req.templateId) then
        Failure(ValidationException(TemplateIdMissing))
      else if !EmailMatches(w, req.email.value) then
        Failure(ValidationException(EmailInvalid))
      else
        Success(true)
  }

  /** A request is accepted exactly when it is not null, its three fields
      are present and .NET's `Regex.Match` succeeds on the email. */
  lemma AcceptedIffPatternMatches(w: char -> bool, request: Option<EmailNotificationRequest>)
    requires ValidWordClass(w)
    ensures ValidateEmailRequest(w, request) == Success(true) <==>
              && request.Some? && FieldsPresent(request.value)
              && RegexMatches(w, request.value.email.value)
    ensures ValidateEmailRequest(w, request) == Failure(ValidationException(EmailInvalid)) <==>
              && request.Some? && FieldsPresent(request.value)
              && !RegexMatches(w, request.value.email.value)
  {
  }

  /** An address padded with whitespace passes the blank check and then
      fails the pattern (a single final newline excepted, see
      `TrailingNewlineAccepted`). */
  lemma PaddedEmailRejected(w: char -> bool, request: EmailNotificationRequest, i: nat)
    requires ValidWordClass(w)
    requires FieldsPresent(request)
    requires var e := request.email.value;
             i < |e| && IsWhiteSpace(e[i]) && !(i == |e| - 1 && e[i] == '\n')
    ensures ValidateEmailRequest(w, Some(request)) == Failure(ValidationException(EmailInvalid))
  {
    WhiteSpaceRejected(w, request.email.value, i);
  }

  /** `$` also matches before a final newline, so an address followed by
      one newline is accepted. */
  lemma TrailingNewlineAccepted(w: char -> bool, request: EmailNotificationRequest, e: string)
    requires ValidWordClass(w)
    requires !IsNullOrWhiteSpace(request.serviceKey) && !IsNullOrWhiteSpace(request.templateId)
    requires IsEmailShape(w, e)
    requires request.email == Some(e + ['\n'])
    ensures ValidateEmailRequest(w, Some(request)) == Success(true)
  {
    TrailingNewline(w, e);
    var at := IndexOf(e, '@');
    assert (e + ['\n'])[at] == '@';
    assert !IsWhiteSpace('@');
  }
}
