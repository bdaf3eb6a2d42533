# Email request validation and boolean storage encoding (LbhNotificationsApi)

This project models two small pieces of the notifications API in Dafny and
proves properties about them.

**`EmailRequestValidator.ValidateEmailRequest`** checks an email notification
request in a fixed order. The email must not be blank, then the service key,
then the template id. Blank means null, empty or whitespace only, as in .NET
`string.IsNullOrWhiteSpace`. Finally the email must match
`^([\w\.\-]+)@([\w\-]+)((\.(\w){2,3})+)$`. The first failed check throws a
`ValidationException` with its own message. If every check passes, the method
returns `true`. A null request throws a `NullReferenceException` at the
first field access. The model is the function
`EmailRequestValidator.ValidateEmailRequest`, which takes the request as an
`Option` and returns `Success(true)`, `Failure(ValidationException(message))`
or `Failure(NullReferenceException)`.

The regex is modelled twice:

- **Reference:** module `Regex` gives the meaning of the pattern as an
  abstract syntax tree with a matching relation. `EmailPattern.RegexMatches`
  adds the anchors.
- **Recogniser:** `EmailPattern.EmailMatches` is hand-written and executable.
  It reads a non-empty local part up to the first `@`, then a non-empty label
  up to the first `.`, then one or more segments. Each segment is a dot and two
  or three word characters.

The contract of `EmailPattern.EmailMatches` states that the two agree on
every string.

.NET's `$`, without the Multiline option, also matches just before a final
`\n`. Both models keep that behaviour. So `"jo@hackney.gov.uk\n"` passes the
blank check and is accepted, while any other whitespace in the email is
rejected.

.NET's `\w` is Unicode-aware (categories L, Mn, Nd, Pc). The model takes it as
a parameter `w: char -> bool`. The predicate `TextClasses.ValidWordClass`
states what the model assumes of `\w`:

- every ASCII letter, digit and `_` is in the class;
- `@`, `.`, `-` and every whitespace character are not;
- no character outside the Basic Multilingual Plane is. .NET stores such a
  character as two surrogate code units, and neither is a word character.

`IsWhiteSpace` is .NET's `char.IsWhiteSpace` table, written out, and
`IsNullOrWhiteSpace` is `string.IsNullOrWhiteSpace` built on it.

**`DynamoDbBooleanConverter`** stores a nullable boolean in DynamoDB:

- `ToEntry` turns null into a `DynamoDBNull` entry. It turns `true` and
  `false` into string primitives holding `"true"` and `"false"`. It fails with
  an invalid cast on any other object.
- `FromEntry` returns null for any entry that is not a primitive. For a
  primitive, it returns what the SDK's `Primitive.AsBoolean()` reads. That SDK
  method is passed in as the parameter `asBoolean`.

The class's doc comment says it converts enums. The model follows the code,
which converts booleans.

Modules: `Wrappers` (Option, Result), `TextClasses`, `Regex`, `EmailPattern`,
`EmailRequestValidator`, `DynamoDbBooleanConverter`.

## Model

| member | source | states |
|---|---|---|
| `EmailRequestValidator.ValidateEmailRequest` | LbhNotificationsApi/V1/Validators/EmailRequestValidator.cs:9-30 | A null request fails with a null-reference exception before any check. Otherwise a blank email fails with "Email cannot be blank". Otherwise a blank service key fails with "A service key must be provided". Otherwise a blank template id fails with "A template id must be provided". Only with all three present is the pattern consulted: a match gives `true`, anything else "Email invalid". A normal return is never `false`. |
| `EmailRequestValidator.AcceptedIffPatternMatches` | LbhNotificationsApi/V1/Validators/EmailRequestValidator.cs:11-29 | A request is accepted iff it is not null, its three fields are non-blank and .NET's anchored regex match succeeds on the email. It fails with "Email invalid" iff the fields are present and the match fails. |
| `EmailRequestValidator.PaddedEmailRejected` | LbhNotificationsApi/V1/Validators/EmailRequestValidator.cs:11-28 | An email that passes all three blank checks (email, service key, template id) but holds a whitespace character fails with "Email invalid". The one exception is a single newline at the very end. |
| `EmailRequestValidator.TrailingNewlineAccepted` | LbhNotificationsApi/V1/Validators/EmailRequestValidator.cs:11-29 | A well-formed address followed by one `\n` passes every check and yields `true`. |
| `TextClasses.AllWhiteSpace` | LbhNotificationsApi/V1/Validators/EmailRequestValidator.cs:11-19 | The front-to-back scan says yes exactly when every character of the string is whitespace. |
| `TextClasses.IsNullOrWhiteSpace` | LbhNotificationsApi/V1/Validators/EmailRequestValidator.cs:11-19 | A field counts as blank exactly when it is null or every character is whitespace; null and the empty string are blank. |
| `EmailPattern.RegexMatches` | LbhNotificationsApi/V1/Validators/EmailRequestValidator.cs:23-24 | `^…$` without the Multiline option: the match succeeds exactly when the pattern matches the whole email or the email less one final `\n`. |
| `EmailPattern.EmailMatches` | LbhNotificationsApi/V1/Validators/EmailRequestValidator.cs:23-25 | For every admissible `\w`, the executable recogniser the validator calls says yes exactly when `Regex.Match(...).Success` would. |
| `Regex.ClassMatches` | LbhNotificationsApi/V1/Validators/EmailRequestValidator.cs:23 | A character class such as `[\w\.\-]` matches exactly the one-character strings of its members. |
| `Regex.PlusClassMatches` | LbhNotificationsApi/V1/Validators/EmailRequestValidator.cs:23 | `[class]+` matches exactly the non-empty strings whose every character is in the class. |
| `Regex.SeqClassMatches` | LbhNotificationsApi/V1/Validators/EmailRequestValidator.cs:23 | A class followed by `b` matches a string iff its first character is in the class and `b` matches the rest. |
| `EmailPattern.LocalRunMatches` | LbhNotificationsApi/V1/Validators/EmailRequestValidator.cs:23 | `([\w\.\-]+)` matches exactly the non-empty runs of word characters, dots and hyphens. |
| `EmailPattern.LabelRunMatches` | LbhNotificationsApi/V1/Validators/EmailRequestValidator.cs:23 | `([\w\-]+)` matches exactly the non-empty runs of word characters and hyphens. |
| `EmailPattern.SegmentMatches` | LbhNotificationsApi/V1/Validators/EmailRequestValidator.cs:23 | `\.(\w){2,3}` matches exactly a dot followed by two or three word characters. |
| `EmailPattern.SegmentsMatch` | LbhNotificationsApi/V1/Validators/EmailRequestValidator.cs:23 | The recursive segment recogniser accepts exactly what `((\.(\w){2,3})+)` matches. |
| `EmailPattern.DomainMatches` | LbhNotificationsApi/V1/Validators/EmailRequestValidator.cs:23 | When `.` is not a word character, splitting at the first dot decides `([\w\-]+)((\.(\w){2,3})+)`. |
| `EmailPattern.ShapeMatches` | LbhNotificationsApi/V1/Validators/EmailRequestValidator.cs:23 | When `@` and `.` are not word characters, the recogniser accepts exactly the strings the pattern between `^` and `$` matches in full. |
| `EmailPattern.ShapeIntro` | LbhNotificationsApi/V1/Validators/EmailRequestValidator.cs:23 | A non-empty local part, `@`, a non-empty label and one or more segments always form an accepted address. |
| `EmailPattern.SegmentsChars` | LbhNotificationsApi/V1/Validators/EmailRequestValidator.cs:23 | The segments hold only dots and word characters. |
| `EmailPattern.DomainChars` | LbhNotificationsApi/V1/Validators/EmailRequestValidator.cs:23 | The text after `@` of an accepted address holds only word characters, hyphens and dots. |
| `EmailPattern.ShapeChars` | LbhNotificationsApi/V1/Validators/EmailRequestValidator.cs:23 | Every character of an accepted address is `@`, a word character, `.` or `-`, and `@` occurs exactly once. |
| `EmailPattern.ShapeHasNoWhiteSpace` | LbhNotificationsApi/V1/Validators/EmailRequestValidator.cs:23 | An address the pattern accepts in full contains no whitespace. |
| `EmailPattern.AtSignRequired` | LbhNotificationsApi/V1/Validators/EmailRequestValidator.cs:23 | An email without `@` is rejected. |
| `EmailPattern.SecondAtSignRejected` | LbhNotificationsApi/V1/Validators/EmailRequestValidator.cs:23 | An email with two `@` is rejected. |
| `EmailPattern.DotRequiredAfterAt` | LbhNotificationsApi/V1/Validators/EmailRequestValidator.cs:23 | An email with no `.` after its `@` is rejected. |
| `EmailPattern.SegmentsLastLength` | LbhNotificationsApi/V1/Validators/EmailRequestValidator.cs:23 | In `((\.(\w){2,3})+)`, the part after the last dot has two or three characters. |
| `EmailPattern.ShapeLastSegment` | LbhNotificationsApi/V1/Validators/EmailRequestValidator.cs:23 | The last segment of an accepted address has two or three characters. |
| `EmailPattern.LastSegmentLengthRejected` | LbhNotificationsApi/V1/Validators/EmailRequestValidator.cs:23 | An email of the form `u.v`, where `v` has no dot, does not end in a newline, and has fewer than two or more than three characters, is rejected, with or without one final newline appended. |
| `EmailPattern.WhiteSpaceRejected` | LbhNotificationsApi/V1/Validators/EmailRequestValidator.cs:23 | Whitespace anywhere in an email gets it rejected, except one newline at the very end. This covers spaces and leading or trailing padding. |
| `EmailPattern.TrailingNewline` | LbhNotificationsApi/V1/Validators/EmailRequestValidator.cs:23 | `$` matches before a final `\n`: an accepted address plus one newline is accepted, plus two newlines is not. |
| `EmailPattern.ExampleAccepted` | LbhNotificationsApi/V1/Validators/EmailRequestValidator.cs:23 | `jo.b@hackney.gov.uk` is accepted for every admissible `\w`. |
| `EmailPattern.ExampleNoDotRejected` | LbhNotificationsApi/V1/Validators/EmailRequestValidator.cs:23 | `jo@hackney` is rejected. |
| `EmailPattern.ExampleTwoAtRejected` | LbhNotificationsApi/V1/Validators/EmailRequestValidator.cs:23 | `jo@b@hackney.gov.uk` is rejected. |
| `EmailPattern.ExampleShortSegmentRejected` | LbhNotificationsApi/V1/Validators/EmailRequestValidator.cs:23 | `jo@hackney.k` is rejected. |
| `EmailPattern.ExamplePaddedRejected` | LbhNotificationsApi/V1/Validators/EmailRequestValidator.cs:23 | ` jo@hackney.gov.uk` (leading space) is rejected. |
| `DynamoDbBooleanConverter.ToEntry` | LbhNotificationsApi/V1/Infrastructure/Conventers/DynamoDbBooleanConverter.cs:11-22 | Null gives a `DynamoDBNull` entry and only null does. A boolean gives a string primitive whose value is exactly `"true"` or `"false"`, and `"true"` exactly when the boolean is true. Any other object fails with an invalid cast. |
| `DynamoDbBooleanConverter.FromEntry` | LbhNotificationsApi/V1/Infrastructure/Conventers/DynamoDbBooleanConverter.cs:24-28 | A non-primitive entry gives null. A primitive gives the SDK's boolean reading of it unchanged, or the SDK's failure. |
| `DynamoDbBooleanConverter.NullRoundTrip` | LbhNotificationsApi/V1/Infrastructure/Conventers/DynamoDbBooleanConverter.cs:11-28 | Storing null and reading it back gives null, whatever the SDK's reading is. |
| `DynamoDbBooleanConverter.BooleanRoundTrip` | LbhNotificationsApi/V1/Infrastructure/Conventers/DynamoDbBooleanConverter.cs:18-28 | Storing a boolean and reading it back gives the same boolean, if the SDK reads the string primitives `"true"` and `"false"` as the booleans they spell. |
| `DynamoDbBooleanConverter.ToEntryInjective` | LbhNotificationsApi/V1/Infrastructure/Conventers/DynamoDbBooleanConverter.cs:11-22 | Two inputs that both encode to the same entry are the same input. |

## Left out

- `LbhNotificationsApi/V1/Gateways/DynamoDbGateway.cs` is not part of this model. In this revision it is a template stub: `GetAll` returns an empty list, and `GetEntityById` blocks on the DynamoDB context's `LoadAsync` and maps the row with a factory that is not part of this model. The notification create, read-flag, filtered-listing and partial-update operations are not in this code, so they are not modelled.
- `LbhNotificationsApi/Startup.cs` is framework wiring (dependency injection, CORS, Swagger, versioning, logging, X-Ray) with no behaviour of its own to model.
- The test harnesses under `LbhNotificationsApi.Tests` depend on environment variables, an HTTP client and a local DynamoDB. That is I/O, so they are not modelled.
- `IGetByIdNotificationCase`, `ISendEmailNotificationUseCase` and `IEmailRequestValidator` only declare members, so there is no logic to model.
- The .NET regex engine is not modelled. The pattern's meaning is given by `Regex.Matches`. Regex match timeouts, capture groups and culture settings play no part in whether the match succeeds.
- `\w` is not enumerated over Unicode. It is the parameter `w`, and the proofs use only what `TextClasses.ValidWordClass` states about it.
- Strings are sequences of Unicode scalar values, not UTF-16 code units. A character outside the Basic Multilingual Plane is one element here and two surrogates in .NET. Both forms are rejected as non-word characters, so acceptance is unchanged.
- A .NET string may hold a lone UTF-16 surrogate, which no Dafny `char` can represent, so such emails cannot be given to the model. .NET's pattern rejects them (a surrogate is neither a word character, `.`, `-` nor `@`), so acceptance is not affected.
- The request's other fields are not modelled, because the validator does not read them.
- `Primitive.AsBoolean()` belongs to the AWS SDK and is not part of this model. `FromEntry` takes it as the parameter `asBoolean`.
- BooleanRoundTrip: proved only under the assumption that `asBoolean` reads `"true"` and `"false"` as the booleans they spell. The SDK's parsing is not part of this model.
- Open question: if the SDK read the string `"false"` as true, or expected only `"1"`/`"0"`, then `false` would not round-trip through this converter. The model cannot decide this.
- A null `entry` reference passed to `FromEntry` is not a separate case. Like every non-primitive entry, it gives null.
