# Email where specifications, modelled in Dafny

Mapex.Predicates.Email has three "where specifications". Each one is a predicate object that decides
whether a document's metadata matches configured regular-expression patterns. Each one can also
report which of its patterns are not configured.

- `FromWhereSpecification` tests the `"From"` metadata value against its `From` pattern.
- `FromSubjectWhereSpecification` extends it with a `"Subject"` test.
- `FromSubjectAttachmentWhereSpecification` extends that with an `"Attachment"` test.

Each level's `Matches` is `base.Matches(document) && <its own key test>`, evaluated with C#'s
short-circuit `&&`. Each level's `Validate` first runs the base validation and then appends its own
message when its pattern is null or empty.

How the model is laid out:

- `mapex.dfy` (module `Mapex`) holds the collaborators.
  - A document is `Option<Document>`, so a null document can be represented.
  - Its metadata is `Option<map<string, string>>`.
  - Patterns are `Option<string>`: `None` is a null property.
  - A call that returns `bool` or throws is an `Outcome`: `Returns(b)` or `Throws(e)`.
    The exceptions are `ArgumentNullException`, `NullReferenceException` and `RegexParseException`.
  - `AndAlso` is C#'s `&&` over outcomes. Short-circuiting shows up as a skipped right operand whose
    exception is never raised.
  - `KeyMatches` is the shared conjunct `document.Metadata.ContainsKey(key) && new Regex(pattern).IsMatch(document.Metadata[key])`.
    It includes the dereference of a null map, which throws `NullReferenceException`.
  - The .NET regex engine is a parameter, `RegexEngine(parses, isMatch)`, so nothing is assumed
    about it.
- `notus.dfy` (module `Notus`) holds the notification. It is a class whose `errors` sequence
  `AddError` extends in place.
- `from_where.dfy`, `from_subject_where.dfy` and `from_subject_attachment_where.dfy` hold one module
  per C# class.
  - Each specification is a datatype. Its methods never change its fields, and `Base()` gives the
    parent-class view of the same object.
  - `Matches` is a function.
  - `ValidationErrors` is the function that specifies what `Validate` appends.
  - `Validate` is a method that mutates the `Notification`.
- `field_conjunction.dfy` (module `FieldConjunction`) is an independent reference definition. It
  joins a list of (key, pattern) criteria by `&&` from left to right, and produces one validation
  message per unset pattern. Every level is proved equal to this reference on its own criteria
  list, and the general facts are proved once, by induction, on the reference.

## Model

| member | source | states |
|---|---|---|
| `Mapex.AndAlso` | src/Mapex.Predicates.Email/FromSubjectWhereSpecification.cs:12-14 | short-circuit `&&`: true iff both operands are true; when the left operand is true, the result is exactly the right operand, exception included; when it is not true, the result is the left operand, so the right operand's exception is never raised |
| `Mapex.RegexIsMatch` | src/Mapex.Predicates.Email/FromWhereSpecification.cs:19 | `new Regex(p).IsMatch(s)`: a null pattern throws `ArgumentNullException("pattern")`; it throws exactly when the pattern is null or does not parse; otherwise it is true iff the engine matches |
| `Mapex.KeyMatches` | src/Mapex.Predicates.Email/FromSubjectWhereSpecification.cs:13-14 | the key conjunct throws `NullReferenceException` iff the document or its map is null; a missing key gives false; it is true iff the key is present and its value satisfies the pattern; with the key present, the result is exactly `new Regex(pattern).IsMatch(value)`, including its null-pattern and parse exceptions; the pattern is reached (a null one throws) only when the key is present |
| `Mapex.IsNullOrEmpty` | src/Mapex.Predicates.Email/FromWhereSpecification.cs:24 | `string.IsNullOrEmpty`: true exactly for a null or an empty string |
| `Notus.Notification.AddError` | src/Mapex.Predicates.Email/FromWhereSpecification.cs:25 | `AddError` appends the message after every error already held |
| `Notus.Notification.HasErrors` | src/Mapex.Predicates.Email.Tests/FromWhereSpecificationTests.cs:89 | `HasErrors` is true exactly when at least one error has been added |
| `Notus.Notification.IncludesError` | src/Mapex.Predicates.Email.Tests/FromWhereSpecificationTests.cs:78 | `IncludesError(m)` is true exactly when some held error equals `m` |
| `FromWhere.FromWhereSpecification.Matches` | src/Mapex.Predicates.Email/FromWhereSpecification.cs:12-20 | a null document throws `ArgumentNullException("document")` and never gives false; a null map gives false; a missing `"From"` key gives false without the pattern being used; otherwise the result is the regex test of `From` on the `"From"` value; true iff the map is present and `"From"` satisfies `From`; never a `NullReferenceException` |
| `FromWhere.FromWhereSpecification.ValidationErrors` | src/Mapex.Predicates.Email/FromWhereSpecification.cs:22-26 | the From message is produced iff `From` is null or empty; no message otherwise; at most one |
| `FromWhere.FromWhereSpecification.Validate` | src/Mapex.Predicates.Email/FromWhereSpecification.cs:22-26 | the notification's new errors are its old errors followed by `ValidationErrors()`: append-only, earlier errors kept as a prefix, nothing else modified |
| `FromWhere.MatchesAgreesWithCriteria` | src/Mapex.Predicates.Email/FromWhereSpecification.cs:14-19 | `Matches` equals the reference conjunction over the single criterion (`"From"`, `From`) for every document and engine |
| `FromWhere.ValidationAgreesWithCriteria` | src/Mapex.Predicates.Email/FromWhereSpecification.cs:24-25 | the validation messages equal the reference messages for the criterion (`"From"`, `From`) |
| `FromWhere.ValidatedNeverNullPattern` | src/Mapex.Predicates.Email/FromWhereSpecification.cs:19-25 | when `Validate` would add no error, `Matches` never hands a null pattern to the regex constructor |
| `FromSubjectWhere.FromSubjectWhereSpecification.Base` | src/Mapex.Predicates.Email/FromSubjectWhereSpecification.cs:12-19 | the `base.` view used by `Matches` and `Validate` carries the same `From` |
| `FromSubjectWhere.FromSubjectWhereSpecification.Matches` | src/Mapex.Predicates.Email/FromSubjectWhereSpecification.cs:10-15 | refines the base (true implies base true); any non-true base outcome, including its null-document exception, is returned unchanged; after a true base, the result is the `"Subject"` key test; null map or missing `"From"` gives false; missing `"Subject"` gives false unless the base threw; true iff map present and both fields satisfy their patterns; never a `NullReferenceException` |
| `FromSubjectWhere.FromSubjectWhereSpecification.ValidationErrors` | src/Mapex.Predicates.Email/FromSubjectWhereSpecification.cs:17-23 | the base's messages come first (prefix); the From message iff `From` is unset and the Subject message iff `Subject` is unset; none iff both are set; exactly the one message of the single unset field when only one is unset; both, From first, when both are unset; at most two |
| `FromSubjectWhere.FromSubjectWhereSpecification.Validate` | src/Mapex.Predicates.Email/FromSubjectWhereSpecification.cs:17-23 | the notification's new errors are its old errors followed by `ValidationErrors()` |
| `FromSubjectWhere.MissingKeyPatternNotReached` | src/Mapex.Predicates.Email.Tests/FromSubjectWhereSpecificationTests.cs:20-40 | with a map present, a missing `"From"` gives false whatever the patterns; a missing `"Subject"` never gives true, and the result is unchanged if `Subject` is null, so an unset pattern whose key is missing is never reached |
| `FromSubjectWhere.MatchesAgreesWithCriteria` | src/Mapex.Predicates.Email/FromSubjectWhereSpecification.cs:12-14 | `Matches` equals the reference conjunction over [(`"From"`, `From`), (`"Subject"`, `Subject`)]; `(from && subject)` agrees with the list read left to right |
| `FromSubjectWhere.ValidationAgreesWithCriteria` | src/Mapex.Predicates.Email/FromSubjectWhereSpecification.cs:19-22 | the validation messages equal the reference messages for the same two criteria, in that order |
| `FromSubjectWhere.ValidatedNeverNullPattern` | src/Mapex.Predicates.Email/FromSubjectWhereSpecification.cs:12-22 | when `Validate` would add no error, `Matches` never hands a null pattern to the regex constructor |
| `FromSubjectAttachmentWhere.FromSubjectAttachmentWhereSpecification.Base` | src/Mapex.Predicates.Email/FromSubjectAttachmentWhereSpecification.cs:13-20 | the `base.` view used by `Matches` and `Validate` carries the same `From` and `Subject` |
| `FromSubjectAttachmentWhere.FromSubjectAttachmentWhereSpecification.Matches` | src/Mapex.Predicates.Email/FromSubjectAttachmentWhereSpecification.cs:11-16 | refines the From+Subject specification; any non-true base outcome is returned unchanged; after a true base, the result is the `"Attachment"` key test; null map gives false; true iff map present and all three fields satisfy their patterns; never a `NullReferenceException` |
| `FromSubjectAttachmentWhere.FromSubjectAttachmentWhereSpecification.ValidationErrors` | src/Mapex.Predicates.Email/FromSubjectAttachmentWhereSpecification.cs:18-24 | the From+Subject messages come first (prefix); each field's message is present iff that field is unset; none iff all three are set; for each of the eight combinations of unset fields, exactly their messages in the order From, Subject, Attachment; at most three |
| `FromSubjectAttachmentWhere.FromSubjectAttachmentWhereSpecification.Validate` | src/Mapex.Predicates.Email/FromSubjectAttachmentWhereSpecification.cs:18-24 | the notification's new errors are its old errors followed by `ValidationErrors()` |
| `FromSubjectAttachmentWhere.MissingKeyPatternNotReached` | src/Mapex.Predicates.Email.Tests/FromSubjectAttachmentWhereSpecificationTests.cs:20-51 | with a map present, a missing `"From"` gives false; a missing `"Subject"` or `"Attachment"` never gives true, and the result is unchanged if that field's pattern is null |
| `FromSubjectAttachmentWhere.MatchesAgreesWithCriteria` | src/Mapex.Predicates.Email/FromSubjectAttachmentWhereSpecification.cs:13-15 | `Matches` equals the reference conjunction over the From, Subject and Attachment criteria, in that order |
| `FromSubjectAttachmentWhere.ValidationAgreesWithCriteria` | src/Mapex.Predicates.Email/FromSubjectAttachmentWhereSpecification.cs:20-23 | the validation messages equal the reference messages for the three criteria, in field order |
| `FromSubjectAttachmentWhere.ValidatedNeverNullPattern` | src/Mapex.Predicates.Email/FromSubjectAttachmentWhereSpecification.cs:13-23 | when `Validate` would add no error, `Matches` never hands a null pattern to the regex constructor |
| `FieldConjunction.AllMatch` | src/Mapex.Predicates.Email/FromSubjectAttachmentWhereSpecification.cs:13-15 | reference conjunction: a true result means every criterion's key test returned true; any other result is the outcome of one of the criteria's key tests |
| `FieldConjunction.Matches` | src/Mapex.Predicates.Email/FromWhereSpecification.cs:14-17 | reference: a null document throws `ArgumentNullException("document")`; a null map gives false |
| `FieldConjunction.FirstUnsatisfied` | src/Mapex.Predicates.Email/FromSubjectAttachmentWhereSpecification.cs:13-15 | the index of the first criterion the map does not satisfy: every earlier criterion holds, and the one at the index does not |
| `FieldConjunction.AllMatchSnoc` | src/Mapex.Predicates.Email/FromSubjectWhereSpecification.cs:12-14 | appending a criterion to the list is the same as adding one more `&&` on the right, which is how each subclass extends its base |
| `FieldConjunction.AllMatchDecidedByFirstUnsatisfied` | src/Mapex.Predicates.Email/FromSubjectAttachmentWhereSpecification.cs:13-15 | over a present map, the outcome is true if every criterion holds; otherwise it is the key test of the first criterion that fails, so no later key or pattern is reached |
| `FieldConjunction.MatchesTrueIff` | src/Mapex.Predicates.Email.Tests/FromSubjectAttachmentWhereSpecificationTests.cs:86-95 | true iff the document and its map are present and every criterion's key is present with a value that satisfies its pattern |
| `FieldConjunction.MatchesNeverNullReference` | src/Mapex.Predicates.Email/FromSubjectWhereSpecification.cs:12-13 | the short-circuit guards every dereference of the map: no `NullReferenceException` is ever raised |
| `FieldConjunction.NullPatternReachedOnlyWithKey` | src/Mapex.Predicates.Email/FromWhereSpecification.cs:18-19 | a null pattern reaches the regex constructor only when the map is present, every earlier criterion held, and that criterion's key is present |
| `FieldConjunction.ValidatedNeverNullPattern` | src/Mapex.Predicates.Email/FromWhereSpecification.cs:19-25 | a criteria list with no missing-pattern message never throws `ArgumentNullException("pattern")` from `Matches` |
| `FieldConjunction.MissingErrors` | src/Mapex.Predicates.Email/FromSubjectAttachmentWhereSpecification.cs:20-23 | reference validation: at most one message per criterion |
| `FieldConjunction.MissingErrorsSnoc` | src/Mapex.Predicates.Email/FromSubjectWhereSpecification.cs:19-22 | appending a criterion appends its message, if any, after every earlier message |
| `FieldConjunction.MissingErrorsEmptyIff` | src/Mapex.Predicates.Email.Tests/FromSubjectAttachmentWhereSpecificationTests.cs:134-149 | no message iff every pattern is non-null and non-empty |
| `FieldConjunction.MissingErrorsIncludes` | src/Mapex.Predicates.Email.Tests/FromSubjectAttachmentWhereSpecificationTests.cs:101-132 | the message for a key is present iff some criterion with that key has a null or empty pattern |

## Left out

- The regular-expression engine is a parameter with no properties. The model says nothing about
  search versus anchored matching, case sensitivity, what an empty pattern matches, or which
  patterns parse.
- `RegexMatchTimeoutException` is not modelled. The source sets no match timeout.
- Metadata values are non-null strings. A null value would make `IsMatch(null)` throw
  `ArgumentNullException("input")`, and that case is not represented.
- The model reads the `Metadata` property of a document once per call. A getter that returns a
  different map on each read is not represented.
- The `From`, `Subject` and `Attachment` properties are settable. In the model a specification is an
  immutable value, and setting a property means building a new value. Neither method changes these
  properties, so this loses nothing for `Matches` or `Validate`.
- Virtual dispatch through `IWhereSpecification` is not modelled as such. Each class's overriding
  `Matches` and `Validate` is its own function or method. `Base()` is the parent-class view used for
  the `base.` calls.
- `Notification.HasErrors` and `IncludesError` appear only as non-emptiness of and membership in the
  error sequence. The rest of the external Notus library, the document interface and the metadata
  class are not part of this model.
- A null `notification` cannot be represented: `Notification` is a non-null class type. In the source,
  `Validate(null)` throws `NullReferenceException` at the first `AddError` call, when a field is unset.
- Compiling the regex on every call affects performance only, and is not modelled.
