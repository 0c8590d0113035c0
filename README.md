# HL7 FHIR OpenAPI facade: converter, validators, controller and middleware

This project models in Dafny the logic of an OpenAPI facade over a FHIR
server. Five pieces are modelled:

- **Observation converter** (`ObservationConverter`). It flattens a FHIR R4
  Observation into an `ObservationDto`. The source casts `value[x]` to
  `Quantity` and `effective[x]` to `FhirDateTime` without checking, and it
  dereferences elements that may be null. Here both choice types are tagged
  unions. Each way the conversion of a non-null observation throws is a
  `ConversionError`, including dateTime text that `ToDateTimeOffset` cannot
  read. The one exception is the range overflow listed under "Left out". The
  errors come in the order C# evaluates the statements.
- **Patient DTO validator** (`PatientDtoValidator`). It models the two
  FluentValidation rules `NotEmpty().NotEqual("string")` on the first and the
  last name.
- **CSV batch validator** (`PatientsCsvValidator`). It models `RuleForEach`,
  which lifts a row validator to a batch and tags each failure with its row.
  The row validator is a parameter.
- **Patient controller** (`PatientController`). It models the single-record
  actions with their BadRequest / NotFound / Ok rule, and the CSV upload
  (parse, validate, look up existing rows, `Except`, create, update). The
  patient service is a `PatientService` object. It appends each remote call
  to `log` and answers from reply functions of the call history and the call.
  So the order of calls and "no call on invalid input" can be stated.
- **Exception-handling middleware** (`ExceptionHandling`). A pure function
  `Handle` picks the status and the message from the exception's shape. The
  methods `HandleException` and `Invoke` change an `HttpResponse` object and
  are proved against `Handle`.
- **Guid to FHIR id** (`GuidExtensions`). It models the "n" format: 32
  lower-case hexadecimal digits. The model proves the format inverse
  `ParseFhirId` in both directions. It also proves that the id is the
  RFC 4122 string form with its hyphens removed.

Behaviour of the code worth noting:

- The upload creates the new rows and only then updates the existing ones (two
  awaited calls in sequence). They are not independent concurrent writes.
- An empty batch still calls the existence lookup, a create with no rows, and
  an update with whatever the lookup returned.
- The controller splits rows with `Except` on the rows themselves. It does not
  build a map from identifier to remote id. The service's reply is a list of
  rows.
- The list conversion of observations throws when any element fails. It does
  not skip the element, and it never returns a partial list.

## Model

| member | source | states |
|---|---|---|
| `GuidExtensions.ToFhirId` | src/Hl7.Fhir.Common.Core/Extensions/GuidExtensions.cs:7-10 | the id has exactly 32 characters, all lower-case hexadecimal digits (so no hyphens or braces) |
| `GuidExtensions.ToFhirIdOfNullable` | src/Hl7.Fhir.Common.Core/Extensions/GuidExtensions.cs:12-15 | null gives null; a value gives the same id as the non-nullable overload |
| `GuidExtensions.FhirIdIsStringFormWithoutHyphens` | src/Hl7.Fhir.Common.Core/Extensions/GuidExtensions.cs:9 | the id equals the RFC 4122 hyphenated string form with its separators removed |
| `GuidExtensions.ParseToFhirId` | src/Hl7.Fhir.Common.Core/Extensions/GuidExtensions.cs:9 | parsing the id gives back the Guid it was made from |
| `GuidExtensions.ToFhirIdOfParse` | src/Hl7.Fhir.Common.Core/Extensions/GuidExtensions.cs:9 | every string of 32 hex digits is the id of the Guid it parses to (the encoding is onto the 32-digit strings) |
| `GuidExtensions.ToFhirIdInjective` | src/Hl7.Fhir.Common.Core/Extensions/GuidExtensions.cs:9 | distinct Guids give distinct ids |
| `GuidExtensions.Hex` | src/Hl7.Fhir.Common.Core/Extensions/GuidExtensions.cs:9 | a field is printed with exactly its width of hex digits |
| `GuidExtensions.HexValueOfHex` | src/Hl7.Fhir.Common.Core/Extensions/GuidExtensions.cs:9 | reading back the digits of a field gives the field's value |
| `ObservationConverter.Convert` | src/Hl7.Fhir.Common.Contracts/Converters/ObservationToDtoCoverter.cs:22-39 | succeeds if and only if there is a code with at least one coding, a Quantity value with a number, and a dateTime effective whose text is a FHIR R4 dateTime, with the zone after a time optional, on a real calendar date (`ParsesAsDateTime`); then Id is the observation's id, System and Code come from the first coding, Name is `Code.Text`, Unit is the Quantity's `Code` (not its display unit), Value is its number, and Effective is the dateTime at offset +60 minutes; a null code, a non-Quantity value or a non-dateTime effective (such as a Period) fails with its own error, in the source's evaluation order |
| `ObservationConverter.UnparseableDateTimeFails` | src/Hl7.Fhir.Common.Contracts/Converters/ObservationToDtoCoverter.cs:36 | an observation that is fine in every other respect but whose dateTime text is not a date and time fails with `DateTimeUnparseable` |
| `ObservationConverter.DateTimeOfParts` | src/Hl7.Fhir.Common.Contracts/Converters/ObservationToDtoCoverter.cs:36 | a full dateTime is accepted exactly when its year is 0001-9999, its month 01-12, its day exists in that month of that year, and the rest after `T` is a time of day |
| `ObservationConverter.TimeOfParts` | src/Hl7.Fhir.Common.Contracts/Converters/ObservationToDtoCoverter.cs:36 | a time of day is accepted exactly when the hour is 00-23, the minute and the second 00-59, and it ends in an optional fraction and an optional zone (`Z` or an offset of at most 14 hours) |
| `ObservationConverter.TimeWithoutZoneAccepted` | src/Hl7.Fhir.Common.Contracts/Converters/ObservationToDtoCoverter.cs:36 | a time of day without a zone, with or without a fraction of a second, is accepted |
| `ObservationConverter.PartialDates` | src/Hl7.Fhir.Common.Contracts/Converters/ObservationToDtoCoverter.cs:36 | a year alone and a year with a month are accepted |
| `ObservationConverter.LeapDayInLeapYear` | src/Hl7.Fhir.Common.Contracts/Converters/ObservationToDtoCoverter.cs:36 | 29 February is accepted in a leap year |
| `ObservationConverter.NoLeapDayInCommonYear` | src/Hl7.Fhir.Common.Contracts/Converters/ObservationToDtoCoverter.cs:36 | 29 February is rejected in a common year |
| `ObservationConverter.DateTimeRejections` | src/Hl7.Fhir.Common.Contracts/Converters/ObservationToDtoCoverter.cs:36 | month 13, a two-digit year and free text are rejected |
| `ObservationConverter.LaterCodingsIgnored` | src/Hl7.Fhir.Common.Contracts/Converters/ObservationToDtoCoverter.cs:25 | codings after the first do not change the result |
| `ObservationConverter.ConvertAll` | src/Hl7.Fhir.Common.Contracts/Converters/ObservationToDtoCoverter.cs:41-49 | succeeds if and only if every element converts; then it has the same length and element i is `Convert(obs[i])` (an empty list gives an empty list); otherwise the error is that of the first failing element and no list is returned |
| `PatientDtoValidator.NameRule` | src/Hl7.Fhir.OpenAPI/Validators/PatientDtoValidator.cs:16 | no failure if and only if the name is non-null, has a non-white-space character and is not `"string"`; a null, empty or white-space name fails NotEmpty; `"string"` fails NotEqual; each failure names the property |
| `PatientDtoValidator.Validate` | src/Hl7.Fhir.OpenAPI/Validators/PatientDtoValidator.cs:10-18 | valid if and only if both names are accepted; a failure for FirstName exists if and only if the first name is rejected, and the same for LastName; failures name only those two properties |
| `PatientDtoValidator.OnlyNamesMatter` | src/Hl7.Fhir.OpenAPI/Validators/PatientDtoValidator.cs:10 | properties other than the two names never change the failures |
| `PatientDtoValidator.BothNamesReported` | src/Hl7.Fhir.OpenAPI/Validators/PatientDtoValidator.cs:16-17 | a blank first name and a placeholder last name give two failures, one per field |
| `PatientsCsvValidator.Validate` | src/Hl7.Fhir.OpenAPI/Validators/PatientsCsvValidator.cs:11 | each failure is tagged with a row of the batch and is one of that row's failures; failures come in row order |
| `PatientsCsvValidator.ValidIffEveryRowValid` | src/Hl7.Fhir.OpenAPI/Validators/PatientsCsvValidator.cs:11 | the batch is valid if and only if every row passes the row validator |
| `PatientsCsvValidator.FailuresOfEveryRow` | src/Hl7.Fhir.OpenAPI/Validators/PatientsCsvValidator.cs:11 | the batch failures tagged with row i are exactly the row validator's failures for row i, in order: every row is checked, even after a failing row |
| `PatientsCsvValidator.EmptyBatchValid` | src/Hl7.Fhir.OpenAPI/Validators/PatientsCsvValidator.cs:11 | an empty batch is valid |
| `PatientController.Except` | src/Hl7.Fhir.OpenAPI/Controllers/PatientController.cs:265 | no result row has the key of a row reported as existing, and no two result rows share a key |
| `PatientController.ExceptIsFirstOccurrencesOfMissingKeys` | src/Hl7.Fhir.OpenAPI/Controllers/PatientController.cs:265 | every parsed row whose key is not among the existing rows is represented in the result; the result is the first row of each such key, taken in the order of the parsed rows |
| `PatientController.UploadPartitionsRows` | src/Hl7.Fhir.OpenAPI/Controllers/PatientController.cs:264-268 | for any row equality, every parsed row is either created or reported as existing, never both |
| `PatientController.PatientDtoModelState` | src/Hl7.Fhir.OpenAPI/Startup.cs:67 | the model state of a `PatientDto` body is valid if and only if MVC recorded no errors of its own (binding, DataAnnotations attributes) and `PatientDtoValidator` accepts the DTO |
| `PatientController.OkOrNotFound` | src/Hl7.Fhir.OpenAPI/Controllers/PatientController.cs:66-71 | a null service reply gives NotFound with the message; any other reply gives Ok of the converted patient |
| `PatientController.CopyToMemoryStream` | src/Hl7.Fhir.OpenAPI/Controllers/PatientController.cs:250-255 | the bytes read from the stream are the uploaded file's bytes |
| `PatientController.PatientController.UploadPatients` | src/Hl7.Fhir.OpenAPI/Controllers/PatientController.cs:247-271 | no file: the action throws and calls nothing; only the first file is read; a failing batch gives BadRequest with the validation result and no service call; otherwise it makes exactly three calls in this order: the existence lookup on the parsed rows, create with `Except(rows, existing)`, update with the existing rows; Ok comes only after both writes |
| `PatientController.PatientController.CreatePatient` | src/Hl7.Fhir.OpenAPI/Controllers/PatientController.cs:60-78 | an invalid model state (including a DTO the validator rejects) gives BadRequest with the model-state errors and no call; otherwise one create call, then NotFound "The patient was not created" on null and Ok of the converted patient otherwise |
| `PatientController.PatientController.DeleteByIdentifier` | src/Hl7.Fhir.OpenAPI/Controllers/PatientController.cs:89-102 | an invalid model state gives BadRequest and no call; otherwise one delete call; false gives NotFound and true gives Ok, each with its message naming the identifier |
| `PatientController.PatientController.Get` | src/Hl7.Fhir.OpenAPI/Controllers/PatientController.cs:113-127 | an invalid model state gives BadRequest and no call; otherwise one list call; null gives NotFound, a list gives Ok of the converted list |
| `PatientController.PatientController.GetByIdentifier` | src/Hl7.Fhir.OpenAPI/Controllers/PatientController.cs:138-152 | an invalid model state gives BadRequest and no call; otherwise one search call; null gives NotFound naming the identifier, else Ok of the converted patient |
| `PatientController.PatientController.GetByResourceId` | src/Hl7.Fhir.OpenAPI/Controllers/PatientController.cs:163-177 | the same rule as above for the search by resource id |
| `PatientController.PatientController.UpdateMaritalStatus` | src/Hl7.Fhir.OpenAPI/Controllers/PatientController.cs:189-207 | an invalid model state gives BadRequest with the model-state errors and no call; otherwise one update call; null gives NotFound, else Ok of the converted patient |
| `PatientController.PatientController.UpdatePatient` | src/Hl7.Fhir.OpenAPI/Controllers/PatientController.cs:218-236 | as for create, with the update call and the message "The patient was not updated" |
| `ExceptionHandling.ReportedMessage` | src/Hl7.Fhir.OpenAPI/Middleware/ExceptionHandling.cs:49-53 | the inner exception's message when there is one that is not null or white space; otherwise the exception's own message |
| `ExceptionHandling.FirstErrorDiagnostics` | src/Hl7.Fhir.OpenAPI/Middleware/ExceptionHandling.cs:58-59 | null when no issue has severity Error; otherwise the diagnostics of the first issue with severity Error |
| `ExceptionHandling.Handle` | src/Hl7.Fhir.OpenAPI/Middleware/ExceptionHandling.cs:45-62 | any other type: status 500 and the reported message; exact type `FhirOperationException`: status 400 and the first error's diagnostics, ignoring any inner message; the error carries the status, the picked text, the type name and the request path, in the order of `ApiError`'s constructor; a `FhirOperationException` without an outcome makes the handler itself throw |
| `ExceptionHandling.StatusByExactType` | src/Hl7.Fhir.OpenAPI/Middleware/ExceptionHandling.cs:54-60 | the status is 400 exactly when the runtime type is `FhirOperationException` itself (subclasses get 500) |
| `ExceptionHandling.FhirMessageIgnoresInner` | src/Hl7.Fhir.OpenAPI/Middleware/ExceptionHandling.cs:55-61 | for a `FhirOperationException` the inner exception does not affect the result |
| `ExceptionHandling.HandleException` | src/Hl7.Fhir.OpenAPI/Middleware/ExceptionHandling.cs:45-68 | the content type becomes `application/json`; the status and the written error are those `Handle` picks; when the handler throws, the status stays 500 and nothing is written |
| `ExceptionHandling.Invoke` | src/Hl7.Fhir.OpenAPI/Middleware/ExceptionHandling.cs:25-37 | without a downstream exception the response is untouched and nothing escapes; with one, the response is as `HandleException` leaves it and only the handler's own exception escapes |

## Left out

- Async/await, `ConfigureAwait`, logging, JSON serialisation of the `ApiError`,
  and the `FhirClient` network calls. The response body holds the `ApiError`
  record, not its JSON text.
- The constructor's `_fhirService.Initialize()` call and all dependency
  injection, Swagger, CORS and versioning wiring.
- `ParsePatients`, `ExistingPatientsAsync`, the bulk create and update, and
  the single-record service calls are not among the modelled files. The
  service answers through reply functions given to its constructor. A remote
  call that throws is not modelled: each call returns. `ParsePatients`
  throwing on a malformed file is not modelled either, since `parse` always
  returns rows. Neither is `ExistingPatientsAsync` returning null, which
  would make `Except` throw `ArgumentNullException`: the lookup always
  returns a list.
- `PatientCsvValidator` (the row validator) is a parameter of the batch
  validator and of the controller.
- The equality `Except` uses on `PatientCsv` is not part of this model. It is
  a key function given to the controller (`rowKey`), and every property holds
  for any key. Rows are values here, so any key treats two identical rows as
  equal. If `PatientCsv` compares by reference, `Except` keeps both copies
  of a line repeated in the file, where the model creates only the first.
- The classes `PatientDto`, `PatientCsv`, `Patient` and `PatientDetailDto`
  are not part of this model. The DTO keeps its two names and a map of other
  properties. A CSV row keeps its identifier and its other cells. `Patient`
  and the detail DTO are type parameters, and their converters are functions
  given to the controller.
- `ModelStateErrors()` of the base controller is not part of this model.
  BadRequest carries the model state itself.
- `ObservationConverter.Convert`: calendar arithmetic is not modelled. The
  DTO's `Effective` pairs the source dateTime text with the fixed offset
  +60 minutes, and does not compute a `DateTimeOffset`. Decimal values are
  exact reals.
- `ObservationConverter.Convert`: a null observation (`NullReferenceException`)
  and a null list (`ArgumentNullException`) are not modelled, because
  observations and lists are values here.
- `ObservationConverter.Convert`: the SDK's `ToDateTimeOffset` parser is not
  part of this model. The model takes it to accept the FHIR R4 `dateTime`
  syntax with the zone after a time made optional, on real calendar dates,
  with seconds below 60, and to throw `FormatException` otherwise. Where
  the SDK places a time without a zone (in the offset passed to it, or in
  UTC) depends on the SDK version and is not modelled. The overflow of `ToOffset` at the very
  ends of the `DateTimeOffset` range (years 1 and 9999) is not modelled.
- `ObservationConverter.TimeOfParts`: the syntax is the FHIR R4 `dateTime`
  grammar with the zone made optional. The SDK's parser may accept text
  this grammar rejects, and the model does not capture that.
- `ObservationConverter.DateTimeRejections`: rejection is stated against the
  same grammar, so it carries the same caveat about the SDK's parser.
- `ObservationConverter.Convert`: Quantity subtypes are not distinguished.
  R4 does not allow them as `Observation.value[x]`.
- `ExceptionHandling.Invoke`: `HttpResponse` has no "response has started"
  state. So the case where the downstream already began writing is not
  modelled. There the content-type and status setters throw
  `InvalidOperationException` out of the handler.
- The `ApiError` class is not part of this model. Its fields are named by
  constructor position. `NotFoundError` passes a status description second
  and a message third, so the handler's text lands in `statusDescription`
  and the exception type's name lands in `message`.
- `GuidExtensions.ToFhirId`: the Guid is given by its RFC 4122 fields.
  How .NET stores those fields in memory, and how a Guid is built from a byte
  array, are not modelled.
