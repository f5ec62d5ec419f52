# User service: store, validation engine and update pipeline

This project models the core of a small user-management service. The service keeps
users (first name, last name, email, birth date, optional address and phone number).
It creates, reads, fully or partially updates and deletes them, and lists them by
birth-date range. Email and phone number must be unique, and every request passes a
table of field rules before it reaches the store.

The model has these parts:

- `UserService.UserServiceImpl` is a class that owns the store. The store is a map from
  id to row plus the next id the identity column hands out. A ghost log records every
  repository call in order. The class keeps a store invariant: every row sits under its
  own id, and email and phone number are unique.
- Each operation of the service implementation is a method or function of the class.
  Its contract gives the full outcome for every branch: the error or the written row,
  the new store and the repository calls made.
- The validation engine is modelled as pure functions:
  - the email pattern, as a recogniser proved equal to a declarative reading of the
    regular expression;
  - the birth-date rule, with the clock's current date passed in as `today`;
  - the null-or-not-blank rule, using Java's `String.trim`;
  - the rule table of the request DTO, as an ordered list of rules.
- The two loops that build error reports are methods with loop invariants, proved
  against functions that specify them:
  - the service's own `validateFields`, which builds one message with a string builder;
  - the stand-alone `FieldsValidation`, which builds a list of entries.
- `User`, the request DTO and the response DTO are datatypes. The object-mapper copies
  are explicit functions, with their round trips proved.

Files, in dependency order:
- `common.dfy`: option and result types, the error kinds and their HTTP status, the
  fixed message prefixes, and Java's decimal rendering of an id.
- `dates.dfy`: calendar dates, `minusYears` with its Feb 29 clamp, and the date order.
- `text.dfy`: Java `trim`.
- `email_validator.dfy`, `date_validator.dfy`, `null_or_not_blank.dfy`: the three
  custom validators.
- `user.dfy`: the entity, the DTOs, the field copies and the partial-update overlay.
- `request_rules.dfy`: the annotation rule table.
- `fields_validation.dfy`: the `FieldsValidation` component.
- `user_service.dfy`: the service implementation.

### Behaviour worth knowing

- **Null phone numbers.** The repository's derived query `findByPhoneNumber(null)`
  matches rows whose phone number is null. `checkPhoneUnique` is called
  unconditionally on create. So a second user created without a phone number is
  refused as a duplicate (`UserService.NullPhoneIsTaken`). The store invariant
  therefore treats null as one phone value that may appear at most once.
- **Updates of a row without a phone number.** Both updates call `equals` on the
  stored phone number. When that number is null, the update fails with a
  null-dereference exception. The model keeps this as the `NullDereference` outcome
  (HTTP 500), after the not-found, validation and email steps that come first.
- **The exception on a duplicate.** The Javadoc of the partial update names
  `IllegalArgumentException` for duplicates. The code throws `AlreadyExists`, which
  is a 409. The model reports `Conflict`.

## Model

| member | source | states |
|---|---|---|
| `Common.Status` | src/main/java/com/dev/solution/exception/AlreadyExists.java:6-8 | each error kind carries its own status, in both directions: not found 404 (NotFoundException.java:7), duplicate 409 (AlreadyExists.java:7), invalid input 400 (NotValidFields.java:7), a null dereference 500 |
| `Common.DecimalString` | src/main/java/com/dev/solution/service/impl/UserServiceImpl.java:44 | the id in the not-found message is Java's decimal rendering: the digits of the id, after a '-' exactly when the id is negative |
| `Common.Digits` | src/main/java/com/dev/solution/service/impl/UserServiceImpl.java:44 | an id's decimal rendering is a non-empty run of digit characters with no leading zero (it starts with '0' only for 0) |
| `Common.DigitsRoundTrip` | src/main/java/com/dev/solution/service/impl/UserServiceImpl.java:44 | reading the rendered digits back gives the id, so the not-found message names the id that was asked for |
| `Dates.MinusYears` | src/main/java/com/dev/solution/utils/validation/DateValidator.java:23 | `minusYears` keeps month and day and moves the year, except that Feb 29 becomes Feb 28 in a non-leap year; the result is a valid date |
| `Dates.DaysInMonth` | src/main/java/com/dev/solution/utils/validation/DateValidator.java:23 | April, June, September and November have 30 days, February 29 in leap years and 28 otherwise, every other month 31 |
| `Dates.NextDayIsSuccessor` | src/main/java/com/dev/solution/utils/validation/DateValidator.java:24 | the next day is after the date, and nothing lies strictly between them |
| `Dates.PrevDayIsPredecessor` | src/main/java/com/dev/solution/utils/validation/DateValidator.java:24 | the previous day is before the date, and nothing lies strictly between them |
| `Dates.NextDay` | src/test/java/com/dev/solution/utils/validation/DateValidatorTest.java:29 | `plusDays(1)` of a valid date is a valid date; `Dates.NextDayIsSuccessor` shows it is the next one |
| `Dates.PrevDay` | src/test/java/com/dev/solution/utils/validation/DateValidatorTest.java:24 | `minusDays(1)` of a valid date is a valid date; `Dates.PrevDayIsPredecessor` shows it is the previous one |
| `Dates.IsBeforeTotal` | src/main/java/com/dev/solution/utils/validation/DateValidator.java:24 | `isBefore` is irreflexive, transitive and total on distinct dates |
| `Text.Trim` | src/main/java/com/dev/solution/utils/validation/NullOrNotBlankValidation.java:16 | `trim` returns a slice of the input with only characters at or below U+0020 dropped from either end, and the slice starts and ends above U+0020 when it is non-empty |
| `Text.TrimEmptyIff` | src/main/java/com/dev/solution/utils/validation/NullOrNotBlankValidation.java:16 | the trimmed text is empty exactly when the input has no character above U+0020 |
| `Text.NotBlank` | src/main/java/com/dev/solution/model/dto/UserRequestDto.java:14-24 | `@NotBlank` holds exactly when the value is present and has a character above U+0020 |
| `EmailValidator.RecogniseIffPattern` | src/main/java/com/dev/solution/utils/validation/EmailValidator.java:11 | the recogniser, which splits at the first '@' and the last '.', accepts exactly the strings the anchored pattern matches |
| `EmailValidator.IsValid` | src/main/java/com/dev/solution/utils/validation/EmailValidator.java:20-22 | null is rejected, and a present address passes exactly when the whole string matches the pattern |
| `EmailValidator.ExactlyOneAt` | src/main/java/com/dev/solution/utils/validation/EmailValidator.java:20-22 | an accepted address has exactly one '@', and it is not the first character |
| `EmailValidator.AcceptsPlainAddress` | src/test/java/com/dev/solution/utils/validation/EmailValidatorTest.java:19-21 | "test@example.com" is accepted |
| `EmailValidator.AcceptsPlusAddress` | src/test/java/com/dev/solution/utils/validation/EmailValidatorTest.java:19-21 | "test+123@e.com" is accepted |
| `EmailValidator.RejectedVectors` | src/test/java/com/dev/solution/utils/validation/EmailValidatorTest.java:25-37 | an address without a dot, one without an '@', one without a dot in the domain, the empty string and null are all rejected |
| `DateValidator.IsValid` | src/main/java/com/dev/solution/utils/validation/DateValidator.java:22-25 | null is rejected, and a birth date passes exactly when the person's age in whole years today is at least the configured age |
| `DateValidator.ThresholdIffOldEnough` | src/main/java/com/dev/solution/utils/validation/DateValidator.java:23-24 | lying on or before the date `age` years ago means having completed at least `age` whole years, 29 February birthdays included |
| `DateValidator.NullRejected` | src/main/java/com/dev/solution/utils/validation/DateValidator.java:24 | a null birth date never passes |
| `DateValidator.ThresholdBoundary` | src/test/java/com/dev/solution/utils/validation/DateValidatorTest.java:22-40 | the date exactly `age` years ago passes and so does the day before it; the day after it is rejected |
| `DateValidator.ThresholdFollowsAge` | src/main/java/com/dev/solution/utils/validation/DateValidator.java:23-24 | the threshold date passes under `age` and fails under `age + 1` |
| `NullOrNotBlankValidation.IsValid` | src/main/java/com/dev/solution/utils/validation/NullOrNotBlankValidation.java:15-17 | null passes, and a present value passes exactly when it has a character above U+0020 |
| `NullOrNotBlankValidation.TestVectors` | src/test/java/com/dev/solution/utils/validation/NullOrNotBlankValidationTest.java:15-27 | null and "correct" pass; "" and "  " are rejected |
| `Users.Project` | src/main/java/com/dev/solution/service/impl/UserServiceImpl.java:43-45 | the response copies all seven fields of the row |
| `Users.ToRequestDto` | src/main/java/com/dev/solution/service/impl/UserServiceImpl.java:113 | the request form of a row has every required field present and holds the row's six values |
| `Users.FromRequestDto` | src/main/java/com/dev/solution/service/impl/UserServiceImpl.java:116-117 | the row built from a complete request has the given id and gives back that request |
| `Users.RequestDtoRoundTrip` | src/main/java/com/dev/solution/service/impl/UserServiceImpl.java:113-117 | a row survives the trip through its request form under its own id, and a complete request survives the trip through a row |
| `Users.Overlay` | src/main/java/com/dev/solution/service/impl/UserServiceImpl.java:114 | each property named in the body takes the body's value, an explicit null included; every other property keeps its value |
| `Users.OverlayIdentityAndIdempotent` | src/main/java/com/dev/solution/service/impl/UserServiceImpl.java:114 | an empty body changes nothing, and applying a body twice equals applying it once |
| `Users.OverlayFirstNameOnly` | src/main/java/com/dev/solution/service/impl/UserServiceImpl.java:113-114 | overriding only the first name keeps every other field of the row |
| `RequestRules.Rule` | src/main/java/com/dev/solution/model/dto/UserRequestDto.java:14-35 | a rule yields no violation when it holds, and exactly the violation of its path and message when it fails |
| `RequestRules.Violations` | src/main/java/com/dev/solution/model/dto/UserRequestDto.java:14-35 | validation yields at most eleven violations, one per annotation, each on one of the six property paths |
| `RequestRules.RequiredViolations` | src/main/java/com/dev/solution/model/dto/UserRequestDto.java:14-29 | the rules of the four required fields yield at most nine violations, each on one of those four paths |
| `RequestRules.NameViolations` | src/main/java/com/dev/solution/model/dto/UserRequestDto.java:14-20 | a name's @NotNull and @NotBlank yield at most two violations, all on that name's path |
| `RequestRules.EmailViolations` | src/main/java/com/dev/solution/model/dto/UserRequestDto.java:22-25 | the email's three annotations yield at most three violations, all on the email path |
| `RequestRules.BirthDateViolations` | src/main/java/com/dev/solution/model/dto/UserRequestDto.java:27-29 | the birth date's two annotations yield at most two violations, all on the birth-date path |
| `RequestRules.NameGroupExact` | src/main/java/com/dev/solution/model/dto/UserRequestDto.java:14-20 | a name's list exactly, each failed annotation once: both messages for null, none when it has a visible character, the blank message alone otherwise |
| `RequestRules.EmailGroupExact` | src/main/java/com/dev/solution/model/dto/UserRequestDto.java:22-25 | the email's list exactly: all three messages for null; otherwise the blank message when it has no visible character, then the format message when it does not match the pattern |
| `RequestRules.BirthDateGroupExact` | src/main/java/com/dev/solution/model/dto/UserRequestDto.java:27-29 | the birth date's list exactly: both messages for null; for a present date the age message alone when its holder is under `age` whole years, and nothing otherwise |
| `RequestRules.OnlyOwnGroup` | src/main/java/com/dev/solution/model/dto/UserRequestDto.java:14-29 | a violation on a required field's path is reported exactly when that field's own annotations report it; no other field's rules can |
| `RequestRules.NameRules` | src/main/java/com/dev/solution/model/dto/UserRequestDto.java:14-20 | a name's null message is reported exactly when it is null, its blank message exactly when it is null or has no character above U+0020, whatever the other fields hold |
| `RequestRules.EmailRules` | src/main/java/com/dev/solution/model/dto/UserRequestDto.java:22-25 | the email's null message exactly when it is null, its blank message exactly when it is null or blank, its format message exactly when it is null or does not match the pattern |
| `RequestRules.BirthDateRules` | src/main/java/com/dev/solution/model/dto/UserRequestDto.java:27-29 | the birth date's null message exactly when it is null; a null date also gets the age message, and a present date gets it exactly when its holder is under `age` whole years |
| `RequestRules.Passes` | src/main/java/com/dev/solution/model/dto/UserRequestDto.java:14-35 | a request that passes every annotation has every column a row requires |
| `RequestRules.NoViolationsIffPasses` | src/main/java/com/dev/solution/model/dto/UserRequestDto.java:14-35 | the rule table yields nothing exactly when every annotation holds, and a passing request has every column a row requires |
| `RequestRules.NullNameReportsBoth` | src/main/java/com/dev/solution/model/dto/UserRequestDto.java:14-20 | a null first or last name breaks both its not-null and its not-blank rule |
| `RequestRules.NullEmailAndBirthDateReportAll` | src/main/java/com/dev/solution/model/dto/UserRequestDto.java:22-29 | a null email breaks all three of its rules; a null birth date breaks both of its rules |
| `RequestRules.OptionalFieldsRule` | src/main/java/com/dev/solution/model/dto/UserRequestDto.java:31-35 | a null address or phone number is never reported; a present one is reported exactly when it is blank |
| `RequestRules.EmptyRequestViolations` | src/test/java/com/dev/solution/controller/UserControllerTest.java:204-224 | the request with only an empty address and phone number yields exactly eleven violations, in rule order, each with its path and message |
| `RequestRules.EmptyRequestMessages` | src/test/java/com/dev/solution/controller/UserControllerTest.java:434-448 | the messages of the eleven-violation list are the expected texts, in order |
| `RequestRules.EmptyRequestReportsEleven` | src/test/java/com/dev/solution/controller/UserControllerTest.java:434-448 | read as messages, those eleven are the eleven expected texts, with the blank-field message twice |
| `RequestRules.SampleRequestPasses` | src/test/java/com/dev/solution/controller/UserControllerTest.java:461-469 | the sample request passes every rule whenever its holder, born 1 January 1995, is at least the configured age today |
| `FieldsValidation.Entry` | src/main/java/com/dev/solution/utils/validation/FieldsValidation.java:27 | an entry is the property path, then ": ", then the message |
| `FieldsValidation.CollectEntries` | src/main/java/com/dev/solution/utils/validation/FieldsValidation.java:25-28 | the loop yields one entry per violation, in iteration order |
| `FieldsValidation.ValidateFields` | src/main/java/com/dev/solution/utils/validation/FieldsValidation.java:22-31 | validation passes exactly when there is no violation; otherwise it throws with one entry per violation |
| `FieldsValidation.EveryViolationListed` | src/main/java/com/dev/solution/utils/validation/FieldsValidation.java:25-29 | every violation's entry is in the thrown list, and the list holds nothing else |
| `UserService.WritePreservesInvariant` | src/main/java/com/dev/solution/model/User.java:27-41 | writing a row whose email and phone number are kept, or were looked up and found free, keeps every row under its id and both columns unique |
| `UserService.LookupsMatchOneRow` | src/main/java/com/dev/solution/repository/UserRepository.java:19-21 | under the store invariant, an email or phone lookup matches at most one row |
| `UserService.EmailTaken` | src/main/java/com/dev/solution/repository/UserRepository.java:19 | `findByEmail` finds a row exactly when the email is among the stored rows' emails |
| `UserService.PhoneTaken` | src/main/java/com/dev/solution/repository/UserRepository.java:21 | `findByPhoneNumber` finds a row exactly when the number, null included, is among the stored rows' phone numbers |
| `UserService.NullPhoneIsTaken` | src/main/java/com/dev/solution/service/impl/UserServiceImpl.java:135-139 | once a row has no phone number, the lookup of a null phone number succeeds |
| `UserService.BornBetweenFrom` | src/main/java/com/dev/solution/repository/UserRepository.java:17 | the range query returns the stored rows born in the inclusive range, all of them, each once, in id order |
| `UserService.ProjectAll` | src/main/java/com/dev/solution/service/impl/UserServiceImpl.java:70-73 | the stream yields one projection per row, in order |
| `UserService.ConcatAppend` | src/main/java/com/dev/solution/service/impl/UserServiceImpl.java:145-147 | the built message of two runs of violations is the message of the first followed by that of the second |
| `UserService.JoinedListsEach` | src/main/java/com/dev/solution/service/impl/UserServiceImpl.java:145-147 | every violation's "path message; " part sits in the message, after the parts of the violations before it |
| `UserService.UserServiceImpl.constructor` | src/main/java/com/dev/solution/service/impl/UserServiceImpl.java:33-39 | a new service starts with an empty store that satisfies the invariant |
| `UserService.UserServiceImpl.FindById` | src/main/java/com/dev/solution/service/impl/UserServiceImpl.java:42-46 | the projection of the stored row exactly when the id is stored, and otherwise not-found with the message naming the id |
| `UserService.UserServiceImpl.FindByDateBetween` | src/main/java/com/dev/solution/service/impl/UserServiceImpl.java:63-76 | an inverted range fails with the fixed message, exactly; otherwise the page holds a projection of every stored row born in the range and nothing else, in id order, with its count as the total |
| `UserService.UserServiceImpl.CheckEmailUnique` | src/main/java/com/dev/solution/service/impl/UserServiceImpl.java:129-133 | one email lookup, and a conflict naming the email exactly when some row holds it |
| `UserService.UserServiceImpl.CheckPhoneUnique` | src/main/java/com/dev/solution/service/impl/UserServiceImpl.java:135-139 | one phone lookup, null included, and a conflict naming the number ("null" for null) exactly when some row holds it |
| `UserService.UserServiceImpl.ValidateFields` | src/main/java/com/dev/solution/service/impl/UserServiceImpl.java:141-150 | no failure exactly when every rule holds; otherwise invalid input whose message is the prefix followed by every violation's part |
| `UserService.UserServiceImpl.BuildMessage` | src/main/java/com/dev/solution/service/impl/UserServiceImpl.java:144-148 | the builder loop yields the prefix followed by the violations' parts in iteration order |
| `UserService.UserServiceImpl.Persist` | src/main/java/com/dev/solution/repository/UserRepository.java:12 | a save writes the row under its id and changes no other row |
| `UserService.UserServiceImpl.Save` | src/main/java/com/dev/solution/service/impl/UserServiceImpl.java:49-54 | a duplicate email fails first and a duplicate phone number second, with the calls made so far and the store unchanged; otherwise the request is stored under the fresh id, the invariant holds and `findById` of the result returns it |
| `UserService.UserServiceImpl.CheckAndInsert` | src/main/java/com/dev/solution/service/impl/UserServiceImpl.java:49-53 | the same outcomes as save for any request with every required column: email conflict first, then phone conflict, each with the calls made and the store unchanged, otherwise an insert under the fresh id that `findById` returns |
| `UserService.UserServiceImpl.DeleteById` | src/main/java/com/dev/solution/service/impl/UserServiceImpl.java:57-60 | the row under the id is gone, every other row is unchanged, and a missing id is not an error |
| `UserService.UserServiceImpl.CheckAndWrite` | src/main/java/com/dev/solution/service/impl/UserServiceImpl.java:83-90 | the email is looked up only if it changes, then a stored null phone throws, then the phone number is looked up only if it changes; on success the candidate replaces the row under the same id and the invariant holds |
| `UserService.UserServiceImpl.UpdateFullUser` | src/main/java/com/dev/solution/service/impl/UserServiceImpl.java:80-91 | not-found first; then the steps above with the request itself; the next id never moves |
| `UserService.UserServiceImpl.UpdatePartUser` | src/main/java/com/dev/solution/service/impl/UserServiceImpl.java:109-127 | not-found first; the row's request form is overlaid with the body and validated before any lookup; a failing merge is invalid input listing every violation; otherwise the steps above with the merged request under the original id |

## Left out

- The HTTP controller, the request-body decoding and the exception handler's response body are left out. For `save` and `updateFullUser`, the `@Valid` gate that runs before the service is a precondition (`Passes`). The status each error maps to is `Common.Status`.
- The clock is not modelled. `LocalDate.now()` is the `today` parameter, and the configured minimum age is the service's `age` field.
- Logging, the aspect and transactions are left out. So are concurrent requests, including two racing creations that both find an email free; the model runs one call at a time.
- Database unique constraints are not a second line of defence in the model. Only the service's lookups keep email and phone number unique.
- `UserService.UserServiceImpl.FindByDateBetween`: the `Pageable` argument is not modelled. The page is every matching row in id order, with no slicing or sorting options, and its total is its length.
- `UserService.UserServiceImpl.FindById` and `UserService.UserServiceImpl.FindByDateBetween` are functions, so they do not add their repository call to the ghost log.
- `UserService.UserServiceImpl.UpdatePartUser` takes only bodies whose values under the six property names have those properties' types (`Users.IsFieldOverrides`), and only bodies whose keys are exactly among those six names. What the object mapper does with any other key, which its token matching may map onto a property, is not modelled. Type conversion and fuzzy name matching happen inside the object mapper, which is not part of this model.
- Bean Validation returns a hash set of violations, whose iteration order is not part of the model. The model lists violations in the order the annotations are declared, so the message order of `ValidateFields` and `BuildMessage` is that order.
- Ids are unbounded integers. The `Long` overflow of the identity column is not modelled.
- `EmailValidator`: characters outside ASCII are only compared by code point. Regex engine behaviour beyond the anchored pattern is not modelled.
