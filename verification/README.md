# Member registration: a verified model of the decision logic

The kitchensink service registers members (name, email, phone number) and lists
them. Most of it is framework glue. This project models the part that makes
decisions, as pure Dafny functions over immutable data:

- **Field validation** (`MemberModel`, from `model/Member.java`). The constraint
  annotations on `name`, `email` and `phoneNumber` are data (`Annotations`). A
  validator checks every declared constraint of every field and collects all that
  fail. It does not stop at the first. Its result is proved equal to field rules
  written out directly (`NameValid`, `EmailValid`, `PhoneValid`).
- **Reading text as a number** (`Decimals`). `@Digits` on a string reads it the
  way `new BigDecimal(String)` does: an optional sign, decimal digits with at
  most one point, and an optional exponent, which must fit in a Java `int`. Any
  Unicode decimal digit of the Basic Multilingual Plane counts. The constraint
  compares the integer digits (precision less scale, computed in Java `int`
  arithmetic, so it wraps) and the fraction digits (the positive scale) with its
  bounds. So "1234567890." and ten Arabic-Indic digits pass `@Digits` and fail
  only the `[0-9]+` pattern. So does "1E2147483647": its 2147483648 integer
  digits wrap to a negative `int`.
- **The store** (`MemberRepository`, from `repository/MemberRepository.java` and
  the CRUD methods it inherits). The store is a `seq<Member>` in insertion order.
  It supports `findByEmail`, `findById`, `findAllByOrderByNameAsc` (an insertion
  sort) and `save`. `save` inserts or replaces a document, and it enforces the
  unique index on `email`.
- **Registration** (`MemberService`, from `service/MemberService.java`).
  `Register(store, candidate)` returns `(Outcome, store')`. It first validates,
  then checks for a duplicate email, then saves, and each step fails in its own
  way. Every call is one atomic step. The read paths are also here.
- **The REST boundary** (`MemberController`, from
  `controller/MemberController.java`). This maps what `register` returned or
  threw to a status code and a body. The `catch` clauses are resolved with the
  exception subclass relation (`Exceptions`). `ConstraintViolationException` is
  a `ValidationException`, so the clause order decides which clause runs.
  `buildValidationErrors` is modelled the way `Collectors.toMap` without a merge
  function behaves: two violations on the same field make it throw, and that
  exception escapes the handler. The result is not a 400.
- **Scenarios** (`Scenarios`). Concrete requests stated over the whole model.
  The controller's tests send most of these requests to a mocked service. Here
  they run against the real workflow: validation, the uniqueness check, the
  store and the handler.

The code has two behaviours that a reader might not expect. The model follows the
code in both cases:

1. Building the error map does not keep the "last message" for a field. It throws
   `IllegalStateException` from inside the `ConstraintViolationException` handler,
   so no other handler catches it. For example, the phone number `"invalid-phone"`
   breaks both the size rule and the pattern rule. So with the real validator,
   that request escapes the handler (`Scenarios.InvalidPhoneEscapes`). The test
   that expects a 400 mocks the service, and the mock reports a single violation.
2. If the unique index rejects a save, the result is a `DuplicateKeyException`.
   It reaches the catch-all clause and becomes a 500, not a 409. In the atomic
   model this cannot happen: `Register` checks the email first. `Register`'s
   contract shows that only the two validation exceptions are ever thrown.

The e-mail grammar of `@Email` is a library regular expression. It is a parameter
`emailSyntax: string -> bool` and is never interpreted. Nullable Java strings are
`Option<string>`.

## Model

| member | source | states |
|---|---|---|
| MemberModel.NewMember | src/main/java/com/ongom/kitchensink/model/Member.java:86-90 | the constructor sets name, email and phone exactly as given and leaves the id absent |
| MemberModel.Validate | src/main/java/com/ongom/kitchensink/model/Member.java:67-84 | a violation is reported for a field exactly when one of that field's declared constraints rejects its value; the result is empty exactly when name, email and phone all satisfy their rules |
| MemberModel.ValidateAgreesWithRules | src/main/java/com/ongom/kitchensink/model/Member.java:67-84 | for each field separately: it has no violation exactly when its rule (name 1-25 chars without digits; email present, non-empty, well-formed; phone 10-12 ASCII digits) holds |
| MemberModel.FieldRuleIsConjunction | src/main/java/com/ongom/kitchensink/model/Member.java:67-84 | a field's rule holds exactly when every annotation declared on it accepts the value |
| MemberModel.Holds | src/main/java/com/ongom/kitchensink/model/Member.java:67-84 | a missing value is rejected by `@NotNull` and `@NotEmpty` only; `@NotEmpty` accepts only a non-empty value; `@Digits` accepts only text that reads as a decimal number |
| MemberModel.DigitsAccept | src/main/java/com/ongom/kitchensink/model/Member.java:81 | `@Digits` accepts a value only if it reads as a decimal number containing at least one decimal digit |
| MemberModel.DigitsOnInteger | src/main/java/com/ongom/kitchensink/model/Member.java:81 | a signed or unsigned run of decimal digits passes `@Digits` exactly when its digit count without leading zeros, as a Java `int`, is at most `integer`; within the `int` range, exactly when that count is at most `integer` |
| MemberModel.DigitsOnTrailingPoint | src/main/java/com/ongom/kitchensink/model/Member.java:81 | digits followed by a bare point, such as "1234567890.", pass `@Digits` exactly when their count without leading zeros, as a Java `int`, is at most `integer`, as for the digits alone |
| MemberModel.DigitsOnExponent | src/main/java/com/ongom/kitchensink/model/Member.java:81 | digits followed by "E" and a non-negative exponent: an exponent past the `int` range never passes; otherwise the text passes exactly when the significant digits plus the exponent, wrapped to a Java `int`, are at most `integer`; without the wrap, exactly when that sum is at most `integer` |
| MemberModel.DigitsWrapAtIntRange | src/main/java/com/ongom/kitchensink/model/Member.java:81 | "1E2147483647" passes `@Digits(integer = 12, fraction = 0)`, because its 2147483648 integer digits wrap to a negative `int` |
| MemberModel.DigitsExponentOverflow | src/main/java/com/ongom/kitchensink/model/Member.java:81 | "1E2147483648" fails `@Digits`, because its exponent does not fit in an `int` and the text is no number |
| Decimals.Int32 | src/main/java/com/ongom/kitchensink/model/Member.java:81 | the wrapped value lies in the `int` range, differs from the exact value by a multiple of 2^32, and equals it when the exact value is in range |
| Decimals.ParseExponent | src/main/java/com/ongom/kitchensink/model/Member.java:81 | an exponent reads only if its value fits in an `int`: an unsigned run of digits exactly when its value is at most 2147483647, a negative one exactly when its magnitude is at most 2147483648 |
| Decimals.ParseExponentOverflow | src/main/java/com/ongom/kitchensink/model/Member.java:81 | digits followed by "E" and an exponent above 2147483647 are no number |
| Decimals.ParseBigDecimal | src/main/java/com/ongom/kitchensink/model/Member.java:81 | a text that reads as a number contains a decimal digit, has a precision of at least 1 and a scale within the 32-bit range |
| Decimals.ScanDigits | src/main/java/com/ongom/kitchensink/model/Member.java:81 | reading a run of decimal digits and then the rest equals reading the rest after counting the digits: significant digits skip leading zeros, and digits after the point are fraction digits |
| Decimals.ParseInteger | src/main/java/com/ongom/kitchensink/model/Member.java:81 | a signed or unsigned run of digits reads with scale 0 and precision equal to its digit count without leading zeros (1 for zero) |
| Decimals.ParseTrailingPoint | src/main/java/com/ongom/kitchensink/model/Member.java:81 | a trailing point adds no fraction digit: "123." reads exactly like "123" |
| Decimals.ParseScientific | src/main/java/com/ongom/kitchensink/model/Member.java:81 | "dE x" reads with the precision of the digits and scale minus x |
| MemberModel.DigitsImpliedBySizeAndPattern | src/main/java/com/ongom/kitchensink/model/Member.java:79-82 | a phone value of 10-12 characters that are all digits always satisfies `@Digits(integer = 12, fraction = 0)`, so that rule adds nothing |
| MemberModel.NameDigitViolation | src/main/java/com/ongom/kitchensink/model/Member.java:69 | the name pattern is violated exactly when the name is present and contains a digit, and its message is "Must not contain numbers" |
| MemberModel.PhoneDigitViolation | src/main/java/com/ongom/kitchensink/model/Member.java:82 | the phone pattern is violated exactly when the phone is present and is not one or more ASCII digits, and its message is "Must contain only numbers" |
| MemberModel.SeveralViolationsOnOneField | src/main/java/com/ongom/kitchensink/model/Member.java:79-82 | a present phone number shorter than 10 characters that has a non-digit violates both the size and the pattern constraint: two violations on one field |
| MemberModel.ValidateIgnoresId | src/main/java/com/ongom/kitchensink/model/Member.java:64-84 | no constraint is declared on the id, so the id never changes the validation result |
| Exceptions.InstanceOf | src/main/java/com/ongom/kitchensink/controller/MemberController.java:74-87 | every exception is an `Exception`; a constraint-violation exception is an instance of all three caught types; a validation exception of every type but `ConstraintViolationException`; any other exception only of `Exception` |
| Exceptions.FirstCatch | src/main/java/com/ongom/kitchensink/controller/MemberController.java:74-87 | the handling clause is the first one in source order whose type the exception is an instance of, or none |
| MemberRepository.FindByEmail | src/main/java/com/ongom/kitchensink/repository/MemberRepository.java:27-35 | the result is a stored member with exactly that email, and it is empty exactly when no stored member has that email |
| MemberRepository.FindByEmailUnique | src/main/java/com/ongom/kitchensink/model/Member.java:76 | under the unique email index, the member found is the one stored member with that email |
| MemberRepository.FindById | src/main/java/com/ongom/kitchensink/repository/MemberRepository.java:46-49 | the result is a stored member with that id, and it is empty exactly when no stored member has that id |
| MemberRepository.FindByIdUnique | src/main/java/com/ongom/kitchensink/repository/MemberRepository.java:46-49 | when ids are unique, the member found is the one stored member with that id |
| MemberRepository.FindAllByOrderByNameAsc | src/main/java/com/ongom/kitchensink/repository/MemberRepository.java:37-44 | the result is a permutation of the store (equal multisets) and is non-decreasing by name |
| MemberRepository.InsertByNameSorted | src/main/java/com/ongom/kitchensink/repository/MemberRepository.java:37-44 | inserting into a list already ordered by name keeps it ordered |
| MemberRepository.FreshId | src/main/java/com/ongom/kitchensink/model/Member.java:64-65 | the generated id belongs to no stored document |
| MemberRepository.SaveTarget | src/main/java/com/ongom/kitchensink/repository/MemberRepository.java:46-49 | the document a save overwrites is the stored one with the same id; there is none exactly when the document has no id or no stored document has it |
| MemberRepository.Save | src/main/java/com/ongom/kitchensink/repository/MemberRepository.java:46-49 | a save fails, with a duplicate-key error on the email index, exactly when a document other than the one it overwrites has the same email; without an id the document is appended under a fresh id with the same fields; with a stored id it replaces that document in place and every other position is unchanged; with an unknown id it is appended as given; every document of the new store is the saved one or was stored before |
| MemberRepository.SavePreservesStoreInvariants | src/main/java/com/ongom/kitchensink/model/Member.java:76 | after a successful save the unique email index still holds, and every id is still present and unique |
| MemberService.ValidateMember | src/main/java/com/ongom/kitchensink/service/MemberService.java:98-103 | it throws exactly when the member is not field-valid, and the exception carries the full violation set |
| MemberService.Register | src/main/java/com/ongom/kitchensink/service/MemberService.java:78-90 | invalid: constraint violations with the full set, store unchanged; valid with a registered email: "Email address <email> is already registered.", store unchanged; valid with a fresh email: the saved member has the same fields and an id; with no incoming id it is appended and nothing else changes; with a stored id it replaces that document and nothing else changes; with an unknown id it is appended as given; only the two validation exceptions are thrown |
| MemberService.ValidationBeforeUniqueness | src/main/java/com/ongom/kitchensink/service/MemberService.java:80-85 | an invalid candidate whose email is already registered gets the constraint violations, never the duplicate-email failure |
| MemberService.InvalidCandidateIgnoresStore | src/main/java/com/ongom/kitchensink/service/MemberService.java:78-80 | for an invalid candidate the outcome is the same whatever the store holds, so the store is not consulted |
| MemberService.RegisterPreservesInvariant | src/main/java/com/ongom/kitchensink/service/MemberService.java:78-90 | if every stored member has an id, ids and emails are unique and every member is field-valid, the same holds after `register` |
| MemberService.RegisteredMemberIsRetrievable | src/main/java/com/ongom/kitchensink/service/MemberService.java:78-90 | after a successful registration, `findById` with the new id and `findByEmail` with its email both return the registered member |
| MemberService.SecondRegistrationConflicts | src/main/java/com/ongom/kitchensink/service/MemberService.java:83-85 | after a registration succeeds, a valid candidate with the same email fails with the duplicate message, whatever its name and phone |
| MemberService.FindAll | src/main/java/com/ongom/kitchensink/service/MemberService.java:46-48 | every stored member, as often as stored, ordered by name |
| MemberService.FindMemberById | src/main/java/com/ongom/kitchensink/service/MemberService.java:56-58 | a stored member with that id, or nothing exactly when none has it |
| MemberService.FindMemberByEmail | src/main/java/com/ongom/kitchensink/service/MemberService.java:66-68 | a stored member with that email, or nothing exactly when none has it |
| MemberController.BuildValidationErrors | src/main/java/com/ongom/kitchensink/controller/MemberController.java:96-102 | it succeeds exactly when no two violations share a property path, and then its keys are exactly the violated paths, each mapped to its violation's message; otherwise it throws `IllegalStateException` |
| MemberController.CollectToMap | src/main/java/com/ongom/kitchensink/controller/MemberController.java:97-101 | the collector can only fail with `IllegalStateException`, and a successful map has every element's key |
| MemberController.CollectToMapSize | src/main/java/com/ongom/kitchensink/controller/MemberController.java:97-101 | a successful collection has exactly one entry per element of the stream |
| MemberController.CollectToMapSucceeds | src/main/java/com/ongom/kitchensink/controller/MemberController.java:97-101 | collecting a stream of violations succeeds exactly when no key repeats |
| MemberController.CollectToMapContents | src/main/java/com/ongom/kitchensink/controller/MemberController.java:97-101 | a successful collection maps each violation's key to its message, with no other keys |
| MemberController.CollectOrderIrrelevant | src/main/java/com/ongom/kitchensink/controller/MemberController.java:96-102 | whatever the order in which the violation set is streamed, the collector agrees with `BuildValidationErrors`, on failure and on the map built |
| MemberController.CreateMemberCatchClause | src/main/java/com/ongom/kitchensink/controller/MemberController.java:74-87 | constraint violations go to the first clause, other validation exceptions to the second, everything else to the catch-all |
| MemberController.CatchOrderMatters | src/main/java/com/ongom/kitchensink/controller/MemberController.java:74-77 | a `ValidationException` clause ahead of the specific one would handle every constraint-violation exception, so the specific clause must come first, as it does (Java rejects the reverse order at compile time) |
| MemberController.HandleRegistration | src/main/java/com/ongom/kitchensink/controller/MemberController.java:72-87 | returned member: 201 with the member; constraint violations: 400 with one entry per violated path and its message, or an escaping `IllegalStateException` when a path repeats; other validation exceptions: 409 with `{"error": message}`; anything else: 500 with the fixed text |
| MemberController.UnexpectedFailureHidesDetail | src/main/java/com/ongom/kitchensink/controller/MemberController.java:82-86 | every non-validation exception gets the same 500 response with only "An unexpected error occurred during registration.", so no detail is leaked |
| MemberController.CreateMember | src/main/java/com/ongom/kitchensink/controller/MemberController.java:65-88 | the store changes only on a 201, and then exactly one member with the submitted fields is appended; every other reply leaves the store unchanged |
| MemberController.CreateMemberIgnoresClientId | src/main/java/com/ongom/kitchensink/controller/MemberController.java:71 | two requests that differ only in the id they carry get the same reply and the same store, because the id is cleared first |
| MemberController.CreateMemberSucceeds | src/main/java/com/ongom/kitchensink/controller/MemberController.java:71-73 | a valid member with an unregistered email gets 201, and the member with the same fields and a new id is appended to the store |
| MemberController.CreateMemberConflict | src/main/java/com/ongom/kitchensink/controller/MemberController.java:77-81 | a valid member with a registered email gets 409 with `{"error": "Email address <email> is already registered."}`, store unchanged |
| MemberController.CreateMemberBadRequest | src/main/java/com/ongom/kitchensink/controller/MemberController.java:74-76 | an invalid member with at most one violation per field gets 400, and the error map's keys are exactly the fields that have violations |
| MemberController.CreateMemberSingleViolation | src/main/java/com/ongom/kitchensink/controller/MemberController.java:74-76 | a member with exactly one violation gets 400 with a map of one entry, that violation's property path to its message, and the store is unchanged |
| MemberController.CreateMemberSharedFieldEscapes | src/main/java/com/ongom/kitchensink/controller/MemberController.java:97-101 | if one field has two or more violations, the reply is an escaping `IllegalStateException` rather than a 400, and the store is unchanged |
| MemberController.GetMemberById | src/main/java/com/ongom/kitchensink/controller/MemberController.java:50-56 | 200 with a stored member carrying that id exactly when one exists; otherwise 404 with no body |
| MemberController.ListAllMembers | src/main/java/com/ongom/kitchensink/controller/MemberController.java:37-41 | every stored member, ordered by name |
| Scenarios.NameWithDigitsIsBadRequest | src/test/java/com/ongom/kitchensink/controller/MemberControllerTest.java:95-119 | "Jane123" with a valid email and phone gets 400 with exactly `{"name": "Must not contain numbers"}` |
| Scenarios.InvalidPhoneEscapes | src/test/java/com/ongom/kitchensink/controller/MemberControllerTest.java:121-145 | with the real validator, phone "invalid-phone" breaks both the size and the pattern constraint, so the request escapes the handler instead of getting a 400 |
| Scenarios.OnlyNamePatternFails | src/main/java/com/ongom/kitchensink/model/Member.java:67-84 | a name of 1-25 characters that contains a digit, with a valid email and phone, yields exactly one violation: the name pattern |
| Scenarios.OnlyPhonePatternFails | src/main/java/com/ongom/kitchensink/model/Member.java:79-82 | a phone of 10-12 characters that passes `@Digits` but is not all ASCII digits, with a valid name and email, yields exactly one violation: the phone pattern |
| Scenarios.OnlyPhonePatternIsBadRequest | src/main/java/com/ongom/kitchensink/controller/MemberController.java:74-76 | such a member gets 400 with exactly `{"phoneNumber": "Must contain only numbers"}` and the store is unchanged |
| Scenarios.TrailingPointPhoneIsNumber | src/main/java/com/ongom/kitchensink/model/Member.java:81 | "1234567890." passes `@Digits(integer = 12, fraction = 0)` |
| Scenarios.TrailingPointPhoneIsBadRequest | src/main/java/com/ongom/kitchensink/model/Member.java:79-82 | phone "1234567890." gets 400 with exactly `{"phoneNumber": "Must contain only numbers"}`: one pattern violation, not an escaping exception |
| Scenarios.WrappedExponentPhoneIsBadRequest | src/main/java/com/ongom/kitchensink/model/Member.java:79-82 | phone "1E2147483647" gets 400 with exactly `{"phoneNumber": "Must contain only numbers"}`: the wrapped `@Digits` count passes, and only the pattern fails |
| Scenarios.ArabicIndicPhoneIsNumber | src/main/java/com/ongom/kitchensink/model/Member.java:81 | ten Arabic-Indic digits pass `@Digits(integer = 12, fraction = 0)` |
| Scenarios.ArabicIndicPhoneIsBadRequest | src/main/java/com/ongom/kitchensink/model/Member.java:79-82 | a phone of ten Arabic-Indic digits gets 400 with exactly `{"phoneNumber": "Must contain only numbers"}` |
| Scenarios.FirstRegistrationSucceeds | src/test/java/com/ongom/kitchensink/controller/MemberControllerTest.java:62-78 | the test's request ("Jane Doe", "jane.doe@example.com", "0987654321") on an empty store, run against the real workflow, gets 201 with the same fields and a non-empty id, and the store then holds just that member |
| Scenarios.SameEmailTwiceConflicts | src/test/java/com/ongom/kitchensink/controller/MemberControllerTest.java:80-93 | after "jane.doe@example.com" is registered, a second valid registration with it gets 409 with "Email address jane.doe@example.com is already registered." |
| Scenarios.DuplicateMessageText | src/main/java/com/ongom/kitchensink/service/MemberService.java:84 | the duplicate message for "jane.doe@example.com" is exactly "Email address jane.doe@example.com is already registered." |
| Scenarios.ListingIsOrderedByName | src/main/java/com/ongom/kitchensink/repository/MemberRepository.java:37-44 | the listing follows names, not insertion: a store holding "Zoe" and then "Amy" is listed Amy, then Zoe |

## Left out

- HTTP routing, request and response objects, JSON (de)serialisation and logging. A reply is a status code and a body datatype. What the web framework does with an exception that escapes `createMember` is not modelled.
- The `@Email` grammar is the library's regular expression. It is the uninterpreted parameter `emailSyntax`. It also decides whether the empty string counts as well-formed.
- Default messages of `@NotNull`, `@NotEmpty`, `@Size`, `@Email` and `@Digits` come from the library's message catalogue. They stay symbolic (`DefaultMessage(constraint)`). Only the two explicit pattern messages are text.
- Decimals.ParseBigDecimal: the precision is an unbounded count. In Java it is an `int`, and a Java string is too short for the count to leave that range, so nothing is lost.
- Decimals.DigitValue: the decimal digits are the 37 runs of Unicode category Nd in the Basic Multilingual Plane, as of a current Unicode version. The JDK that runs the service may know an older or newer table. Digits outside that plane are two UTF-16 code units in Java and are not digits there; here they are one character, and also not digits.
- MemberModel.Holds: `@Size` counts Unicode scalar values here, whereas Java counts UTF-16 code units. The two differ only for characters outside the Basic Multilingual Plane.
- MemberRepository.FreshId: this stands in for the store's ObjectId generator. It yields a string of zeros longer than every stored id, not a 24-digit hexadecimal ObjectId.
- MemberRepository.FindByEmail: with several documents sharing an email, the real derived query throws a result-size error. This model returns the first match instead. Under the unique index (`MemberRepository.UniqueEmails`) the case cannot arise, and `FindByEmailUnique` covers the indexed store.
- MemberRepository.FindAllByOrderByNameAsc: the store's string collation is taken to be code-point lexicographic order, with a missing name sorting first. The order among members with equal names is unspecified in the store; this model fixes one.
- Concurrency: two registrations racing between the email check and the save, with the unique index as backstop, are not modelled. Each `Register` call is atomic. `Save` still enforces the index, and `Register` is proved never to reach that rejection.
- Store failures (lost connection, timeouts) are never produced by the model's store. `DataAccessException` exists so that the catch-all clause has an input; its 500 reply is covered by `HandleRegistration` and `UnexpectedFailureHidesDetail`.
- The text of the collector's `IllegalStateException` names the duplicate key and both messages. Which key it names depends on the set's iteration order, so the model leaves the text out.
- `findById` with a null id throws in the real repository. Ids here are plain strings, as the path variable never is null. Update, delete and the other inherited CRUD methods are not used by the registration path and are not modelled.
