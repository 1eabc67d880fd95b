# Clinic scheduling validators, modelled in Dafny

This project models the request-validation core of a small clinic scheduling
backend (Django with Django REST Framework). The backend keeps doctors,
patients and admins, clinics, and consultations. A consultation is a booked
time window between one doctor, one patient and one clinic.

The model covers four pieces:

- **Consultation booking** (`ConsultSerializer`, `Models`). The write
  serializer's `validate` decides whether a booking may exist. It checks, in
  this order:
  1. the start is before the end;
  2. the start is not in the past;
  3. no live booking of the same doctor overlaps the half-open window
     (the row being updated is left out);
  4. the doctor works at the clinic.

  It stops at the first failure. The write path then runs `Consultation.save`,
  which calls `full_clean` before it writes. The consultation table is a
  `ConsultationStore` object. Its only write method, `Save`, appends or
  overwrites a row only when `full_clean` reports nothing. The main theorem is
  `ValidatedBookingKeepsNoDoubleBooking`: a booking that passed `validate`
  never double-books a doctor. `Book` carries that guarantee through the whole
  write path.
- **Person field validators** (`PersonSerializer`, `Models.PersonClean`):
  - phone normalisation and format;
  - the email pattern, as a recogniser proved equal to the pattern's language;
  - the date-of-birth window;
  - the four password rules, with every failing rule collected in order;
  - uniqueness of email and phone across all three person kinds.
- **Clinic field validators** (`ClinicSerializer`): name and both addresses
  must be non-empty.
- **Soft delete** (`Models.ActivePersons`, `Models.ActiveClinics`): the
  explicit `.filter(is_deleted=False)` querysets of the consultation write
  serializer. main/manager.py defines an `ActiveManager` with the same filter,
  but no model installs it, so `objects` still shows deleted rows.

Other modelling choices:

- The clock is a parameter. `timezone.now()`, `datetime.now(tz)` and
  `date.today()` are each passed in. `Book` takes two clock readings, one for
  the serializer and one for the model's `clean`, because the source reads the
  clock twice.
- Timestamps are integers. Dates are `(year, month, day)` triples, compared
  lexicographically.
- Errors are field-tagged values, not message strings.
- Three facts about the code in main/ that shape the model:
  - `validate` stops at its first error; it does not collect them all.
  - The status codes are `confirmed`, `waited`, `started` and `completed`,
    with no default status.
  - There is no unique constraint on (doctor, start time); only `validate`'s
    overlap query keeps a doctor from being double-booked.
- Some source names do not match each other. The model keeps each as written,
  with a comment in the Dafny:
  - The serializer filters consultations on `is_deleted`, which the
    Consultation model does not declare. `ConsultationRecord` carries the
    flag.
  - The serializer reads `doctor.clinics`, a relation the models do not
    declare. It is `Directory.affiliation`, a set of (doctor, clinic) pairs.
  - The serializers use `all_objects` and `date_birth`, which
    main/models.py does not declare. They are taken to mean "every row" and a
    birth date.
  - The clinic columns are `registered_adress` / `actual_adress`, but the
    serializer's fields are `registered_address` / `actual_address`.
  - `ConsultationReadSerializer` lists `updated_at` among its fields and
    read-only fields, but the Consultation model declares no such column.
- The phone and email uniqueness checks skip every row whose id equals the
  instance's id, whatever its kind (`CrossKindIdIgnored`). So updating the
  Doctor with id 5 to the phone of the Patient with id 5 is accepted, and two
  persons can then share a phone number.

## Model

| member | source | states |
|---|---|---|
| `Text.StripSpaces` | main/serializers/base_person_serializer.py:29 | removing spaces leaves no space and never lengthens the string |
| `Text.StripSpacesKeepsOthers` | main/serializers/base_person_serializer.py:29 | every character other than a space survives stripping exactly as often as it occurred |
| `Text.StripSpacesIdempotent` | main/models.py:28 | stripping an already stripped number changes nothing |
| `Text.Any` | main/serializers/base_person_serializer.py:96-101 | `any(p(ch) for ch in s)` holds iff some position of the string satisfies `p` |
| `Models.ActivePersons` | main/serializers/consult_serializer.py:32-37 | the doctor and patient querysets hold exactly the rows not marked deleted |
| `Models.ActiveClinics` | main/serializers/consult_serializer.py:38-40 | the clinic queryset holds exactly the clinics not marked deleted |
| `Models.IsCanonicalPhone` | main/models.py:26 | a number in the `^\+7\d{10}$` format holds no space, is left unchanged by stripping spaces, and fits the 12-character `phone_number` column |
| `Models.PersonClean` | main/models.py:24-32 | a phone is rejected on `phone_number` iff it is non-empty and its space-free form is not "+7" plus ten digits; an accepted non-empty phone strips to length 12 |
| `Models.FullName` | main/models.py:18-22 | the name starts with the last name and a space, ends with a space and the patronymic text, and is exactly two characters longer than its three parts |
| `Models.FullNameSplits` | main/models.py:18-22 | the full name (used by both `__str__` and `get_full_name`) is last, first and patronymic joined by single spaces: it splits back into exactly those three parts |
| `Models.FullNameWithoutPatronymic` | main/models.py:18-19 | a missing patronymic is printed as the word "None" |
| `Models.IsStatusCode` | main/models.py:73-83 | every status choice is non-empty and fits the 20-character `status` column |
| `Models.ConsultationClean` | main/models.py:94-105 | accepts when a time is missing; otherwise accepts iff now <= start < end; start >= end is an `end_time` error and takes priority over a past start, which is a `start_time` error |
| `Models.FullClean` | main/models.py:73-105 | no error iff the status is one of the four codes and now <= start < end; a bad status is reported iff the status is not a code; `clean`'s error, when there is one, is always in the list; every error is one of those two |
| `Models.NextId` | main/models.py:109 | the key given to an inserted row is positive and above every key in use, so it is free |
| `Models.Upsert` | main/models.py:109 | the saved row is present, rows under other keys are exactly those before, the size grows only for a new key, keys stay unique |
| `Models.UpsertKeepsNoDoubleBooking` | main/serializers/consult_serializer.py:60-73 | writing a row that clashes with no row under another key keeps every doctor free of overlapping live bookings |
| `Models.ConsultationStore.Save` | main/models.py:107-109 | returns the `full_clean` errors; writes the row iff there are none, otherwise leaves the table unchanged; keys stay unique |
| `PersonSerializer.Taken` | main/serializers/base_person_serializer.py:36-40 | the filter/exclude/exists query holds iff some row other than the instance's id has the value |
| `PersonSerializer.ValidatePhoneNumber` | main/serializers/base_person_serializer.py:28-60 | returns the space-free number, "+7" plus ten digits; a format error iff the stripped form is not canonical, checked before uniqueness; an in-use error iff a Patient, Doctor or Admin row (deleted or not) with another id holds it |
| `PersonSerializer.PhoneAccepted` | main/serializers/base_person_serializer.py:34-60 | a canonical number no other person holds is accepted in space-free form |
| `PersonSerializer.PhoneNumberIdempotent` | main/serializers/base_person_serializer.py:28-60 | validating an accepted number's output again accepts it unchanged |
| `PersonSerializer.PhoneIgnoresSpaces` | main/serializers/base_person_serializer.py:29-30 | inserting a space anywhere never changes the verdict or the returned number |
| `PersonSerializer.PhoneFormatAgreesWithClean` | main/models.py:26-29 | for a non-empty phone, `Person.clean` accepts iff the serializer reports no format error |
| `PersonSerializer.ForeignPhoneRejected` | main/serializers/base_person_serializer.py:30-33 | "+81234567890" is rejected for its format whatever the rows hold |
| `PersonSerializer.CrossKindIdIgnored` | main/serializers/base_person_serializer.py:34-59 | when every row holding the number, of any kind, has the instance's id, the number is accepted |
| `PersonSerializer.PhoneOfDeletedPersonTaken` | main/serializers/base_person_serializer.py:52-59 | with no instance, a number held by a deleted Admin row is rejected as in use |
| `PersonSerializer.IsEmail` | main/serializers/base_person_serializer.py:72 | an accepted address has an `@`, at least six characters and ends in a letter; its agreement with the pattern is `IsEmailMatchesShape` |
| `PersonSerializer.IsEmailSound` | main/serializers/base_person_serializer.py:72 | whatever the recogniser accepts is in the language of the email pattern |
| `PersonSerializer.IsEmailComplete` | main/serializers/base_person_serializer.py:72 | every string in the language of the email pattern is accepted by the recogniser |
| `PersonSerializer.IsEmailMatchesShape` | main/serializers/base_person_serializer.py:72-75 | the recogniser and the pattern agree on every string |
| `PersonSerializer.EmailShapeExamples` | main/serializers/base_person_serializer.py:72 | a plain address matches; a one-letter top-level part or an empty local part does not |
| `PersonSerializer.ValidateEmail` | main/serializers/base_person_serializer.py:71-90 | accepted values are returned unchanged; a format error iff the value is outside the pattern's language; an in-use error iff it matches and a row of any kind with another id holds it |
| `PersonSerializer.ValidateDateBirth` | main/serializers/base_person_serializer.py:62-69 | a date after today is rejected first, then a year before 1900; accepted dates are returned unchanged |
| `PersonSerializer.BirthDateWindow` | main/serializers/base_person_serializer.py:62-69 | the accepted dates are exactly 1900-01-01 through today, both included |
| `PersonSerializer.BrokenMembers` | main/serializers/base_person_serializer.py:93-101 | the failing-rule filter keeps exactly the listed rules the password breaks |
| `PersonSerializer.BrokenOrdered` | main/serializers/base_person_serializer.py:93-101 | the failing-rule filter keeps the checking order |
| `PersonSerializer.FailedRulesExact` | main/serializers/base_person_serializer.py:92-104 | the error list holds exactly the broken rules, each once, in the order length, digit, upper case, lower case |
| `PersonSerializer.FailedRulesUnfold` | main/serializers/base_person_serializer.py:93-101 | the error list is the four rules' contributions appended in checking order |
| `PersonSerializer.StrongPasswordAccepted` | main/serializers/base_person_serializer.py:92-104 | "Abcd1234" breaks no rule |
| `PersonSerializer.PasswordWithoutUppercase` | main/serializers/base_person_serializer.py:98-99 | "abc12345" fails only the upper-case rule |
| `PersonSerializer.PasswordWithoutDigitOrLowercase` | main/serializers/base_person_serializer.py:96-101 | "ABCDEFGH" fails the digit and lower-case rules, in that order |
| `PersonSerializer.ValidatePassword` | main/serializers/base_person_serializer.py:92-104 | accepted iff length >= 8 with a digit, an upper-case and a lower-case letter, returning the value unchanged; otherwise fails with the full ordered list of broken rules |
| `ClinicSerializer.ValidateName` | main/serializers/clinic_serializer.py:20-23 | None or "" is rejected as an empty name; any other value is returned unchanged |
| `ClinicSerializer.ValidateRegisteredAddress` | main/serializers/clinic_serializer.py:25-28 | None or "" is rejected as an empty registered address; any other value is returned unchanged |
| `ClinicSerializer.ValidateActualAddress` | main/serializers/clinic_serializer.py:30-33 | None or "" is rejected as an empty actual address; any other value is returned unchanged |
| `ClinicSerializer.ClinicValidatorsIdempotent` | main/serializers/clinic_serializer.py:20-33 | each validator accepts its own output again unchanged |
| `ConsultSerializer.CheckField` | main/serializers/consult_serializer.py:32-44 | a field fails iff it is missing in a full update or present and invalid; its only possible error is `Required` under that field's key when the value is missing, and the field's own reason under that key when it is invalid |
| `ConsultSerializer.ScheduleErrors` | main/serializers/consult_serializer.py:42-44 | the start, end and status checks pass iff those fields are present (unless partial) and the status is a code; each missing one is `Required` on its own key, a bad status an invalid choice; no other field is named and no other error is reported |
| `ConsultSerializer.RelationErrors` | main/serializers/consult_serializer.py:32-40 | the doctor, patient and clinic checks pass iff those keys are present (unless partial) and name rows not marked deleted; each missing key is `Required` and each unresolved key `DoesNotExist`, on its own field; no other field is named and no other error is reported |
| `ConsultSerializer.FieldErrors` | main/serializers/consult_serializer.py:32-44 | no field error iff every field is present (unless partial), the status is a code, and every key resolves to a row not marked deleted; each missing required field is reported as `Required` on its own key and only then; a bad status is an invalid choice; a deleted or unknown doctor, patient or clinic is reported on its own field; nothing else is reported (no overlap, affiliation or time-order error) |
| `ConsultSerializer.OverlapsWindow` | main/serializers/consult_serializer.py:61-66 | for non-empty windows the filter matches iff the row is a live booking of the doctor whose window shares an instant with the new one |
| `ConsultSerializer.AnyOverlapping` | main/serializers/consult_serializer.py:61-70 | the overlap query holds iff a live row of the doctor, other than the instance, has start < new end and end > new start |
| `ConsultSerializer.NeverOverlapping` | main/serializers/consult_serializer.py:61-66 | back-to-back windows, other doctors' bookings and deleted bookings never overlap |
| `ConsultSerializer.Validate` | main/serializers/consult_serializer.py:46-79 | success iff the times are ordered and not past, the doctor is free and affiliated, returning the attributes unchanged; each failure is exactly one error, chosen by the first failing check in the order time order (non-field), past (`start_time`), overlap (`start_time`), affiliation (`doctor`) |
| `ConsultSerializer.RevalidateUnchanged` | main/serializers/consult_serializer.py:67-68 | re-submitting a live row of a table without double bookings never finds the doctor busy |
| `ConsultSerializer.ValidatedBookingKeepsNoDoubleBooking` | main/serializers/consult_serializer.py:60-73 | writing a booking that passed `validate` keeps keys unique and no doctor double-booked |
| `ConsultSerializer.BookingScenario` | main/serializers/consult_serializer.py:51-79 | 10:00-10:30 accepted, 10:15-10:45 busy, 10:30-11:00 accepted, a clinic the doctor does not work at refused |
| `ConsultSerializer.IsValid` | main/serializers/consult_serializer.py:31-79 | success iff the field stage passes and `validate` succeeds; when the field stage fails the result is exactly its full error list, otherwise `validate`'s one error |
| `ConsultSerializer.BookedRecord` | main/serializers/consult_serializer.py:42-44 | the written row carries the submitted attributes, the instance's key on update and a key not in use on create; an updated row keeps the deleted flag of the row it overwrites, and a created row is live |
| `ConsultSerializer.Book` | main/serializers/consult_serializer.py:46-79 | a validation failure returns exactly `is_valid`'s errors; a validated booking is written iff `full_clean` reports nothing, otherwise those errors are returned; a rejection leaves the table unchanged; on success the row is written under the instance's key or a fresh one; a table without double bookings stays without them |

## Left out

- HTTP routing, views, authentication, `make_password` hashing and the create/update overrides of the doctor and admin serializers. They only hash the password and delegate to the framework.
- Read-side serializer declarations (`ConsultationReadSerializer`, `Meta` field lists, `sex_display`, `age`) and `Clinic.__str__`. They are framework declarations or formatting that no validation depends on.
- Unicode: `isdigit`, `isupper`, `islower` and `\d` are modelled on ASCII only. Python's `$` also matches before a trailing newline, so "+71234567890\n" would pass the real phone pattern; the model reads `$` as end of string.
- Concurrency and transactions. The check-then-write sequence has no locking in the source, and the model has none.
- Partial updates: `Book` models full creates and updates. `Validate` and `FieldErrors` do handle missing attributes, but the merge of a partial update into the stored instance is not modelled.
- Django's own field checks other than status choices and related-key resolution (lengths, blank rules, `validate_unique`). Those belong to the framework, not to this source.
- The field validators the framework builds for the person serializers from the model fields (main/models.py:11-12), which run before `validate_phone_number` and `validate_email`: `max_length=12` on `phone_number` (so "+7 123 456 78 90" is refused before any space is stripped), the per-kind `UniqueValidator` on `email` and `phone_number`, and `EmailField`'s own address validator. `PersonSerializer.ValidatePhoneNumber` and `PersonSerializer.ValidateEmail` model only the serializer's own methods.
- How a `full_clean` rejection inside `save` surfaces: the source raises a Django `ValidationError`, which the REST framework does not turn into an error response. `ConsultSerializer.Book` returns it as a `Failure`, like the errors of `is_valid`.
- `Models.FullClean`: does not model `clean_fields`' check that the doctor, patient and clinic keys name existing rows; on the write path the serializer's field stage has already resolved them against rows not marked deleted.
- `ConsultSerializer.Book`: the new key on create is "one above every key in use", standing in for the database's key sequence.
- Message texts: each error is a field tag plus a reason, not the Russian message.
