/** The field validators of `ClinicSerializer` (main/serializers/clinic_serializer.py).

    Each rejects a missing (None) or empty value and returns any other value
    unchanged. The serializer names its address fields `registered_address` and
    `actual_address`, while the Clinic model spells its columns
    `registered_adress` and `actual_adress`; the validators below follow the
    serializer's names. */
module ClinicSerializer {
  import opened Wrappers

  datatype ClinicFieldError = NameEmpty | RegisteredAddressEmpty | ActualAddressEmpty

  /** Python's `if not value`: None and the empty string are falsy. */
  predicate Falsy(value: Option<string>)
  {
    value.None? || value.value == []
  }

  /** The shared guard: a falsy value is the given error, any other value is
      handed back as it is. */
  function RequireNonEmpty(value: Option<string>, error: ClinicFieldError): (r: Result<string, ClinicFieldError>)
    ensures r.Success? <==> value.Some? && |value.value| > 0
    ensures r.Success? ==> r.value == value.value
    ensures r.Failure? ==> r.error == error
  {
    if Falsy(value) then Failure(error) else Success(value.value)
  }

  /** `validate_name`. */
  function ValidateName(value: Option<string>): (r: Result<string, ClinicFieldError>)
    ensures r.Success? <==> value.Some? && |value.value| > 0
    ensures r.Success? ==> r.value == value.value
    ensures r.Failure? ==> r.error == NameEmpty
  {
    RequireNonEmpty(value, NameEmpty)
  }

  /** `validate_registered_address`. */
  function ValidateRegisteredAddress(value: Option<string>): (r: Result<string, ClinicFieldError>)
    ensures r.Success? <==> value.Some? && |value.value| > 0
    ensures r.Success? ==> r.value == value.value
    ensures r.Failure? ==> r.error == RegisteredAddressEmpty
  {
    RequireNonEmpty(value, RegisteredAddressEmpty)
  }

  /** `validate_actual_address`. */
  function ValidateActualAddress(value: Option<string>): (r: Result<string, ClinicFieldError>)
    ensures r.Success? <==> value.Some? && |value.value| > 0
    ensures r.Success? ==> r.value == value.value
    ensures r.Failure? ==> r.error == ActualAddressEmpty
  {
    RequireNonEmpty(value, ActualAddressEmpty)
  }

  /** Each validator is idempotent: what it accepts, it accepts again unchanged
      when handed its own output. */
  lemma ClinicValidatorsIdempotent(value: Option<string>)
    ensures ValidateName(value).Success? ==> ValidateName(Some(ValidateName(value).value)) == ValidateName(value)
    ensures ValidateRegisteredAddress(value).Success? ==>
              ValidateRegisteredAddress(Some(ValidateRegisteredAddress(value).value)) == ValidateRegisteredAddress(value)
    ensures ValidateActualAddress(value).Success? ==>
              ValidateActualAddress(Some(ValidateActualAddress(value).value)) == ValidateActualAddress(value)
  {
  }
}
