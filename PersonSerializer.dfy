/** The field validators of `PersonSerializer` (main/serializers/base_person_serializer.py):
    phone number, email, date of birth and password.

    The phone and email checks look a value up in all rows of the three person
    kinds (Patient, Doctor, Admin), deleted rows included, and ignore every row
    whose id equals the id of the instance being updated. That id is compared
    without regard to the kind: on update, a row of another kind that happens to
    share the instance's id is ignored as well. */
module PersonSerializer {
  import opened Wrappers
  import opened Text
  import opened Models

  datatype PhoneError = PhoneFormat | PhoneInUse
  datatype EmailError = EmailFormat | EmailInUse
  datatype BirthDateError = BirthInFuture | BirthBefore1900
  datatype PasswordRule = TooShort | NoDigit | NoUppercase | NoLowercase

  // ---------------------------------------------------------------------------
  // Uniqueness across the three person kinds

  /** Some row other than the instance (by id) holds `value` in the given column. */
  ghost predicate UsedByAnother(rows: seq<PersonRecord>, column: PersonRecord -> string, value: string, instanceId: Option<int>)
  {
    exists i | 0 <= i < |rows| :: column(rows[i]) == value && Some(rows[i].id) != instanceId
  }

  /** The column value is held by a row of any of the three kinds, other than
      the instance's id. With no instance nothing is excluded. */
  ghost predicate ContactInUse(dir: Directory, column: PersonRecord -> string, value: string, instanceId: Option<int>)
  {
    UsedByAnother(dir.patients, column, value, instanceId)
    || UsedByAnother(dir.doctors, column, value, instanceId)
    || UsedByAnother(dir.admins, column, value, instanceId)
  }

  /** `Kind.all_objects.filter(column=value).exclude(id=instance_id).exists()`.
      `exclude(id=None)` excludes nothing, since no row has a null id. */
  function Taken(rows: seq<PersonRecord>, column: PersonRecord -> string, value: string, instanceId: Option<int>): (r: bool)
    ensures r <==> UsedByAnother(rows, column, value, instanceId)
  {
    if rows == [] then false
    else
      assert forall i | 1 <= i < |rows| :: rows[i] == rows[1..][i - 1];
      (column(rows[0]) == value && Some(rows[0].id) != instanceId) || Taken(rows[1..], column, value, instanceId)
  }

  function PhoneOf(p: PersonRecord): string { p.phone }
  function EmailOf(p: PersonRecord): string { p.email }

  // ---------------------------------------------------------------------------
  // validate_phone_number

  /** `validate_phone_number`: remove every space; the result must be "+7" and
      ten digits, checked before any lookup; then it must not be in use by a
      Patient, Doctor or Admin row other than the instance. The space-free
      number is what is returned. */
  function ValidatePhoneNumber(value: string, instanceId: Option<int>, dir: Directory): (r: Result<string, PhoneError>)
    ensures r.Success? ==> r.value == StripSpaces(value) && ' ' !in r.value
    ensures r.Success? ==> |r.value| == 12 && r.value[..2] == "+7" && All(r.value[2..], IsAsciiDigit)
    ensures r == Failure(PhoneFormat) <==> !IsCanonicalPhone(StripSpaces(value))
    ensures r == Failure(PhoneInUse) <==>
              IsCanonicalPhone(StripSpaces(value)) && ContactInUse(dir, PhoneOf, StripSpaces(value), instanceId)
  {
    var phone := StripSpaces(value);
    if !IsCanonicalPhone(phone) then Failure(PhoneFormat)
    else if Taken(dir.patients, PhoneOf, phone, instanceId) then Failure(PhoneInUse)
    else if Taken(dir.doctors, PhoneOf, phone, instanceId) then Failure(PhoneInUse)
    else if Taken(dir.admins, PhoneOf, phone, instanceId) then Failure(PhoneInUse)
    else Success(phone)
  }

  /** An accepted phone number is a fixed point: validating the returned value
      again, against the same rows, accepts it unchanged. */
  lemma PhoneNumberIdempotent(value: string, instanceId: Option<int>, dir: Directory)
    requires ValidatePhoneNumber(value, instanceId, dir).Success?
    ensures ValidatePhoneNumber(ValidatePhoneNumber(value, instanceId, dir).value, instanceId, dir)
         == ValidatePhoneNumber(value, instanceId, dir)
  {
    StripSpacesIdempotent(value);
  }

  /** The format part of `validate_phone_number` and `Person.clean` agree on
      every non-empty number. */
  lemma PhoneFormatAgreesWithClean(value: string, instanceId: Option<int>, dir: Directory)
    requires value != []
    ensures PersonClean(Some(value)).Pass? <==> ValidatePhoneNumber(value, instanceId, dir) != Failure(PhoneFormat)
  {
  }

  /** A number that is canonical once spaces are gone, and that no other
      person holds, is accepted in its space-free form. */
  lemma PhoneAccepted(value: string, instanceId: Option<int>, dir: Directory)
    requires IsCanonicalPhone(StripSpaces(value))
    requires !ContactInUse(dir, PhoneOf, StripSpaces(value), instanceId)
    ensures ValidatePhoneNumber(value, instanceId, dir) == Success(StripSpaces(value))
  {
  }

  /** Spaces anywhere in the input never change the verdict: "+7 123 456 78 90"
      is judged, and returned, exactly as "+71234567890". */
  lemma PhoneIgnoresSpaces(a: string, b: string, instanceId: Option<int>, dir: Directory)
    ensures ValidatePhoneNumber(a + " " + b, instanceId, dir) == ValidatePhoneNumber(a + b, instanceId, dir)
  {
    StripSpacesDropsSpace(a, b);
  }

  /** A number with another country code is rejected whatever the rows hold. */
  lemma ForeignPhoneRejected(instanceId: Option<int>, dir: Directory)
    ensures ValidatePhoneNumber("+81234567890", instanceId, dir) == Failure(PhoneFormat)
  {
    StripSpacesKeepsSpaceFree("+81234567890");
  }

  /** The id exclusion ignores the kind. When every row holding the number has
      the instance's id, the number is accepted, even if one of those rows is
      of another kind than the instance (say, the instance is the Doctor with
      id k and the row is the Patient with id k). */
  lemma CrossKindIdIgnored(value: string, k: int, dir: Directory)
    requires IsCanonicalPhone(value)
    requires forall p | p in dir.patients && p.phone == value :: p.id == k
    requires forall p | p in dir.doctors && p.phone == value :: p.id == k
    requires forall p | p in dir.admins && p.phone == value :: p.id == k
    ensures ValidatePhoneNumber(value, Some(k), dir) == Success(value)
  {
    assert ' ' !in value by {
      forall i | 0 <= i < |value| ensures value[i] != ' ' {
        if i >= 2 { assert value[i] == value[2..][i - 2]; }
      }
    }
    StripSpacesKeepsSpaceFree(value);
    forall rows: seq<PersonRecord> | rows in [dir.patients, dir.doctors, dir.admins]
      ensures !UsedByAnother(rows, PhoneOf, value, Some(k))
    {
      forall i | 0 <= i < |rows| && PhoneOf(rows[i]) == value ensures rows[i].id == k {
        assert rows[i] in rows;
      }
    }
    PhoneAccepted(value, Some(k), dir);
  }

  /** When nothing is being updated, a number used by any row of any kind,
      deleted or not, is rejected. */
  lemma PhoneOfDeletedPersonTaken(value: string, other: PersonRecord, dir: Directory)
    requires IsCanonicalPhone(value)
    requires other in dir.admins && other.phone == value && other.isDeleted
    ensures ValidatePhoneNumber(value, None, dir) == Failure(PhoneInUse)
  {
    StripSpacesKeepsSpaceFree(value);
    var i :| 0 <= i < |dir.admins| && dir.admins[i] == other;
    assert PhoneOf(dir.admins[i]) == value;
  }

  // ---------------------------------------------------------------------------
  // validate_email

  predicate IsLocalChar(c: char)
  {
    IsAsciiLetter(c) || IsAsciiDigit(c) || c == '.' || c == '_' || c == '%' || c == '+' || c == '-'
  }

  predicate IsDomainChar(c: char)
  {
    IsAsciiLetter(c) || IsAsciiDigit(c) || c == '.' || c == '-'
  }

  /** `s` matches `^[a-zA-Z0-9._%+-]+@[a-zA-Z0-9.-]+\.[a-zA-Z]{2,}$` with the
      `@` at `at` and the final `.` at `dot`. */
  ghost predicate EmailSplitAt(s: string, at: int, dot: int)
  {
    && 0 < at && at + 1 < dot && dot + 3 <= |s|
    && s[at] == '@' && s[dot] == '.'
    && All(s[..at], IsLocalChar)
    && All(s[at + 1..dot], IsDomainChar)
    && All(s[dot + 1..], IsAsciiLetter)
  }

  /** The language of the email pattern. Python's `$` would also match before
      one trailing newline; this model reads it as the end of the string. */
  ghost predicate EmailShape(s: string)
  {
    exists at, dot | 0 <= at < dot < |s| :: EmailSplitAt(s, at, dot)
  }

  /** A recogniser for the email pattern: a non-empty local part before the
      first `@`; after it only domain characters, whose last `.` is not the
      first of them and is followed by at least two letters. */
  function IsEmail(s: string): (b: bool)
    ensures b ==> |s| >= 6 && '@' in s && IsAsciiLetter(s[|s| - 1])
  {
    match FirstIndex(s, '@')
    case None => false
    case Some(at) =>
      var domain := s[at + 1..];
      && at > 0
      && All(s[..at], IsLocalChar)
      && All(domain, IsDomainChar)
      && match LastIndex(domain, '.')
         case None => false
         case Some(k) => k > 0 && |domain| - k - 1 >= 2 && All(domain[k + 1..], IsAsciiLetter)
  }

  /** Whatever the recogniser accepts has the shape of the pattern. */
  lemma IsEmailSound(s: string)
    requires IsEmail(s)
    ensures EmailShape(s)
  {
    var at := FirstIndex(s, '@').value;
    var domain := s[at + 1..];
    var k := LastIndex(domain, '.').value;
    var dot := at + 1 + k;
    assert s[at + 1..dot] == domain[..k];
    assert s[dot + 1..] == domain[k + 1..];
    assert All(s[at + 1..dot], IsDomainChar);
    assert EmailSplitAt(s, at, dot);
  }

  /** The domain after the `@` of a split consists of domain characters, and
      its last `.` is the one at the split. */
  lemma DomainOfSplit(s: string, at: int, dot: int)
    requires 0 <= at < dot < |s| && EmailSplitAt(s, at, dot)
    ensures All(s[at + 1..], IsDomainChar)
    ensures LastIndex(s[at + 1..], '.') == Some(dot - at - 1)
  {
    var domain := s[at + 1..];
    var k := dot - at - 1;
    assert domain[..k] == s[at + 1..dot];
    assert domain[k + 1..] == s[dot + 1..];
    forall i | 0 <= i < |domain| ensures IsDomainChar(domain[i]) {
      if i < k {
        assert domain[i] == domain[..k][i];
      } else if i > k {
        assert domain[i] == domain[k + 1..][i - k - 1];
      }
    }
    assert domain[k] == '.';
  }

  /** Whatever has the shape of the pattern is accepted by the recogniser. */
  lemma IsEmailComplete(s: string)
    requires EmailShape(s)
    ensures IsEmail(s)
  {
    var at, dot :| 0 <= at < dot < |s| && EmailSplitAt(s, at, dot);
    assert '@' !in s[..at] by {
      forall i | 0 <= i < at ensures s[..at][i] != '@' {
        assert IsLocalChar(s[..at][i]);
      }
    }
    FirstIndexAfterPrefix(s[..at], '@', s[at + 1..]);
    assert s == s[..at] + ['@'] + s[at + 1..];
    DomainOfSplit(s, at, dot);
    assert s[at + 1..][dot - at..] == s[dot + 1..];
  }

  /** The recogniser accepts exactly the language of the pattern. */
  lemma IsEmailMatchesShape(s: string)
    ensures IsEmail(s) <==> EmailShape(s)
  {
    if IsEmail(s) { IsEmailSound(s); }
    if EmailShape(s) { IsEmailComplete(s); }
  }

  /** `validate_email`: the value must match the email pattern, checked before
      any lookup, and must not be in use by a Patient, Doctor or Admin row other
      than the instance. An accepted value is returned unchanged. */
  function ValidateEmail(value: string, instanceId: Option<int>, dir: Directory): (r: Result<string, EmailError>)
    ensures r.Success? ==> r.value == value
    ensures r == Failure(EmailFormat) <==> !EmailShape(value)
    ensures r == Failure(EmailInUse) <==> EmailShape(value) && ContactInUse(dir, EmailOf, value, instanceId)
  {
    IsEmailMatchesShape(value);
    if !IsEmail(value) then Failure(EmailFormat)
    else if Taken(dir.patients, EmailOf, value, instanceId) then Failure(EmailInUse)
    else if Taken(dir.doctors, EmailOf, value, instanceId) then Failure(EmailInUse)
    else if Taken(dir.admins, EmailOf, value, instanceId) then Failure(EmailInUse)
    else Success(value)
  }

  /** An address with a one-letter top-level part, or with nothing before the
      `@`, does not have the shape. */
  lemma EmailShapeExamples()
    ensures EmailShape("ivan.petrov@mail.ru")
    ensures !EmailShape("ivan@mail.r")
    ensures !EmailShape("@mail.ru")
  {
    assert EmailSplitAt("ivan.petrov@mail.ru", 11, 16);
    IsEmailMatchesShape("ivan@mail.r");
    IsEmailMatchesShape("@mail.ru");
  }

  // ---------------------------------------------------------------------------
  // validate_date_birth

  /** A calendar date; Python compares dates by year, then month, then day. */
  datatype Date = Date(year: int, month: int, day: int)

  predicate DateBefore(a: Date, b: Date)
  {
    a.year < b.year
    || (a.year == b.year && a.month < b.month)
    || (a.year == b.year && a.month == b.month && a.day < b.day)
  }

  /** `validate_date_birth` (`today` is `date.today()`): a date after today is
      rejected first, then a year before 1900; an accepted date is returned
      unchanged. */
  function ValidateDateBirth(value: Date, today: Date): (r: Result<Date, BirthDateError>)
    ensures r.Success? ==> r.value == value
    ensures r == Failure(BirthInFuture) <==> DateBefore(today, value)
    ensures r == Failure(BirthBefore1900) <==> !DateBefore(today, value) && value.year < 1900
  {
    if DateBefore(today, value) then Failure(BirthInFuture)
    else if value.year < 1900 then Failure(BirthBefore1900)
    else Success(value)
  }

  /** For a real date (month and day at least 1) the accepted birth dates are
      exactly those from 1900-01-01 through today, both ends included. */
  lemma BirthDateWindow(value: Date, today: Date)
    requires value.month >= 1 && value.day >= 1
    ensures ValidateDateBirth(value, today).Success? <==>
              !DateBefore(value, Date(1900, 1, 1)) && !DateBefore(today, value)
  {
  }

  // ---------------------------------------------------------------------------
  // validate_password

  /** The rules in the order the validator checks them. */
  const PasswordRules: seq<PasswordRule> := [TooShort, NoDigit, NoUppercase, NoLowercase]

  /** The position of a rule in `PasswordRules`. */
  function Rank(rule: PasswordRule): (n: nat)
    ensures n < |PasswordRules| && PasswordRules[n] == rule
  {
    match rule
    case TooShort => 0
    case NoDigit => 1
    case NoUppercase => 2
    case NoLowercase => 3
  }

  /** The password breaks the rule. */
  predicate Violates(rule: PasswordRule, value: string)
  {
    match rule
    case TooShort => |value| < 8
    case NoDigit => !Any(value, IsAsciiDigit)
    case NoUppercase => !Any(value, IsAsciiUpper)
    case NoLowercase => !Any(value, IsAsciiLower)
  }

  /** The rules of `rules` that the password breaks, in the order of `rules`. */
  function Broken(rules: seq<PasswordRule>, value: string): (r: seq<PasswordRule>)
  {
    if rules == [] then []
    else (if Violates(rules[0], value) then [rules[0]] else []) + Broken(rules[1..], value)
  }

  /** The rules the password breaks, in checking order. */
  function FailedRules(value: string): seq<PasswordRule>
  {
    Broken(PasswordRules, value)
  }

  /** The ranks of the listed rules increase strictly. */
  predicate InRuleOrder(errors: seq<PasswordRule>)
  {
    forall i, j | 0 <= i < j < |errors| :: Rank(errors[i]) < Rank(errors[j])
  }

  /** `Broken` keeps exactly the listed rules that the password breaks. */
  lemma {:induction false} BrokenMembers(rules: seq<PasswordRule>, value: string)
    ensures forall rule :: rule in Broken(rules, value) <==> rule in rules && Violates(rule, value)
  {
    if rules != [] {
      BrokenMembers(rules[1..], value);
      assert rules == [rules[0]] + rules[1..];
    }
  }

  /** `Broken` keeps the order of the rules it is given. */
  lemma {:induction false} BrokenOrdered(rules: seq<PasswordRule>, value: string)
    requires InRuleOrder(rules)
    ensures InRuleOrder(Broken(rules, value))
  {
    if rules != [] {
      var rest := rules[1..];
      assert InRuleOrder(rest) by {
        forall i, j | 0 <= i < j < |rest| ensures Rank(rest[i]) < Rank(rest[j]) {
          assert rest[i] == rules[i + 1] && rest[j] == rules[j + 1];
        }
      }
      BrokenOrdered(rest, value);
      BrokenMembers(rest, value);
      var tail := Broken(rest, value);
      forall t | t in tail ensures Rank(rules[0]) < Rank(t) {
        var n :| 0 <= n < |rest| && rest[n] == t;
        assert rest[n] == rules[n + 1];
      }
    }
  }

  /** The failed-rule list holds exactly the rules the password breaks, each
      once, in checking order: length, digit, upper case, lower case. */
  lemma FailedRulesExact(value: string)
    ensures forall rule :: rule in FailedRules(value) <==> Violates(rule, value)
    ensures InRuleOrder(FailedRules(value))
  {
    BrokenMembers(PasswordRules, value);
    BrokenOrdered(PasswordRules, value);
    forall rule ensures rule in PasswordRules { assert PasswordRules[Rank(rule)] == rule; }
  }

  /** The four rules in checking order, each contributing at most one entry. */
  lemma FailedRulesUnfold(value: string)
    ensures FailedRules(value) ==
              (if Violates(TooShort, value) then [TooShort] else [])
              + (if Violates(NoDigit, value) then [NoDigit] else [])
              + (if Violates(NoUppercase, value) then [NoUppercase] else [])
              + (if Violates(NoLowercase, value) then [NoLowercase] else [])
  {
    var rs := PasswordRules;
    var r1, r2, r3 := [NoDigit, NoUppercase, NoLowercase], [NoUppercase, NoLowercase], [NoLowercase];
    assert rs[1..] == r1 && r1[1..] == r2 && r2[1..] == r3 && r3[1..] == [];
    assert Broken(r3, value) == (if Violates(NoLowercase, value) then [NoLowercase] else []);
    assert Broken(r2, value) == (if Violates(NoUppercase, value) then [NoUppercase] else []) + Broken(r3, value);
    assert Broken(r1, value) == (if Violates(NoDigit, value) then [NoDigit] else []) + Broken(r2, value);
    assert Broken(rs, value) == (if Violates(TooShort, value) then [TooShort] else []) + Broken(r1, value);
  }

  /** "Abcd1234" breaks no rule. */
  lemma StrongPasswordAccepted()
    ensures FailedRules("Abcd1234") == []
  {
    var v := "Abcd1234";
    FailedRulesUnfold(v);
    assert IsAsciiUpper(v[0]) && IsAsciiLower(v[1]) && IsAsciiDigit(v[4]);
  }

  /** A string none of whose characters satisfies `p` has no such character. */
  lemma NoneSatisfies(s: string, p: char -> bool)
    requires forall i | 0 <= i < |s| :: !p(s[i])
    ensures !Any(s, p)
  {
  }

  /** "abc12345" breaks only the upper-case rule. */
  lemma PasswordWithoutUppercase(v: string)
    requires v == "abc12345"
    ensures FailedRules(v) == [NoUppercase]
  {
    FailedRulesUnfold(v);
    assert IsAsciiLower(v[0]) && IsAsciiDigit(v[3]);
    NoneSatisfies(v, IsAsciiUpper);
  }

  /** "ABCDEFGH" breaks the digit and the lower-case rules, reported in that order. */
  lemma PasswordWithoutDigitOrLowercase(v: string)
    requires v == "ABCDEFGH"
    ensures FailedRules(v) == [NoDigit, NoLowercase]
  {
    FailedRulesUnfold(v);
    assert IsAsciiUpper(v[0]);
    NoneSatisfies(v, IsAsciiDigit);
    NoneSatisfies(v, IsAsciiLower);
  }

  /** `validate_password`: each failing rule appends its message, in checking
      order; a non-empty list rejects the password with all of them, an empty
      one accepts it unchanged. */
  method ValidatePassword(value: string) returns (r: Result<string, seq<PasswordRule>>)
    ensures r.Success? <==>
              |value| >= 8 && Any(value, IsAsciiDigit) && Any(value, IsAsciiUpper) && Any(value, IsAsciiLower)
    ensures r.Success? ==> r.value == value
    ensures r.Failure? ==> r.error == FailedRules(value) && r.error != []
  {
    var errors: seq<PasswordRule> := [];
    if |value| < 8 {
      errors := errors + [TooShort];
    }
    if !Any(value, IsAsciiDigit) {
      errors := errors + [NoDigit];
    }
    if !Any(value, IsAsciiUpper) {
      errors := errors + [NoUppercase];
    }
    if !Any(value, IsAsciiLower) {
      errors := errors + [NoLowercase];
    }
    FailedRulesUnfold(value);
    if errors != [] {
      return Failure(errors);
    }
    return Success(value);
  }
}
