/** The records of main/models.py and the model-level checks: `Person.clean`,
    `Person.__str__` / `get_full_name`, `Consultation.clean`, and `save`, which
    runs `full_clean` before it writes.

    Records are values; the database table of consultations is the one piece of
    state the model changes, held by `ConsultationStore`. */
module Models {
  import opened Wrappers
  import opened Text

  /** A Doctor, Patient or Admin row (the abstract `Person` base). Only the
      fields the validators read are kept. */
  datatype PersonRecord = PersonRecord(
    id: int,
    firstName: string,
    lastName: string,
    patronymic: Option<string>,  // nullable column
    email: string,
    phone: string,
    isDeleted: bool)

  /** A Clinic row. The columns are spelled `registered_adress` and
      `actual_adress` in the model, while the clinic serializer names its fields
      `registered_address` and `actual_address`, fields the Clinic model it
      declares does not have. This model keeps the model's spelling here. */
  datatype ClinicRecord = ClinicRecord(
    id: int,
    name: string,
    registeredAdress: string,
    actualAdress: string,
    isDeleted: bool)

  /** A Consultation row; timestamps are integers on one clock.

      The consultation serializer filters on `is_deleted`, but the Consultation
      model declares no such column; this record carries the flag so that the
      filter has something to read. */
  datatype ConsultationRecord = ConsultationRecord(
    id: int,
    start: int,
    end: int,
    status: string,
    doctor: int,
    patient: int,
    clinic: int,
    isDeleted: bool)

  /** Everything the validators look up besides the consultation table: all rows
      of the three person kinds and of clinics (deleted rows included), and the
      doctor-clinic affiliation as (doctor id, clinic id) pairs. The serializer
      reads the affiliation through `doctor.clinics`, a relation main/models.py
      does not declare. */
  datatype Directory = Directory(
    patients: seq<PersonRecord>,
    doctors: seq<PersonRecord>,
    admins: seq<PersonRecord>,
    clinics: seq<ClinicRecord>,
    affiliation: set<(int, int)>)

  /** Django's error dictionaries are keyed by field; `NonField` is the key used
      for an error raised without one. */
  datatype Field = NonField | StartTime | EndTime | Status | Doctor | Patient | Clinic | PhoneNumber

  /** Why a field was rejected (in place of the Russian message texts). */
  datatype Reason =
    | Required
    | DoesNotExist
    | InvalidChoice
    | EndNotAfterStart
    | StartInPast
    | DoctorBusy
    | NotAffiliated
    | BadPhoneFormat

  datatype FieldError = FieldError(field: Field, reason: Reason)

  // ---------------------------------------------------------------------------
  // Soft delete: the `.filter(is_deleted=False)` querysets of the consultation
  // serializer. main/manager.py defines an `ActiveManager` with the same filter,
  // but no model installs it, so `objects` itself still shows deleted rows.

  /** The rows that `.filter(is_deleted=False)` keeps: those not marked
      deleted, in order. */
  function ActivePersons(rows: seq<PersonRecord>): (r: seq<PersonRecord>)
    ensures forall p :: p in r <==> p in rows && !p.isDeleted
    ensures |r| <= |rows|
  {
    if rows == [] then []
    else
      assert rows == [rows[0]] + rows[1..];
      (if rows[0].isDeleted then [] else [rows[0]]) + ActivePersons(rows[1..])
  }

  /** The clinics that `.filter(is_deleted=False)` keeps. */
  function ActiveClinics(rows: seq<ClinicRecord>): (r: seq<ClinicRecord>)
    ensures forall c :: c in r <==> c in rows && !c.isDeleted
    ensures |r| <= |rows|
  {
    if rows == [] then []
    else
      assert rows == [rows[0]] + rows[1..];
      (if rows[0].isDeleted then [] else [rows[0]]) + ActiveClinics(rows[1..])
  }

  // ---------------------------------------------------------------------------
  // Person

  /** The phone number format `^\+7\d{10}$`: "+7" and then exactly ten digits.
      Python's `$` would also match before one trailing newline; this model reads
      it as the end of the string. A canonical number holds no space, so
      stripping spaces leaves it as it is, and it fits the 12 characters of the
      `phone_number` column. */
  predicate IsCanonicalPhone(s: string): (b: bool)
    ensures b ==> ' ' !in s && StripSpaces(s) == s && |s| <= 12
  {
    var b := |s| == 12 && s[0] == '+' && s[1] == '7' && All(s[2..], IsAsciiDigit);
    if b then
      assert forall i | 2 <= i < |s| :: s[i] == s[2..][i - 2];
      StripSpacesKeepsSpaceFree(s);
      b
    else
      b
  }

  /** `Person.clean`: a non-empty phone number whose space-free form is not in
      the canonical format is rejected on the `phone_number` field. An absent or
      empty number is not checked, and the stored number is never rewritten. */
  function PersonClean(phone: Option<string>): (r: Outcome<FieldError>)
    ensures r.Pass? <==> phone.None? || phone.value == [] || IsCanonicalPhone(StripSpaces(phone.value))
    ensures r.Fail? ==> r.error == FieldError(PhoneNumber, BadPhoneFormat)
    ensures r.Pass? && phone.Some? && phone.value != [] ==> |StripSpaces(phone.value)| == 12
  {
    if phone.Some? && phone.value != [] && !IsCanonicalPhone(StripSpaces(phone.value)) then
      Fail(FieldError(PhoneNumber, BadPhoneFormat))
    else
      Pass
  }

  /** How Python's f-string renders the nullable patronymic: `None` prints as
      the four letters "None". */
  function PatronymicText(p: Option<string>): string
  {
    match p
    case None => "None"
    case Some(s) => s
  }

  /** `Person.__str__` and `Person.get_full_name`, which have the same body:
      last name, first name and patronymic joined by single spaces. */
  function FullName(p: PersonRecord): (r: string)
    ensures |r| == |p.lastName| + |p.firstName| + |PatronymicText(p.patronymic)| + 2
    ensures r[..|p.lastName|] == p.lastName && r[|p.lastName|] == ' '
    ensures r[|r| - |PatronymicText(p.patronymic)|..] == PatronymicText(p.patronymic)
    ensures r[|r| - |PatronymicText(p.patronymic)| - 1] == ' '
  {
    p.lastName + " " + p.firstName + " " + PatronymicText(p.patronymic)
  }

  /** The full name splits back into its three parts whenever none of them
      holds a space. */
  lemma FullNameSplits(p: PersonRecord)
    requires ' ' !in p.lastName && ' ' !in p.firstName && ' ' !in PatronymicText(p.patronymic)
    ensures Split(FullName(p)) == [p.lastName, p.firstName, PatronymicText(p.patronymic)]
    ensures |FullName(p)| == |p.lastName| + |p.firstName| + |PatronymicText(p.patronymic)| + 2
  {
    var last, first, patr := p.lastName, p.firstName, PatronymicText(p.patronymic);
    var rest := first + " " + patr;
    assert Split(rest) == [first, patr] by {
      SplitCons(first, patr);
      assert FirstIndex(patr, ' ').None?;
    }
    assert FullName(p) == last + " " + rest;
    SplitCons(last, rest);
  }

  /** A person without a patronymic is printed with the word "None" in its place. */
  lemma FullNameWithoutPatronymic(p: PersonRecord)
    requires p.patronymic.None?
    ensures FullName(p)[|FullName(p)| - 4..] == "None"
  {
  }

  // ---------------------------------------------------------------------------
  // Consultation

  /** The codes of `Consultation.STATUS_CHOICES`, in declaration order. */
  const StatusCodes: seq<string> := ["confirmed", "waited", "started", "completed"]

  /** A choice of `Consultation.status`; every code fits the column's 20
      characters. */
  predicate IsStatusCode(s: string): (b: bool)
    ensures b ==> 0 < |s| <= 20
  {
    s in StatusCodes
  }

  /** `Consultation.clean`. With either time missing it accepts at once;
      otherwise a start not strictly before the end is an `end_time` error, and
      only after that a start before `now` (the clock read `datetime.now`) is a
      `start_time` error. */
  function ConsultationClean(start: Option<int>, end: Option<int>, now: int): (r: Outcome<FieldError>)
    ensures start.None? || end.None? ==> r.Pass?
    ensures r.Pass? <==> start.None? || end.None? || now <= start.value < end.value
    ensures r == Fail(FieldError(EndTime, EndNotAfterStart)) <==>
              start.Some? && end.Some? && start.value >= end.value
    ensures r == Fail(FieldError(StartTime, StartInPast)) <==>
              start.Some? && end.Some? && start.value < end.value && start.value < now
  {
    if start.None? || end.None? then Pass
    else if start.value >= end.value then Fail(FieldError(EndTime, EndNotAfterStart))
    else if start.value < now then Fail(FieldError(StartTime, StartInPast))
    else Pass
  }

  /** What `full_clean` reports for a row about to be saved: Django first checks
      the field choices (the status must be one of the four codes), then runs
      `clean`, and reports the errors of both together. */
  function FullClean(c: ConsultationRecord, now: int): (errors: seq<FieldError>)
    ensures errors == [] <==> IsStatusCode(c.status) && now <= c.start < c.end
    ensures FieldError(Status, InvalidChoice) in errors <==> !IsStatusCode(c.status)
    ensures ConsultationClean(Some(c.start), Some(c.end), now).Fail? ==>
              ConsultationClean(Some(c.start), Some(c.end), now).error in errors
    ensures forall e | e in errors ::
              e == FieldError(Status, InvalidChoice) || ConsultationClean(Some(c.start), Some(c.end), now) == Fail(e)
    ensures |errors| <= 2
  {
    (if IsStatusCode(c.status) then [] else [FieldError(Status, InvalidChoice)])
    + (match ConsultationClean(Some(c.start), Some(c.end), now)
       case Pass => []
       case Fail(e) => [e])
  }

  // ---------------------------------------------------------------------------
  // The consultation table

  /** Some row carries this primary key. */
  predicate HasId(rows: seq<ConsultationRecord>, id: int)
  {
    exists i | 0 <= i < |rows| :: rows[i].id == id
  }

  /** Primary keys are unique in the table. */
  ghost predicate UniqueIds(rows: seq<ConsultationRecord>)
  {
    forall i, j | 0 <= i < |rows| && 0 <= j < |rows| && i != j :: rows[i].id != rows[j].id
  }

  /** The key the database hands to a newly inserted row: one above every key in use. */
  function NextId(rows: seq<ConsultationRecord>): (n: int)
    ensures n >= 1
    ensures forall i | 0 <= i < |rows| :: rows[i].id < n
  {
    if rows == [] then 1
    else
      var rest := NextId(rows[1..]);
      assert forall i | 1 <= i < |rows| :: rows[i] == rows[1..][i - 1];
      if rows[0].id + 1 > rest then rows[0].id + 1 else rest
  }

  /** What `Model.save` does to the table: the row with the same key is
      overwritten, and a row with a new key is appended. */
  function Upsert(rows: seq<ConsultationRecord>, c: ConsultationRecord): (r: seq<ConsultationRecord>)
    ensures c in r
    ensures forall x :: x in r && x.id != c.id <==> x in rows && x.id != c.id
    ensures |r| == if HasId(rows, c.id) then |rows| else |rows| + 1
    ensures UniqueIds(rows) ==> UniqueIds(r)
  {
    if HasId(rows, c.id) then
      var r := seq(|rows|, i requires 0 <= i < |rows| => if rows[i].id == c.id then c else rows[i]);
      assert c in r by {
        var k :| 0 <= k < |rows| && rows[k].id == c.id;
        assert r[k] == c;
      }
      assert forall x | x in rows && x.id != c.id :: x in r by {
        forall x | x in rows && x.id != c.id ensures x in r {
          var i :| 0 <= i < |rows| && rows[i] == x;
          assert r[i] == x;
        }
      }
      r
    else
      rows + [c]
  }

  /** Two live bookings of the same doctor whose half-open windows
      [start, end) intersect. */
  predicate Clashes(a: ConsultationRecord, b: ConsultationRecord)
  {
    !a.isDeleted && !b.isDeleted && a.doctor == b.doctor && a.start < b.end && b.start < a.end
  }

  /** No two live rows of the table double-book a doctor. */
  ghost predicate NoDoubleBooking(rows: seq<ConsultationRecord>)
  {
    forall i, j | 0 <= i < |rows| && 0 <= j < |rows| && i != j :: !Clashes(rows[i], rows[j])
  }

  /** Writing a row that clashes with no row under another key keeps the table
      free of double bookings. */
  lemma UpsertKeepsNoDoubleBooking(rows: seq<ConsultationRecord>, c: ConsultationRecord)
    requires UniqueIds(rows) && NoDoubleBooking(rows)
    requires forall i | 0 <= i < |rows| && rows[i].id != c.id :: !Clashes(rows[i], c)
    ensures NoDoubleBooking(Upsert(rows, c))
  {
    var r := Upsert(rows, c);
    if HasId(rows, c.id) {
      forall i, j | 0 <= i < |r| && 0 <= j < |r| && i != j
        ensures !Clashes(r[i], r[j])
      {
        assert r[i] == if rows[i].id == c.id then c else rows[i];
        assert r[j] == if rows[j].id == c.id then c else rows[j];
      }
    } else {
      forall i, j | 0 <= i < |r| && 0 <= j < |r| && i != j
        ensures !Clashes(r[i], r[j])
      {
        if i == |rows| {
          assert !Clashes(rows[j], c);
        } else if j == |rows| {
          assert !Clashes(rows[i], c);
        }
      }
    }
  }

  /** The consultation table, written only through `Save`. */
  class ConsultationStore {
    var rows: seq<ConsultationRecord>

    ghost predicate Valid()
      reads this
    {
      UniqueIds(rows)
    }

    constructor ()
      ensures Valid() && rows == []
    {
      rows := [];
    }

    /** `Consultation.save`: run `full_clean`, and write the row only when it
        reports nothing; a rejected row leaves the table as it was. */
    method Save(c: ConsultationRecord, now: int) returns (errors: seq<FieldError>)
      requires Valid()
      modifies this
      ensures Valid()
      ensures errors == FullClean(c, now)
      ensures errors == [] ==> rows == Upsert(old(rows), c)
      ensures errors != [] ==> rows == old(rows)
    {
      errors := FullClean(c, now);
      if errors == [] {
        rows := Upsert(rows, c);
      }
    }
  }
}
