/** `ConsultationWriteSerializer` (main/serializers/consult_serializer.py): the
    checks that decide whether a booking may be written, and the write path
    that runs them before `Consultation.save`.

    The clock (`timezone.now()`) is the parameter `now`; the database is the
    consultation table `rows` and the `Directory` of people, clinics and
    affiliations. */
module ConsultSerializer {
  import opened Wrappers
  import opened Models

  /** The request attributes after parsing; any of them may be absent. The
      related fields carry primary keys. */
  datatype Attrs = Attrs(
    start: Option<int>,
    end: Option<int>,
    status: Option<string>,
    doctor: Option<int>,
    patient: Option<int>,
    clinic: Option<int>)

  // ---------------------------------------------------------------------------
  // Field stage: the declared fields, in the order of `Meta.fields`

  /** A `PrimaryKeyRelatedField` over `Kind.objects.filter(is_deleted=False)`
      resolves a key only to a row that is not marked deleted. */
  predicate ResolvesPerson(rows: seq<PersonRecord>, pk: int)
  {
    exists p | p in ActivePersons(rows) :: p.id == pk
  }

  predicate ResolvesClinic(rows: seq<ClinicRecord>, pk: int)
  {
    exists c | c in ActiveClinics(rows) :: c.id == pk
  }

  /** One field's check: an absent value is a `Required` error unless the
      update is partial; a present value must be valid, or it is the field's
      `invalid` error. Either error is reported under the field's own key. */
  function CheckField(field: Field, present: bool, valid: bool, invalid: Reason, partial: bool): (errors: seq<FieldError>)
    ensures errors == [] <==> (present || partial) && (present ==> valid)
    ensures forall e | e in errors :: e.field == field
    ensures forall e | e in errors :: e == FieldError(field, if present then invalid else Required)
    ensures invalid != Required ==> (FieldError(field, invalid) in errors <==> present && !valid)
    ensures invalid != Required ==> (FieldError(field, Required) in errors <==> !present && !partial)
  {
    if !present then (if partial then [] else [FieldError(field, Required)])
    else if valid then []
    else [FieldError(field, invalid)]
  }

  /** What must hold of the attributes before `validate` runs: every field is
      present unless the update is partial, the status is one of the four
      codes, and every key resolves to a row that is not deleted. */
  ghost predicate FieldsResolve(attrs: Attrs, dir: Directory, partial: bool)
  {
    && (!partial ==> attrs.start.Some? && attrs.end.Some? && attrs.status.Some?
                     && attrs.doctor.Some? && attrs.patient.Some? && attrs.clinic.Some?)
    && (attrs.status.Some? ==> IsStatusCode(attrs.status.value))
    && (attrs.doctor.Some? ==> ResolvesPerson(dir.doctors, attrs.doctor.value))
    && (attrs.patient.Some? ==> ResolvesPerson(dir.patients, attrs.patient.value))
    && (attrs.clinic.Some? ==> ResolvesClinic(dir.clinics, attrs.clinic.value))
  }

  /** The checks of the three plain fields: start time, end time and status. */
  function ScheduleErrors(attrs: Attrs, partial: bool): (errors: seq<FieldError>)
    ensures errors == [] <==>
              && (!partial ==> attrs.start.Some? && attrs.end.Some? && attrs.status.Some?)
              && (attrs.status.Some? ==> IsStatusCode(attrs.status.value))
    ensures FieldError(StartTime, Required) in errors <==> !partial && attrs.start.None?
    ensures FieldError(EndTime, Required) in errors <==> !partial && attrs.end.None?
    ensures FieldError(Status, Required) in errors <==> !partial && attrs.status.None?
    ensures FieldError(Status, InvalidChoice) in errors <==>
              attrs.status.Some? && !IsStatusCode(attrs.status.value)
    ensures forall e | e in errors :: e.field == StartTime || e.field == EndTime || e.field == Status
    ensures forall e | e in errors :: e.reason == Required || e == FieldError(Status, InvalidChoice)
  {
    CheckField(StartTime, attrs.start.Some?, true, Required, partial)
    + CheckField(EndTime, attrs.end.Some?, true, Required, partial)
    + CheckField(Status, attrs.status.Some?,
                 attrs.status.Some? && IsStatusCode(attrs.status.value), InvalidChoice, partial)
  }

  /** The checks of the three related keys: doctor, patient and clinic. */
  function RelationErrors(attrs: Attrs, dir: Directory, partial: bool): (errors: seq<FieldError>)
    ensures errors == [] <==>
              && (!partial ==> attrs.doctor.Some? && attrs.patient.Some? && attrs.clinic.Some?)
              && (attrs.doctor.Some? ==> ResolvesPerson(dir.doctors, attrs.doctor.value))
              && (attrs.patient.Some? ==> ResolvesPerson(dir.patients, attrs.patient.value))
              && (attrs.clinic.Some? ==> ResolvesClinic(dir.clinics, attrs.clinic.value))
    ensures FieldError(Doctor, Required) in errors <==> !partial && attrs.doctor.None?
    ensures FieldError(Patient, Required) in errors <==> !partial && attrs.patient.None?
    ensures FieldError(Clinic, Required) in errors <==> !partial && attrs.clinic.None?
    ensures FieldError(Doctor, DoesNotExist) in errors <==>
              attrs.doctor.Some? && !ResolvesPerson(dir.doctors, attrs.doctor.value)
    ensures FieldError(Patient, DoesNotExist) in errors <==>
              attrs.patient.Some? && !ResolvesPerson(dir.patients, attrs.patient.value)
    ensures FieldError(Clinic, DoesNotExist) in errors <==>
              attrs.clinic.Some? && !ResolvesClinic(dir.clinics, attrs.clinic.value)
    ensures forall e | e in errors :: e.field == Doctor || e.field == Patient || e.field == Clinic
    ensures forall e | e in errors :: e.reason == Required || e.reason == DoesNotExist
  {
    CheckField(Doctor, attrs.doctor.Some?,
               attrs.doctor.Some? && ResolvesPerson(dir.doctors, attrs.doctor.value), DoesNotExist, partial)
    + CheckField(Patient, attrs.patient.Some?,
                 attrs.patient.Some? && ResolvesPerson(dir.patients, attrs.patient.value), DoesNotExist, partial)
    + CheckField(Clinic, attrs.clinic.Some?,
                 attrs.clinic.Some? && ResolvesClinic(dir.clinics, attrs.clinic.value), DoesNotExist, partial)
  }

  /** The errors of the field stage, all of them, in field order: each
      missing required field is `Required` under its own key, a bad status is
      an invalid choice, and a key that names no live row is reported as
      missing on its own field. */
  function FieldErrors(attrs: Attrs, dir: Directory, partial: bool): (errors: seq<FieldError>)
    ensures errors == [] <==> FieldsResolve(attrs, dir, partial)
    ensures FieldError(StartTime, Required) in errors <==> !partial && attrs.start.None?
    ensures FieldError(EndTime, Required) in errors <==> !partial && attrs.end.None?
    ensures FieldError(Status, Required) in errors <==> !partial && attrs.status.None?
    ensures FieldError(Doctor, Required) in errors <==> !partial && attrs.doctor.None?
    ensures FieldError(Patient, Required) in errors <==> !partial && attrs.patient.None?
    ensures FieldError(Clinic, Required) in errors <==> !partial && attrs.clinic.None?
    ensures FieldError(Status, InvalidChoice) in errors <==>
              attrs.status.Some? && !IsStatusCode(attrs.status.value)
    ensures FieldError(Doctor, DoesNotExist) in errors <==>
              attrs.doctor.Some? && !ResolvesPerson(dir.doctors, attrs.doctor.value)
    ensures FieldError(Patient, DoesNotExist) in errors <==>
              attrs.patient.Some? && !ResolvesPerson(dir.patients, attrs.patient.value)
    ensures FieldError(Clinic, DoesNotExist) in errors <==>
              attrs.clinic.Some? && !ResolvesClinic(dir.clinics, attrs.clinic.value)
    ensures forall e | e in errors ::
              || e.reason == Required
              || (e.field == Status && e.reason == InvalidChoice)
              || ((e.field == Doctor || e.field == Patient || e.field == Clinic) && e.reason == DoesNotExist)
  {
    ScheduleErrors(attrs, partial) + RelationErrors(attrs, dir, partial)
  }

  // ---------------------------------------------------------------------------
  // The overlap search

  /** The filter `doctor=doctor, start_time__lt=end, end_time__gt=start,
      is_deleted=False`: a live booking of the doctor whose half-open window
      meets [start, end). */
  predicate OverlapsWindow(e: ConsultationRecord, doctor: int, start: int, end: int): (b: bool)
    ensures e.start < e.end && start < end ==>
              (b <==> e.doctor == doctor && !e.isDeleted &&
                      (if e.start < start then start else e.start) < (if e.end < end then e.end else end))
  {
    e.doctor == doctor && e.start < end && e.end > start && !e.isDeleted
  }

  /** Some row other than the instance being updated overlaps the window. */
  ghost predicate DoctorBooked(rows: seq<ConsultationRecord>, doctor: int, start: int, end: int, instance: Option<int>)
  {
    exists i | 0 <= i < |rows| :: OverlapsWindow(rows[i], doctor, start, end) && Some(rows[i].id) != instance
  }

  /** `overlapping.exists()`, with `exclude(pk=instance.pk)` applied on update. */
  function AnyOverlapping(rows: seq<ConsultationRecord>, doctor: int, start: int, end: int, instance: Option<int>): (r: bool)
    ensures r <==> DoctorBooked(rows, doctor, start, end, instance)
  {
    if rows == [] then false
    else
      assert forall i | 1 <= i < |rows| :: rows[i] == rows[1..][i - 1];
      (OverlapsWindow(rows[0], doctor, start, end) && Some(rows[0].id) != instance)
      || AnyOverlapping(rows[1..], doctor, start, end, instance)
  }

  /** Touching windows, other doctors' bookings and deleted bookings never
      overlap a window. */
  lemma NeverOverlapping(e: ConsultationRecord, doctor: int, start: int, end: int)
    requires e.end == start || e.start == end || e.doctor != doctor || e.isDeleted
    ensures !OverlapsWindow(e, doctor, start, end)
  {
  }

  // ---------------------------------------------------------------------------
  // validate

  /** `validate`: fail-fast checks in the order time order, past, overlap,
      affiliation, each reporting exactly one field-tagged error; on success the
      attributes come back unchanged. `now` is `timezone.now()`. */
  function Validate(attrs: Attrs, instance: Option<int>, rows: seq<ConsultationRecord>,
                    affiliation: set<(int, int)>, now: int): (r: Result<Attrs, FieldError>)
    ensures r.Success? ==> r.value == attrs
    ensures r.Success? <==>
              && (attrs.start.Some? && attrs.end.Some? ==> now <= attrs.start.value < attrs.end.value)
              && (attrs.doctor.Some? && attrs.start.Some? && attrs.end.Some? ==>
                    !DoctorBooked(rows, attrs.doctor.value, attrs.start.value, attrs.end.value, instance))
              && (attrs.doctor.Some? && attrs.clinic.Some? ==> (attrs.doctor.value, attrs.clinic.value) in affiliation)
    ensures r == Failure(FieldError(NonField, EndNotAfterStart)) <==>
              attrs.start.Some? && attrs.end.Some? && attrs.start.value >= attrs.end.value
    ensures r == Failure(FieldError(StartTime, StartInPast)) <==>
              attrs.start.Some? && attrs.end.Some? && attrs.start.value < attrs.end.value
              && attrs.start.value < now
    ensures r == Failure(FieldError(StartTime, DoctorBusy)) <==>
              attrs.start.Some? && attrs.end.Some? && now <= attrs.start.value < attrs.end.value
              && attrs.doctor.Some?
              && DoctorBooked(rows, attrs.doctor.value, attrs.start.value, attrs.end.value, instance)
    ensures r == Failure(FieldError(Doctor, NotAffiliated)) <==>
              (attrs.start.Some? && attrs.end.Some? ==> now <= attrs.start.value < attrs.end.value)
              && (attrs.doctor.Some? && attrs.start.Some? && attrs.end.Some? ==>
                    !DoctorBooked(rows, attrs.doctor.value, attrs.start.value, attrs.end.value, instance))
              && attrs.doctor.Some? && attrs.clinic.Some?
              && (attrs.doctor.value, attrs.clinic.value) !in affiliation
  {
    var times := attrs.start.Some? && attrs.end.Some?;
    if times && attrs.start.value >= attrs.end.value then
      Failure(FieldError(NonField, EndNotAfterStart))
    else if times && attrs.start.value < now then
      Failure(FieldError(StartTime, StartInPast))
    else if attrs.doctor.Some? && times
            && AnyOverlapping(rows, attrs.doctor.value, attrs.start.value, attrs.end.value, instance) then
      Failure(FieldError(StartTime, DoctorBusy))
    else if attrs.clinic.Some? && attrs.doctor.Some?
            && (attrs.doctor.value, attrs.clinic.value) !in affiliation then
      Failure(FieldError(Doctor, NotAffiliated))
    else
      Success(attrs)
  }

  /** The attributes a stored row would be re-submitted with. */
  function AttrsOf(c: ConsultationRecord): Attrs
  {
    Attrs(Some(c.start), Some(c.end), Some(c.status), Some(c.doctor), Some(c.patient), Some(c.clinic))
  }

  /** On update the row being edited is left out of the overlap search, so
      re-submitting a live row of a table without double bookings never finds
      that the doctor is busy. */
  lemma RevalidateUnchanged(rows: seq<ConsultationRecord>, k: int, affiliation: set<(int, int)>, now: int)
    requires NoDoubleBooking(rows)
    requires 0 <= k < |rows| && !rows[k].isDeleted
    ensures Validate(AttrsOf(rows[k]), Some(rows[k].id), rows, affiliation, now)
            != Failure(FieldError(StartTime, DoctorBusy))
  {
    var c := rows[k];
    if DoctorBooked(rows, c.doctor, c.start, c.end, Some(c.id)) {
      var j :| 0 <= j < |rows| && OverlapsWindow(rows[j], c.doctor, c.start, c.end) && Some(rows[j].id) != Some(c.id);
      assert Clashes(rows[j], c);
      assert false;
    }
  }

  /** A booking that passed `validate` can be written under the instance's key
      (or under any key when nothing was being updated) without double-booking
      the doctor. */
  lemma ValidatedBookingKeepsNoDoubleBooking(rows: seq<ConsultationRecord>, attrs: Attrs, instance: Option<int>,
                                             affiliation: set<(int, int)>, now: int, c: ConsultationRecord)
    requires UniqueIds(rows) && NoDoubleBooking(rows)
    requires Validate(attrs, instance, rows, affiliation, now).Success?
    requires attrs.doctor == Some(c.doctor) && attrs.start == Some(c.start) && attrs.end == Some(c.end)
    requires instance.Some? ==> c.id == instance.value
    ensures NoDoubleBooking(Upsert(rows, c))
    ensures UniqueIds(Upsert(rows, c))
  {
    forall i | 0 <= i < |rows| && rows[i].id != c.id ensures !Clashes(rows[i], c) {
      if Clashes(rows[i], c) {
        assert OverlapsWindow(rows[i], c.doctor, c.start, c.end);
        assert false;
      }
    }
    UpsertKeepsNoDoubleBooking(rows, c);
  }

  /** The booking scenario: doctor 1 works at clinic 10 but not at clinic 20;
      times are minutes of the day. 10:00-10:30 is accepted; then 10:15-10:45
      collides; 10:30-11:00 fits right after it; 12:00-12:30 at clinic 20 is
      refused for affiliation. */
  lemma BookingScenario(now: int)
    requires now <= 600
    ensures Validate(Attrs(Some(600), Some(630), Some("waited"), Some(1), Some(100), Some(10)),
                     None, [], {(1, 10)}, now).Success?
    ensures var first := ConsultationRecord(1, 600, 630, "waited", 1, 100, 10, false);
            Validate(Attrs(Some(615), Some(645), Some("waited"), Some(1), Some(200), Some(10)),
                     None, [first], {(1, 10)}, now) == Failure(FieldError(StartTime, DoctorBusy))
    ensures var first := ConsultationRecord(1, 600, 630, "waited", 1, 100, 10, false);
            Validate(Attrs(Some(630), Some(660), Some("waited"), Some(1), Some(200), Some(10)),
                     None, [first], {(1, 10)}, now).Success?
    ensures var first := ConsultationRecord(1, 600, 630, "waited", 1, 100, 10, false);
            var second := ConsultationRecord(2, 630, 660, "waited", 1, 200, 10, false);
            Validate(Attrs(Some(720), Some(750), Some("waited"), Some(1), Some(100), Some(20)),
                     None, [first, second], {(1, 10)}, now) == Failure(FieldError(Doctor, NotAffiliated))
  {
    var first := ConsultationRecord(1, 600, 630, "waited", 1, 100, 10, false);
    assert OverlapsWindow([first][0], 1, 615, 645);
  }

  // ---------------------------------------------------------------------------
  // The write path

  /** `is_valid()`: the field stage reports all its errors together; only when
      it reports none does `validate` run, reporting at most one. */
  function IsValid(attrs: Attrs, instance: Option<int>, dir: Directory, rows: seq<ConsultationRecord>,
                   now: int, partial: bool): (r: Result<Attrs, seq<FieldError>>)
    ensures r.Success? ==> r.value == attrs
    ensures r.Success? <==>
              FieldsResolve(attrs, dir, partial) && Validate(attrs, instance, rows, dir.affiliation, now).Success?
    ensures r.Failure? && FieldsResolve(attrs, dir, partial) ==>
              r.error == [Validate(attrs, instance, rows, dir.affiliation, now).error]
    ensures !FieldsResolve(attrs, dir, partial) ==> r == Failure(FieldErrors(attrs, dir, partial))
    ensures r.Failure? ==> r.error != []
  {
    var fieldErrors := FieldErrors(attrs, dir, partial);
    if fieldErrors != [] then Failure(fieldErrors)
    else
      match Validate(attrs, instance, rows, dir.affiliation, now)
      case Success(a) => Success(a)
      case Failure(e) => Failure([e])
  }

  /** The deleted flag a row keeps when it is overwritten on update. */
  function DeletedFlag(rows: seq<ConsultationRecord>, id: int): (d: bool)
    ensures d ==> HasId(rows, id)
  {
    exists i | 0 <= i < |rows| :: rows[i].id == id && rows[i].isDeleted
  }

  /** The row a full (not partial) create or update writes: the instance's key
      on update, the next free key on create. */
  function BookedRecord(attrs: Attrs, instance: Option<int>, rows: seq<ConsultationRecord>): (c: ConsultationRecord)
    requires attrs.start.Some? && attrs.end.Some? && attrs.status.Some?
    requires attrs.doctor.Some? && attrs.patient.Some? && attrs.clinic.Some?
    ensures instance.Some? ==> c.id == instance.value
    ensures instance.None? ==> !HasId(rows, c.id)
    ensures AttrsOf(c) == attrs
    ensures c.isDeleted ==> instance.Some? && HasId(rows, c.id)
    ensures UniqueIds(rows) ==>
              forall i | 0 <= i < |rows| && rows[i].id == c.id :: c.isDeleted == rows[i].isDeleted
  {
    var id := if instance.Some? then instance.value else NextId(rows);
    ConsultationRecord(id, attrs.start.value, attrs.end.value, attrs.status.value,
                       attrs.doctor.value, attrs.patient.value, attrs.clinic.value,
                       DeletedFlag(rows, id))
  }

  /** A full create (no instance) or update (the instance's key): `is_valid()`
      with the serializer's clock reading, then `save()`, which runs
      `full_clean` with the model's own clock reading before it writes. A
      rejection at either stage leaves the table unchanged, and a table without
      double bookings stays without them. */
  method Book(store: ConsultationStore, attrs: Attrs, instance: Option<int>, dir: Directory,
              validateNow: int, saveNow: int) returns (r: Result<int, seq<FieldError>>)
    requires store.Valid()
    modifies store
    ensures store.Valid()
    ensures r.Failure? ==> store.rows == old(store.rows)
    ensures IsValid(attrs, instance, dir, old(store.rows), validateNow, false).Failure? ==>
              r == Failure(IsValid(attrs, instance, dir, old(store.rows), validateNow, false).error)
    ensures IsValid(attrs, instance, dir, old(store.rows), validateNow, false).Success? ==>
              (r.Success? <==> FullClean(BookedRecord(attrs, instance, old(store.rows)), saveNow) == [])
    ensures IsValid(attrs, instance, dir, old(store.rows), validateNow, false).Success? &&
            FullClean(BookedRecord(attrs, instance, old(store.rows)), saveNow) != [] ==>
              r == Failure(FullClean(BookedRecord(attrs, instance, old(store.rows)), saveNow))
    ensures r.Success? ==> IsValid(attrs, instance, dir, old(store.rows), validateNow, false).Success?
    ensures r.Success? ==>
              && attrs.start.Some? && attrs.end.Some? && attrs.status.Some?
              && attrs.doctor.Some? && attrs.patient.Some? && attrs.clinic.Some?
              && FullClean(BookedRecord(attrs, instance, old(store.rows)), saveNow) == []
              && store.rows == Upsert(old(store.rows), BookedRecord(attrs, instance, old(store.rows)))
              && r.value == BookedRecord(attrs, instance, old(store.rows)).id
    ensures NoDoubleBooking(old(store.rows)) ==> NoDoubleBooking(store.rows)
  {
    var checked := IsValid(attrs, instance, dir, store.rows, validateNow, false);
    if checked.Failure? {
      return Failure(checked.error);
    }
    var c := BookedRecord(attrs, instance, store.rows);
    if NoDoubleBooking(store.rows) {
      ValidatedBookingKeepsNoDoubleBooking(store.rows, attrs, instance, dir.affiliation, validateNow, c);
    }
    var errors := store.Save(c, saveNow);
    if errors != [] {
      return Failure(errors);
    }
    return Success(c.id);
  }
}
