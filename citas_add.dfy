/** The booking form action (`actions.default` of the new-appointment page):
    validate, check the doctor's instant, look up `Programada`, insert. */
module AddAppointment {
  import opened Web
  import opened Calendar
  import opened Schema
  import opened Text
  import CheckAvailability
  import Availability
  import PatientSchedule
  import BookedPatients

  /** The submitted form: the ids and the time as submitted text, the day as
      a parsed value (`None` when absent or empty). */
  datatype AppointmentForm = AppointmentForm(
    patientId: Option<string>,
    doctorId: Option<string>,
    date: Option<int>,
    time: Option<string>,
    observation: Option<string>)

  /** `appointmentSchema`: patient, doctor, day and time are required and non-empty. */
  predicate FormValid(form: AppointmentForm) {
    Given(form.patientId) && Given(form.doctorId) && form.date.Some? && Given(form.time)
  }

  const SuccessLocation := "/private/citas?success=true"

  /** What the action decides: a `fail` status, or the row to insert. */
  datatype Verdict = Reject(status: int) | Accept(date: int, statusId: int, doctorId: int, patientId: int)

  /** The decision the action takes on a store in state `rows`. `BigInt`
      reads the ids inside the `try` block, the doctor's for the conflict
      query and the patient's only for the insert; `fault` stands for any
      exception the store raises there. */
  function Decide(rows: seq<Appointment>, statuses: seq<StatusRow>, doctors: map<int, int>, patients: set<int>,
                  form: AppointmentForm, fault: bool): (v: Verdict)
    ensures !FormValid(form) <==> v == Reject(BadRequest)
    ensures v.Accept? ==>
      FormValid(form) && !fault &&
      Timestamp(form.date.value, form.time.value) == Some(v.date) &&
      ParseBigInt(form.doctorId.value) == Some(v.doctorId) && ParseBigInt(form.patientId.value) == Some(v.patientId) &&
      !CheckAvailability.SlotTaken(rows, v.doctorId, v.date) &&
      StatusRow(v.statusId, Scheduled) in statuses &&
      v.doctorId in doctors && v.patientId in patients
    ensures FormValid(form) && !fault ==>
      var t, d, p := Timestamp(form.date.value, form.time.value), ParseBigInt(form.doctorId.value), ParseBigInt(form.patientId.value);
      t.Some? && d.Some? && p.Some? && !CheckAvailability.SlotTaken(rows, d.value, t.value) &&
      FindStatusId(statuses, Scheduled).Some? && d.value in doctors && p.value in patients ==>
      v.Accept?
    ensures v == Reject(Conflict) <==>
      FormValid(form) && !fault &&
      var t, d := Timestamp(form.date.value, form.time.value), ParseBigInt(form.doctorId.value);
      t.Some? && d.Some? && CheckAvailability.SlotTaken(rows, d.value, t.value)
    ensures v.Reject? ==> v.status in {BadRequest, Conflict, ServerError}
  {
    if !FormValid(form) then Reject(BadRequest)
    else
      var t, doctor := Timestamp(form.date.value, form.time.value), ParseBigInt(form.doctorId.value);
      if fault || t.None? || doctor.None? then Reject(ServerError)
      else if CheckAvailability.SlotTaken(rows, doctor.value, t.value) then Reject(Conflict)
      else
        match FindStatusId(statuses, Scheduled)
        case None => Reject(ServerError)
        case Some(s) =>
          match ParseBigInt(form.patientId.value)
          case None => Reject(ServerError)
          case Some(patient) =>
            if doctor.value in doctors && patient in patients then Accept(t.value, s, doctor.value, patient)
            else Reject(ServerError)
  }

  /** The action: on success one row is appended with the form's patient,
      doctor and observation, the built instant and the `Programada` status,
      and the answer is a 303 redirect; otherwise the table is unchanged. */
  method Submit(db: Database, form: AppointmentForm, fault: bool) returns (r: ActionResult)
    requires db.Valid()
    modifies db
    ensures db.Valid()
    ensures match Decide(old(db.rows), db.statuses, db.doctors, db.patients, form, fault)
      case Reject(status) => r == Failure(status) && db.rows == old(db.rows)
      case Accept(t, s, doctor, patient) =>
        r == Redirect(SeeOther, SuccessLocation) &&
        exists id :: !HasId(old(db.rows), id) &&
          db.rows == old(db.rows) + [Appointment(id, t, s, doctor, patient, form.observation)]
  {
    if !FormValid(form) {
      return Failure(BadRequest);
    }
    var t, doctor := Timestamp(form.date.value, form.time.value), ParseBigInt(form.doctorId.value);
    if fault || t.None? || doctor.None? {
      return Failure(ServerError);
    }
    if CheckAvailability.SlotTaken(db.rows, doctor.value, t.value) {
      return Failure(Conflict);
    }
    var scheduled := FindStatusId(db.statuses, Scheduled);
    if scheduled.None? {
      return Failure(ServerError);
    }
    var patient := ParseBigInt(form.patientId.value);
    if patient.None? || !(doctor.value in db.doctors && patient.value in db.patients) {
      return Failure(ServerError);
    }
    StatusNameUnique(db.statuses, StatusRow(scheduled.value, Scheduled));
    var id := db.Insert(t.value, scheduled.value, doctor.value, patient.value, form.observation);
    return Redirect(SeeOther, SuccessLocation);
  }

  /** An appointment of the same doctor at exactly the built instant makes
      the action answer 409. */
  lemma ConflictRejected(rows: seq<Appointment>, statuses: seq<StatusRow>, doctors: map<int, int>, patients: set<int>,
                         form: AppointmentForm, a: Appointment)
    requires FormValid(form) && a in rows
    requires ParseBigInt(form.doctorId.value) == Some(a.doctorId) && Timestamp(form.date.value, form.time.value) == Some(a.date)
    ensures Decide(rows, statuses, doctors, patients, form, false) == Reject(Conflict)
  {
  }

  /** The guard before the insert is the check-availability query: with a
      valid form and a working store, the action answers 409 exactly when
      that endpoint reports the instant unavailable. */
  lemma GuardIsCheckAvailability(rows: seq<Appointment>, statuses: seq<StatusRow>, doctors: map<int, int>, patients: set<int>,
                                 form: AppointmentForm)
    requires FormValid(form)
    ensures Decide(rows, statuses, doctors, patients, form, false) == Reject(Conflict)
        <==> CheckAvailability.Get(rows, form.doctorId, form.date, form.time, false) == Ok(false)
  {
  }

  /** Run one after another, accepted bookings keep one appointment per
      doctor and instant. */
  lemma AcceptKeepsDoctorSlotsUnique(rows: seq<Appointment>, statuses: seq<StatusRow>, doctors: map<int, int>, patients: set<int>,
                                     form: AppointmentForm, fault: bool, id: int)
    requires DoctorSlotsUnique(rows)
    requires Decide(rows, statuses, doctors, patients, form, fault).Accept?
    ensures var v := Decide(rows, statuses, doctors, patients, form, fault);
      DoctorSlotsUnique(rows + [Appointment(id, v.date, v.statusId, v.doctorId, v.patientId, form.observation)])
  {
    var v := Decide(rows, statuses, doctors, patients, form, fault);
    var rows' := rows + [Appointment(id, v.date, v.statusId, v.doctorId, v.patientId, form.observation)];
    forall i, j | 0 <= i < j < |rows'|
      ensures rows'[i].doctorId != rows'[j].doctorId || rows'[i].date != rows'[j].date
    {
      if j == |rows| {
        assert rows'[i] in rows;
      }
    }
  }

  /** Without a `Programada` row the status lookup throws: 500, nothing inserted. */
  lemma MissingScheduledStatus(rows: seq<Appointment>, statuses: seq<StatusRow>, doctors: map<int, int>, patients: set<int>,
                               form: AppointmentForm)
    requires forall s :: s in statuses ==> s.status != Scheduled
    requires FormValid(form)
    ensures Decide(rows, statuses, doctors, patients, form, false) in {Reject(Conflict), Reject(ServerError)}
  {
  }

  /** Only the doctor's instant is checked: a patient who already has an
      appointment at that instant with one doctor is booked with another. */
  lemma SamePatientOtherDoctorAccepted(rows: seq<Appointment>, statuses: seq<StatusRow>, doctors: map<int, int>, patients: set<int>,
                                       a: Appointment, doctor: int, form: AppointmentForm)
    requires a in rows && doctor != a.doctorId
    requires form.patientId == Some(IntToString(a.patientId)) && form.doctorId == Some(IntToString(doctor))
    requires form.date.Some? && Given(form.time) && Timestamp(form.date.value, form.time.value) == Some(a.date)
    requires !CheckAvailability.SlotTaken(rows, doctor, a.date)
    requires FindStatusId(statuses, Scheduled).Some? && doctor in doctors && a.patientId in patients
    ensures Decide(rows, statuses, doctors, patients, form, false)
         == Accept(a.date, FindStatusId(statuses, Scheduled).value, doctor, a.patientId)
  {
    ParseIntToString(a.patientId);
    ParseIntToString(doctor);
  }

  /** Nor is the doctor's day: the same patient and doctor are booked again
      later on the same day. */
  lemma SameDoctorLaterSameDayAccepted(rows: seq<Appointment>, statuses: seq<StatusRow>, doctors: map<int, int>, patients: set<int>,
                                       a: Appointment, form: AppointmentForm, t: int)
    requires a in rows
    requires form.patientId == Some(IntToString(a.patientId)) && form.doctorId == Some(IntToString(a.doctorId))
    requires form.date.Some? && Given(form.time) && Timestamp(form.date.value, form.time.value) == Some(t)
    requires a.date < t && DayOf(t) == DayOf(a.date)
    requires !CheckAvailability.SlotTaken(rows, a.doctorId, t)
    requires FindStatusId(statuses, Scheduled).Some? && a.doctorId in doctors && a.patientId in patients
    ensures Decide(rows, statuses, doctors, patients, form, false)
         == Accept(t, FindStatusId(statuses, Scheduled).value, a.doctorId, a.patientId)
  {
    ParseIntToString(a.patientId);
    ParseIntToString(a.doctorId);
  }

  /** Once a row is stored, every read view sees it: check-availability
      reports its instant taken, the availability list no longer offers its
      time, the doctor's day lists its patient, and the patient's day lists
      its time. */
  lemma StoredBookingVisible(rows: seq<Appointment>, a: Appointment)
    requires a in rows
    ensures CheckAvailability.Get(rows, Some(IntToString(a.doctorId)), Some(DayOf(a.date)), Some(HHmm(TimeOfDay(a.date))), false) == Ok(false)
    ensures HHmm(TimeOfDay(a.date)) !in Availability.FreeSlots(rows, a.doctorId, DayOf(a.date), None)
    ensures IntToString(a.patientId) in BookedPatients.BookedPatientIds(rows, a.doctorId, DayOf(a.date))
    ensures HHmm(TimeOfDay(a.date)) in PatientSchedule.BookedTimes(rows, a.patientId, DayOf(a.date), None)
  {
    var day := DayOf(a.date);
    CheckAvailability.OwnSlotUnavailable(rows, a);
    DayDecomposition(a.date);
    Availability.BookedNotOffered(rows, a.doctorId, day, None, a);
    InclusiveIsHalfOpen(a.date, day);
    BookedPatients.BookedMembership(rows, a.doctorId, day, a.patientId);
    PatientSchedule.ScheduleMembership(rows, a.patientId, day, None, HHmm(TimeOfDay(a.date)));
  }
}
