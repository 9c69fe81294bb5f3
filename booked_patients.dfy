/** `GET /api/booked-patients`: the patients a doctor already sees on one day. */
module BookedPatients {
  import opened Web
  import opened Seqs
  import opened Text
  import opened Calendar
  import opened Schema

  /** The rows the query returns: that doctor, inside `[startOfDay, endOfDay]`. */
  function WithDoctorOn(doctor: int, day: int): Appointment -> bool {
    (a: Appointment) => a.doctorId == doctor && InDayInclusive(a.date, day)
  }

  /** `p.patient_id.toString()`. */
  function PatientOf(a: Appointment): string {
    IntToString(a.patientId)
  }

  function BookedPatientIds(rows: seq<Appointment>, doctor: int, day: int): (r: seq<string>)
    ensures |r| == |Filter(rows, WithDoctorOn(doctor, day))|
  {
    Select(Filter(rows, WithDoctorOn(doctor, day)), PatientOf)
  }

  /** The handler: 400 without `doctorId` or `date`; 500 when `BigInt`
      cannot read the doctor id or the store fails; otherwise
      `{ bookedPatientIds }`. */
  function Get(rows: seq<Appointment>, doctorId: Option<string>, date: Option<int>, fault: bool): (r: Response<seq<string>>)
    ensures !Given(doctorId) || date.None? <==> r == Error(BadRequest)
    ensures r == Error(ServerError) <==> Given(doctorId) && date.Some? && (fault || ParseBigInt(doctorId.value).None?)
    ensures r.Ok? <==> Given(doctorId) && date.Some? && !fault && ParseBigInt(doctorId.value).Some?
    ensures r.Ok? ==>
      r.body == BookedPatientIds(rows, ParseBigInt(doctorId.value).value, date.value) &&
      |r.body| <= |rows|
  {
    if !Given(doctorId) || date.None? then Error(BadRequest)
    else
      match ParseBigInt(doctorId.value)
      case None => Error(ServerError)
      case Some(doctor) => if fault then Error(ServerError) else Ok(BookedPatientIds(rows, doctor, date.value))
  }

  /** A patient is listed exactly when they have an appointment with the
      doctor that day; there is no exclusion, so every such appointment counts. */
  lemma BookedMembership(rows: seq<Appointment>, doctor: int, day: int, patient: int)
    ensures IntToString(patient) in BookedPatientIds(rows, doctor, day) <==>
      exists a :: a in rows && a.doctorId == doctor && a.patientId == patient && InDayInclusive(a.date, day)
  {
    SelectMember(Filter(rows, WithDoctorOn(doctor, day)), PatientOf, IntToString(patient));
    forall a ensures PatientOf(a) == IntToString(patient) <==> a.patientId == patient {
      IntToStringInjective(a.patientId, patient);
    }
  }

  /** Duplicates are kept: a patient occurs once per appointment. */
  lemma {:induction false} BookedMultiplicity(rows: seq<Appointment>, doctor: int, day: int, patient: int)
    ensures multiset(BookedPatientIds(rows, doctor, day))[IntToString(patient)] ==
      |Filter(rows, (a: Appointment) => a.doctorId == doctor && a.patientId == patient && InDayInclusive(a.date, day))|
  {
    if rows != [] {
      var p := WithDoctorOn(doctor, day);
      BookedMultiplicity(rows[1..], doctor, day, patient);
      var head := if p(rows[0]) then [rows[0]] else [];
      assert Filter(rows, p) == head + Filter(rows[1..], p);
      SelectAppend(head, Filter(rows[1..], p), PatientOf);
      IntToStringInjective(rows[0].patientId, patient);
    }
  }

  /** On whole minutes `[startOfDay, endOfDay]` selects the same rows as the
      half-open day the availability list uses. */
  lemma InclusiveDayIsHalfOpen(rows: seq<Appointment>, doctor: int, day: int)
    ensures BookedPatientIds(rows, doctor, day) ==
      Select(Filter(rows, (a: Appointment) => a.doctorId == doctor && InDayHalfOpen(a.date, day)), PatientOf)
  {
    forall a | a in rows ensures InDayInclusive(a.date, day) <==> InDayHalfOpen(a.date, day) {
      InclusiveIsHalfOpen(a.date, day);
    }
    FilterCongruent(rows, WithDoctorOn(doctor, day), (a: Appointment) => a.doctorId == doctor && InDayHalfOpen(a.date, day));
  }
}
