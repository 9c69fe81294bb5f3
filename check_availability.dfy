/** `GET /api/check-availability`: is a doctor free at one exact instant? */
module CheckAvailability {
  import opened Web
  import opened Calendar
  import opened Text
  import opened Schema
  import Availability

  /** `select id from date where doctor_id = doctor and date = t` finds a row. */
  predicate SlotTaken(rows: seq<Appointment>, doctor: int, t: int) {
    exists a :: a in rows && a.doctorId == doctor && a.date == t
  }

  /** The handler: 400 for a missing parameter; 500 when `BigInt` cannot
      read the doctor id, when the instant is an invalid date, or when the
      store fails; otherwise `isAvailable`. */
  function Get(rows: seq<Appointment>, doctorId: Option<string>, date: Option<int>, time: Option<string>, fault: bool)
    : (r: Response<bool>)
    ensures !Given(doctorId) || date.None? || !Given(time) <==> r == Error(BadRequest)
    ensures r == Error(ServerError) <==>
      Given(doctorId) && date.Some? && Given(time) &&
      (fault || ParseBigInt(doctorId.value).None? || Timestamp(date.value, time.value).None?)
    ensures r == Ok(false) <==>
      Given(doctorId) && date.Some? && Given(time) && !fault && ParseBigInt(doctorId.value).Some? &&
      exists a :: a in rows && Some(a.doctorId) == ParseBigInt(doctorId.value) && Timestamp(date.value, time.value) == Some(a.date)
    ensures r == Ok(true) <==>
      Given(doctorId) && date.Some? && Given(time) && !fault && ParseBigInt(doctorId.value).Some? &&
      Timestamp(date.value, time.value).Some? &&
      forall a :: a in rows && Some(a.doctorId) == ParseBigInt(doctorId.value) ==> Timestamp(date.value, time.value) != Some(a.date)
  {
    if !Given(doctorId) || date.None? || !Given(time) then Error(BadRequest)
    else
      match (ParseBigInt(doctorId.value), Timestamp(date.value, time.value))
      case (Some(doctor), Some(t)) => if fault then Error(ServerError) else Ok(!SlotTaken(rows, doctor, t))
      case _ => Error(ServerError)
  }

  /** There is no exclusion parameter: every appointment's own instant reads
      as taken. */
  lemma OwnSlotUnavailable(rows: seq<Appointment>, a: Appointment)
    requires a in rows
    ensures Get(rows, Some(IntToString(a.doctorId)), Some(DayOf(a.date)), Some(HHmm(TimeOfDay(a.date))), false) == Ok(false)
  {
    TimestampRoundTrip(a.date);
    ParseIntToString(a.doctorId);
  }

  /** On the grid, and without `excludeId`, a label is in the availability
      list exactly when this endpoint calls that instant available. */
  lemma AgreesWithAvailability(rows: seq<Appointment>, doctor: int, day: int, m: int)
    requires Availability.OnGrid(m)
    ensures HHmm(m) in Availability.FreeSlots(rows, doctor, day, None)
        <==> Get(rows, Some(IntToString(doctor)), Some(day), Some(HHmm(m)), false) == Ok(true)
  {
    ParseIntToString(doctor);
    Availability.SlotOfferedIff(rows, doctor, day, None, m);
    ParseFormat(m);
    TimeOfDayInDay(day, m);
    forall a | a in rows && a.doctorId == doctor
      ensures (Availability.Counted(a, doctor, day, None) && TimeOfDay(a.date) == m) <==> a.date == DayStart(day) + m
    {
      if InDayHalfOpen(a.date, day) {
        InDayIsStartPlusTime(a.date, day);
      }
    }
  }
}
