/** The patients-of-the-day page: today's appointments under optional
    doctor, specialty and status filters, and its `updateStatus` action. */
module DailyPatients {
  import opened Web
  import opened Seqs
  import opened Text
  import opened Calendar
  import opened Schema

  /** The `doctorId`, `specialtyId` and `statusId` query parameters; `None`
      when absent or empty. */
  datatype Filters = Filters(doctorId: Option<int>, specialtyId: Option<int>, statusId: Option<int>)

  /** The status condition: the chosen status id, or by default the names
      `Confirmada` and `Completada`. */
  predicate StatusShown(statuses: seq<StatusRow>, f: Filters, a: Appointment) {
    if f.statusId.Some? then a.statusId == f.statusId.value
    else StatusName(statuses, a.statusId) in {Some(Confirmed), Some(Completed)}
  }

  /** Every `where` of the query for day `today`, after the inner joins with
      patient, doctor, specialty and status; `doctors` maps a doctor to
      their specialty. */
  predicate Selected(statuses: seq<StatusRow>, doctors: map<int, int>, patients: set<int>, today: int, f: Filters, a: Appointment) {
    References(statuses, doctors, patients, a) &&
    InDayInclusive(a.date, today) &&
    (f.doctorId.Some? ==> a.doctorId == f.doctorId.value) &&
    (f.specialtyId.Some? ==> doctors[a.doctorId] == f.specialtyId.value) &&
    StatusShown(statuses, f, a)
  }

  function SelectedBy(statuses: seq<StatusRow>, doctors: map<int, int>, patients: set<int>, today: int, f: Filters)
    : Appointment -> bool
  {
    (a: Appointment) => Selected(statuses, doctors, patients, today, f, a)
  }

  /** The page's appointments, `orderBy('date.date', 'asc')`. */
  function Daily(rows: seq<Appointment>, statuses: seq<StatusRow>, doctors: map<int, int>, patients: set<int>,
                 today: int, f: Filters): (r: seq<Appointment>)
    ensures SortedBy(r, DateOf)
    ensures multiset(r) == multiset(Filter(rows, SelectedBy(statuses, doctors, patients, today, f)))
  {
    SortBy(Filter(rows, SelectedBy(statuses, doctors, patients, today, f)), DateOf)
  }

  /** The filter parameters as the request carries them. */
  datatype FilterParams = FilterParams(doctorId: Option<string>, specialtyId: Option<string>, statusId: Option<string>)

  /** `load` for day `today`. A given filter is read with `BigInt` outside
      any `try`, so a malformed one makes `load` throw, as does a store
      failure (`fault`); an empty one is no filter. */
  function Load(rows: seq<Appointment>, statuses: seq<StatusRow>, doctors: map<int, int>, patients: set<int>,
                today: int, params: FilterParams, fault: bool): (r: Response<seq<Appointment>>)
    ensures r.Error? <==> fault || !Readable(params.doctorId) || !Readable(params.specialtyId) || !Readable(params.statusId)
    ensures r.Error? ==> r.status == ServerError
    ensures r.Ok? ==>
      r.body == Daily(rows, statuses, doctors, patients, today,
                      Filters(OptionalId(params.doctorId), OptionalId(params.specialtyId), OptionalId(params.statusId)))
    ensures r.Ok? ==> SortedBy(r.body, DateOf) && forall a :: a in r.body ==> a in rows && InDayInclusive(a.date, today)
  {
    if fault || !Readable(params.doctorId) || !Readable(params.specialtyId) || !Readable(params.statusId) then
      Error(ServerError)
    else
      var f := Filters(OptionalId(params.doctorId), OptionalId(params.specialtyId), OptionalId(params.statusId));
      var page := Daily(rows, statuses, doctors, patients, today, f);
      forall a | a in page ensures a in rows && InDayInclusive(a.date, today) {
        DailyRows(rows, statuses, doctors, patients, today, f, a);
      }
      Ok(page)
  }

  /** What each filter guarantees of every row on the page. */
  lemma DailyRows(rows: seq<Appointment>, statuses: seq<StatusRow>, doctors: map<int, int>, patients: set<int>,
                  today: int, f: Filters, a: Appointment)
    requires a in Daily(rows, statuses, doctors, patients, today, f)
    ensures a in rows
    ensures DayStart(today) <= a.date <= DayEnd(today)
    ensures f.doctorId.Some? ==> a.doctorId == f.doctorId.value
    ensures f.specialtyId.Some? ==> a.doctorId in doctors && doctors[a.doctorId] == f.specialtyId.value
    ensures f.statusId.Some? ==> a.statusId == f.statusId.value
    ensures f.statusId.None? ==> StatusName(statuses, a.statusId) == Some(Confirmed) || StatusName(statuses, a.statusId) == Some(Completed)
  {
    SortByMember(Filter(rows, SelectedBy(statuses, doctors, patients, today, f)), DateOf, a);
  }

  /** A row of today that meets every filter is on the page. */
  lemma DailyComplete(rows: seq<Appointment>, statuses: seq<StatusRow>, doctors: map<int, int>, patients: set<int>,
                      today: int, f: Filters, a: Appointment)
    requires a in rows && Selected(statuses, doctors, patients, today, f, a)
    ensures a in Daily(rows, statuses, doctors, patients, today, f)
  {
    SortByMember(Filter(rows, SelectedBy(statuses, doctors, patients, today, f)), DateOf, a);
  }

  /** `g` keeps the filters of `f` and may add a doctor or a specialty. */
  predicate Narrows(g: Filters, f: Filters) {
    (f.doctorId.Some? ==> g.doctorId == f.doctorId) &&
    (f.specialtyId.Some? ==> g.specialtyId == f.specialtyId) &&
    g.statusId == f.statusId
  }

  /** Doctor and specialty filters are conjunctive: adding one keeps a
      sub-multiset of the rows. */
  lemma NarrowingShrinks(rows: seq<Appointment>, statuses: seq<StatusRow>, doctors: map<int, int>, patients: set<int>,
                         today: int, f: Filters, g: Filters)
    requires Narrows(g, f)
    ensures multiset(Daily(rows, statuses, doctors, patients, today, g)) <= multiset(Daily(rows, statuses, doctors, patients, today, f))
  {
    FilterMonotone(rows, SelectedBy(statuses, doctors, patients, today, g), SelectedBy(statuses, doctors, patients, today, f));
  }

  /** The status filter is not conjunctive: choosing a status replaces the
      default, so a scheduled (`Programada`) row that the default page hides
      appears once its status is chosen. */
  lemma StatusFilterReplacesDefault(rows: seq<Appointment>, statuses: seq<StatusRow>, doctors: map<int, int>, patients: set<int>,
                                    today: int, a: Appointment)
    requires a in rows && References(statuses, doctors, patients, a) && InDayInclusive(a.date, today)
    requires StatusName(statuses, a.statusId) == Some(Scheduled)
    ensures a !in Daily(rows, statuses, doctors, patients, today, Filters(None, None, None))
    ensures a in Daily(rows, statuses, doctors, patients, today, Filters(None, None, Some(a.statusId)))
  {
    DailyComplete(rows, statuses, doctors, patients, today, Filters(None, None, Some(a.statusId)), a);
    if a in Daily(rows, statuses, doctors, patients, today, Filters(None, None, None)) {
      DailyRows(rows, statuses, doctors, patients, today, Filters(None, None, None), a);
    }
  }

  /** `updateStatus`. The validation is not strict, so an absent field is
      filled with the default of `z.string()`, the empty string, and every
      posted text passes: the 400 branch is never taken. `BigInt` reads the
      empty string as 0; a malformed id or a store failure (`fault`) is a 500. */
  method UpdateStatus(db: Database, appointmentId: Option<string>, statusId: Option<string>, fault: bool) returns (r: ActionResult)
    requires db.Valid()
    modifies db`rows
    ensures db.Valid()
    ensures r != Failure(BadRequest)
    ensures r == Success <==>
      !fault && ParseBigInt(appointmentId.GetOr("")).Some? && ParseBigInt(statusId.GetOr("")).Some? &&
      (!HasId(old(db.rows), ParseBigInt(appointmentId.GetOr("")).value) ||
       StatusName(db.statuses, ParseBigInt(statusId.GetOr("")).value).Some?)
    ensures r == Success ==>
      db.rows == SetStatus(old(db.rows), ParseBigInt(appointmentId.GetOr("")).value, ParseBigInt(statusId.GetOr("")).value)
    ensures r != Success ==> db.rows == old(db.rows)
    ensures r in {Success, Failure(ServerError)}
  {
    var status, id := ParseBigInt(statusId.GetOr("")), ParseBigInt(appointmentId.GetOr(""));
    if fault || status.None? || id.None? {
      return Failure(ServerError);
    }
    var ok := db.UpdateStatus(id.value, status.value);
    if !ok {
      return Failure(ServerError);
    }
    return Success;
  }
}
