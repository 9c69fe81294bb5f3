/** The appointments page: its `load` (counters, the upcoming list and its
    pages) and its `updateStatus` action. */
module AppointmentsPage {
  import opened Web
  import opened Seqs
  import opened Text
  import opened Calendar
  import opened Schema
  import Availability

  const PageSize := 10

  /** The counters shown above the list. */
  datatype Kpis = Kpis(today: nat, thisWeek: nat, pending: nat, completed: nat)

  /** `[startOfWeek, endOfWeek]` with weeks starting on Monday. */
  predicate InWeekOf(t: int, day: int) {
    DayStart(WeekStart(day)) <= t <= DayEnd(WeekStart(day) + 6)
  }

  function OnDay(day: int): Appointment -> bool {
    (a: Appointment) => InDayInclusive(a.date, day)
  }

  function InWeek(day: int): Appointment -> bool {
    (a: Appointment) => InWeekOf(a.date, day)
  }

  /** Today's rows whose status (inner join with `date_status`) is `name`. */
  function OnDayWithStatus(statuses: seq<StatusRow>, day: int, name: string): Appointment -> bool {
    (a: Appointment) => InDayInclusive(a.date, day) && StatusName(statuses, a.statusId) == Some(name)
  }

  lemma TodayInWeek(t: int, day: int)
    requires InDayInclusive(t, day)
    ensures InWeekOf(t, day)
  {
  }

  /** The four `count(*)` queries for day `today`. Pending (`Confirmada`) and
      completed (`Completada`) are today's rows with two different statuses,
      and today lies in its own week. */
  function CountKpis(rows: seq<Appointment>, statuses: seq<StatusRow>, today: int): (k: Kpis)
    ensures k.today == |Filter(rows, OnDay(today))| && k.thisWeek == |Filter(rows, InWeek(today))|
    ensures k.pending == |Filter(rows, OnDayWithStatus(statuses, today, Confirmed))|
    ensures k.completed == |Filter(rows, OnDayWithStatus(statuses, today, Completed))|
    ensures k.pending + k.completed <= k.today <= k.thisWeek
  {
    FilterCountDisjoint(rows, OnDayWithStatus(statuses, today, Confirmed), OnDayWithStatus(statuses, today, Completed), OnDay(today));
    forall a | a in rows && OnDay(today)(a) ensures InWeek(today)(a) {
      TodayInWeek(a.date, today);
    }
    FilterCountMonotone(rows, OnDay(today), InWeek(today));
    Kpis(|Filter(rows, OnDay(today))|, |Filter(rows, InWeek(today))|,
         |Filter(rows, OnDayWithStatus(statuses, today, Confirmed))|,
         |Filter(rows, OnDayWithStatus(statuses, today, Completed))|)
  }

  /** The base query: rows from the start of today on that survive the inner
      joins with patient, doctor, specialty and status. */
  function Upcoming(statuses: seq<StatusRow>, doctors: map<int, int>, patients: set<int>, today: int): Appointment -> bool {
    (a: Appointment) => a.date >= DayStart(today) && References(statuses, doctors, patients, a)
  }

  /** The base query ordered by date. */
  function Listing(rows: seq<Appointment>, statuses: seq<StatusRow>, doctors: map<int, int>, patients: set<int>, today: int)
    : (r: seq<Appointment>)
    ensures SortedBy(r, DateOf)
    ensures forall a :: a in r <==> a in rows && a.date >= DayStart(today) && References(statuses, doctors, patients, a)
    ensures multiset(r) == multiset(Filter(rows, Upcoming(statuses, doctors, patients, today)))
  {
    var base := Filter(rows, Upcoming(statuses, doctors, patients, today));
    var r := SortBy(base, DateOf);
    forall a ensures a in r <==> a in base {
      SortByMember(base, DateOf, a);
    }
    r
  }

  /** `Math.ceil(total / pageSize)`: the fewest pages that hold `total` rows. */
  function PageCount(total: nat): (c: nat)
    ensures c * PageSize >= total
    ensures total > 0 ==> (c - 1) * PageSize < total
    ensures total == 0 ==> c == 0
  {
    (total + PageSize - 1) / PageSize
  }

  /** Page `page` (from 1) holds rows exactly when it is at most the page count. */
  lemma PageNonEmptyIff(s: seq<Appointment>, page: int)
    requires page >= 1
    ensures Window(s, (page - 1) * PageSize, PageSize) != [] <==> page <= PageCount(|s|)
  {
  }

  datatype PageData = PageData(kpis: Kpis, appointments: seq<Appointment>, currentPage: int, pageSize: int, pageCount: int)

  /** `load` for day `today`. `page` is `Number(page ?? '1')`: `None` when the
      parameter is absent. A page below 1 gives a negative `OFFSET`, which
      the store refuses; a store failure is `fault`. Either way `load` throws. */
  function Load(rows: seq<Appointment>, statuses: seq<StatusRow>, doctors: map<int, int>, patients: set<int>,
                today: int, page: Option<int>, fault: bool): (r: Response<PageData>)
    ensures r.Error? <==> fault || page.GetOr(1) < 1
    ensures r.Error? ==> r.status == ServerError
    ensures r.Ok? ==>
      var d := r.body;
      d.kpis == CountKpis(rows, statuses, today) &&
      d.currentPage == page.GetOr(1) && d.pageSize == PageSize &&
      |d.appointments| <= PageSize && SortedBy(d.appointments, DateOf) &&
      (forall a :: a in d.appointments ==> a in rows && a.date >= DayStart(today)) &&
      d.pageCount == PageCount(|Listing(rows, statuses, doctors, patients, today)|) &&
      (d.appointments != [] <==> d.currentPage <= d.pageCount)
    ensures r.Ok? ==>
      var all := Listing(rows, statuses, doctors, patients, today);
      var offset := (r.body.currentPage - 1) * PageSize;
      offset <= |all| ==> r.body.appointments == all[offset..if offset + PageSize <= |all| then offset + PageSize else |all|]
  {
    var p := page.GetOr(1);
    if fault || p < 1 then Error(ServerError)
    else
      var all := Listing(rows, statuses, doctors, patients, today);
      var shown := Window(all, (p - 1) * PageSize, PageSize);
      PageNonEmptyIff(all, p);
      WindowOfSorted(all, (p - 1) * PageSize, PageSize, DateOf);
      Ok(PageData(CountKpis(rows, statuses, today), shown, p, PageSize, PageCount(|all|)))
  }

  /** `updateStatus`. Both fields are required and non-empty; they are read
      with `BigInt`, which throws on a malformed id, as does the store on a
      `fault`. There is no not-found check and no slot check. */
  method UpdateStatus(db: Database, appointmentId: Option<string>, statusId: Option<string>, fault: bool) returns (r: ActionResult)
    requires db.Valid()
    modifies db`rows
    ensures db.Valid()
    ensures r == Failure(BadRequest) <==> !Given(appointmentId) || !Given(statusId)
    ensures r == Success <==>
      Given(appointmentId) && Given(statusId) && !fault &&
      ParseBigInt(appointmentId.value).Some? && ParseBigInt(statusId.value).Some? &&
      (!HasId(old(db.rows), ParseBigInt(appointmentId.value).value) || StatusName(db.statuses, ParseBigInt(statusId.value).value).Some?)
    ensures r == Success ==> db.rows == SetStatus(old(db.rows), ParseBigInt(appointmentId.value).value, ParseBigInt(statusId.value).value)
    ensures r != Success ==> db.rows == old(db.rows)
    ensures r in {Success, Failure(BadRequest), Failure(ServerError)}
  {
    if !Given(appointmentId) || !Given(statusId) {
      return Failure(BadRequest);
    }
    var status, id := ParseBigInt(statusId.value), ParseBigInt(appointmentId.value);
    if fault || status.None? || id.None? {
      return Failure(ServerError);
    }
    var ok := db.UpdateStatus(id.value, status.value);
    if !ok {
      return Failure(ServerError);
    }
    return Success;
  }

  /** A status change (even to a cancelled status) leaves the doctor's free
      slots as they were: every row still blocks its time. */
  lemma StatusChangeKeepsSlots(rows: seq<Appointment>, id: int, status: int, doctor: int, day: int, exclude: Option<int>)
    ensures Availability.FreeSlots(SetStatus(rows, id, status), doctor, day, exclude)
         == Availability.FreeSlots(rows, doctor, day, exclude)
  {
    var rows' := SetStatus(rows, id, status);
    forall l | l in Availability.BookedTimes(rows, doctor, day, exclude)
      ensures l in Availability.BookedTimes(rows', doctor, day, exclude)
    {
      var a :| a in rows && Availability.Counted(a, doctor, day, exclude) && HHmm(TimeOfDay(a.date)) == l;
      var i :| 0 <= i < |rows| && rows[i] == a;
      assert rows'[i] in rows';
      SetStatusEffect(rows, id, status, i);
      assert rows'[i].(statusId := 0) == a.(statusId := 0);
    }
    forall l | l in Availability.BookedTimes(rows', doctor, day, exclude)
      ensures l in Availability.BookedTimes(rows, doctor, day, exclude)
    {
      var a :| a in rows' && Availability.Counted(a, doctor, day, exclude) && HHmm(TimeOfDay(a.date)) == l;
      var i :| 0 <= i < |rows'| && rows'[i] == a;
      assert rows[i] in rows;
      SetStatusEffect(rows, id, status, i);
      assert rows[i].(statusId := 0) == a.(statusId := 0);
    }
    assert Availability.BookedTimes(rows', doctor, day, exclude) == Availability.BookedTimes(rows, doctor, day, exclude);
  }
}
