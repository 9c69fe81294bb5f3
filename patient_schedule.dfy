/** `GET /api/patient-schedule`: the `HH:mm` times a patient is already
    booked at on one day, one entry per appointment. */
module PatientSchedule {
  import opened Web
  import opened Seqs
  import opened Text
  import opened Calendar
  import opened Schema

  /** The rows the query returns: that patient, inside `[startOfDay, endOfDay]`,
      and not the excluded id. */
  predicate Listed(a: Appointment, patient: int, day: int, exclude: Option<int>) {
    a.patientId == patient && InDayInclusive(a.date, day) && (exclude.Some? ==> a.id != exclude.value)
  }

  function ListedBy(patient: int, day: int, exclude: Option<int>): Appointment -> bool {
    a => Listed(a, patient, day, exclude)
  }

  /** `format(appt.date, 'HH:mm')`. */
  function LabelOf(a: Appointment): string {
    HHmm(TimeOfDay(a.date))
  }

  /** The listed rows whose time reads `l`. */
  function ShownAt(patient: int, day: int, exclude: Option<int>, l: string): Appointment -> bool {
    a => Listed(a, patient, day, exclude) && LabelOf(a) == l
  }

  function BookedTimes(rows: seq<Appointment>, patient: int, day: int, exclude: Option<int>): (r: seq<string>)
    ensures |r| == |Filter(rows, ListedBy(patient, day, exclude))|
  {
    Select(Filter(rows, ListedBy(patient, day, exclude)), LabelOf)
  }

  /** The handler: 400 without `patientId` or `date`; 500 when `BigInt`
      cannot read the patient id or a given `excludeId`, or when the store
      fails; otherwise `{ bookedTimes }`. */
  function Get(rows: seq<Appointment>, patientId: Option<string>, date: Option<int>, excludeId: Option<string>, fault: bool)
    : (r: Response<seq<string>>)
    ensures !Given(patientId) || date.None? <==> r == Error(BadRequest)
    ensures r == Error(ServerError) <==>
      Given(patientId) && date.Some? && (fault || ParseBigInt(patientId.value).None? || !Readable(excludeId))
    ensures r.Ok? <==>
      Given(patientId) && date.Some? && !fault && ParseBigInt(patientId.value).Some? && Readable(excludeId)
    ensures r.Ok? ==>
      r.body == BookedTimes(rows, ParseBigInt(patientId.value).value, date.value, OptionalId(excludeId))
    ensures r.Ok? ==> forall l :: l in r.body ==> ParseHHmm(l).Some?
  {
    if !Given(patientId) || date.None? then Error(BadRequest)
    else
      match ParseBigInt(patientId.value)
      case None => Error(ServerError)
      case Some(patient) =>
        if !Readable(excludeId) || fault then Error(ServerError)
        else
          var exclude := OptionalId(excludeId);
          var times := BookedTimes(rows, patient, date.value, exclude);
          forall l | l in times ensures ParseHHmm(l).Some? {
            var i :| 0 <= i < |times| && times[i] == l;
            ParseFormat(TimeOfDay(Filter(rows, ListedBy(patient, date.value, exclude))[i].date));
          }
          Ok(times)
  }

  /** A time is listed exactly when one of the patient's appointments that
      day, other than the excluded one, is at that time. */
  lemma ScheduleMembership(rows: seq<Appointment>, patient: int, day: int, exclude: Option<int>, l: string)
    ensures l in BookedTimes(rows, patient, day, exclude) <==>
      exists a :: a in rows && Listed(a, patient, day, exclude) && HHmm(TimeOfDay(a.date)) == l
  {
    SelectMember(Filter(rows, ListedBy(patient, day, exclude)), LabelOf, l);
  }

  /** No deduplication: a time occurs once per appointment at that time. */
  lemma {:induction false} ScheduleMultiplicity(rows: seq<Appointment>, patient: int, day: int, exclude: Option<int>, l: string)
    ensures multiset(BookedTimes(rows, patient, day, exclude))[l] == |Filter(rows, ShownAt(patient, day, exclude, l))|
  {
    if rows != [] {
      var p := ListedBy(patient, day, exclude);
      ScheduleMultiplicity(rows[1..], patient, day, exclude, l);
      var head := if p(rows[0]) then [rows[0]] else [];
      assert Filter(rows, p) == head + Filter(rows[1..], p);
      SelectAppend(head, Filter(rows[1..], p), LabelOf);
    }
  }

  /** Appointments of other patients never appear: inserting one anywhere
      leaves the answer as it was. */
  lemma OtherPatientsIgnored(before: seq<Appointment>, after: seq<Appointment>, a: Appointment,
                             patient: int, day: int, exclude: Option<int>)
    requires a.patientId != patient
    ensures BookedTimes(before + [a] + after, patient, day, exclude) == BookedTimes(before + after, patient, day, exclude)
  {
    BookedTimesAppend(before + [a], after, patient, day, exclude);
    BookedTimesAppend(before, [a], patient, day, exclude);
    BookedTimesAppend(before, after, patient, day, exclude);
    assert Filter([a], ListedBy(patient, day, exclude)) == [];
  }

  lemma BookedTimesAppend(s: seq<Appointment>, t: seq<Appointment>, patient: int, day: int, exclude: Option<int>)
    ensures BookedTimes(s + t, patient, day, exclude) == BookedTimes(s, patient, day, exclude) + BookedTimes(t, patient, day, exclude)
  {
    var p := ListedBy(patient, day, exclude);
    FilterAppend(s, t, p);
    SelectAppend(Filter(s, p), Filter(t, p), LabelOf);
  }

  /** `excludeId` is the query on the table without that row. */
  lemma ExcludeIsRemoval(rows: seq<Appointment>, patient: int, day: int, id: int)
    ensures BookedTimes(rows, patient, day, Some(id)) == BookedTimes(Without(rows, id), patient, day, None)
  {
    var p, q := ListedBy(patient, day, None), IdIsNot(id);
    FilterFilter(rows, q, p, ListedBy(patient, day, Some(id)));
  }

  /** The row at position `k` contributes its own time, in place. */
  lemma RowContributes(rows: seq<Appointment>, k: int, patient: int, day: int, exclude: Option<int>)
    requires 0 <= k < |rows|
    ensures BookedTimes(rows, patient, day, exclude) ==
      BookedTimes(rows[..k], patient, day, exclude) + BookedTimes([rows[k]], patient, day, exclude) + BookedTimes(rows[k + 1..], patient, day, exclude)
  {
    assert rows == rows[..k] + [rows[k]] + rows[k + 1..];
    BookedTimesAppend(rows[..k] + [rows[k]], rows[k + 1..], patient, day, exclude);
    BookedTimesAppend(rows[..k], [rows[k]], patient, day, exclude);
  }

  /** With unique ids, excluding a listed appointment drops exactly one
      occurrence of its time and keeps every other entry. The query has no
      `orderBy`, so the statement is about the multiset of times. */
  lemma ExcludeOmitsOne(rows: seq<Appointment>, a: Appointment, patient: int, day: int)
    requires IdsDistinct(rows) && a in rows
    requires Listed(a, patient, day, None)
    ensures multiset(BookedTimes(rows, patient, day, Some(a.id))) ==
      multiset(BookedTimes(rows, patient, day, None)) - multiset{LabelOf(a)}
    ensures |BookedTimes(rows, patient, day, Some(a.id))| + 1 == |BookedTimes(rows, patient, day, None)|
  {
    var k :| 0 <= k < |rows| && rows[k] == a;
    RowContributes(rows, k, patient, day, None);
    RowContributes(rows, k, patient, day, Some(a.id));
    SingleRow(a, patient, day);
    IdsOutside(rows, k);
    OtherIdsKept(rows[..k], patient, day, a.id);
    OtherIdsKept(rows[k + 1..], patient, day, a.id);
  }

  /** With unique ids, no other row has the id of the row at position `k`. */
  lemma IdsOutside(rows: seq<Appointment>, k: int)
    requires IdsDistinct(rows) && 0 <= k < |rows|
    ensures forall a :: a in rows[..k] ==> a.id != rows[k].id
    ensures forall a :: a in rows[k + 1..] ==> a.id != rows[k].id
  {
    forall a | a in rows[..k] ensures a.id != rows[k].id {
      var i :| 0 <= i < k && rows[i] == a;
    }
    forall a | a in rows[k + 1..] ensures a.id != rows[k].id {
      var i :| 0 <= i < |rows| - k - 1 && rows[k + 1..][i] == a;
      assert rows[k + 1 + i] == a;
    }
  }

  lemma SingleRow(a: Appointment, patient: int, day: int)
    requires Listed(a, patient, day, None)
    ensures BookedTimes([a], patient, day, None) == [HHmm(TimeOfDay(a.date))]
    ensures BookedTimes([a], patient, day, Some(a.id)) == []
  {
    assert Filter([a], ListedBy(patient, day, None)) == [a];
    assert Filter([a], ListedBy(patient, day, Some(a.id))) == [];
  }

  lemma OtherIdsKept(part: seq<Appointment>, patient: int, day: int, id: int)
    requires forall a :: a in part ==> a.id != id
    ensures BookedTimes(part, patient, day, Some(id)) == BookedTimes(part, patient, day, None)
  {
    FilterCongruent(part, ListedBy(patient, day, Some(id)), ListedBy(patient, day, None));
  }
}
