/** The `date` table of appointments, the `date_status` table, and the
    doctor and patient keys the appointment rows refer to. */
module Schema {
  import opened Web
  import opened Seqs

  /** One row of the `date` table; `date` is a timestamp in minutes. */
  datatype Appointment = Appointment(
    id: int,
    date: int,
    statusId: int,
    doctorId: int,
    patientId: int,
    observation: Option<string>)

  /** The sort key of `orderBy('date.date')`. */
  function DateOf(a: Appointment): int {
    a.date
  }

  /** One row of the `date_status` table. */
  datatype StatusRow = StatusRow(id: int, status: string)

  const Scheduled := "Programada"
  const Confirmed := "Confirmada"
  const Completed := "Completada"

  /** `select id from date_status where status = name`, first row found. */
  function FindStatusId(statuses: seq<StatusRow>, name: string): (r: Option<int>)
    ensures r.Some? ==> StatusRow(r.value, name) in statuses
    ensures r.None? <==> forall s :: s in statuses ==> s.status != name
  {
    if statuses == [] then None
    else if statuses[0].status == name then Some(statuses[0].id)
    else FindStatusId(statuses[1..], name)
  }

  /** The status name an inner join with `date_status` attaches to `id`,
      or `None` when no status row has that id (the join drops the row). */
  function StatusName(statuses: seq<StatusRow>, id: int): (r: Option<string>)
    ensures r.Some? ==> StatusRow(id, r.value) in statuses
    ensures r.None? <==> forall s :: s in statuses ==> s.id != id
  {
    if statuses == [] then None
    else if statuses[0].id == id then Some(statuses[0].status)
    else StatusName(statuses[1..], id)
  }

  /** `date_status.id` is a primary key. */
  predicate StatusIdsDistinct(statuses: seq<StatusRow>) {
    forall i, j :: 0 <= i < j < |statuses| ==> statuses[i].id != statuses[j].id
  }

  /** With distinct ids, the join finds the one name a status id has. */
  lemma {:induction false} StatusNameUnique(statuses: seq<StatusRow>, row: StatusRow)
    requires StatusIdsDistinct(statuses) && row in statuses
    ensures StatusName(statuses, row.id) == Some(row.status)
  {
    if statuses[0] != row {
      assert row in statuses[1..];
      StatusNameUnique(statuses[1..], row);
    }
  }

  /** `date.id` is a primary key. */
  predicate IdsDistinct(rows: seq<Appointment>) {
    forall i, j :: 0 <= i < j < |rows| ==> rows[i].id != rows[j].id
  }

  predicate HasId(rows: seq<Appointment>, id: int) {
    exists a :: a in rows && a.id == id
  }

  /** No two appointments of one doctor at the same instant. */
  predicate DoctorSlotsUnique(rows: seq<Appointment>) {
    forall i, j :: 0 <= i < j < |rows| ==>
      rows[i].doctorId != rows[j].doctorId || rows[i].date != rows[j].date
  }

  /** The foreign keys of a `date` row: doctor, patient and status exist. */
  predicate References(statuses: seq<StatusRow>, doctors: map<int, int>, patients: set<int>, a: Appointment) {
    a.doctorId in doctors && a.patientId in patients && StatusName(statuses, a.statusId).Some?
  }

  function IdIsNot(id: int): Appointment -> bool {
    (a: Appointment) => a.id != id
  }

  /** `where id != excludeId`. */
  function Without(rows: seq<Appointment>, id: int): (r: seq<Appointment>)
    ensures forall a :: a in r <==> a in rows && a.id != id
  {
    Filter(rows, IdIsNot(id))
  }

  /** `update date set status_id = status where id = id`. */
  function SetStatus(rows: seq<Appointment>, id: int, status: int): (r: seq<Appointment>)
    ensures |r| == |rows|
  {
    seq(|rows|, i requires 0 <= i < |rows| => if rows[i].id == id then rows[i].(statusId := status) else rows[i])
  }

  /** The update touches only the status of rows with that id. */
  lemma SetStatusEffect(rows: seq<Appointment>, id: int, status: int, i: int)
    requires 0 <= i < |rows|
    ensures SetStatus(rows, id, status)[i].(statusId := 0) == rows[i].(statusId := 0)
    ensures SetStatus(rows, id, status)[i].statusId == if rows[i].id == id then status else rows[i].statusId
  {
  }

  /** An id no row has changes nothing: there is no not-found case. */
  lemma SetStatusUnknownId(rows: seq<Appointment>, id: int, status: int)
    requires !HasId(rows, id)
    ensures SetStatus(rows, id, status) == rows
  {
    var r := SetStatus(rows, id, status);
    forall i | 0 <= i < |rows| ensures r[i] == rows[i] {
      assert rows[i] in rows;
    }
  }

  /** A status change moves no appointment: doctors and timestamps stay, so
      the one-doctor-one-instant invariant survives without any check. */
  lemma SetStatusKeepsDoctorSlots(rows: seq<Appointment>, id: int, status: int)
    requires DoctorSlotsUnique(rows)
    ensures DoctorSlotsUnique(SetStatus(rows, id, status))
  {
  }

  /** The tables the handlers share. `rows` and `nextId` change; the
      reference tables are read only. `doctors` maps each doctor to the id of
      their specialty (`doctor.specialty_id`). */
  class Database {
    var rows: seq<Appointment>
    var nextId: int
    const statuses: seq<StatusRow>
    const doctors: map<int, int>
    const patients: set<int>

    /** Primary keys, identity values below `nextId`, and foreign keys. */
    ghost predicate Valid()
      reads this
    {
      IdsDistinct(rows) && StatusIdsDistinct(statuses) &&
      forall a :: a in rows ==> a.id < nextId && References(statuses, doctors, patients, a)
    }

    constructor (statuses: seq<StatusRow>, doctors: map<int, int>, patients: set<int>)
      requires StatusIdsDistinct(statuses)
      ensures Valid()
      ensures rows == [] && this.statuses == statuses && this.doctors == doctors && this.patients == patients
    {
      this.statuses := statuses;
      this.doctors := doctors;
      this.patients := patients;
      rows := [];
      nextId := 1;
    }

    /** `insert into date`: the identity column gives the new row a fresh id. */
    method Insert(date: int, statusId: int, doctorId: int, patientId: int, observation: Option<string>)
      returns (id: int)
      requires Valid()
      requires References(statuses, doctors, patients, Appointment(0, date, statusId, doctorId, patientId, observation))
      modifies this
      ensures Valid()
      ensures !HasId(old(rows), id)
      ensures rows == old(rows) + [Appointment(id, date, statusId, doctorId, patientId, observation)]
    {
      id := nextId;
      rows := rows + [Appointment(id, date, statusId, doctorId, patientId, observation)];
      nextId := nextId + 1;
    }

    /** `update date set status_id = status where id = id`. A status that no
        `date_status` row has violates the foreign key of the row it would
        change, and the statement fails (`ok` is false) changing nothing; an
        id no row has matches nothing, whatever the status. */
    method UpdateStatus(id: int, status: int) returns (ok: bool)
      requires Valid()
      modifies this`rows
      ensures Valid()
      ensures ok <==> !HasId(old(rows), id) || StatusName(statuses, status).Some?
      ensures ok ==> rows == SetStatus(old(rows), id, status)
      ensures !ok ==> rows == old(rows)
    {
      if StatusName(statuses, status).None? {
        if HasId(rows, id) {
          return false;
        }
        SetStatusUnknownId(rows, id, status);
        return true;
      }
      rows := SetStatus(rows, id, status);
      forall a | a in rows ensures a.id < nextId && References(statuses, doctors, patients, a) {
        var i :| 0 <= i < |rows| && rows[i] == a;
        assert old(rows)[i] in old(rows);
      }
      return true;
    }
  }
}
