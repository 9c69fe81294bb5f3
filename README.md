# Appointment slots of sistemaunvdv, modelled in Dafny

This project models the appointment ("cita") logic of the clinic management
system sistemaunvdv (a SvelteKit application over PostgreSQL) and proves
properties of it:

- the `date` table of appointments, with its status, doctor and patient keys;
- the availability list that offers 30-minute slots from 08:00 to 17:00
  minus a doctor's booked `HH:mm` times;
- the exact doctor-and-instant check, both as a read endpoint and as the guard
  of the booking form, which then inserts the row with the `Programada` status;
- the per-day read views used by the booking form: a patient's booked times
  and a doctor's booked patients;
- the appointments page: counters, the upcoming list and its pages, and the
  status change;
- the patients-of-the-day page: its filters and its status change;
- the backup page: the file-name and confirmation validators, the `pg_dump`
  and `psql` command path, the generated backup name, the `.sql` listing, and
  the create, restore and delete actions over the set of file names in the
  backup directory;
- the `[role]` route matcher.

Conventions:

- **Time.** A timestamp is a whole number of minutes. Day `d` starts at minute
  `d * 1440`, and an `HH:mm` label is the time of day `t % 1440`, formatted
  as five characters. `new Date(`${date}T${time}:00`)` is
  `Calendar.Timestamp`; it parses the label back and gives `None` for an
  invalid date.
- **Request fields.** A field is `Option<string>`, with `None` when absent.
  JavaScript's `!field` test is `Web.Given`: absent or empty. Ids are read
  with `BigInt`, modelled as `Text.ParseBigInt`, which gives `None` where
  `BigInt` throws. The day of a `date` parameter is already a day number.
- **Store failures.** Every handler takes a `fault` flag. It stands for any
  exception the database raises inside the handler's `try` block. This
  includes an id that `BigInt` reads but that lies outside the signed 64-bit
  range of a `bigint` column, which Postgres rejects: `Text.ParseBigInt` is
  unbounded, so the range check is part of `fault`.
- **The database.** `Schema.Database` holds the `date` rows. Its `Valid`
  invariant states that ids are distinct and that every foreign key refers to
  an existing status, doctor and patient.
- **Joins.** The reference tables are constants: statuses as rows, doctors as
  a map to their specialty, patients as a set. An inner join keeps exactly
  the rows whose keys exist (`Schema.References`).
- **Ordering.** Where the source sorts by date and leaves ties unspecified, the
  model uses a stable insertion sort, which is one admissible order. The
  backup listing's comparator sort is stable in JavaScript, so there the
  model is exact.

Each read handler is a function or method whose contract ties its answer to a
specification function (`FreeSlots`, `BookedTimes`, `BookedPatientIds`,
`Daily`, `Listing`). The lemmas state what those functions promise. State
changes (insert, status update, backup files) are methods of the classes
`Schema.Database` and `Backup.BackupDir`. The `Schema.Database` methods state
their new rows exactly and keep the class invariant `Valid`. The
`Backup.BackupDir` methods state their new file set exactly.

## Model

| member | source | states |
|---|---|---|
| Availability.Get | src/routes/api/availability/+server.ts:5-58 | 400 exactly when `doctorId` or `date` is missing; 500 exactly when `BigInt` cannot read the doctor id or a given `excludeId`, or the store fails; `Ok` exactly when the request is well-formed and nothing fails, and then the free-slot list of that doctor, day and exclusion |
| Availability.WalkGrid | src/routes/api/availability/+server.ts:37-51 | the 30-minute walk from 08:00 while before 17:00 that skips booked labels produces exactly the reference list `FreeFrom(booked, 08:00)` |
| Availability.GridIsLabels | src/routes/api/availability/+server.ts:38-51 | the grid walk yields exactly the eighteen labels 08:00, 08:30, ..., 16:30 |
| Availability.GridAt | src/routes/api/availability/+server.ts:41-50 | the i-th grid label is the label of minute 08:00 + 30·i, which is on the grid |
| Availability.GridLabelsAreGrid | src/routes/api/availability/+server.ts:41-50 | a string is a grid label iff it is the label of a grid minute |
| Availability.GridAscending | src/routes/api/availability/+server.ts:41-50 | the grid labels stand for strictly increasing minutes |
| Availability.FreeFromIsFilteredGrid | src/routes/api/availability/+server.ts:41-51 | the walk's result is the grid filtered by "not booked" |
| Availability.FreeSlotsIsFilteredGrid | src/routes/api/availability/+server.ts:34-51 | the answer is the eighteen labels minus the set of booked labels, in grid order |
| Availability.FreeSlotsAscending | src/routes/api/availability/+server.ts:41-51 | every answered label is a grid label, the answer is strictly ascending, and 17:00 never appears |
| Availability.SlotOfferedIff | src/routes/api/availability/+server.ts:20-24 | a grid label is offered iff no appointment of that doctor in `[dayStart, dayStart+1day)`, other than the excluded one, has that time of day |
| Availability.OnlyCountedMatter | src/routes/api/availability/+server.ts:22-24 | tables that agree on that doctor's rows of that day (exclusion applied) give the same answer; other doctors and other days do not matter |
| Availability.ExcludeIsRemoval | src/routes/api/availability/+server.ts:26-28 | with `excludeId`, the answer equals the answer on the table without that row |
| Availability.OffGridBookingBlocksNothing | src/routes/api/availability/+server.ts:34-46 | adding a booking whose time is off the 30-minute grid leaves the answer unchanged |
| Availability.StrikeOutCount | src/routes/api/availability/+server.ts:42-51 | filtering a repeat-free list by a set removes one entry per member of the set that occurs in it |
| Availability.FreeSlotsCount | src/routes/api/availability/+server.ts:34-51 | the answer has 18 entries less the number of distinct booked grid labels |
| Availability.NoBookingsFullGrid | src/routes/api/availability/+server.ts:38-51 | with nothing counted, the answer is exactly the eighteen labels |
| Availability.FreeFromNothingBooked | src/routes/api/availability/+server.ts:41-51 | with an empty booked set the walk keeps every grid label |
| Availability.BookedNotOffered | src/routes/api/availability/+server.ts:34-47 | a counted appointment's own time is never offered |
| CheckAvailability.Get | src/routes/api/check-availability/+server.ts:6-32 | 400 exactly when a parameter is missing; 500 exactly when all are given and the store fails, `BigInt` cannot read the doctor id, or the instant is an invalid date; `isAvailable` is false iff the conflict query `CheckAvailability.SlotTaken` finds a row with that doctor and exactly the instant `${date}T${time}:00`, and true iff the instant is valid and no such row exists |
| CheckAvailability.OwnSlotUnavailable | src/routes/api/check-availability/+server.ts:18-26 | there is no exclusion, so every stored appointment's own instant reads as unavailable |
| CheckAvailability.AgreesWithAvailability | src/routes/api/check-availability/+server.ts:16-26 | for a grid minute and no `excludeId`, the availability list offers the label iff this endpoint answers available |
| AddAppointment.Decide | src/routes/private/citas/add/+page.server.ts:21-67 | 400 iff the form fails `AddAppointment.FormValid` (`appointmentSchema`: patient, doctor, date and time given); 409 iff the doctor id reads and some row has that doctor at exactly the built instant; acceptance needs no conflict, the `Programada` status, and existing doctor and patient, and it happens whenever those hold; every other outcome is 500 |
| AddAppointment.Submit | src/routes/private/citas/add/+page.server.ts:21-67 | on a reject the table is unchanged and the status is returned; on accept exactly one row with a fresh id, the form's doctor, patient and observation, the built instant and the `Programada` status id is appended, and the answer is a 303 redirect to `/private/citas?success=true` |
| AddAppointment.ConflictRejected | src/routes/private/citas/add/+page.server.ts:34-43 | a row of the same doctor at the built instant makes the action answer 409 |
| AddAppointment.GuardIsCheckAvailability | src/routes/private/citas/add/+page.server.ts:34-43 | for a valid form, the action's conflict query is `CheckAvailability.SlotTaken`, and it answers 409 iff the check-availability endpoint reports the instant unavailable |
| AddAppointment.AcceptKeepsDoctorSlotsUnique | src/routes/private/citas/add/+page.server.ts:34-59 | run one after another, an accepted booking keeps "no two rows share doctor and instant" |
| AddAppointment.MissingScheduledStatus | src/routes/private/citas/add/+page.server.ts:47-64 | without a `Programada` status row nothing is accepted |
| AddAppointment.SamePatientOtherDoctorAccepted | src/routes/private/citas/add/+page.server.ts:34-38 | a patient already booked at an instant with one doctor is accepted at the same instant with another doctor |
| AddAppointment.SameDoctorLaterSameDayAccepted | src/routes/private/citas/add/+page.server.ts:34-38 | the same patient and doctor are accepted again later on the same day |
| AddAppointment.StoredBookingVisible | src/routes/private/citas/add/+page.server.ts:53-59 | once a row is stored: check-availability reports its instant taken, the availability list does not offer its time, the doctor's day lists its patient, and the patient's day lists its time |
| PatientSchedule.Get | src/routes/api/patient-schedule/+server.ts:7-41 | 400 exactly when `patientId` or `date` is missing; 500 exactly when `BigInt` cannot read the patient id or a given `excludeId`, or the store fails; `Ok` exactly when the request is well-formed and nothing fails, and then the booked times, each of which reads back as a time |
| PatientSchedule.ScheduleMembership | src/routes/api/patient-schedule/+server.ts:17-34 | a time is listed iff one of the patient's rows in `[startOfDay, endOfDay]`, other than the excluded one, is at that time |
| PatientSchedule.ScheduleMultiplicity | src/routes/api/patient-schedule/+server.ts:20-34 | a time occurs once per such row (no deduplication) |
| PatientSchedule.OtherPatientsIgnored | src/routes/api/patient-schedule/+server.ts:22 | inserting another patient's row anywhere leaves the answer unchanged |
| PatientSchedule.BookedTimesAppend | src/routes/api/patient-schedule/+server.ts:20-34 | the answer over two tables is the concatenation of the answers |
| PatientSchedule.ExcludeIsRemoval | src/routes/api/patient-schedule/+server.ts:26-28 | with `excludeId`, the answer equals the answer on the table without that row |
| PatientSchedule.ExcludeOmitsOne | src/routes/api/patient-schedule/+server.ts:26-34 | with distinct ids, excluding a listed appointment removes exactly one occurrence of its time from the multiset of times and keeps every other one; the list is one entry shorter |
| BookedPatients.Get | src/routes/api/booked-patients/+server.ts:7-36 | 400 exactly when `doctorId` or `date` is missing; 500 exactly when `BigInt` cannot read the doctor id or the store fails; `Ok` exactly when the request is well-formed and nothing fails, and then the patient ids, at most one per row |
| BookedPatients.BookedMembership | src/routes/api/booked-patients/+server.ts:20-29 | a patient's id text is listed iff some row has that doctor, that patient and a date in `[startOfDay, endOfDay]`; there is no exclusion |
| BookedPatients.BookedMultiplicity | src/routes/api/booked-patients/+server.ts:20-29 | a patient occurs once per matching row (duplicates kept) |
| BookedPatients.InclusiveDayIsHalfOpen | src/routes/api/booked-patients/+server.ts:16-24 | on whole minutes the inclusive day selects the same rows as the half-open day of the availability list |
| AppointmentsPage.CountKpis | src/routes/private/citas/+page.server.ts:34-46 | the four counters are the counts of rows of today, of this week (Monday to Sunday), of today's `Confirmada` rows and of today's `Completada` rows, and `pending + completed <= today <= thisWeek` |
| AppointmentsPage.Listing | src/routes/private/citas/+page.server.ts:50-56 | the base query holds exactly the rows from the start of today on that survive the four inner joins, each as often as in the table (a permutation of them, so its length is their count, the total the page count is built from), in ascending date order |
| AppointmentsPage.PageCount | src/routes/private/citas/+page.server.ts:81-82 | the page count is the ceiling of total/10: `count*10 >= total`, `(count-1)*10 < total` when total > 0, and 0 when total = 0 |
| AppointmentsPage.PageNonEmptyIff | src/routes/private/citas/+page.server.ts:72-82 | page p (from 1) holds rows iff p <= the page count |
| AppointmentsPage.Load | src/routes/private/citas/+page.server.ts:22-91 | 500 iff the store fails or the page is below 1 (a negative `OFFSET`); otherwise the KPIs are the counts over all rows (`CountKpis`), the current page is `page ?? 1`, the size is 10, and the page is at most 10 rows, sorted by date, from today on, and exactly the slice of the ordered listing at offset `(page-1)*10`; it is non-empty iff the page is within the page count |
| AppointmentsPage.UpdateStatus | src/routes/private/citas/+page.server.ts:95-116 | 400 iff a field is missing or empty; success iff both ids read, the store works, and the id is unknown or the status exists; on success exactly `status_id` of the rows with that id changes (an unknown id changes nothing), otherwise nothing changes |
| AppointmentsPage.StatusChangeKeepsSlots | src/routes/private/citas/+page.server.ts:105-109 | a status change, to any status, leaves every doctor's free slots unchanged; no slot check is needed or made |
| DailyPatients.Load | src/routes/private/pacientes_dia/+page.server.ts:29-77 | `load` fails iff the store fails or a given filter cannot be read by `BigInt`; otherwise the day's list under the filters it reads, sorted by date, every row of today |
| DailyPatients.Daily | src/routes/private/pacientes_dia/+page.server.ts:39-76 | the list is sorted by date and is a permutation of the rows meeting every condition |
| DailyPatients.DailyRows | src/routes/private/pacientes_dia/+page.server.ts:39-61 | every listed row is within `[startOfDay, endOfDay]`, has the chosen doctor, the chosen specialty and the chosen status, or by default the status `Confirmada` or `Completada` |
| DailyPatients.DailyComplete | src/routes/private/pacientes_dia/+page.server.ts:39-61 | every row of today that meets every condition is listed |
| DailyPatients.NarrowingShrinks | src/routes/private/pacientes_dia/+page.server.ts:49-54 | adding a doctor or specialty filter yields a sub-multiset |
| DailyPatients.StatusFilterReplacesDefault | src/routes/private/pacientes_dia/+page.server.ts:55-61 | choosing a status replaces the default: a `Programada` row hidden by default appears when its status is chosen |
| DailyPatients.UpdateStatus | src/routes/private/pacientes_dia/+page.server.ts:105-118 | never 400: an absent field is filled with the empty string, which reads as 0; success iff both ids read, the store works, and the id is unknown or the status exists; on success only `status_id` of that id changes, otherwise nothing |
| Schema.Database.Insert | src/routes/private/citas/add/+page.server.ts:53-59 | the identity column gives a fresh id; exactly that row is appended and the invariant is kept |
| Schema.Database.UpdateStatus | src/lib/server/migrations/initial.ts:102-109 | the update succeeds iff no row has the id or the status exists (foreign key); then the rows become `SetStatus`, otherwise they are unchanged; the invariant is kept |
| Schema.SetStatusEffect | src/routes/private/citas/+page.server.ts:105-109 | the update changes only `status_id`, and only of the rows with that id |
| Schema.SetStatusUnknownId | src/routes/private/citas/+page.server.ts:105-115 | an id no row has changes nothing (there is no not-found case) |
| Schema.SetStatusKeepsDoctorSlots | src/routes/private/citas/+page.server.ts:105-109 | a status change keeps "no two rows share doctor and instant" |
| Schema.StatusName | src/routes/private/citas/+page.server.ts:55 | the join finds a name only for a status row with that id, and finds none iff no row has it |
| Schema.StatusNameUnique | src/lib/server/migrations/initial.ts:97-100 | with `date_status.id` a primary key, the join finds the one name of a status id |
| Schema.FindStatusId | src/routes/private/citas/add/+page.server.ts:47-50 | the lookup of a status by name returns the id of a row with that name, and nothing iff no row has it |
| Calendar.Timestamp | src/routes/api/check-availability/+server.ts:16 | the built instant exists iff the time parses, and then it lies within the day or at the next midnight (`24:00`) |
| Calendar.TimestampRoundTrip | src/routes/api/check-availability/+server.ts:16 | formatting a timestamp's day and `HH:mm` and building it again gives the timestamp back |
| Calendar.LabelShape | src/routes/api/availability/+server.ts:43 | a label `Calendar.HHmm`, `format(_, 'HH:mm')`, is five characters, two digits, a colon and two digits, whose digits read as the hour and the minute of the time of day |
| Calendar.ParseHHmm | src/routes/api/check-availability/+server.ts:16 | only five-character `HH:mm` text reads as a time; its value is within `[0, 1440]`, and it is the next midnight 1440 exactly for `24:00` |
| Calendar.ParseFormat | src/routes/api/availability/+server.ts:43 | reading back a formatted label gives its minute |
| Calendar.FormatParse | src/routes/api/check-availability/+server.ts:16 | every string that reads as a minute of the day is that minute's label |
| Calendar.FormatInjective | src/routes/api/availability/+server.ts:34-46 | distinct minutes have distinct labels |
| Calendar.InclusiveIsHalfOpen | src/routes/api/booked-patients/+server.ts:16-17 | on whole minutes `[startOfDay, endOfDay]` and `[dayStart, dayStart+1day)` agree |
| Calendar.WeekStart | src/routes/private/citas/+page.server.ts:30-31 | the week start is a Monday at most six days before the day |
| Text.ParseIntToString | src/routes/api/booked-patients/+server.ts:29 | `BigInt(n.toString())` gives `n` back |
| Text.IntToStringInjective | src/routes/api/booked-patients/+server.ts:29 | distinct ids print differently |
| Text.ParseBigInt | src/routes/private/citas/+page.server.ts:107-108 | the empty string reads as 0; a value is read only from decimal digits with an optional sign; digits read as their decimal value, `-digits` as its negation and `+digits` as the value itself |
| BackupSchema.FilenameIssues | src/routes/private/configuracion/backup/schema.ts:3-8 | no issue iff the name is non-empty with no `/` and no `..`; the empty name gets the "required" issue and an unsafe name the "invalid" issue, both on the `filename` field |
| BackupSchema.RestoreIssues | src/routes/private/configuracion/backup/schema.ts:15-27 | no issue iff the file name is valid and the confirmation is exactly `CONFIRMAR RESTAURACIÓN`; a wrong phrase gives its issue on the `confirmation` field |
| BackupSchema.DeleteIssues | src/routes/private/configuracion/backup/schema.ts:29-31 | no issue iff the file name is valid |
| BackupSchema.RestoreNeedsPhrase | src/routes/private/configuracion/backup/schema.ts:15-27 | a name accepted for deletion is accepted for restore iff the phrase is exact |
| BackupSchema.PhraseIsExact | src/routes/private/configuracion/backup/schema.ts:22 | lower case, a trailing space or a missing accent are refused |
| BackupSchema.TraversalRefused | src/routes/private/configuracion/backup/schema.ts:6 | `../secret.sql` and `sub/x.sql` are invalid, and the empty name is required |
| BackupSchema.DirectoryNamePasses | src/routes/private/configuracion/backup/schema.ts:6 | the name `.` passes, while `..` does not |
| Backup.PgCommand | src/routes/private/configuracion/backup/+page.server.ts:19-24 | the command always ends with the executable's name; unset or empty `POSTGRES_BIN_DIR` gives the bare name; with it set, the command starts with the directory, has a separator just before the name and at most one character between the two |
| Backup.EmptyBinDirIsUnset | src/routes/private/configuracion/backup/+page.server.ts:20 | an empty `POSTGRES_BIN_DIR` gives the same command as an unset one |
| Backup.TrailingSeparatorKept | src/routes/private/configuracion/backup/+page.server.ts:21 | a directory that already ends in `/` gets no second separator |
| Backup.IsoString | src/routes/private/configuracion/backup/+page.server.ts:101 | `toISOString()` is 24 characters for years 0000 to 9999 and 27 otherwise, ends in `Z`, and holds only digits and `+-T:.Z` |
| Backup.DashColonsAndDots | src/routes/private/configuracion/backup/+page.server.ts:101 | the replacement keeps the length and changes only `:` and `.`, into `-` |
| Backup.NoColonOrDot | src/routes/private/configuracion/backup/+page.server.ts:101 | the timestamp part has no `:` and no `.` |
| Backup.StampHasNoSlash | src/routes/private/configuracion/backup/+page.server.ts:101 | the timestamp part has no `/` |
| Backup.BackupNameValid | src/routes/private/configuracion/backup/+page.server.ts:101-102 | every generated name passes the file-name validator and ends in `.sql` |
| Backup.Listing | src/routes/private/configuracion/backup/+page.server.ts:65-87 | the listing holds exactly the `.sql` entries (as a multiset), newest first |
| Backup.CreatedBackupListed | src/routes/private/configuracion/backup/+page.server.ts:71-77 | a backup the create action wrote is listed once the directory shows it |
| Backup.BackupDir.Create | src/routes/private/configuracion/backup/+page.server.ts:90-122 | the create schema is empty, so there is no 400; without `DATABASE_URL` the answer is 500 and no file or command is touched; otherwise the dump runs, success adds the generated name, and a failed dump unlinks it again (leaving the set as it was when the name was new) |
| Backup.BackupDir.Restore | src/routes/private/configuracion/backup/+page.server.ts:124-155 | 400 on any validation issue, then 500 without `DATABASE_URL`, then 404 when `fs.access` finds nothing, all before `psql` runs; `psql` runs iff all checks pass, and its exit decides success or 500 |
| Backup.BackupDir.Delete | src/routes/private/configuracion/backup/+page.server.ts:157-172 | 400 on an invalid name with nothing changed; 500 for a missing file or a file-system error with nothing changed; otherwise the name leaves the set |
| UserRole.Match | src/params/userRole.ts:5-7 | a parameter matches iff it is one of the `userType` values `doctor` and `secretaria` |
| UserRole.KnownRolesMatch | src/params/userRole.ts:6 | `doctor` and `secretaria` match |
| UserRole.OtherStringsRefused | src/params/userRole.ts:6 | case variants, surrounding spaces, other words and the empty string are refused |

## Left out

- Dates of request parameters: a `date` parameter is already a day number. Parsing `YYYY-MM-DD` text, an invalid date string, local time zones and daylight-saving shifts (`setHours`, `addMinutes`, `startOfDay`) are not modelled. Every day has 1440 minutes.
- `endOfDay` (23:59:59.999) is the minute 23:59, because timestamps are whole minutes. Seconds and milliseconds of stored timestamps are not modelled.
- Text.ParseBigInt: surrounding whitespace and `0x`/`0o`/`0b` literals, which `BigInt` also accepts, read as malformed here.
- PatientSchedule.ExcludeOmitsOne: the patient-schedule and booked-patients queries have no `orderBy`, so the database may return rows in any order. The model returns them in table order, and only the multiset of the answer is meant.
- DailyPatients.UpdateStatus: the 400 branch is not reachable from text or absent fields, because the non-strict validation fills an absent field with the empty string. Non-text form values (file uploads), which would fail the schema, are not modelled.
- AppointmentsPage.Load: `page` is an integer or absent. `Number` of a non-numeric or fractional text (`NaN`, `2.5`) is not modelled.
- AppointmentsPage.Load: the display columns (names, phone, specialty name) and the `statuses` list are not returned. Only the rows are.
- DailyPatients.Load: the doctor, specialty and status lists for the filter form are not returned.
- Concurrency: each action is one sequential step. The check-then-insert of the booking form can race between requests, and the index on `date` (src/lib/server/migrations/qadd_index.ts) is not unique, so uniqueness under concurrent requests is not claimed.
- `Promise.all` fan-out in the appointments page only runs the queries in parallel. The model evaluates them together.
- Floating point: `Math.ceil(total / pageSize)` is integer ceiling division, and the backup size (`toFixed(2)`) is not modelled.
- Backup.BackupDir.Create: the time comes in as a parameter (`Backup.Instant`), with years limited to ±999999. `pg_dump` comes in as a success flag, and the streams, the spawned process and its standard error are not modelled. A failing cleanup `unlink` (which the `.catch` hides, leaving the partial file behind) is not modelled: after a failed dump the file is always removed.
- Backup.BackupDir.Restore: `psql` comes in as a success flag. The restored database and errors on the input stream are not modelled.
- Backup.BackupDir.Delete: the kind of `unlink` error is not distinguished. Every failure is the `fault` flag or a missing name.
- Backup.Listing: the directory listing and each entry's creation time come in as a parameter. `stat` failures are not modelled.
- `ensureBackupDir` (creating the directory) is not modelled. The directory always exists.
- The `check_version` action is not modelled. It runs `pg_dump --version` and `psql --version` and echoes their output or error text, with no decision of its own.
- `path.join` normalisation: `Backup.JoinPath` models the join of a directory and a plain executable name only.
- Schema.Database.UpdateStatus: a store failure other than the status foreign key (connection loss, for instance) is the `fault` flag of the calling action.
- The edit/reschedule action of the appointment edit page (src/routes/private/citas/[id]/edit/+page.server.ts) is not part of this model. The same goes for the other CRUD pages, the dashboard counters, authentication, and the schemas other than the backup ones and the booking form.
- The `load` functions that only fill form selects (patients and doctors of the booking form) are not modelled.
