/** The backup page: the `pg_dump`/`psql` command path, the generated backup
    name, the `.sql` listing, and the create, restore and delete actions over
    the set of file names in the backup directory. */
module Backup {
  import opened Web
  import opened Seqs
  import opened Text
  import opened BackupSchema

  datatype Executable = PgDump | Psql

  function ExecutableName(e: Executable): string {
    match e
    case PgDump => "pg_dump"
    case Psql => "psql"
  }

  /** `path.join(dir, name)` for a relative `name` without separators, when
      `dir` needs no normalising. */
  function JoinPath(dir: string, name: string): string
    requires dir != ""
  {
    if dir[|dir| - 1] == '/' then dir + name else dir + "/" + name
  }

  /** `getPgCommand`: the executable inside `POSTGRES_BIN_DIR` when that
      variable is set (non-empty), the bare name otherwise. With the variable
      set, the command is the directory, one separator (added only when the
      directory does not already end in one) and the executable's name. */
  function PgCommand(binDir: Option<string>, e: Executable): (r: string)
    ensures EndsWith(r, ExecutableName(e))
    ensures !Given(binDir) ==> r == ExecutableName(e)
    ensures Given(binDir) ==>
      |binDir.value| + |ExecutableName(e)| <= |r| <= |binDir.value| + 1 + |ExecutableName(e)| &&
      r[..|binDir.value|] == binDir.value && r[|r| - |ExecutableName(e)| - 1] == '/'
  {
    var n := ExecutableName(e);
    if Given(binDir) then
      var r := JoinPath(binDir.value, n);
      assert r[|r| - |n|..] == n;
      r
    else n
  }

  predicate EndsWith(s: string, suffix: string) {
    |suffix| <= |s| && s[|s| - |suffix|..] == suffix
  }

  /** An empty `POSTGRES_BIN_DIR` counts as unset: the bare name is used. */
  lemma EmptyBinDirIsUnset(e: Executable)
    ensures PgCommand(Some(""), e) == PgCommand(None, e) == ExecutableName(e)
  {
  }

  /** A directory given with its trailing separator gets no second one. */
  lemma TrailingSeparatorKept(dir: string, e: Executable)
    requires dir != "" && dir[|dir| - 1] == '/'
    ensures PgCommand(Some(dir), e) == dir + ExecutableName(e)
  {
  }

  /** A UTC instant as `toISOString` reads it. */
  datatype Instant = Instant(year: int, month: int, day: int, hour: int, minute: int, second: int, millisecond: int)

  predicate InstantValid(t: Instant) {
    -1000000 < t.year < 1000000 && 1 <= t.month <= 12 && 1 <= t.day <= 31 &&
    0 <= t.hour < 24 && 0 <= t.minute < 60 && 0 <= t.second < 60 && 0 <= t.millisecond < 1000
  }

  /** The last `width` decimal digits of `n`, zero-padded. */
  function Padded(n: nat, width: nat): (r: string)
    ensures |r| == width && AllDigits(r)
  {
    if width == 0 then "" else Padded(n / 10, width - 1) + [Digit(n % 10)]
  }

  /** The year field: four digits, or a sign and six digits outside 0000..9999. */
  function YearText(year: int): (r: string)
    ensures forall c :: c in r ==> IsDigit(c) || c == '+' || c == '-'
    ensures |r| == if 0 <= year <= 9999 then 4 else 7
  {
    if 0 <= year <= 9999 then Padded(year, 4)
    else if year < 0 then "-" + Padded(-year, 6)
    else "+" + Padded(year, 6)
  }

  /** `toISOString()`: `YYYY-MM-DDTHH:mm:ss.sssZ`. */
  function IsoString(t: Instant): (r: string)
    requires InstantValid(t)
    ensures |r| == if 0 <= t.year <= 9999 then 24 else 27
    ensures forall c :: c in r ==> IsDigit(c) || c in "+-T:.Z"
    ensures r[|r| - 1] == 'Z'
  {
    YearText(t.year) + "-" + Padded(t.month, 2) + "-" + Padded(t.day, 2) + "T" +
    Padded(t.hour, 2) + ":" + Padded(t.minute, 2) + ":" + Padded(t.second, 2) + "." +
    Padded(t.millisecond, 3) + "Z"
  }

  function DashFor(c: char): char {
    if c == ':' || c == '.' then '-' else c
  }

  /** `replace(/[:.]/g, '-')`. */
  function DashColonsAndDots(s: string): (r: string)
    ensures |r| == |s|
    ensures forall i :: 0 <= i < |s| ==> (r[i] == s[i] || (r[i] == '-' && s[i] in ":."))
  {
    Select(s, DashFor)
  }

  /** The timestamp part of a backup name. */
  function BackupStamp(t: Instant): (r: string)
    requires InstantValid(t)
  {
    DashColonsAndDots(IsoString(t))
  }

  /** The name the create action writes: `backup-${timestamp}.sql`. */
  function BackupName(t: Instant): string
    requires InstantValid(t)
  {
    "backup-" + BackupStamp(t) + ".sql"
  }

  /** The replacement leaves no `:` and no `.` behind, whatever the text. */
  lemma NoColonOrDot(s: string)
    ensures ':' !in DashColonsAndDots(s) && '.' !in DashColonsAndDots(s)
  {
    var r := DashColonsAndDots(s);
    forall i | 0 <= i < |r| ensures r[i] != ':' && r[i] != '.' {
      assert r[i] == DashFor(s[i]);
    }
  }

  lemma DigitsHaveNoSlash(s: string)
    requires AllDigits(s)
    ensures '/' !in s
  {
  }

  /** The stamp has no `/` either: the ISO text has none. */
  lemma StampHasNoSlash(t: Instant)
    requires InstantValid(t)
    ensures '/' !in BackupStamp(t)
  {
    DigitsHaveNoSlash(Padded(t.month, 2));
    DigitsHaveNoSlash(Padded(t.day, 2));
    DigitsHaveNoSlash(Padded(t.hour, 2));
    DigitsHaveNoSlash(Padded(t.minute, 2));
    DigitsHaveNoSlash(Padded(t.second, 2));
    DigitsHaveNoSlash(Padded(t.millisecond, 3));
    var s := IsoString(t);
    assert '/' !in s;
    var r := BackupStamp(t);
    forall i | 0 <= i < |r| ensures r[i] != '/' {
      assert r[i] == DashFor(s[i]);
    }
  }

  /** Every generated name passes the file-name validator and ends in `.sql`,
      so it can later be restored or deleted. */
  lemma BackupNameValid(t: Instant)
    requires InstantValid(t)
    ensures FilenameValid(BackupName(t))
    ensures EndsWith(BackupName(t), ".sql")
  {
    var stamp := BackupStamp(t);
    var name := BackupName(t);
    NoColonOrDot(IsoString(t));
    StampHasNoSlash(t);
    var k := 7 + |stamp|;
    assert name[..7] == "backup-" && name[7..k] == stamp && name[k..] == ".sql";
    forall i | 0 <= i < |name| ensures (name[i] != '.' || i == k) && name[i] != '/' {
      if i < 7 {
        assert name[i] == "backup-"[i];
      } else if i < k {
        assert name[i] == stamp[i - 7];
      } else {
        assert name[i] == ".sql"[i - k];
      }
    }
  }

  /** A directory entry with its creation time (`stats.birthtime`) in ms. */
  datatype Entry = Entry(name: string, birthtime: int)

  function IsSqlEntry(e: Entry): bool {
    EndsWith(e.name, ".sql")
  }

  /** Newest first: the sort key is the negated creation time. */
  function NewestFirst(e: Entry): int {
    -e.birthtime
  }

  /** `load`: the `.sql` entries of the directory listing `entries`, newest
      first; the sort is stable, so equal times keep the listing order. */
  function Listing(entries: seq<Entry>): (r: seq<Entry>)
    ensures forall e :: e in r ==> EndsWith(e.name, ".sql")
    ensures forall i, j :: 0 <= i < j < |r| ==> r[i].birthtime >= r[j].birthtime
    ensures multiset(r) == multiset(Filter(entries, IsSqlEntry))
  {
    var sql := Filter(entries, IsSqlEntry);
    var r := SortBy(sql, NewestFirst);
    forall e | e in r ensures EndsWith(e.name, ".sql") {
      SortByMember(sql, NewestFirst, e);
    }
    r
  }

  /** A backup the create action wrote is listed once the directory shows it. */
  lemma CreatedBackupListed(entries: seq<Entry>, t: Instant, e: Entry)
    requires InstantValid(t) && e in entries && e.name == BackupName(t)
    ensures e in Listing(entries)
  {
    BackupNameValid(t);
    SortByMember(Filter(entries, IsSqlEntry), NewestFirst, e);
  }

  /** The backup directory, as the set of file names it holds. */
  class BackupDir {
    var files: set<string>

    constructor (files: set<string>)
      ensures this.files == files
    {
      this.files := files;
    }

    /** The create action at instant `now`. `databaseUrl` is `DATABASE_URL`;
        `dumpSucceeds` is whether `pg_dump` exits with code 0. The output
        file is opened before the dump runs and unlinked when it fails.
        `createSchema` is an empty object, so there is no 400. */
    method Create(databaseUrl: Option<string>, now: Instant, dumpSucceeds: bool) returns (r: ActionResult, ranDump: bool)
      requires InstantValid(now)
      modifies this
      ensures ranDump <==> Given(databaseUrl)
      ensures !Given(databaseUrl) ==> r == Failure(ServerError) && files == old(files)
      ensures Given(databaseUrl) && dumpSucceeds ==> r == Success && files == old(files) + {BackupName(now)}
      ensures Given(databaseUrl) && !dumpSucceeds ==> r == Failure(ServerError) && files == old(files) - {BackupName(now)}
      ensures !dumpSucceeds && BackupName(now) !in old(files) ==> files == old(files)
    {
      if !Given(databaseUrl) {
        return Failure(ServerError), false;
      }
      var name := BackupName(now);
      files := files + {name};
      ranDump := true;
      if dumpSucceeds {
        r := Success;
      } else {
        files := files - {name};
        r := Failure(ServerError);
      }
    }

    /** What `fs.access` finds under the backup directory: a file it holds,
        or `.`, which names the directory itself. */
    predicate Accessible(name: string)
      reads this
    {
      name in files || name == "."
    }

    /** The restore action. `psqlSucceeds` is whether `psql` exits with code 0;
        the restored database lies outside the model and no file changes. */
    method Restore(filename: string, confirmation: string, databaseUrl: Option<string>, psqlSucceeds: bool)
      returns (r: ActionResult, ranPsql: bool)
      ensures ranPsql <==> RestoreIssues(filename, confirmation) == [] && Given(databaseUrl) && Accessible(filename)
      ensures RestoreIssues(filename, confirmation) != [] ==> r == Failure(BadRequest)
      ensures RestoreIssues(filename, confirmation) == [] && !Given(databaseUrl) ==> r == Failure(ServerError)
      ensures RestoreIssues(filename, confirmation) == [] && Given(databaseUrl) && !Accessible(filename) ==> r == Failure(NotFound)
      ensures ranPsql ==> r == if psqlSucceeds then Success else Failure(ServerError)
    {
      if RestoreIssues(filename, confirmation) != [] {
        return Failure(BadRequest), false;
      }
      if !Given(databaseUrl) {
        return Failure(ServerError), false;
      }
      if !Accessible(filename) {
        return Failure(NotFound), false;
      }
      ranPsql := true;
      r := if psqlSucceeds then Success else Failure(ServerError);
    }

    /** The delete action: `unlink`, which fails (500) on a missing file;
        `fault` stands for any other file-system error. */
    method Delete(filename: string, fault: bool) returns (r: ActionResult)
      modifies this
      ensures DeleteIssues(filename) != [] ==> r == Failure(BadRequest) && files == old(files)
      ensures DeleteIssues(filename) == [] && (fault || filename !in old(files)) ==> r == Failure(ServerError) && files == old(files)
      ensures DeleteIssues(filename) == [] && !fault && filename in old(files) ==> r == Success && files == old(files) - {filename}
    {
      if DeleteIssues(filename) != [] {
        return Failure(BadRequest);
      }
      if fault || filename !in files {
        return Failure(ServerError);
      }
      files := files - {filename};
      return Success;
    }
  }
}
