/**
  The schema-migration runner of backend/src/config/migrations.js.

  The database file is an `Image`: whether the `migrations` table exists, its rows,
  and everything else as an opaque log of the statements applied to it. Beside it
  on disk lie the backup files `database_backup_v<N>.sqlite`, one per version N.
  A migration's `up()` either runs its statements or runs some of them and throws.
  `runMigrations` is the method `RunMigrations`; what it does to the files is the
  function `Run`, and the runner's promises are lemmas about `Run`.
 */
module Migrations {
  import opened Common

  /** A row of the `migrations` table; its `id` and `executed_at` are not modelled. */
  datatype Record = Record(version: int, name: string)

  /** The effect of a migration's `up()`. */
  datatype Up = Statements(run: seq<string>) | Throws(runBefore: seq<string>, message: string)

  datatype Migration = Migration(version: int, name: string, up: Up)

  /** The content of the database file. */
  datatype Image = Image(hasTable: bool, records: seq<Record>, data: seq<string>)

  /** The database file, whether it exists, and the backup files by version. */
  datatype Files = Files(db: Image, dbFileExists: bool, backups: map<int, Image>)

  /** Why the transaction failed: `up()` threw, or the record insert hit UNIQUE(version). */
  datatype Failure = UpThrew(version: int, message: string) | DuplicateVersion(version: int)

  /** How `runMigrations` ends: nothing pending, all applied, or the error rethrown. */
  datatype Outcome = UpToDate | Migrated | Rethrown(error: Failure)

  /** The shipped catalog: a single no-op version 1. */
  const Catalog: seq<Migration> := [Migration(1, "initial_schema", Statements([]))]

  // ------------------------------------------------------------ versions

  predicate HasVersion(records: seq<Record>, v: int)
  {
    exists r :: r in records && r.version == v
  }

  /** The UNIQUE constraint on `migrations.version`. */
  predicate DistinctVersions(records: seq<Record>)
  {
    forall i, j :: 0 <= i < j < |records| ==> records[i].version != records[j].version
  }

  /** The migrations table is empty until it exists, and its versions are unique. */
  predicate WellFormed(img: Image)
  {
    (!img.hasTable ==> img.records == []) && DistinctVersions(img.records)
  }

  /** `SELECT MAX(version) FROM migrations` on a non-empty table. */
  function MaxVersion(records: seq<Record>): (m: int)
    requires records != []
    ensures forall r :: r in records ==> r.version <= m
    ensures exists r :: r in records && r.version == m
  {
    if |records| == 1 then records[0].version
    else
      var rest := MaxVersion(records[1..]);
      assert forall r :: r in records ==> r == records[0] || r in records[1..];
      if records[0].version >= rest then records[0].version else rest
  }

  /** `getCurrentVersion`: the largest recorded version; 0 when the table is empty
      (MAX is NULL) or when the query throws because the table is missing. */
  function CurrentVersion(img: Image): (v: int)
    ensures !img.hasTable || img.records == [] ==> v == 0
    ensures img.hasTable && img.records != [] ==>
      (forall r :: r in img.records ==> r.version <= v) && HasVersion(img.records, v)
  {
    if !img.hasTable || img.records == [] then 0 else MaxVersion(img.records)
  }

  /** `migrations.filter(m => m.version > currentVersion)` */
  function Pending(catalog: seq<Migration>, current: int): (p: seq<Migration>)
    ensures IsSubsequence(p, catalog)
    ensures forall m :: m in p <==> m in catalog && m.version > current
  {
    FilterIsSubsequence(catalog, (m: Migration) => m.version > current);
    var p := Filter(catalog, (m: Migration) => m.version > current);
    assert forall m :: m in p ==> m in catalog && m.version > current by {
      forall m | m in p ensures m in catalog && m.version > current {
        var i :| 0 <= i < |p| && p[i] == m;
      }
    }
    assert forall m :: m in catalog && m.version > current ==> m in p by {
      forall m | m in catalog && m.version > current ensures m in p {
        var i :| 0 <= i < |catalog| && catalog[i] == m;
      }
    }
    p
  }

  /** `createMigration`: the version proposed for a new migration, `max(...versions, 0) + 1`. */
  function NextVersion(catalog: seq<Migration>): (v: int)
    ensures v >= 1
    ensures forall m :: m in catalog ==> m.version < v
    ensures v == 1 || exists m :: m in catalog && m.version == v - 1
  {
    if catalog == [] then 1
    else
      var rest := NextVersion(catalog[1..]);
      assert forall m :: m in catalog ==> m == catalog[0] || m in catalog[1..];
      if catalog[0].version + 1 > rest then catalog[0].version + 1 else rest
  }

  // --------------------------------------------------- the transaction

  /** The outcome of the statements run inside the transaction. */
  datatype Applied = Done(img: Image) | Aborted(error: Failure)

  /** One iteration of the loop: run `up()`, then insert the record. */
  function Step(img: Image, m: Migration): Applied
  {
    match m.up
    case Throws(_, message) => Aborted(UpThrew(m.version, message))
    case Statements(run) =>
      if HasVersion(img.records, m.version) then Aborted(DuplicateVersion(m.version))
      else Done(img.(records := img.records + [Record(m.version, m.name)], data := img.data + run))
  }

  /** The whole loop over `ms`, stopping at the first failure. */
  function ApplyAll(ms: seq<Migration>, img: Image): Applied
    decreases |ms|
  {
    if ms == [] then Done(img)
    else
      match ApplyAll(ms[..|ms| - 1], img)
      case Aborted(e) => Aborted(e)
      case Done(i) => Step(i, ms[|ms| - 1])
  }

  function RecordsOf(ms: seq<Migration>): (rs: seq<Record>)
    ensures |rs| == |ms|
    ensures forall i :: 0 <= i < |ms| ==> rs[i] == Record(ms[i].version, ms[i].name)
  {
    seq(|ms|, i requires 0 <= i < |ms| => Record(ms[i].version, ms[i].name))
  }

  function StatementsOf(ms: seq<Migration>): seq<string>
    decreases |ms|
  {
    if ms == [] then []
    else StatementsOf(ms[..|ms| - 1]) + (match ms[|ms| - 1].up case Statements(run) => run case Throws(run, _) => run)
  }

  /** Every `up()` runs to completion and every record insert meets UNIQUE(version). */
  predicate Applicable(ms: seq<Migration>, records: seq<Record>)
  {
    && (forall i :: 0 <= i < |ms| ==> ms[i].up.Statements?)
    && (forall i :: 0 <= i < |ms| ==> !HasVersion(records, ms[i].version))
    && (forall i, j :: 0 <= i < j < |ms| ==> ms[i].version != ms[j].version)
  }

  /** What the transaction leaves when it commits `ms`: one record per migration, in order,
      and every migration's statements. */
  function Committed(ms: seq<Migration>, img: Image): Image
  {
    img.(records := img.records + RecordsOf(ms), data := img.data + StatementsOf(ms))
  }

  /** The inductive step of `ApplyAllSpec` for a list whose migrations are all applicable. */
  lemma {:induction false} AppendApplicable(ms: seq<Migration>, img: Image)
    requires ms != [] && Applicable(ms, img.records)
    requires ApplyAll(ms[..|ms| - 1], img) == Done(Committed(ms[..|ms| - 1], img))
    ensures ApplyAll(ms, img) == Done(Committed(ms, img))
  {
    var init, last := ms[..|ms| - 1], ms[|ms| - 1];
    var mid := Committed(init, img);
    assert RecordsOf(ms) == RecordsOf(init) + [Record(last.version, last.name)];
    forall r | r in mid.records ensures r.version != last.version {
      if r !in img.records {
        var k :| 0 <= k < |init| && RecordsOf(init)[k] == r;
        assert ms[k].version != ms[|ms| - 1].version;
      }
    }
  }

  /** The inductive step of `ApplyAllSpec` for a list the transaction commits. */
  lemma {:induction false} AppendDone(ms: seq<Migration>, img: Image)
    requires ms != [] && ApplyAll(ms, img).Done?
    requires Applicable(ms[..|ms| - 1], img.records)
    requires ApplyAll(ms[..|ms| - 1], img) == Done(Committed(ms[..|ms| - 1], img))
    ensures Applicable(ms, img.records)
  {
    var init, last := ms[..|ms| - 1], ms[|ms| - 1];
    var mid := Committed(init, img);
    assert forall i :: 0 <= i < |init| ==> init[i] == ms[i];
    assert last.up.Statements? && !HasVersion(mid.records, last.version);
    assert !HasVersion(img.records, last.version);
    forall i, j | 0 <= i < j < |ms| ensures ms[i].version != ms[j].version {
      if j == |ms| - 1 {
        assert RecordsOf(init)[i] in mid.records;
      }
    }
  }

  /** The transaction commits exactly when every migration is applicable, and then it has
      appended one record per migration, in order, and every migration's statements. */
  lemma {:induction false} ApplyAllSpec(ms: seq<Migration>, img: Image)
    ensures ApplyAll(ms, img).Done? <==> Applicable(ms, img.records)
    ensures ApplyAll(ms, img).Done? ==>
      ApplyAll(ms, img).img == img.(records := img.records + RecordsOf(ms), data := img.data + StatementsOf(ms))
    decreases |ms|
  {
    if ms != [] {
      var init := ms[..|ms| - 1];
      ApplyAllSpec(init, img);
      assert forall i :: 0 <= i < |init| ==> init[i] == ms[i];
      if Applicable(ms, img.records) {
        assert Applicable(init, img.records);
        AppendApplicable(ms, img);
      }
      if ApplyAll(ms, img).Done? {
        assert ApplyAll(init, img).Done?;
        AppendDone(ms, img);
      }
    }
  }

  // ----------------------------------------------------- runMigrations

  /** Everything `runMigrations` does to the files, and how it ends. */
  function Run(f: Files, catalog: seq<Migration>, backupCopySucceeds: bool): (Files, Outcome)
  {
    var db := f.db.(hasTable := true);
    var current := CurrentVersion(f.db);
    var pending := Pending(catalog, current);
    if pending == [] then (f.(db := db), UpToDate)
    else
      var backups := if f.dbFileExists && backupCopySucceeds then f.backups[current := db] else f.backups;
      match ApplyAll(pending, db)
      case Done(after) => (Files(after, f.dbFileExists, backups - {current}), Migrated)
      case Aborted(e) => (Files(if current in backups then backups[current] else db, f.dbFileExists, backups), Rethrown(e))
  }

  predicate FilesWellFormed(f: Files)
  {
    WellFormed(f.db) && forall v :: v in f.backups ==> WellFormed(f.backups[v])
  }

  class Database {
    var hasTable: bool
    var records: seq<Record>
    var data: seq<string>
    var dbFileExists: bool
    var backups: map<int, Image>

    function Snapshot(): Image
      reads this
    {
      Image(hasTable, records, data)
    }

    function State(): Files
      reads this
    {
      Files(Snapshot(), dbFileExists, backups)
    }

    ghost predicate Valid()
      reads this
    {
      FilesWellFormed(State())
    }

    constructor (dbFileExists: bool)
      ensures Valid()
      ensures State() == Files(Image(false, [], []), dbFileExists, map[])
    {
      hasTable, records, data := false, [], [];
      this.dbFileExists := dbFileExists;
      backups := map[];
    }
  }

  /** `initMigrationsTable`: `CREATE TABLE IF NOT EXISTS migrations`. */
  method InitMigrationsTable(db: Database)
    requires db.Valid()
    modifies db`hasTable
    ensures db.Valid()
    ensures db.Snapshot() == old(db.Snapshot()).(hasTable := true)
  {
    db.hasTable := true;
  }

  /** The `db.transaction` loop over the pending migrations: each `up()` runs, then its
      record is inserted; the first exception ends the loop. */
  method Transaction(db: Database, pending: seq<Migration>) returns (failure: Option<Failure>)
    requires DistinctVersions(db.records)
    modifies db`records, db`data
    ensures DistinctVersions(db.records)
    ensures failure.None? ==> ApplyAll(pending, old(db.Snapshot())) == Done(db.Snapshot())
    ensures failure.Some? ==> ApplyAll(pending, old(db.Snapshot())) == Aborted(failure.value)
  {
    var start := db.Snapshot();
    failure := None;
    var i := 0;
    while i < |pending| && failure.None?
      invariant 0 <= i <= |pending|
      invariant db.hasTable == start.hasTable
      invariant failure.None? ==> ApplyAll(pending[..i], start) == Done(db.Snapshot())
      invariant failure.Some? ==> ApplyAll(pending[..i], start) == Aborted(failure.value)
      invariant DistinctVersions(db.records)
    {
      var m := pending[i];
      assert pending[..i + 1][..i] == pending[..i];
      match m.up {
        case Throws(runBefore, message) =>
          db.data := db.data + runBefore;
          failure := Some(UpThrew(m.version, message));
        case Statements(run) =>
          db.data := db.data + run;
          if HasVersion(db.records, m.version) {
            failure := Some(DuplicateVersion(m.version));
          } else {
            AppendDistinct(db.records, Record(m.version, m.name));
            db.records := db.records + [Record(m.version, m.name)];
          }
      }
      i := i + 1;
    }
    if failure.None? {
      assert pending[..i] == pending;
    } else {
      ApplyAllAbortStays(pending, i, start);
    }
  }

  lemma AppendDistinct(records: seq<Record>, r: Record)
    requires DistinctVersions(records) && !HasVersion(records, r.version)
    ensures DistinctVersions(records + [r])
  {
    forall i | 0 <= i < |records| ensures records[i].version != r.version {
      assert records[i] in records;
    }
  }

  /** `runMigrations` over `catalog`; `backupCopySucceeds` says whether `copyFileSync`
      of the database file to the backup path succeeds. */
  method RunMigrations(db: Database, catalog: seq<Migration>, backupCopySucceeds: bool) returns (outcome: Outcome)
    requires db.Valid()
    modifies db
    ensures db.Valid()
    ensures (db.State(), outcome) == Run(old(db.State()), catalog, backupCopySucceeds)
  {
    var current := CurrentVersion(db.Snapshot());
    InitMigrationsTable(db);
    var pending := Pending(catalog, current);
    if |pending| == 0 {
      return UpToDate;
    }

    // The backup is attempted only if the database file exists; a failed copy is only a warning.
    if db.dbFileExists && backupCopySucceeds {
      db.backups := db.backups[current := db.Snapshot()];
    }

    var start := db.Snapshot();
    var failure := Transaction(db, pending);

    if failure.None? {
      // COMMIT, then remove the backup file if there is one.
      if current in db.backups {
        db.backups := db.backups - {current};
      }
      assert db.backups == old(if db.dbFileExists && backupCopySucceeds then db.backups[current := start] else db.backups) - {current};
      return Migrated;
    }

    Rollback(db, start, current);
    return Rethrown(failure.value);
  }

  /** ROLLBACK to `start`, then copy the backup file of version `current` back over the
      database if there is one. */
  method Rollback(db: Database, start: Image, current: int)
    requires db.Valid() && WellFormed(start)
    modifies db`hasTable, db`records, db`data
    ensures db.Valid()
    ensures db.Snapshot() == if current in db.backups then db.backups[current] else start
  {
    db.hasTable, db.records, db.data := start.hasTable, start.records, start.data;
    if current in db.backups {
      db.hasTable, db.records, db.data := db.backups[current].hasTable, db.backups[current].records, db.backups[current].data;
    }
  }

  /** Once the loop has failed, the rest of the catalog does not change the outcome. */
  lemma {:induction false} ApplyAllAbortStays(ms: seq<Migration>, i: nat, img: Image)
    requires i <= |ms| && ApplyAll(ms[..i], img).Aborted?
    ensures ApplyAll(ms, img) == ApplyAll(ms[..i], img)
    decreases |ms| - i
  {
    if i < |ms| {
      assert ms[..i + 1][..i] == ms[..i];
      ApplyAllAbortStays(ms, i + 1, img);
    } else {
      assert ms[..i] == ms;
    }
  }

  // ------------------------------------------------ what the runner promises

  /** With nothing pending the run only ensures the table exists: no backup, no transaction, no record. */
  lemma RunUpToDate(f: Files, catalog: seq<Migration>, backupCopySucceeds: bool)
    requires Pending(catalog, CurrentVersion(f.db)) == []
    ensures Run(f, catalog, backupCopySucceeds) == (f.(db := f.db.(hasTable := true)), UpToDate)
  {
  }

  /** On success each pending migration ran once, in catalog order, followed by its record;
      the backup is gone, and the current version is the largest pending version. */
  lemma RunMigrated(f: Files, catalog: seq<Migration>, backupCopySucceeds: bool)
    requires WellFormed(f.db)
    requires Run(f, catalog, backupCopySucceeds).1 == Migrated
    ensures var pending := Pending(catalog, CurrentVersion(f.db));
      var after := Run(f, catalog, backupCopySucceeds).0;
      && pending != []
      && after.db == Image(true, f.db.records + RecordsOf(pending), f.db.data + StatementsOf(pending))
      && CurrentVersion(f.db) !in after.backups
      && (forall m :: m in pending ==> m.version <= CurrentVersion(after.db))
      && HasVersion(RecordsOf(pending), CurrentVersion(after.db))
  {
    var current := CurrentVersion(f.db);
    var pending := Pending(catalog, current);
    var db := f.db.(hasTable := true);
    ApplyAllSpec(pending, db);
    var after := Run(f, catalog, backupCopySucceeds).0.db;
    var added := RecordsOf(pending);
    assert after.records == f.db.records + added;
    assert added[0] in after.records;
    var top := CurrentVersion(after);
    forall m | m in pending ensures m.version <= top {
      var k :| 0 <= k < |pending| && pending[k] == m;
      assert added[k] in after.records;
    }
    var r :| r in after.records && r.version == top;
    assert r !in f.db.records;
  }

  /** With an ascending catalog, the version after a successful run is the last pending one. */
  lemma RunMigratedAscending(f: Files, catalog: seq<Migration>, backupCopySucceeds: bool)
    requires WellFormed(f.db)
    requires forall i, j :: 0 <= i < j < |catalog| ==> catalog[i].version < catalog[j].version
    requires Run(f, catalog, backupCopySucceeds).1 == Migrated
    ensures var pending := Pending(catalog, CurrentVersion(f.db));
      pending != [] && CurrentVersion(Run(f, catalog, backupCopySucceeds).0.db) == pending[|pending| - 1].version
  {
    RunMigrated(f, catalog, backupCopySucceeds);
    var pending := Pending(catalog, CurrentVersion(f.db));
    LastIsTop(pending, catalog, CurrentVersion(Run(f, catalog, backupCopySucceeds).0.db));
  }

  lemma LastIsTop(pending: seq<Migration>, catalog: seq<Migration>, top: int)
    requires IsSubsequence(pending, catalog) && pending != []
    requires forall i, j :: 0 <= i < j < |catalog| ==> catalog[i].version < catalog[j].version
    requires forall m :: m in pending ==> m.version <= top
    requires HasVersion(RecordsOf(pending), top)
    ensures top == pending[|pending| - 1].version
  {
    var last := pending[|pending| - 1];
    assert last in pending;
    var r :| r in RecordsOf(pending) && r.version == top;
    var k :| 0 <= k < |pending| && RecordsOf(pending)[k] == r;
    if k < |pending| - 1 {
      SubsequenceAscending(pending, catalog, k, |pending| - 1);
    }
  }

  lemma {:induction false} SubsequenceAscending(p: seq<Migration>, c: seq<Migration>, i: int, j: int)
    requires IsSubsequence(p, c)
    requires forall x, y :: 0 <= x < y < |c| ==> c[x].version < c[y].version
    requires 0 <= i < j < |p|
    ensures p[i].version < p[j].version
    decreases |c|
  {
    if p[0] == c[0] {
      if i == 0 {
        assert p[j] in p[1..];
        SubsequenceMember(p[1..], c[1..], j - 1);
        var y :| 0 <= y < |c[1..]| && c[1..][y] == p[j];
        assert c[0].version < c[y + 1].version;
      } else {
        SubsequenceAscending(p[1..], c[1..], i - 1, j - 1);
      }
    } else {
      SubsequenceAscending(p, c[1..], i, j);
    }
  }

  lemma {:induction false} SubsequenceMember(p: seq<Migration>, c: seq<Migration>, i: int)
    requires IsSubsequence(p, c) && 0 <= i < |p|
    ensures p[i] in c
    decreases |c|
  {
    if p[0] == c[0] {
      if i > 0 { SubsequenceMember(p[1..], c[1..], i - 1); }
    } else {
      SubsequenceMember(p, c[1..], i);
    }
  }

  /** A second run straight after a successful one finds nothing pending and changes nothing. */
  lemma RunTwice(f: Files, catalog: seq<Migration>, b1: bool, b2: bool)
    requires WellFormed(f.db)
    requires Run(f, catalog, b1).1 == Migrated
    ensures var g := Run(f, catalog, b1).0;
      Run(g, catalog, b2) == (g, UpToDate)
  {
    RunMigrated(f, catalog, b1);
    var current := CurrentVersion(f.db);
    var pending := Pending(catalog, current);
    var g := Run(f, catalog, b1).0;
    var top := CurrentVersion(g.db);
    assert g.db.hasTable;
    forall m | m in catalog ensures m.version <= top {
      if m.version > current {
        assert m in pending;
      } else if f.db.records != [] && f.db.hasTable {
        var r :| r in f.db.records && r.version == current;
        assert r in g.db.records;
      } else {
        assert pending[0] in pending;
      }
    }
  }

  /** On failure the error is rethrown, the backup (if one was taken) stays on disk, and the
      database is the backup file when one exists, otherwise the rolled-back state: with a
      backup taken by this run, either way no record and no statement of the batch survives. */
  lemma RunRethrown(f: Files, catalog: seq<Migration>, backupCopySucceeds: bool)
    requires Run(f, catalog, backupCopySucceeds).1.Rethrown?
    ensures var current := CurrentVersion(f.db);
      var pending := Pending(catalog, current);
      var after := Run(f, catalog, backupCopySucceeds).0;
      && !Applicable(pending, f.db.records)
      && after.backups == (if f.dbFileExists && backupCopySucceeds then f.backups[current := f.db.(hasTable := true)] else f.backups)
      && after.db == (if current in after.backups then after.backups[current] else f.db.(hasTable := true))
      && ((f.dbFileExists && backupCopySucceeds) || current !in f.backups ==> after.db == f.db.(hasTable := true))
  {
    var pending := Pending(catalog, CurrentVersion(f.db));
    ApplyAllSpec(pending, f.db.(hasTable := true));
  }

  /** Failed backup copy plus a file left by an earlier failed run at the same version:
      the restore copies that older file back over the database. */
  lemma RunRestoresStaleBackup(f: Files, catalog: seq<Migration>, stale: Image)
    requires CurrentVersion(f.db) in f.backups && f.backups[CurrentVersion(f.db)] == stale
    requires Run(f, catalog, false).1.Rethrown?
    ensures Run(f, catalog, false).0.db == stale
  {
  }

  /** A committed transaction keeps the versions of the migrations table unique. */
  lemma DoneKeepsDistinct(pending: seq<Migration>, img: Image)
    requires WellFormed(img) && img.hasTable && ApplyAll(pending, img).Done?
    ensures WellFormed(ApplyAll(pending, img).img)
  {
    ApplyAllSpec(pending, img);
    var rs := img.records + RecordsOf(pending);
    forall i, j | 0 <= i < j < |rs| ensures rs[i].version != rs[j].version {
      if j >= |img.records| {
        if i >= |img.records| {
          assert rs[i] == RecordsOf(pending)[i - |img.records|];
        } else {
          assert rs[i] in img.records;
        }
      }
    }
  }

  /** The versions in the migrations table stay unique, in the database and in every backup. */
  lemma RunKeepsWellFormed(f: Files, catalog: seq<Migration>, backupCopySucceeds: bool)
    requires FilesWellFormed(f)
    ensures FilesWellFormed(Run(f, catalog, backupCopySucceeds).0)
  {
    var db := f.db.(hasTable := true);
    var current := CurrentVersion(f.db);
    var pending := Pending(catalog, current);
    if pending != [] {
      var backups := if f.dbFileExists && backupCopySucceeds then f.backups[current := db] else f.backups;
      assert forall v :: v in backups ==> WellFormed(backups[v]);
      match ApplyAll(pending, db)
      case Done(after) =>
        DoneKeepsDistinct(pending, db);
        assert Run(f, catalog, backupCopySucceeds).0 == Files(after, f.dbFileExists, backups - {current});
      case Aborted(e) =>
        assert Run(f, catalog, backupCopySucceeds).0.backups == backups;
    }
  }

  /** From a fresh database file, the shipped catalog records exactly version 1, and the
      next proposed version is 2. */
  lemma ShippedCatalogFromScratch(backupCopySucceeds: bool)
    ensures var f := Files(Image(false, [], []), true, map[]);
      var (g, outcome) := Run(f, Catalog, backupCopySucceeds);
      && outcome == Migrated
      && g.db == Image(true, [Record(1, "initial_schema")], [])
      && g.backups == map[]
      && CurrentVersion(g.db) == 1
      && NextVersion(Catalog) == 2
  {
    var f := Files(Image(false, [], []), true, map[]);
    var pending := Pending(Catalog, 0);
    assert Catalog[0] in pending;
    assert pending == Catalog;
    ApplyAllSpec(pending, f.db.(hasTable := true));
    assert StatementsOf(Catalog) == StatementsOf(Catalog[..0]) + [];
  }
}
