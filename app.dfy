/**
 * The application state container: the four record collections, the stored
 * credential pair and the session flag, with the commands the views invoke.
 */
module App {
  import opened Types
  import opened Seqs

  const DEFAULT_AUTH: Auth := Auth("admin", "admin123")

  /** The programs a fresh installation starts with. */
  const DEFAULT_PROGRAMS: seq<Program> := [
    Program("1", "Sholat Dhuha", "07:00"),
    Program("2", "Sholat Dzuhur", "12:00"),
    Program("3", "Jumat Beramal", "Jumat 07:00")
  ]

  /** The month given to schedules stored before the month field existed. */
  const EVERY_MONTH: string := "Setiap Bulan"

  /** A schedule as it is read back from storage or from a backup file: `month` and `year` may be absent. */
  datatype StoredSchedule = StoredSchedule(
    id: string,
    activity: string,
    day: string,
    week: string,
    month: Option<string>,
    year: Option<string>,
    className: string,
    notes: string)

  /** The whole database: what the state holds and what is written to storage on every change. */
  datatype Db = Db(
    students: seq<Student>,
    programs: seq<Program>,
    transactions: seq<Transaction>,
    schedules: seq<Schedule>,
    auth: Auth)

  /** The stored domain blob; blobs written before schedules existed have no `schedules` key. */
  datatype StoredDb = StoredDb(
    students: seq<Student>,
    programs: seq<Program>,
    transactions: seq<Transaction>,
    schedules: Option<seq<StoredSchedule>>)

  /** A parsed backup file. Every key may be missing; an empty list is present (it is truthy). */
  datatype Backup = Backup(
    students: Option<seq<Student>>,
    programs: Option<seq<Program>>,
    transactions: Option<seq<Transaction>>,
    schedules: Option<seq<StoredSchedule>>,
    auth: Option<Auth>)

  /** JavaScript's `v || fallback` on a string field: an absent or empty value is falsy. */
  function OrElse(v: Option<string>, fallback: string): string {
    if v.Some? && v.value != "" then v.value else fallback
  }

  // ---------------------------------------------------------------- migration

  /** The forward-compatible load of one schedule: a missing or empty month or year gets its default. */
  function Migrate(s: StoredSchedule, currentYear: string): (r: Schedule)
    ensures r.id == s.id && r.activity == s.activity && r.day == s.day && r.week == s.week
    ensures r.className == s.className && r.notes == s.notes
    ensures s.month.Some? && s.month.value != "" ==> r.month == s.month.value
    ensures s.month.None? || s.month == Some("") ==> r.month == EVERY_MONTH
    ensures s.year.Some? && s.year.value != "" ==> r.year == s.year.value
    ensures s.year.None? || s.year == Some("") ==> r.year == currentYear
  {
    Schedule(s.id, s.activity, s.day, s.week,
      OrElse(s.month, EVERY_MONTH), OrElse(s.year, currentYear), s.className, s.notes)
  }

  /** Every schedule of a stored list migrated, in the same order. */
  function MigrateAll(ss: seq<StoredSchedule>, currentYear: string): (r: seq<Schedule>)
    ensures |r| == |ss|
    ensures forall i :: 0 <= i < |ss| ==> r[i] == Migrate(ss[i], currentYear)
  {
    if ss == [] then [] else [Migrate(ss[0], currentYear)] + MigrateAll(ss[1..], currentYear)
  }

  /** A schedule as it is written to storage: month and year are always present. */
  function Store(s: Schedule): StoredSchedule {
    StoredSchedule(s.id, s.activity, s.day, s.week, Some(s.month), Some(s.year), s.className, s.notes)
  }

  function StoreAll(ss: seq<Schedule>): (r: seq<StoredSchedule>)
    ensures |r| == |ss|
    ensures forall i :: 0 <= i < |ss| ==> r[i] == Store(ss[i])
  {
    if ss == [] then [] else [Store(ss[0])] + StoreAll(ss[1..])
  }

  /** Every schedule has a month and a year. */
  predicate Migrated(ss: seq<Schedule>) {
    forall i :: 0 <= i < |ss| ==> ss[i].month != "" && ss[i].year != ""
  }

  /** Migration never overwrites a value that is present: a schedule with month and year survives a store and load unchanged. */
  lemma MigrateStoreIdentity(s: Schedule, currentYear: string)
    requires s.month != "" && s.year != ""
    ensures Migrate(Store(s), currentYear) == s
  {
  }

  /** Migrated schedules have month and year, whatever they were stored with. */
  lemma MigrateAllMigrated(ss: seq<StoredSchedule>, currentYear: string)
    requires currentYear != ""
    ensures Migrated(MigrateAll(ss, currentYear))
  {
  }

  /** Storing and loading a list of complete schedules gives the same list back. */
  lemma {:induction false} MigrateAllStoreAll(ss: seq<Schedule>, currentYear: string)
    requires Migrated(ss)
    ensures MigrateAll(StoreAll(ss), currentYear) == ss
  {
    var r := MigrateAll(StoreAll(ss), currentYear);
    forall i | 0 <= i < |ss| ensures r[i] == ss[i] {
      MigrateStoreIdentity(ss[i], currentYear);
    }
  }

  /** Migration is one-way: migrating what migration produced changes nothing, whichever year is current later. */
  lemma MigrateIdempotent(s: StoredSchedule, year1: string, year2: string)
    requires year1 != ""
    ensures Migrate(Store(Migrate(s, year1)), year2) == Migrate(s, year1)
  {
  }

  // ---------------------------------------------------------------- load and persistence

  /** The state when the application starts, from the two stored blobs (absent on a fresh installation). */
  function Load(saved: Option<StoredDb>, savedAuth: Option<Auth>, currentYear: string): (db: Db)
    ensures db.auth == savedAuth.GetOr(DEFAULT_AUTH)
    ensures saved.None? ==> db == Db([], DEFAULT_PROGRAMS, [], [], db.auth)
    ensures saved.Some? ==> db.students == saved.value.students && db.programs == saved.value.programs
    ensures saved.Some? ==> db.transactions == saved.value.transactions
    ensures saved.Some? ==> db.schedules == MigrateAll(saved.value.schedules.GetOr([]), currentYear)
  {
    var auth := savedAuth.GetOr(DEFAULT_AUTH);
    match saved
    case None => Db([], DEFAULT_PROGRAMS, [], [], auth)
    case Some(d) => Db(d.students, d.programs, d.transactions, MigrateAll(d.schedules.GetOr([]), currentYear), auth)
  }

  /** The domain blob written to storage after every change. */
  function Persist(db: Db): StoredDb {
    StoredDb(db.students, db.programs, db.transactions, Some(StoreAll(db.schedules)))
  }

  /** Reloading what was persisted gives back the same state, as long as every schedule has a month and a year. */
  lemma ReloadRoundTrip(db: Db, currentYear: string)
    requires Migrated(db.schedules)
    ensures Load(Some(Persist(db)), Some(db.auth), currentYear) == db
  {
    MigrateAllStoreAll(db.schedules, currentYear);
  }

  // ---------------------------------------------------------------- transactions

  /** The list after the report view deletes `id`: no record with that id is left, all others keep their order. */
  function RemoveTransaction(ts: seq<Transaction>, id: string): (r: seq<Transaction>)
    ensures forall t :: t in r <==> t in ts && t.id != id
    ensures Subsequence(r, ts)
    ensures forall t: Transaction :: t.id != id ==> multiset(r)[t] == multiset(ts)[t]
  {
    var keep := (t: Transaction) => t.id != id;
    assert forall t: Transaction :: t.id != id ==> multiset(Filter(ts, keep))[t] == multiset(ts)[t] by {
      forall t: Transaction | t.id != id ensures multiset(Filter(ts, keep))[t] == multiset(ts)[t] {
        FilterMultiset(ts, keep, t);
      }
    }
    Filter(ts, keep)
  }

  /** The list after the report view saves an edit: the records with `updated.id` are replaced, nothing else moves. */
  function ReplaceTransaction(ts: seq<Transaction>, updated: Transaction): (r: seq<Transaction>)
    ensures |r| == |ts|
    ensures forall i :: 0 <= i < |ts| && ts[i].id == updated.id ==> r[i] == updated
    ensures forall i :: 0 <= i < |ts| && ts[i].id != updated.id ==> r[i] == ts[i]
  {
    if ts == [] then []
    else [if ts[0].id == updated.id then updated else ts[0]] + ReplaceTransaction(ts[1..], updated)
  }

  /** An update never changes which ids occur, so unique ids stay unique. */
  lemma UpdateKeepsUniqueIds(ts: seq<Transaction>, updated: Transaction)
    requires UniqueKeys(ts, TransactionId)
    ensures UniqueKeys(ReplaceTransaction(ts, updated), TransactionId)
  {
    var r := ReplaceTransaction(ts, updated);
    assert forall i :: 0 <= i < |ts| ==> r[i].id == ts[i].id;
  }

  /** A delete only drops records, so unique ids stay unique. */
  lemma DeleteKeepsUniqueIds(ts: seq<Transaction>, id: string)
    requires UniqueKeys(ts, TransactionId)
    ensures UniqueKeys(RemoveTransaction(ts, id), TransactionId)
  {
    FilterKeepsUniqueKeys(ts, TransactionId, (t: Transaction) => t.id != id);
  }

  /** Deleting an id after updating it is the same as deleting it straight away. */
  lemma {:induction false} DeleteAfterUpdate(ts: seq<Transaction>, updated: Transaction)
    ensures RemoveTransaction(ReplaceTransaction(ts, updated), updated.id) == RemoveTransaction(ts, updated.id)
  {
    if ts != [] {
      DeleteAfterUpdate(ts[1..], updated);
      var u := ReplaceTransaction(ts, updated);
      assert u[1..] == ReplaceTransaction(ts[1..], updated);
    }
  }

  // ---------------------------------------------------------------- restore

  /** The database after a restore: each collection, and the credentials, replaced exactly when the file has that key. */
  function Restored(db: Db, data: Backup, currentYear: string): (r: Db)
    ensures r.students == if data.students.Some? then data.students.value else db.students
    ensures r.programs == if data.programs.Some? then data.programs.value else db.programs
    ensures r.transactions == if data.transactions.Some? then data.transactions.value else db.transactions
    ensures r.schedules == if data.schedules.Some? then MigrateAll(data.schedules.value, currentYear) else db.schedules
    ensures r.auth == if data.auth.Some? then data.auth.value else db.auth
  {
    Db(
      data.students.GetOr(db.students),
      data.programs.GetOr(db.programs),
      data.transactions.GetOr(db.transactions),
      if data.schedules.Some? then MigrateAll(data.schedules.value, currentYear) else db.schedules,
      data.auth.GetOr(db.auth))
  }

  /** The backup file written from the settings view: every key present. */
  function ToBackup(db: Db): Backup {
    Backup(Some(db.students), Some(db.programs), Some(db.transactions), Some(StoreAll(db.schedules)), Some(db.auth))
  }

  /** Restoring a backup of the current state leaves the state as it was. */
  lemma BackupRestoreRoundTrip(db: Db, other: Db, currentYear: string)
    requires Migrated(db.schedules)
    ensures Restored(other, ToBackup(db), currentYear) == db
  {
    MigrateAllStoreAll(db.schedules, currentYear);
  }

  /** Restoring the same file twice is the same as restoring it once. */
  lemma {:induction false} RestoreIdempotent(db: Db, data: Backup, currentYear: string)
    ensures Restored(Restored(db, data, currentYear), data, currentYear) == Restored(db, data, currentYear)
  {
  }

  // ---------------------------------------------------------------- the state container

  class AppState {
    var isLoggedIn: bool
    var auth: Auth
    var students: seq<Student>
    var programs: seq<Program>
    var transactions: seq<Transaction>
    var schedules: seq<Schedule>

    /** The persisted part of the state. */
    function Data(): Db
      reads this
    {
      Db(students, programs, transactions, schedules, auth)
    }

    /** Start-up: the session flag counts only when it is the string "true". */
    constructor Start(saved: Option<StoredDb>, savedAuth: Option<Auth>, sessionFlag: Option<string>, currentYear: string)
      ensures isLoggedIn == (sessionFlag == Some("true"))
      ensures Data() == Load(saved, savedAuth, currentYear)
    {
      var db := Load(saved, savedAuth, currentYear);
      isLoggedIn := sessionFlag == Some("true");
      auth := db.auth;
      students := db.students;
      programs := db.programs;
      transactions := db.transactions;
      schedules := db.schedules;
    }

    /** Succeeds exactly when both strings equal the stored pair; a failed attempt leaves the session as it was. */
    method Login(u: string, p: string) returns (ok: bool)
      modifies this
      ensures ok <==> u == auth.user && p == auth.pass
      ensures isLoggedIn == (ok || old(isLoggedIn))
      ensures Data() == old(Data())
    {
      ok := u == auth.user && p == auth.pass;
      if ok {
        isLoggedIn := true;
      }
    }

    method Logout()
      modifies this
      ensures !isLoggedIn
      ensures Data() == old(Data())
    {
      isLoggedIn := false;
    }

    /** Installs the new pair and ends the session. */
    method UpdateAuth(newAuth: Auth)
      modifies this
      ensures auth == newAuth && !isLoggedIn
      ensures Data() == old(Data()).(auth := newAuth)
    {
      auth := newAuth;
      Logout();
    }

    /** Replaces each collection whose key the backup has; the session is not touched. */
    method RestoreData(data: Backup, currentYear: string)
      modifies this
      ensures Data() == Restored(old(Data()), data, currentYear)
      ensures isLoggedIn == old(isLoggedIn)
    {
      if data.students.Some? { students := data.students.value; }
      if data.programs.Some? { programs := data.programs.value; }
      if data.transactions.Some? { transactions := data.transactions.value; }
      if data.schedules.Some? { schedules := MigrateAll(data.schedules.value, currentYear); }
      if data.auth.Some? { auth := data.auth.value; }
    }

    /** A new record goes first (most recent first). */
    method AddTransaction(t: Transaction)
      modifies this
      ensures transactions == [t] + old(transactions)
      ensures Data() == old(Data()).(transactions := transactions) && isLoggedIn == old(isLoggedIn)
    {
      transactions := [t] + transactions;
    }

    method DeleteTransaction(id: string)
      modifies this
      ensures transactions == RemoveTransaction(old(transactions), id)
      ensures Data() == old(Data()).(transactions := transactions) && isLoggedIn == old(isLoggedIn)
    {
      transactions := RemoveTransaction(transactions, id);
    }

    method UpdateTransaction(updated: Transaction)
      modifies this
      ensures transactions == ReplaceTransaction(old(transactions), updated)
      ensures Data() == old(Data()).(transactions := transactions) && isLoggedIn == old(isLoggedIn)
    {
      transactions := ReplaceTransaction(transactions, updated);
    }

    /** The setters handed to the master-data and schedule views. */
    method SetStudents(s: seq<Student>)
      modifies this
      ensures Data() == old(Data()).(students := s) && isLoggedIn == old(isLoggedIn)
    {
      students := s;
    }

    method SetPrograms(p: seq<Program>)
      modifies this
      ensures Data() == old(Data()).(programs := p) && isLoggedIn == old(isLoggedIn)
    {
      programs := p;
    }

    method SetSchedules(s: seq<Schedule>)
      modifies this
      ensures Data() == old(Data()).(schedules := s) && isLoggedIn == old(isLoggedIn)
    {
      schedules := s;
    }
  }

  /** Changing the credentials logs out at once; afterwards only the new pair is accepted. */
  method CredentialChange(previous: Auth, replacement: Auth) returns (loggedInAfterChange: bool, oldAccepted: bool, newAccepted: bool)
    requires previous != replacement
    ensures !loggedInAfterChange && !oldAccepted && newAccepted
  {
    var app := new AppState.Start(None, Some(previous), Some("true"), "2024");
    app.UpdateAuth(replacement);
    loggedInAfterChange := app.isLoggedIn;
    oldAccepted := app.Login(previous.user, previous.pass);
    newAccepted := app.Login(replacement.user, replacement.pass);
  }
}
