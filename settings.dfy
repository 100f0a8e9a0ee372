/** The settings view: the credential change form and the backup restore. */
module SettingsView {
  import opened Types
  import App

  /** The credentials the change form hands on: only with both inputs filled in and the prompt accepted. */
  function AuthUpdate(newUser: string, newPass: string, confirmed: bool): (r: Option<Auth>)
    ensures r.Some? <==> newUser != "" && newPass != "" && confirmed
    ensures r.Some? ==> r.value == Auth(newUser, newPass)
  {
    if newUser != "" && newPass != "" && confirmed then Some(Auth(newUser, newPass)) else None
  }

  /**
   * The file a restore forwards: `parsed` is `None` when the text is not JSON,
   * and a parsed file is forwarded only when it has students and transactions.
   */
  function RestoreGate(parsed: Option<App.Backup>): (r: Option<App.Backup>)
    ensures r.Some? <==> parsed.Some? && parsed.value.students.Some? && parsed.value.transactions.Some?
    ensures r.Some? ==> r == parsed
  {
    if parsed.Some? && parsed.value.students.Some? && parsed.value.transactions.Some? then parsed else None
  }

  /** A file the backup button wrote passes the check, and restoring it gives the saved state back. */
  lemma OwnBackupRestores(db: App.Db, current: App.Db, currentYear: string)
    requires App.Migrated(db.schedules)
    ensures RestoreGate(Some(App.ToBackup(db))) == Some(App.ToBackup(db))
    ensures App.Restored(current, RestoreGate(Some(App.ToBackup(db))).value, currentYear) == db
  {
    App.BackupRestoreRoundTrip(db, current, currentYear);
  }

  /** Every forwarded file replaces both the students and the transactions. */
  lemma ForwardedReplacesRecords(db: App.Db, parsed: Option<App.Backup>, currentYear: string)
    requires RestoreGate(parsed).Some?
    ensures var r := App.Restored(db, RestoreGate(parsed).value, currentYear);
      r.students == parsed.value.students.value && r.transactions == parsed.value.transactions.value
  {
  }

  /** The change form's submit: with a complete, confirmed entry the credentials change and the user is logged out. */
  method HandleUpdateAuth(app: App.AppState, newUser: string, newPass: string, confirmed: bool)
    modifies app
    ensures AuthUpdate(newUser, newPass, confirmed).None? ==>
      app.Data() == old(app.Data()) && app.isLoggedIn == old(app.isLoggedIn)
    ensures AuthUpdate(newUser, newPass, confirmed).Some? ==>
      app.Data() == old(app.Data()).(auth := Auth(newUser, newPass)) && !app.isLoggedIn
  {
    var update := AuthUpdate(newUser, newPass, confirmed);
    if update.Some? {
      app.UpdateAuth(update.value);
    }
  }

  /** The restore upload: an unreadable or incomplete file leaves everything as it was. */
  method HandleRestore(app: App.AppState, parsed: Option<App.Backup>, currentYear: string) returns (restored: bool)
    modifies app
    ensures restored <==> RestoreGate(parsed).Some?
    ensures restored ==> app.Data() == App.Restored(old(app.Data()), parsed.value, currentYear)
    ensures !restored ==> app.Data() == old(app.Data())
    ensures app.isLoggedIn == old(app.isLoggedIn)
  {
    var forwarded := RestoreGate(parsed);
    restored := forwarded.Some?;
    if restored {
      app.RestoreData(forwarded.value, currentYear);
    }
  }
}
