# SIM-Agama in Dafny

SIM-Agama is a browser application in which a school records students' absences
from religious activities. It keeps lists of students, programs, absence
transactions and activity schedules, plus one administrator login. The data lives
in browser storage. This project models the application's state container
(`App.tsx`) and the domain logic of its six views:

- the dashboard figures and the parent-call list;
- the monthly report's filters, export name and edit/delete dialogs;
- the absence entry form;
- master-data add/delete and spreadsheet import;
- the schedule dialog, delete and export column widths;
- the settings view's credential change and backup restore.

It then proves properties of that model.

Layout, one module per source file:

| Dafny module | file | source |
|---|---|---|
| `Types` | `types.dfy` | `types.ts`, plus `students.find` |
| `App` | `app.dfy` | `App.tsx` |
| `DashboardView` | `dashboard.dfy` | `views/Dashboard.tsx` |
| `ReportView` | `reports.dfy` | `views/Reports.tsx` |
| `TransactionView` | `transaction.dfy` | `views/Transaction.tsx` |
| `MasterView` | `masterdata.dfy` | `views/MasterData.tsx` |
| `ScheduleView` | `schedule.dfy` | `views/Schedule.tsx` |
| `SettingsView` | `settings.dfy` | `views/Settings.tsx` |

Three helper modules model the JavaScript built-ins the views rely on:

- `Seqs`: `filter`, `map`, an index-passing `forEach` that pushes kept elements, and a `Set` built from an array.
- `Text`: `trim` and number-to-string conversion.
- `Ordering`: the stable `sort` under any total preorder on strings, and the code-point order `Below` used for the default `sort`.

How the model represents the source:

- **React state.** A component's state becomes a class: `App.AppState`, and the
  `Form`/`Editor` classes of the views. Its fields are the `useState` variables,
  and its methods are the handlers, with `modifies` clauses.
- **Parent callbacks.** Callbacks such as `onAddTransaction` and `setStudents`
  become calls on the `App.AppState` object passed in.
- **Pure expressions.** `filter`/`map`/`sort` chains become functions. The
  handler methods are specified against those functions.
- **Field names.** The source's `class` field is called `className` here, because
  `class` is a Dafny keyword.
- **JavaScript truthiness.** A missing value is `Option.None`. An empty string is
  `""`, and it is falsy wherever the source tests a string. An empty array is
  `Some([])`, which is truthy.
- **Inputs from outside.** The clock, the current year, today's date, a fresh
  `Date.now()` id, the `confirm` answer, a parsed JSON file and a parsed sheet are
  all parameters.

## Model

| member | source | states |
|---|---|---|
| Types.FindStudent | views/Transaction.tsx:30-31 | `students.find`: `None` exactly when no student has the id; otherwise the first student with that id |
| App.Migrate | App.tsx:57-61 | every field passes through; a missing or empty month becomes "Setiap Bulan"; a missing or empty year becomes the current year; a present month or year is never overwritten |
| App.MigrateAll | App.tsx:55-61 | a stored list maps to a list of the same length, migrated element by element, in the same order |
| App.MigrateStoreIdentity | App.tsx:57-61 | a schedule that has a month and a year survives a store and reload unchanged |
| App.MigrateAllMigrated | App.tsx:57-61 | after migration every schedule has a non-empty month and year (given a non-empty current year) |
| App.MigrateAllStoreAll | App.tsx:51-71 | storing and then loading a list of complete schedules gives back the same list |
| App.MigrateIdempotent | App.tsx:57-61 | migrating already-migrated data changes nothing, even in a later year |
| App.Load | App.tsx:17-64 | start-up state: the stored credentials or `admin`/`admin123`; with no stored database, no students, transactions or schedules and the three seeded programs; otherwise the stored lists, with schedules migrated, a missing `schedules` key loading as the empty list |
| App.ReloadRoundTrip | App.tsx:66-71 | loading what the persistence effect wrote gives back the same state whenever every schedule has a month and a year |
| App.RemoveTransaction | App.tsx:154 | the list after a delete: exactly the records whose id differs, in their original order, each with its original multiplicity |
| App.ReplaceTransaction | App.tsx:155 | the list after an update: same length; records with the updated id are replaced in place; all others are unchanged |
| App.UpdateKeepsUniqueIds | App.tsx:155 | an update preserves unique transaction ids |
| App.DeleteKeepsUniqueIds | App.tsx:154 | a delete preserves unique transaction ids |
| App.DeleteAfterUpdate | App.tsx:154-155 | deleting an id after updating it equals deleting it straight away |
| App.Restored | App.tsx:92-106 | each collection, and the credentials, is replaced exactly when the backup has that key (an empty list counts); restored schedules are migrated |
| App.BackupRestoreRoundTrip | App.tsx:92-106 | restoring the backup the settings view writes (`{students, programs, transactions, schedules, auth}`) reproduces that state, whatever the state was before |
| App.RestoreIdempotent | App.tsx:92-106 | restoring the same file twice equals restoring it once |
| App.AppState.Start | App.tsx:17-64 | the session counts as logged in only when the session flag is the string "true"; the data is `Load` of the stored blobs |
| App.AppState.Login | App.tsx:73-80 | succeeds exactly when both strings equal the stored pair; success logs in; a failure leaves the session as it was; no data changes |
| App.AppState.Logout | App.tsx:82-85 | ends the session; no data changes |
| App.AppState.UpdateAuth | App.tsx:87-90 | installs the new pair and ends the session; nothing else changes |
| App.AppState.RestoreData | App.tsx:92-106 | the new data is `Restored` of the old data; the session is not touched |
| App.AppState.AddTransaction | App.tsx:147 | the new record is placed first; nothing else changes |
| App.AppState.DeleteTransaction | App.tsx:154 | transactions become `RemoveTransaction` of the old list; nothing else changes |
| App.AppState.UpdateTransaction | App.tsx:155 | transactions become `ReplaceTransaction` of the old list; nothing else changes |
| App.AppState.SetStudents | App.tsx:138 | replaces the student list only |
| App.AppState.SetPrograms | App.tsx:140 | replaces the program list only |
| App.AppState.SetSchedules | App.tsx:161 | replaces the schedule list only |
| App.CredentialChange | App.tsx:87-90 | after a credential change the user is logged out; the old pair is refused and the new pair accepted |
| DashboardView.AbsentsToday | views/Dashboard.tsx:13 | the count equals the number of transactions whose date string is exactly today's |
| DashboardView.EarlyDepartures | views/Dashboard.tsx:14 | the count equals the number of transactions whose reason is exactly "Pulang sebelum waktunya" |
| DashboardView.TallyStep | views/Dashboard.tsx:18-21 | counting one more occurrence of an id keeps the tally exact and its key order in first-occurrence order |
| DashboardView.TallyCounts | views/Dashboard.tsx:17-21 | the left-to-right tally of a list of ids (a missing or zero entry starts from 0, then is incremented) has exactly those ids as keys, each with its number of occurrences, in first-occurrence order |
| DashboardView.ViolationCounts | views/Dashboard.tsx:17-21 | the loop's map and key order are the left-to-right tally of the transactions' student ids: the keys are exactly the ids that occur, each value is that id's number of transactions, and the keys are in first-occurrence order |
| DashboardView.RecordedAbsenceCounts | views/Dashboard.tsx:17-21 | a newly recorded transaction adds one to its own student's count and nothing to anyone else's |
| DashboardView.ParentCallList | views/Dashboard.tsx:23-29 | an id is listed exactly when its tally exceeds 2 and some student has that id; each entry carries the first such student's record and the exact tally; no id is listed twice |
| DashboardView.Render | views/Dashboard.tsx:11-35 | student total; today's and early-departure counts; a parent-call list holding exactly the existing students with more than two transactions, each once, with the exact count; the fourth figure is the list's length |
| Text.Trim | views/MasterData.tsx:76 | `trim()` gives the empty string exactly when the text is all whitespace, and otherwise a text that neither starts nor ends with whitespace |
| Text.TrimParts | views/MasterData.tsx:76 | trimming equals removing the leading whitespace and then the trailing whitespace |
| Ordering.SortBySorted | views/Transaction.tsx:21 | under any comparison that is total and transitive, as a comparator must be, the sort orders its result by the key; `SortBy` itself keeps every element with its multiplicity |
| Ordering.BelowTotalPreorder | views/Reports.tsx:20 | the code-point order used for the default `sort` is total and transitive |
| ReportView.ClassList | views/Reports.tsx:20 | the class options (also used in views/Transaction.tsx:20) hold each class of some student exactly once, in strictly ascending order |
| ReportView.Filtered | views/Reports.tsx:22-26 | a row is shown iff it matches the class (or "all") and its date starts with the month (or the month is empty); rows keep their order and multiplicity |
| ReportView.UnfilteredIsEverything | views/Reports.tsx:22-26 | with "all" and an empty month the report is the whole transaction list |
| ReportView.ExportFilename | views/Reports.tsx:31 | the name starts with `Laporan_Absensi_` and ends with `.xlsx` |
| ReportView.ExportFilenameLabel | views/Reports.tsx:31 | the part between them is the month, or "Total" when no month is chosen |
| ReportView.EditedRecord | views/Reports.tsx:36-47 | the record sent back keeps id, student id, student name, class and program; its date, time and reason are each the value of the last edit to that field, or the row's own when the field was not edited |
| ReportView.LastValue | views/Reports.tsx:36-47 | a field's value after the edits is that of the last edit writing it, and the starting value when none does |
| ReportView.EditTouchesOnlyItsRow | views/Reports.tsx:41-47 | with unique ids, saving the dialog opened on a row changes only that row's date, time and reason |
| ReportView.UnchangedEditIsNoOp | views/Reports.tsx:36-47 | saving the dialog without edits gives back the same list |
| TransactionView.ClassMembers | views/Transaction.tsx:21 | filtering by class and sorting, under any comparison, keeps exactly the students of the class, each with its multiplicity |
| TransactionView.ClassStudents | views/Transaction.tsx:21 | the student options are exactly the students of the chosen class, each with its multiplicity, sorted by name under the host's collation, which is a parameter known only to be total and transitive |
| TransactionView.ProgramName | views/Transaction.tsx:40 | the typed name when "Lainnya" is chosen, otherwise the chosen program |
| TransactionView.NewRecord | views/Transaction.tsx:23-42 | a record is made iff the student and reason are set, a program is chosen or typed, and the id belongs to a student; its student fields are that student's; date, time, reason and id come from the form |
| TransactionView.EmptyProgramAccepted | views/Transaction.tsx:25-40 | "Lainnya" with nothing typed, or a leftover typed name with no program chosen, records an empty program |
| TransactionView.Form.constructor | views/Transaction.tsx:12-18 | a fresh form has nothing chosen and is dated now |
| TransactionView.Form.ChooseClass | views/Transaction.tsx:95 | changing the class clears the chosen student and nothing else |
| TransactionView.Form.Submit | views/Transaction.tsx:23-50 | the student is looked up in the app's own list (App.tsx:145); the record, if any, is prepended to the app's transactions, and only then are student and reason cleared; date, time, class and program are kept; otherwise nothing changes |
| MasterView.Saved | views/MasterData.tsx:75-85 | nothing happens if either trimmed input is empty; otherwise one record with trimmed fields is appended to the open dialog's collection only |
| MasterView.SavedRecordIsClean | views/MasterData.tsx:81-85 | the saved fields are non-empty and trim to themselves; with a fresh id both collections keep unique ids |
| MasterView.AfterDelete | views/MasterData.tsx:18-25 | with no pending delete nothing changes; otherwise exactly the target's collection loses the records with its id; every other record stays, in order, with all its copies; the other collection is untouched |
| MasterView.DeleteKeepsUniqueIds | views/MasterData.tsx:18-25 | a delete keeps the ids of both collections unique |
| MasterView.TruthyCellNonEmpty | views/MasterData.tsx:48-52 | a cell that passes the truthiness test never reads as the empty string |
| MasterView.ImportedMembers | views/MasterData.tsx:47-55 | a student is read from exactly each row whose first two cells are truthy, with that row's trimmed text and the id clock-reading + row index |
| MasterView.ImportRows | views/MasterData.tsx:46-55 | the `forEach`/`push` loop builds exactly `ImportedFrom` of the rows after the header |
| MasterView.ImportedCount | views/MasterData.tsx:57-59 | the reported number equals the number of rows that pass the check |
| MasterView.ImportedTrimmed | views/MasterData.tsx:51-52 | stored names and classes are trimmed |
| MasterView.BlankNameRow | views/MasterData.tsx:48-52 | a row whose name cell is non-empty text made only of whitespace, and whose class cell is truthy, passes the truthiness check and is read with an empty name and the trimmed class |
| MasterView.BlankNameImported | views/MasterData.tsx:47-55 | any such row among the imported rows adds a student with an empty name, the row's id and the trimmed class |
| MasterView.ImportIdsDiffer | views/MasterData.tsx:50 | two different row indexes give different ids when their clock readings have the same length |
| MasterView.ImportedIdsUnique | views/MasterData.tsx:46-55 | ids of one import are pairwise distinct when all clock readings have one length |
| MasterView.UploadOutcome | views/MasterData.tsx:39-65 | a read failure, a sheet with fewer than 2 rows, no valid row, or the number of rows added (which is positive) |
| MasterView.Editor.constructor | views/MasterData.tsx:14-16 | no dialog, empty inputs, no pending delete |
| MasterView.Editor.OpenModal | views/MasterData.tsx:102 | opens the dialog with empty inputs |
| MasterView.Editor.CloseModal | views/MasterData.tsx:221 | closes the dialog |
| MasterView.Editor.RequestDelete | views/MasterData.tsx:126 | remembers the target |
| MasterView.Editor.SaveForm | views/MasterData.tsx:75-89 | a refused entry changes nothing; an accepted one stores `Saved`'s lists, closes the dialog and clears the inputs |
| MasterView.Editor.ConfirmDelete | views/MasterData.tsx:18-26 | stores `AfterDelete`'s lists and clears the pending delete |
| MasterView.Editor.Upload | views/MasterData.tsx:28-73 | returns `UploadOutcome`; only when students were added are they appended after the existing ones |
| ScheduleView.FinalActivity | views/Schedule.tsx:58 | the typed activity when "Lainnya" is chosen, otherwise the chosen one |
| ScheduleView.EditActivityRoundTrip | views/Schedule.tsx:46-58 | opening the edit dialog and saving reproduces the stored activity, whether or not it is offered by name |
| ScheduleView.Overwrite | views/Schedule.tsx:67 | the overwritten record keeps its id and takes the final activity |
| ScheduleView.UpdateSchedules | views/Schedule.tsx:66-68 | records with the edited id are overwritten in place; all other records are unchanged |
| ScheduleView.RemoveSchedule | views/Schedule.tsx:83 | exactly the records with a different id are kept, in order, each with all its copies |
| ScheduleView.RemoveKeepsUniqueIds | views/Schedule.tsx:83 | a delete keeps schedule ids unique |
| ScheduleView.RemoveKeepsMigrated | views/Schedule.tsx:83 | a delete keeps every remaining schedule with a month and a year |
| ScheduleView.Saved | views/Schedule.tsx:57-79 | refused unless final activity, day, week, month, year and class are non-empty (notes optional); then an update in place when editing, else one appended record |
| ScheduleView.UnchangedEditIsNoOp | views/Schedule.tsx:46-68 | with unique ids, editing a complete record and saving it unchanged gives back the same list |
| ScheduleView.SaveKeepsMigrated | views/Schedule.tsx:59-76 | saved schedules always have a month and a year |
| ScheduleView.SavedAddKeepsUniqueIds | views/Schedule.tsx:71-76 | an add with a fresh id keeps schedule ids unique |
| ScheduleView.LongestIn | views/Schedule.tsx:110-112 | the longest text of a column, or its header if longer: no smaller than any of them, and equal to one of them |
| ScheduleView.ColumnWidths | views/Schedule.tsx:88-112 | no export of an empty list; otherwise seven widths, each the longest text of its column plus 2 |
| ScheduleView.Editor.constructor | views/Schedule.tsx:20-37 | no dialog, nothing edited, empty inputs with the year read when the module was loaded, which is kept for later adds |
| ScheduleView.Editor.OpenForAdd | views/Schedule.tsx:39-44 | opens the dialog with the empty inputs (the load-time year) and nothing edited |
| ScheduleView.Editor.OpenForEdit | views/Schedule.tsx:46-55 | opens the dialog on the record: all fields shown; a listed activity is selected with no typed text, any other shows as "Lainnya" with the activity typed in; the final activity equals the stored one |
| ScheduleView.Editor.CloseModal | views/Schedule.tsx:262 | closes the dialog |
| ScheduleView.Editor.RequestDelete | views/Schedule.tsx:173 | remembers the target |
| ScheduleView.Editor.Save | views/Schedule.tsx:57-79 | a refused entry changes nothing; an accepted one stores `Saved`'s list and closes the dialog |
| ScheduleView.Editor.Delete | views/Schedule.tsx:81-86 | removes the target's id and clears the pending delete; nothing happens without one |
| SettingsView.AuthUpdate | views/Settings.tsx:15-21 | new credentials are handed on iff both inputs are non-empty and the prompt is accepted |
| SettingsView.RestoreGate | views/Settings.tsx:40-50 | a file is forwarded iff it parses and has both `students` and `transactions` |
| SettingsView.OwnBackupRestores | views/Settings.tsx:24-46 | a file written by the backup button passes the check, and restoring it reproduces the saved state |
| SettingsView.ForwardedReplacesRecords | views/Settings.tsx:42-43 | every forwarded file replaces both students and transactions |
| SettingsView.HandleUpdateAuth | views/Settings.tsx:15-21 | with a complete, confirmed entry the credentials change and the user is logged out; otherwise nothing changes |
| SettingsView.HandleRestore | views/Settings.tsx:34-53 | an unreadable or incomplete file leaves the state untouched; a valid one is restored |

## Left out

- Rendering, styling, navigation and the sidebar, header and login components: they hold no domain logic.
- Browser storage itself (`localStorage`, `sessionStorage`) and the persistence effect (App.tsx:66-71) are not modelled as I/O. The stored blobs are values: start-up reads them in `App.Load`, and `App.Persist` is what the effect writes.
- `clearAllData` (views/Settings.tsx:56-61) is left out. It clears storage and reloads the page, which is I/O only.
- The backup download (views/Settings.tsx:24-31) is left out as I/O. `App.ToBackup` is the file's content.
- `App.Load`: a stored `sim_db` or `sim_auth` blob that is not valid JSON makes the source's start-up throw (App.tsx:28, 33, 38, 48, 54 call `JSON.parse` without a `try`). That failure is not modelled: `Load`'s `None` means only that the blob is absent, which starts from the defaults.
- `JSON.parse` in the backup restore and the spreadsheet library are not modelled. There a parse failure (or any exception in the reader) is `None`; the restore catches it (views/Settings.tsx:40-50). A parsed value is assumed to have the modelled shape: each present key holds a list of records of the right type. Files whose keys hold other truthy values are not modelled.
- Only integer, string, boolean and blank spreadsheet cells are modelled. Fractional numbers and date cells are not.
- `MasterView.CellString`: a number cell is an unbounded integer written in full by `Text.IntToString`. JavaScript numbers are doubles: `String(n)` writes a value of magnitude 10^21 or more in exponent form ("1e+21"), and integers past 2^53 are not held exactly. Those cells are not modelled as the source reads them.
- When no file is chosen, the upload handlers return at once (views/MasterData.tsx:30, views/Settings.tsx:36). A missing file is not modelled.
- `Date.now()`, `new Date()`, `confirm` and `alert` are not modelled. Each value they would produce is a parameter, and the alerts are not modelled at all.
- Ids made from the clock are not proved fresh, because freshness depends on the clock. Lemmas that need a fresh id take it as a precondition.
- JavaScript strings are sequences of UTF-16 code units; here a string is a sequence of Unicode scalar values. For characters outside the Basic Multilingual Plane this changes two things: lengths, as used for the column widths, and the order of the default `sort` (views/Reports.tsx:20, views/Transaction.tsx:20), which compares code units. For example the source sorts "😀" (code units D83D DE00) before "Ａ" (FF21), while `ReportView.ClassList` puts it after.
- `Ordering.SortBySorted`: the default `sort` (views/Reports.tsx:20) is modelled by the code-point order `Below`. The source compares UTF-16 code units, which agrees with code-point order inside the Basic Multilingual Plane (see the UTF-16 line above).
- `TransactionView.ClassStudents`: `localeCompare` (views/Transaction.tsx:21) is the host's collation. The model takes it as the parameter `collate` and assumes only that it is total and transitive; which locale and which order it gives (for example "ani" before "Budi") is not modelled.
- `Ordering.SortBySorted`: the model's insertion sort is stable, as `Array.prototype.sort` is, but stability is not proved.
- `DashboardView.ViolationCounts`: `Object.keys` lists keys in insertion order here. JavaScript lists array-index-like keys (canonical integers below 2^32 - 1) first, in ascending order. The ids the application generates are millisecond timestamps, far above that bound, so for them the two orders agree.
- `DashboardView.ViolationCounts`: a student id equal to a name inherited from `Object.prototype` (such as "constructor") would count wrongly in the source's plain object. This is not modelled.
- `TransactionView.Form`: the reason selectors (views/Transaction.tsx:145, views/Reports.tsx:201) offer only the five reasons of `REASONS` (types.ts:43). The model accepts any reason string, so the five are not singled out.
- `TransactionView.Form`: the field-update handlers (`setDate`, `setSelectedStudent` and the others) are plain field assignments. They are not separate methods.
- `ReportView.EditedRecord`: the report's own dialog state (`editingId`, `editData`, `deleteConfirmId`) is not a class. The dialog only forwards a record or an id to the callbacks, which `EditedRecord`, `App.ReplaceTransaction` and `App.RemoveTransaction` model.
