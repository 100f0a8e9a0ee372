/** The weekly schedule of religious activities: add and edit dialog, delete, and spreadsheet export. */
module ScheduleView {
  import opened Types
  import opened Seqs
  import App

  /** The activities the dialog offers by name; anything else is entered under "Lainnya". */
  const ACTIVITIES: seq<string> := [
    "Pembiasaan Sholat Dhuhur berjamaah",
    "Pembiasaan Baca Al-Quran (35 Menit)",
    "Pembiasaan Baca Tulis Al-Quran",
    "Peringatan Hari Besar Islam"
  ]

  /** The dialog's inputs: every schedule field except the id. */
  datatype Form = Form(activity: string, day: string, week: string, month: string,
                       year: string, className: string, notes: string)

  /** The inputs of the add dialog; the year is the one current when the view was loaded. */
  function EmptyForm(year: string): Form {
    Form("", "", "", "", year, "", "")
  }

  /** The activity that is stored: the typed one when "Lainnya" is chosen, otherwise the chosen one. */
  function FinalActivity(form: Form, otherActivity: string): (r: string)
    ensures form.activity == OTHER ==> r == otherActivity
    ensures form.activity != OTHER ==> r == form.activity
  {
    if form.activity == OTHER then otherActivity else form.activity
  }

  /** Every field but the notes must be filled in. */
  predicate SaveAllowed(form: Form, otherActivity: string) {
    && FinalActivity(form, otherActivity) != ""
    && form.day != "" && form.week != "" && form.month != "" && form.year != "" && form.className != ""
  }

  /** The edit dialog's inputs for `s`: an activity not offered by name shows as "Lainnya". */
  function EditForm(s: Schedule): Form {
    Form(if s.activity in ACTIVITIES then s.activity else OTHER, s.day, s.week, s.month, s.year, s.className, s.notes)
  }

  /** The edit dialog's typed activity for `s`: the activity itself when it is not offered by name. */
  function EditOther(s: Schedule): string {
    if s.activity in ACTIVITIES then "" else s.activity
  }

  /** Opening the edit dialog gives back the stored activity, whether or not it is offered by name. */
  lemma EditActivityRoundTrip(s: Schedule)
    ensures FinalActivity(EditForm(s), EditOther(s)) == s.activity
  {
    assert OTHER !in ACTIVITIES;
  }

  /** The record `s` with the dialog's inputs written over it and the given activity. */
  function Overwrite(s: Schedule, form: Form, activity: string): (r: Schedule)
    ensures r.id == s.id && r.activity == activity
  {
    Schedule(s.id, activity, form.day, form.week, form.month, form.year, form.className, form.notes)
  }

  /** Editing: the records with the edited id are overwritten, all others kept, positions unchanged. */
  function UpdateSchedules(ss: seq<Schedule>, editingId: string, form: Form, activity: string): (r: seq<Schedule>)
    ensures |r| == |ss|
    ensures forall i :: 0 <= i < |ss| && ss[i].id == editingId ==> r[i] == Overwrite(ss[i], form, activity)
    ensures forall i :: 0 <= i < |ss| && ss[i].id != editingId ==> r[i] == ss[i]
  {
    if ss == [] then []
    else [if ss[0].id == editingId then Overwrite(ss[0], form, activity) else ss[0]]
         + UpdateSchedules(ss[1..], editingId, form, activity)
  }

  /** Removal of the records carrying the target's id (`schedules.filter`). */
  function RemoveSchedule(ss: seq<Schedule>, id: string): (r: seq<Schedule>)
    ensures forall s :: s in r <==> s in ss && s.id != id
    ensures Subsequence(r, ss)
    ensures forall s: Schedule :: s.id != id ==> multiset(r)[s] == multiset(ss)[s]
  {
    var keep := (s: Schedule) => s.id != id;
    assert forall s: Schedule :: s.id != id ==> multiset(Filter(ss, keep))[s] == multiset(ss)[s] by {
      forall s: Schedule | s.id != id ensures multiset(Filter(ss, keep))[s] == multiset(ss)[s] {
        FilterMultiset(ss, keep, s);
      }
    }
    Filter(ss, keep)
  }

  /** Deleting a schedule keeps every remaining one with a month and a year. */
  lemma RemoveKeepsMigrated(ss: seq<Schedule>, id: string)
    requires App.Migrated(ss)
    ensures App.Migrated(RemoveSchedule(ss, id))
  {
    var r := RemoveSchedule(ss, id);
    forall i | 0 <= i < |r| ensures r[i].month != "" && r[i].year != "" {
      assert r[i] in ss;
    }
  }

  /**
   * The schedules after the save button: none when a required field is empty;
   * otherwise the edited record overwritten in place, or a new record appended.
   */
  function Saved(ss: seq<Schedule>, editing: Option<Schedule>, form: Form, otherActivity: string, newId: string)
    : (r: Option<seq<Schedule>>)
    ensures r.None? <==> !SaveAllowed(form, otherActivity)
    ensures r.Some? && editing.Some? ==>
      r.value == UpdateSchedules(ss, editing.value.id, form, FinalActivity(form, otherActivity))
    ensures r.Some? && editing.None? ==>
      r.value == ss + [Schedule(newId, FinalActivity(form, otherActivity), form.day, form.week,
                                form.month, form.year, form.className, form.notes)]
  {
    var activity := FinalActivity(form, otherActivity);
    if !SaveAllowed(form, otherActivity) then None
    else if editing.Some? then Some(UpdateSchedules(ss, editing.value.id, form, activity))
    else Some(ss + [Schedule(newId, activity, form.day, form.week, form.month, form.year, form.className, form.notes)])
  }

  /** Opening a stored record for editing and saving it unchanged gives back the same list. */
  lemma UnchangedEditIsNoOp(ss: seq<Schedule>, k: int, newId: string)
    requires 0 <= k < |ss| && UniqueKeys(ss, ScheduleId)
    requires var s := ss[k]; s.activity != "" && s.day != "" && s.week != "" && s.month != "" && s.year != "" && s.className != ""
    ensures Saved(ss, Some(ss[k]), EditForm(ss[k]), EditOther(ss[k]), newId) == Some(ss)
  {
    var s := ss[k];
    EditActivityRoundTrip(s);
    assert SaveAllowed(EditForm(s), EditOther(s));
    assert Overwrite(s, EditForm(s), s.activity) == s;
    var r := UpdateSchedules(ss, s.id, EditForm(s), s.activity);
    forall i | 0 <= i < |ss| ensures r[i] == ss[i] {
      if i != k {
        if i < k { assert ScheduleId(ss[i]) != ScheduleId(ss[k]); }
        else { assert ScheduleId(ss[k]) != ScheduleId(ss[i]); }
      }
    }
    assert r == ss;
  }

  /** Saved records always carry a month and a year, so the list needs no migration when loaded again. */
  lemma SaveKeepsMigrated(ss: seq<Schedule>, editing: Option<Schedule>, form: Form, otherActivity: string, newId: string)
    requires App.Migrated(ss)
    requires Saved(ss, editing, form, otherActivity, newId).Some?
    ensures App.Migrated(Saved(ss, editing, form, otherActivity, newId).value)
  {
  }

  /** A saved add keeps ids unique when the new id is not in use. */
  lemma SavedAddKeepsUniqueIds(ss: seq<Schedule>, form: Form, otherActivity: string, newId: string)
    requires UniqueKeys(ss, ScheduleId)
    requires forall i :: 0 <= i < |ss| ==> ss[i].id != newId
    requires Saved(ss, None, form, otherActivity, newId).Some?
    ensures UniqueKeys(Saved(ss, None, form, otherActivity, newId).value, ScheduleId)
  {
    var activity := FinalActivity(form, otherActivity);
    AppendKeepsUniqueKeys(ss, ScheduleId,
      Schedule(newId, activity, form.day, form.week, form.month, form.year, form.className, form.notes));
  }

  /** A delete only drops records, so unique ids stay unique. */
  lemma RemoveKeepsUniqueIds(ss: seq<Schedule>, id: string)
    requires UniqueKeys(ss, ScheduleId)
    ensures UniqueKeys(RemoveSchedule(ss, id), ScheduleId)
  {
    FilterKeepsUniqueKeys(ss, ScheduleId, (s: Schedule) => s.id != id);
  }

  /** The exported column headers, in the order of the sheet's columns. */
  const HEADERS: seq<string> := ["Kegiatan", "Hari", "Minggu Ke", "Bulan", "Tahun", "Kelas", "Keterangan"]

  /** One exported row, column by column. */
  function Cells(s: Schedule): (r: seq<string>)
    ensures |r| == |HEADERS|
  {
    [s.activity, s.day, s.week, s.month, s.year, s.className, s.notes]
  }

  /** The longest text in column `k` over `ss`, and the header, whichever is longer. */
  function LongestIn(ss: seq<Schedule>, k: nat): (m: nat)
    requires k < |HEADERS|
    ensures m >= |HEADERS[k]|
    ensures forall i :: 0 <= i < |ss| ==> m >= |Cells(ss[i])[k]|
    ensures m == |HEADERS[k]| || exists i :: 0 <= i < |ss| && m == |Cells(ss[i])[k]|
  {
    if ss == [] then |HEADERS[k]|
    else
      var rest := LongestIn(ss[1..], k);
      assert forall i :: 1 <= i < |ss| ==> ss[i] == ss[1..][i - 1];
      var here := |Cells(ss[0])[k]|;
      if here > rest then here else rest
  }

  /**
   * The column widths of the export, each two more than the longest of its cells
   * and its header; there is no export of an empty list.
   */
  function ColumnWidths(ss: seq<Schedule>): (r: Option<seq<nat>>)
    ensures r.None? <==> ss == []
    ensures r.Some? ==> |r.value| == |HEADERS|
    ensures r.Some? ==> forall k :: 0 <= k < |HEADERS| ==> r.value[k] == LongestIn(ss, k) + 2
  {
    if ss == [] then None
    else Some(seq(|HEADERS|, k requires 0 <= k < |HEADERS| => LongestIn(ss, k) + 2))
  }

  /** The view's own state: the dialog, the record being edited, its inputs, and the pending delete. */
  class Editor {
    var isModalOpen: bool
    var editing: Option<Schedule>
    var form: Form
    var otherActivity: string
    var deleteTarget: Option<Schedule>
    /** The year read when the view's module was loaded, kept in the empty inputs. */
    const loadYear: string

    constructor (year: string)
      ensures loadYear == year
      ensures !isModalOpen && editing == None && form == EmptyForm(year)
      ensures otherActivity == "" && deleteTarget == None
    {
      loadYear := year;
      isModalOpen, editing, form := false, None, EmptyForm(year);
      otherActivity, deleteTarget := "", None;
    }

    /** The add button: the empty inputs with the load-time year, nothing being edited. */
    method OpenForAdd()
      modifies this
      ensures isModalOpen && editing == None && form == EmptyForm(loadYear) && otherActivity == ""
      ensures deleteTarget == old(deleteTarget)
    {
      editing, form, otherActivity, isModalOpen := None, EmptyForm(loadYear), "", true;
    }

    /** The edit button: the record's fields in the inputs, an unlisted activity under "Lainnya". */
    method OpenForEdit(s: Schedule)
      modifies this
      ensures isModalOpen && editing == Some(s)
      ensures form == EditForm(s) && otherActivity == EditOther(s)
      ensures s.activity in ACTIVITIES ==> form.activity == s.activity && otherActivity == ""
      ensures s.activity !in ACTIVITIES ==> form.activity == OTHER && otherActivity == s.activity
      ensures FinalActivity(form, otherActivity) == s.activity
      ensures form.day == s.day && form.week == s.week && form.month == s.month
      ensures form.year == s.year && form.className == s.className && form.notes == s.notes
      ensures deleteTarget == old(deleteTarget)
    {
      editing := Some(s);
      form := EditForm(s);
      otherActivity := EditOther(s);
      isModalOpen := true;
      EditActivityRoundTrip(s);
    }

    /** The cancel button closes the dialog and keeps its inputs. */
    method CloseModal()
      modifies this
      ensures !isModalOpen && editing == old(editing) && form == old(form)
      ensures otherActivity == old(otherActivity) && deleteTarget == old(deleteTarget)
    {
      isModalOpen := false;
    }

    /** The bin button remembers which record to delete. */
    method RequestDelete(s: Schedule)
      modifies this
      ensures deleteTarget == Some(s)
      ensures isModalOpen == old(isModalOpen) && editing == old(editing)
      ensures form == old(form) && otherActivity == old(otherActivity)
    {
      deleteTarget := Some(s);
    }

    /** The save button: a refused entry changes nothing; an accepted one is stored and the dialog closes. */
    method Save(app: App.AppState, newId: string)
      modifies this, app
      ensures var r := Saved(old(app.schedules), old(editing), old(form), old(otherActivity), newId);
        && (r.None? ==> app.Data() == old(app.Data()) && isModalOpen == old(isModalOpen))
        && (r.Some? ==> app.Data() == old(app.Data()).(schedules := r.value) && !isModalOpen)
      ensures editing == old(editing) && form == old(form) && otherActivity == old(otherActivity)
      ensures deleteTarget == old(deleteTarget) && app.isLoggedIn == old(app.isLoggedIn)
    {
      var r := Saved(app.schedules, editing, form, otherActivity, newId);
      if r.Some? {
        app.SetSchedules(r.value);
        isModalOpen := false;
      }
    }

    /** The confirm button: the pending delete is carried out and cleared; without one nothing happens. */
    method Delete(app: App.AppState)
      modifies this, app
      ensures old(deleteTarget).None? ==> app.Data() == old(app.Data()) && deleteTarget == None
      ensures old(deleteTarget).Some? ==>
        app.Data() == old(app.Data()).(schedules := RemoveSchedule(old(app.schedules), old(deleteTarget).value.id))
      ensures deleteTarget == None && app.isLoggedIn == old(app.isLoggedIn)
      ensures isModalOpen == old(isModalOpen) && editing == old(editing)
      ensures form == old(form) && otherActivity == old(otherActivity)
    {
      if deleteTarget.Some? {
        app.SetSchedules(RemoveSchedule(app.schedules, deleteTarget.value.id));
        deleteTarget := None;
      }
    }
  }
}
