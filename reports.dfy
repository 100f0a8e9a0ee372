/** The monthly report: class filter, month filter, export name, and the per-row edit form. */
module ReportView {
  import opened Types
  import opened Seqs
  import opened Ordering
  import App

  function Self(s: string): string { s }

  /** Every element comes strictly before the ones after it. */
  ghost predicate StrictlyAscending(xs: seq<string>) {
    forall i, j :: 0 <= i < j < |xs| ==> Below(xs[i], xs[j]) && xs[i] != xs[j]
  }

  /** The class selector's options: each class of some student, once, in ascending order. */
  function ClassList(students: seq<Student>): (r: seq<string>)
    ensures forall c :: c in r <==> c in Map(students, StudentClass)
    ensures StrictlyAscending(r)
  {
    var distinct := Dedup(Map(students, StudentClass));
    BelowTotalPreorder();
    SortBySorted(distinct, Self, Below);
    SortByDistinct(distinct, Self, Below);
    assert forall c :: c in SortBy(distinct, Self, Below) <==> c in multiset(distinct);
    SortBy(distinct, Self, Below)
  }

  /** The value of the class filter that shows every class. */
  const ALL_CLASSES: string := "all"

  /** A row is shown when its class is the chosen one (or all are) and its date starts with the chosen month (or none is). */
  predicate Shown(t: Transaction, filterClass: string, filterMonth: string) {
    (filterClass == ALL_CLASSES || t.className == filterClass) && (filterMonth == "" || filterMonth <= t.date)
  }

  /** The rows of the report, in the order of the transaction list. */
  function Filtered(ts: seq<Transaction>, filterClass: string, filterMonth: string): (r: seq<Transaction>)
    ensures forall t :: t in r <==> t in ts && Shown(t, filterClass, filterMonth)
    ensures Subsequence(r, ts)
    ensures forall t: Transaction :: Shown(t, filterClass, filterMonth) ==> multiset(r)[t] == multiset(ts)[t]
  {
    var shown := (t: Transaction) => Shown(t, filterClass, filterMonth);
    assert forall t: Transaction :: shown(t) ==> multiset(Filter(ts, shown))[t] == multiset(ts)[t] by {
      forall t: Transaction | shown(t) ensures multiset(Filter(ts, shown))[t] == multiset(ts)[t] {
        FilterMultiset(ts, shown, t);
      }
    }
    Filter(ts, shown)
  }

  /** With every class and no month chosen, the report is the whole list. */
  lemma UnfilteredIsEverything(ts: seq<Transaction>)
    ensures Filtered(ts, ALL_CLASSES, "") == ts
  {
    var shown := (t: Transaction) => Shown(t, ALL_CLASSES, "");
    FilterKeepsAll(ts, shown);
    var r := Filtered(ts, ALL_CLASSES, "");
    assert Subsequence(r, ts);
    SubsequenceWithAllCopies(r, ts);
  }

  const EXPORT_PREFIX: string := "Laporan_Absensi_"
  const EXPORT_SUFFIX: string := ".xlsx"

  /** The name the report is saved under: the chosen month, or "Total" when no month is chosen. */
  function ExportFilename(filterMonth: string): (name: string)
    ensures EXPORT_PREFIX <= name
    ensures name[|name| - |EXPORT_SUFFIX|..] == EXPORT_SUFFIX
  {
    EXPORT_PREFIX + (if filterMonth != "" then filterMonth else "Total") + EXPORT_SUFFIX
  }

  /** The part of an export name between the fixed prefix and suffix. */
  function FilenameLabel(name: string): string
    requires |name| >= |EXPORT_PREFIX| + |EXPORT_SUFFIX|
  {
    name[|EXPORT_PREFIX|..|name| - |EXPORT_SUFFIX|]
  }

  /** The month filter can be read back from the export name. */
  lemma ExportFilenameLabel(filterMonth: string)
    ensures |ExportFilename(filterMonth)| >= |EXPORT_PREFIX| + |EXPORT_SUFFIX|
    ensures FilenameLabel(ExportFilename(filterMonth)) == if filterMonth != "" then filterMonth else "Total"
  {
    var tag := if filterMonth != "" then filterMonth else "Total";
    var name := ExportFilename(filterMonth);
    assert name == EXPORT_PREFIX + tag + EXPORT_SUFFIX;
    assert name[|EXPORT_PREFIX|..|name| - |EXPORT_SUFFIX|] == tag;
  }

  /** One change made in the edit dialog; only date, time and reason have inputs. */
  datatype EditStep = SetDate(date: string) | SetTime(time: string) | SetReason(reason: string)

  /** The record field an edit step writes. */
  datatype Field = Date | Time | Reason

  function StepField(step: EditStep): Field {
    match step
    case SetDate(_) => Date
    case SetTime(_) => Time
    case SetReason(_) => Reason
  }

  function StepValue(step: EditStep): string {
    match step
    case SetDate(d) => d
    case SetTime(h) => h
    case SetReason(r) => r
  }

  /** Step `k` writes field `f` and no later step does. */
  predicate LastWriter(steps: seq<EditStep>, f: Field, k: int) {
    0 <= k < |steps| && StepField(steps[k]) == f && forall j :: k < j < |steps| ==> StepField(steps[j]) != f
  }

  /**
   * The value field `f` holds after the steps, starting from `d`: that of the
   * last step writing `f`, or `d` when no step writes it.
   */
  function LastValue(steps: seq<EditStep>, f: Field, d: string): (v: string)
    ensures (forall k :: 0 <= k < |steps| ==> StepField(steps[k]) != f) ==> v == d
    ensures forall k :: LastWriter(steps, f, k) ==> v == StepValue(steps[k])
    decreases |steps|
  {
    if steps == [] then d
    else
      var n := |steps| - 1;
      var init := steps[..n];
      if StepField(steps[n]) == f then
        assert forall k :: LastWriter(steps, f, k) ==> k == n;
        StepValue(steps[n])
      else
        assert forall k :: LastWriter(steps, f, k) ==> LastWriter(init, f, k) by {
          forall k | LastWriter(steps, f, k) ensures LastWriter(init, f, k) {
            assert forall j :: k < j < n ==> init[j] == steps[j];
          }
        }
        assert forall k :: 0 <= k < n ==> init[k] == steps[k];
        LastValue(init, f, d)
  }

  function ApplyStep(t: Transaction, step: EditStep): Transaction {
    match step
    case SetDate(d) => t.(date := d)
    case SetTime(h) => t.(time := h)
    case SetReason(r) => t.(reason := r)
  }

  /**
   * The record handed to the update callback after the dialog was opened on `t`
   * and the given changes were made: student, class, program and id stay those of `t`.
   */
  function EditedRecord(t: Transaction, steps: seq<EditStep>): (r: Transaction)
    ensures r == t.(date := r.date, time := r.time, reason := r.reason)
    ensures (forall k :: 0 <= k < |steps| ==> !steps[k].SetDate?) ==> r.date == t.date
    ensures (forall k :: 0 <= k < |steps| ==> !steps[k].SetReason?) ==> r.reason == t.reason
    ensures steps != [] && steps[|steps| - 1].SetReason? ==> r.reason == steps[|steps| - 1].reason
    ensures r.date == LastValue(steps, Date, t.date)
    ensures r.time == LastValue(steps, Time, t.time)
    ensures r.reason == LastValue(steps, Reason, t.reason)
    decreases |steps|
  {
    if steps == [] then t
    else ApplyStep(EditedRecord(t, steps[..|steps| - 1]), steps[|steps| - 1])
  }

  /**
   * Saving the dialog opened on row `k` changes only that row's date, time and
   * reason in the stored list; every other row, and every other column, stays.
   */
  lemma EditTouchesOnlyItsRow(ts: seq<Transaction>, k: int, steps: seq<EditStep>)
    requires 0 <= k < |ts| && UniqueKeys(ts, TransactionId)
    ensures var r := App.ReplaceTransaction(ts, EditedRecord(ts[k], steps));
      && |r| == |ts|
      && r[k] == ts[k].(date := r[k].date, time := r[k].time, reason := r[k].reason)
      && forall i :: 0 <= i < |ts| && i != k ==> r[i] == ts[i]
  {
    forall i | 0 <= i < |ts| && i != k ensures ts[i].id != ts[k].id {
      if i < k { assert TransactionId(ts[i]) != TransactionId(ts[k]); }
      else { assert TransactionId(ts[k]) != TransactionId(ts[i]); }
    }
  }

  /** Saving the dialog without changing anything gives back the same list. */
  lemma UnchangedEditIsNoOp(ts: seq<Transaction>, k: int)
    requires 0 <= k < |ts| && UniqueKeys(ts, TransactionId)
    ensures App.ReplaceTransaction(ts, EditedRecord(ts[k], [])) == ts
  {
    EditTouchesOnlyItsRow(ts, k, []);
  }
}
