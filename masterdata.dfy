/** Master data: the program and student lists, their add and delete dialogs, and spreadsheet import. */
module MasterView {
  import opened Types
  import opened Seqs
  import opened Text
  import App

  /** Which add dialog is open, if any. */
  datatype Modal = ProgramModal | StudentModal | Closed

  /** What a delete dialog is about: a program or a student, by id. */
  datatype DeleteTarget = DeleteProgram(id: string, name: string) | DeleteStudent(id: string, name: string)

  /** Both collections the view edits. */
  datatype Lists = Lists(students: seq<Student>, programs: seq<Program>)

  /**
   * The lists after the add dialog's save button: nothing when either trimmed field is
   * empty; otherwise one record with the trimmed fields appended to the dialog's
   * collection, and no change at all while no dialog is open.
   */
  function Saved(modal: Modal, lists: Lists, newId: string, name: string, val: string): (r: Option<Lists>)
    ensures r.None? <==> Trim(name) == "" || Trim(val) == ""
    ensures r.Some? && modal.ProgramModal? ==>
      r.value == lists.(programs := lists.programs + [Program(newId, Trim(name), Trim(val))])
    ensures r.Some? && modal.StudentModal? ==>
      r.value == lists.(students := lists.students + [Student(newId, Trim(name), Trim(val))])
    ensures r.Some? && modal.Closed? ==> r.value == lists
  {
    if Trim(name) == "" || Trim(val) == "" then None
    else match modal
      case ProgramModal => Some(lists.(programs := lists.programs + [Program(newId, Trim(name), Trim(val))]))
      case StudentModal => Some(lists.(students := lists.students + [Student(newId, Trim(name), Trim(val))]))
      case Closed => Some(lists)
  }

  /**
   * A saved record's fields are non-empty and already trimmed, and with an id not
   * in use the collection keeps its ids unique.
   */
  lemma SavedRecordIsClean(modal: Modal, lists: Lists, newId: string, name: string, val: string)
    requires UniqueKeys(lists.students, StudentId) && UniqueKeys(lists.programs, ProgramId)
    requires forall i :: 0 <= i < |lists.students| ==> lists.students[i].id != newId
    requires forall i :: 0 <= i < |lists.programs| ==> lists.programs[i].id != newId
    requires Saved(modal, lists, newId, name, val).Some?
    ensures var r := Saved(modal, lists, newId, name, val).value;
      && UniqueKeys(r.students, StudentId) && UniqueKeys(r.programs, ProgramId)
      && Trim(Trim(name)) == Trim(name) != "" && Trim(Trim(val)) == Trim(val) != ""
  {
    TrimIdempotent(name);
    TrimIdempotent(val);
    AppendKeepsUniqueKeys(lists.students, StudentId, Student(newId, Trim(name), Trim(val)));
    AppendKeepsUniqueKeys(lists.programs, ProgramId, Program(newId, Trim(name), Trim(val)));
  }

  /**
   * The lists after the delete dialog's confirm button: the target's collection
   * without the records carrying its id, the other collection untouched.
   */
  function AfterDelete(target: Option<DeleteTarget>, lists: Lists): (r: Lists)
    ensures target.None? ==> r == lists
    ensures target.Some? && target.value.DeleteProgram? ==> r.students == lists.students
    ensures target.Some? && target.value.DeleteStudent? ==> r.programs == lists.programs
    ensures target.Some? && target.value.DeleteProgram? ==>
      (forall p :: p in r.programs <==> p in lists.programs && p.id != target.value.id)
      && Subsequence(r.programs, lists.programs)
      && (forall p: Program :: p.id != target.value.id ==> multiset(r.programs)[p] == multiset(lists.programs)[p])
    ensures target.Some? && target.value.DeleteStudent? ==>
      (forall s :: s in r.students <==> s in lists.students && s.id != target.value.id)
      && Subsequence(r.students, lists.students)
      && (forall s: Student :: s.id != target.value.id ==> multiset(r.students)[s] == multiset(lists.students)[s])
  {
    match target
    case None => lists
    case Some(DeleteProgram(id, _)) =>
      var keep := (p: Program) => p.id != id;
      assert forall p: Program :: p.id != id ==> multiset(Filter(lists.programs, keep))[p] == multiset(lists.programs)[p] by {
        forall p: Program | p.id != id ensures multiset(Filter(lists.programs, keep))[p] == multiset(lists.programs)[p] {
          FilterMultiset(lists.programs, keep, p);
        }
      }
      lists.(programs := Filter(lists.programs, keep))
    case Some(DeleteStudent(id, _)) =>
      var keep := (s: Student) => s.id != id;
      assert forall s: Student :: s.id != id ==> multiset(Filter(lists.students, keep))[s] == multiset(lists.students)[s] by {
        forall s: Student | s.id != id ensures multiset(Filter(lists.students, keep))[s] == multiset(lists.students)[s] {
          FilterMultiset(lists.students, keep, s);
        }
      }
      lists.(students := Filter(lists.students, keep))
  }

  /** A delete only drops records, so both collections keep unique ids. */
  lemma DeleteKeepsUniqueIds(target: Option<DeleteTarget>, lists: Lists)
    requires UniqueKeys(lists.students, StudentId) && UniqueKeys(lists.programs, ProgramId)
    ensures var r := AfterDelete(target, lists);
      UniqueKeys(r.students, StudentId) && UniqueKeys(r.programs, ProgramId)
  {
    match target
    case None =>
    case Some(DeleteProgram(id, _)) =>
      FilterKeepsUniqueKeys(lists.programs, ProgramId, (p: Program) => p.id != id);
    case Some(DeleteStudent(id, _)) =>
      FilterKeepsUniqueKeys(lists.students, StudentId, (s: Student) => s.id != id);
  }

  /** One spreadsheet cell as the reader hands it over. */
  datatype Cell = Blank | Text(text: string) | Number(number: int) | Boolean(flag: bool)

  /** JavaScript truthiness of a cell: the empty string, 0 and false are falsy. */
  predicate Truthy(c: Cell) {
    match c
    case Blank => false
    case Text(s) => s != ""
    case Number(n) => n != 0
    case Boolean(b) => b
  }

  /** `String(cell)`. */
  function CellString(c: Cell): string {
    match c
    case Blank => "undefined"
    case Text(s) => s
    case Number(n) => IntToString(n)
    case Boolean(b) => if b then "true" else "false"
  }

  /** A truthy cell never reads as the empty string. */
  lemma TruthyCellNonEmpty(c: Cell)
    requires Truthy(c)
    ensures CellString(c) != ""
  {
  }

  /** A sheet row: missing rows are `None`, and reading past the end of a row gives a blank. */
  type Row = Option<seq<Cell>>

  function CellAt(row: Row, k: nat): Cell {
    if row.Some? && k < |row.value| then row.value[k] else Blank
  }

  /** A row is imported when its first two cells are truthy. */
  predicate Keeps(row: Row) {
    Truthy(CellAt(row, 0)) && Truthy(CellAt(row, 1))
  }

  /** The id of the student read from row `i` after the header: the clock reading then, followed by `i`. */
  function ImportId(stamp: nat -> string, i: nat): string {
    stamp(i) + NatToString(i)
  }

  function RowStudent(row: Row, stamp: nat -> string, i: nat): Student {
    Student(ImportId(stamp, i), Trim(CellString(CellAt(row, 0))), Trim(CellString(CellAt(row, 1))))
  }

  function Reader(stamp: nat -> string): (Row, nat) -> Student {
    (row: Row, i: nat) => RowStudent(row, stamp, i)
  }

  /** The students read from the rows after the header, in row order. */
  function ImportedFrom(rows: seq<Row>, stamp: nat -> string): (r: seq<Student>)
    ensures |r| <= |rows|
  {
    KeepMapIndexed(rows, Keeps, Reader(stamp))
  }

  /** A student is read from exactly each row whose first two cells are truthy, with that row's index. */
  lemma ImportedMembers(rows: seq<Row>, stamp: nat -> string)
    ensures forall s :: s in ImportedFrom(rows, stamp) ==>
      exists i :: 0 <= i < |rows| && Keeps(rows[i]) && s == RowStudent(rows[i], stamp, i)
    ensures forall i :: 0 <= i < |rows| && Keeps(rows[i]) ==> RowStudent(rows[i], stamp, i) in ImportedFrom(rows, stamp)
  {
    KeepMapIndexedSources(rows, Keeps, Reader(stamp));
    KeepMapIndexedKept(rows, Keeps, Reader(stamp));
  }

  /** The number of students read is the number of rows that pass the check. */
  lemma ImportedCount(rows: seq<Row>, stamp: nat -> string)
    ensures |ImportedFrom(rows, stamp)| == |Filter(rows, Keeps)|
  {
    KeepMapIndexedCount(rows, Keeps, Reader(stamp));
  }

  /** Names and classes are stored trimmed. */
  lemma {:induction false} ImportedTrimmed(rows: seq<Row>, stamp: nat -> string)
    ensures forall s :: s in ImportedFrom(rows, stamp) ==> Trim(s.name) == s.name && Trim(s.className) == s.className
  {
    ImportedMembers(rows, stamp);
    forall s | s in ImportedFrom(rows, stamp) ensures Trim(s.name) == s.name && Trim(s.className) == s.className {
      var i :| 0 <= i < |rows| && Keeps(rows[i]) && s == RowStudent(rows[i], stamp, i);
      TrimIdempotent(CellString(CellAt(rows[i], 0)));
      TrimIdempotent(CellString(CellAt(rows[i], 1)));
    }
  }

  /** A text cell holding one or more whitespace characters and nothing else: truthy, yet blank once trimmed. */
  predicate BlankText(c: Cell) {
    c.Text? && c.text != [] && forall k :: 0 <= k < |c.text| ==> IsWhitespace(c.text[k])
  }

  /**
   * The truthiness check runs before the trim: a row whose name cell is blank text
   * and whose class cell is truthy passes it and is read with an empty name.
   */
  lemma BlankNameRow(row: Row, stamp: nat -> string, i: nat)
    requires BlankText(CellAt(row, 0)) && Truthy(CellAt(row, 1))
    ensures Keeps(row)
    ensures RowStudent(row, stamp, i) == Student(ImportId(stamp, i), "", Trim(CellString(CellAt(row, 1))))
  {
    assert Trim(CellString(CellAt(row, 0))) == "";
  }

  /** Such a row among the rows read adds a student with an empty name. */
  lemma BlankNameImported(rows: seq<Row>, stamp: nat -> string, i: int)
    requires 0 <= i < |rows| && BlankText(CellAt(rows[i], 0)) && Truthy(CellAt(rows[i], 1))
    ensures Student(ImportId(stamp, i), "", Trim(CellString(CellAt(rows[i], 1)))) in ImportedFrom(rows, stamp)
  {
    BlankNameRow(rows[i], stamp, i);
    KeepMapIndexedKept(rows, Keeps, Reader(stamp));
  }

  /** Two rows of one import get different ids when the clock readings have one length. */
  lemma ImportIdsDiffer(stamp: nat -> string, i: nat, j: nat)
    requires i != j && |stamp(i)| == |stamp(j)|
    ensures ImportId(stamp, i) != ImportId(stamp, j)
  {
    var w := |stamp(i)|;
    if ImportId(stamp, i) == ImportId(stamp, j) {
      assert ImportId(stamp, i)[w..] == NatToString(i);
      assert ImportId(stamp, j)[w..] == NatToString(j);
      NatToStringInjective(i, j);
    }
  }

  /** The ids of one import are pairwise distinct when every clock reading has the same length. */
  lemma ImportedIdsUnique(rows: seq<Row>, stamp: nat -> string, width: nat)
    requires forall i: nat :: |stamp(i)| == width
    ensures UniqueKeys(ImportedFrom(rows, stamp), StudentId)
  {
    var f := Reader(stamp);
    forall r1, r2, i: nat, j: nat | i != j ensures StudentId(f(r1, i)) != StudentId(f(r2, j)) {
      ImportIdsDiffer(stamp, i, j);
    }
    KeepMapIndexedUniqueKeys(rows, Keeps, f, StudentId);
  }

  /** The loop over the rows after the header, pushing each row that passes the check. */
  method ImportRows(rows: seq<Row>, stamp: nat -> string) returns (imported: seq<Student>)
    ensures imported == ImportedFrom(rows, stamp)
  {
    imported := [];
    var i := 0;
    while i < |rows|
      invariant 0 <= i <= |rows|
      invariant imported == ImportedFrom(rows[..i], stamp)
    {
      var row := rows[i];
      KeepMapIndexedSnoc(rows, Keeps, Reader(stamp), i);
      if Truthy(CellAt(row, 0)) && Truthy(CellAt(row, 1)) {
        imported := imported + [RowStudent(row, stamp, i)];
      }
      i := i + 1;
    }
    assert rows[..i] == rows;
  }

  /** What an upload reports. */
  datatype UploadResult = ReadError | EmptyFile | NoValidRows | Added(count: nat)

  /**
   * The report of an upload of sheet `data` (`None` when the file could not be
   * read): a sheet without a row after the header is empty, and otherwise the
   * number of rows that pass the check, when there is one.
   */
  function UploadOutcome(data: Option<seq<Row>>, stamp: nat -> string): (r: UploadResult)
    ensures r == ReadError <==> data.None?
    ensures r == EmptyFile <==> data.Some? && |data.value| < 2
    ensures r.Added? ==> data.Some? && |data.value| >= 2 && r.count == |Filter(data.value[1..], Keeps)| > 0
    ensures r == NoValidRows <==> data.Some? && |data.value| >= 2 && Filter(data.value[1..], Keeps) == []
  {
    if data.None? then ReadError
    else if |data.value| < 2 then EmptyFile
    else
      ImportedCount(data.value[1..], stamp);
      var n := |ImportedFrom(data.value[1..], stamp)|;
      if n > 0 then Added(n) else NoValidRows
  }

  /** The view's own state: the open add dialog, its two inputs, and the pending delete. */
  class Editor {
    var modal: Modal
    var formName: string
    var formVal: string
    var deleteTarget: Option<DeleteTarget>

    constructor ()
      ensures modal == Closed && formName == "" && formVal == "" && deleteTarget == None
    {
      modal, formName, formVal, deleteTarget := Closed, "", "", None;
    }

    /** The add buttons open their dialog with empty inputs. */
    method OpenModal(kind: Modal)
      modifies this
      ensures modal == kind && formName == "" && formVal == "" && deleteTarget == old(deleteTarget)
    {
      modal, formName, formVal := kind, "", "";
    }

    /** The cancel button closes the dialog and keeps what was typed. */
    method CloseModal()
      modifies this
      ensures modal == Closed && formName == old(formName) && formVal == old(formVal)
      ensures deleteTarget == old(deleteTarget)
    {
      modal := Closed;
    }

    /** The bin buttons remember which record to delete. */
    method RequestDelete(target: DeleteTarget)
      modifies this
      ensures deleteTarget == Some(target)
      ensures modal == old(modal) && formName == old(formName) && formVal == old(formVal)
    {
      deleteTarget := Some(target);
    }

    /** The save button: a rejected entry changes nothing; an accepted one is stored and the dialog closes. */
    method SaveForm(app: App.AppState, newId: string)
      modifies this, app
      ensures var r := Saved(old(modal), Lists(old(app.students), old(app.programs)), newId, old(formName), old(formVal));
        && (r.None? ==> modal == old(modal) && formName == old(formName) && formVal == old(formVal)
                        && app.Data() == old(app.Data()))
        && (r.Some? ==> modal == Closed && formName == "" && formVal == ""
                        && app.Data() == old(app.Data()).(students := r.value.students, programs := r.value.programs))
      ensures deleteTarget == old(deleteTarget) && app.isLoggedIn == old(app.isLoggedIn)
    {
      var r := Saved(modal, Lists(app.students, app.programs), newId, formName, formVal);
      if r.Some? {
        var lists := r.value;
        match modal {
          case ProgramModal => app.SetPrograms(lists.programs);
          case StudentModal => app.SetStudents(lists.students);
          case Closed =>
        }
        modal, formName, formVal := Closed, "", "";
      }
    }

    /** The confirm button: the pending delete is carried out on its collection and cleared. */
    method ConfirmDelete(app: App.AppState)
      modifies this, app
      ensures var r := AfterDelete(old(deleteTarget), Lists(old(app.students), old(app.programs)));
        app.Data() == old(app.Data()).(students := r.students, programs := r.programs)
      ensures deleteTarget == None
      ensures modal == old(modal) && formName == old(formName) && formVal == old(formVal)
      ensures app.isLoggedIn == old(app.isLoggedIn)
    {
      var r := AfterDelete(deleteTarget, Lists(app.students, app.programs));
      match deleteTarget {
        case None =>
        case Some(DeleteProgram(_, _)) => app.SetPrograms(r.programs);
        case Some(DeleteStudent(_, _)) => app.SetStudents(r.students);
      }
      deleteTarget := None;
    }

    /**
     * The spreadsheet upload: the students read from the rows after the header
     * are appended after the existing ones when there is at least one.
     */
    method Upload(app: App.AppState, data: Option<seq<Row>>, stamp: nat -> string) returns (outcome: UploadResult)
      modifies app
      ensures outcome == UploadOutcome(data, stamp)
      ensures outcome.Added? ==>
        app.Data() == old(app.Data()).(students := old(app.students) + ImportedFrom(data.value[1..], stamp))
      ensures !outcome.Added? ==> app.Data() == old(app.Data())
      ensures app.isLoggedIn == old(app.isLoggedIn)
    {
      if data.None? {
        return ReadError;
      }
      if |data.value| < 2 {
        return EmptyFile;
      }
      var imported := ImportRows(data.value[1..], stamp);
      ImportedCount(data.value[1..], stamp);
      if |imported| > 0 {
        app.SetStudents(app.students + imported);
        outcome := Added(|imported|);
      } else {
        outcome := NoValidRows;
      }
    }
  }
}
