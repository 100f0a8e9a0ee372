/** The absence entry form: class and student pickers, program choice, reason, and submit. */
module TransactionView {
  import opened Types
  import opened Seqs
  import opened Ordering
  import App

  function InClass(selectedClass: string): Student -> bool {
    (s: Student) => s.className == selectedClass
  }

  /** Sorting the students of a class, under any comparison, keeps exactly them with their multiplicity. */
  lemma ClassMembers(students: seq<Student>, selectedClass: string, le: (string, string) -> bool)
    ensures var r := SortBy(Filter(students, InClass(selectedClass)), StudentName, le);
      && (forall s :: s in r <==> s in students && s.className == selectedClass)
      && (forall s: Student :: s.className == selectedClass ==> multiset(r)[s] == multiset(students)[s])
  {
    var members := Filter(students, InClass(selectedClass));
    forall s: Student | InClass(selectedClass)(s) ensures multiset(members)[s] == multiset(students)[s] {
      FilterMultiset(students, InClass(selectedClass), s);
    }
    assert forall s :: s in SortBy(members, StudentName, le) <==> s in multiset(members);
  }

  /**
   * The student picker's options: the students of the chosen class, by name under
   * the collation `collate` (`localeCompare(a, b) <= 0`), which is the host's and
   * is only known to be a total preorder.
   */
  function ClassStudents(students: seq<Student>, selectedClass: string, collate: (string, string) -> bool): (r: seq<Student>)
    requires TotalPreorder(collate)
    ensures forall s :: s in r <==> s in students && s.className == selectedClass
    ensures forall s: Student :: s.className == selectedClass ==> multiset(r)[s] == multiset(students)[s]
    ensures SortedBy(r, StudentName, collate)
  {
    var members := Filter(students, InClass(selectedClass));
    ClassMembers(students, selectedClass, collate);
    SortBySorted(members, StudentName, collate);
    SortBy(members, StudentName, collate)
  }

  /** The entry is complete: a student and a reason are chosen, and a program is chosen or typed. */
  predicate Complete(selectedStudent: string, selectedReason: string, selectedProgram: string, manualProgram: string) {
    selectedStudent != "" && selectedReason != "" && (selectedProgram != "" || manualProgram != "")
  }

  /** The program written into the record: the typed name when "Lainnya" is chosen, otherwise the chosen one. */
  function ProgramName(selectedProgram: string, manualProgram: string): (r: string)
    ensures selectedProgram == OTHER ==> r == manualProgram
    ensures selectedProgram != OTHER ==> r == selectedProgram
  {
    if selectedProgram == OTHER then manualProgram else selectedProgram
  }

  /**
   * The transaction a submit records, if any: none unless the entry is complete
   * and the chosen id belongs to a student, whose id, name and class are copied in.
   */
  function NewRecord(students: seq<Student>, newId: string, date: string, time: string,
                     selectedStudent: string, selectedProgram: string, manualProgram: string,
                     selectedReason: string): (r: Option<Transaction>)
    ensures r.Some? <==> Complete(selectedStudent, selectedReason, selectedProgram, manualProgram)
                         && exists i :: 0 <= i < |students| && students[i].id == selectedStudent
    ensures r.Some? ==>
      && r.value.id == newId && r.value.date == date && r.value.time == time
      && FindStudent(students, selectedStudent) == Some(Student(r.value.studentId, r.value.studentName, r.value.className))
      && r.value.program == ProgramName(selectedProgram, manualProgram)
      && r.value.reason == selectedReason
  {
    if !Complete(selectedStudent, selectedReason, selectedProgram, manualProgram) then None
    else match FindStudent(students, selectedStudent)
      case None => None
      case Some(s) => Some(Transaction(newId, date, time, s.id, s.name, s.className,
                                       ProgramName(selectedProgram, manualProgram), selectedReason))
  }

  /**
   * An entry can be recorded with an empty program: "Lainnya" with nothing typed,
   * or a name typed under "Lainnya" and the choice then set back to none.
   */
  lemma EmptyProgramAccepted(students: seq<Student>, newId: string, date: string, time: string,
                             k: int, reason: string, typed: string)
    requires 0 <= k < |students| && students[k].id != "" && reason != "" && typed != ""
    ensures var r := NewRecord(students, newId, date, time, students[k].id, OTHER, "", reason);
      r.Some? && r.value.program == ""
    ensures var r := NewRecord(students, newId, date, time, students[k].id, "", typed, reason);
      r.Some? && r.value.program == ""
  {
  }

  /** The state of the entry form. */
  class Form {
    var selectedClass: string
    var selectedStudent: string
    var selectedProgram: string
    var manualProgram: string
    var selectedReason: string
    var date: string
    var time: string

    /** A fresh form: nothing chosen, dated `today` at `now`. */
    constructor (today: string, now: string)
      ensures selectedClass == "" && selectedStudent == "" && selectedProgram == ""
      ensures manualProgram == "" && selectedReason == ""
      ensures date == today && time == now
    {
      selectedClass, selectedStudent, selectedProgram := "", "", "";
      manualProgram, selectedReason := "", "";
      date, time := today, now;
    }

    /** Choosing a class clears the chosen student; nothing else changes. */
    method ChooseClass(c: string)
      modifies this
      ensures selectedClass == c && selectedStudent == ""
      ensures selectedProgram == old(selectedProgram) && manualProgram == old(manualProgram)
      ensures selectedReason == old(selectedReason) && date == old(date) && time == old(time)
    {
      selectedClass := c;
      selectedStudent := "";
    }

    /**
     * Submit, looking the student up in the app's own list: the record (if any) is
     * prepended to the app's transactions and the student and reason are cleared,
     * keeping date, time, class and program for the next entry. When nothing is
     * recorded, neither the form nor the app changes.
     */
    method Submit(newId: string, app: App.AppState) returns (recorded: Option<Transaction>)
      modifies this, app
      ensures recorded == NewRecord(old(app.students), newId, old(date), old(time), old(selectedStudent),
                                    old(selectedProgram), old(manualProgram), old(selectedReason))
      ensures recorded.Some? ==> selectedStudent == "" && selectedReason == ""
      ensures recorded.None? ==> selectedStudent == old(selectedStudent) && selectedReason == old(selectedReason)
      ensures selectedClass == old(selectedClass) && selectedProgram == old(selectedProgram)
      ensures manualProgram == old(manualProgram) && date == old(date) && time == old(time)
      ensures app.transactions == (if recorded.Some? then [recorded.value] + old(app.transactions) else old(app.transactions))
      ensures app.Data() == old(app.Data()).(transactions := app.transactions)
      ensures app.isLoggedIn == old(app.isLoggedIn)
    {
      recorded := NewRecord(app.students, newId, date, time, selectedStudent, selectedProgram, manualProgram, selectedReason);
      if recorded.Some? {
        app.AddTransaction(recorded.value);
        selectedStudent := "";
        selectedReason := "";
      }
    }
  }
}
