/** The records of the attendance database and the fixed value lists they use. */
module Types {

  /** A value that may be absent: `None` stands for a JavaScript `undefined` or `null`. */
  datatype Option<+T> = None | Some(value: T) {
    function GetOr(default: T): T {
      match this
      case Some(v) => v
      case None => default
    }
  }

  datatype Student = Student(id: string, name: string, className: string)

  datatype Program = Program(id: string, name: string, time: string)

  /** One recorded absence. `studentName` and `class` are copies taken when it was recorded. */
  datatype Transaction = Transaction(
    id: string,
    date: string,
    time: string,
    studentId: string,
    studentName: string,
    className: string,
    program: string,
    reason: string)

  datatype Schedule = Schedule(
    id: string,
    activity: string,
    day: string,
    week: string,
    month: string,
    year: string,
    className: string,
    notes: string)

  datatype Auth = Auth(user: string, pass: string)

  /** The reason counted as an early departure on the dashboard. */
  const EARLY_DEPARTURE: string := "Pulang sebelum waktunya"

  /** The option value that switches the program and activity selectors to a typed-in name. */
  const OTHER: string := "Lainnya"

  function StudentId(s: Student): string { s.id }
  function ProgramId(p: Program): string { p.id }
  function TransactionId(t: Transaction): string { t.id }
  function ScheduleId(s: Schedule): string { s.id }
  function StudentClass(s: Student): string { s.className }
  function StudentName(s: Student): string { s.name }
  function TransactionStudentId(t: Transaction): string { t.studentId }
  function TransactionDate(t: Transaction): string { t.date }
  function TransactionReason(t: Transaction): string { t.reason }

  /** The first student with the given id (`students.find(s => s.id === id)`). */
  function FindStudent(students: seq<Student>, id: string): (r: Option<Student>)
    ensures r.None? <==> forall i :: 0 <= i < |students| ==> students[i].id != id
    ensures r.Some? ==> r.value.id == id
    ensures r.Some? ==>
      exists i :: 0 <= i < |students| && students[i] == r.value && forall j :: 0 <= j < i ==> students[j].id != id
  {
    if students == [] then None
    else if students[0].id == id then Some(students[0])
    else
      var r := FindStudent(students[1..], id);
      assert forall i :: 1 <= i < |students| ==> students[i] == students[1..][i - 1];
      r
  }
}
