/**
 * The two server actions of app/action.ts: `findStudent`, which resolves a
 * typed-in student ID, and `markAttendance`, which records a check-in in one
 * transaction. Both are stated here as pure functions of the tables they read;
 * Store.AttendanceStore.MarkAttendance applies `Mark` to the store.
 *
 * The lookup key is `parseInt(studentId, 10)` against the integer column
 * `students.id`. A NaN key, or one outside the Postgres `integer` range, makes
 * the query itself fail, which the actions' `catch` branches answer with their
 * generic messages. The duplicate check and the new row use the raw
 * `studentId` string instead.
 */
module Ledger {
  import opened Wrappers
  import opened JsNumber
  import opened Schema
  import opened Seqs

  const InvalidFormat: string := "Invalid student ID format. Try again"
  const StudentNotFound: string := "Student not found. Try again"
  const FindFailed: string := "Failed to find student. Try again"
  const AlreadyMarked: string := "You already marked attendance for today."
  const MarkedSuccessfully: string := "Attendance marked successfully"
  const MarkFailed: string := "Failed to mark attendance. Try again"

  /** The six columns `findStudent` selects. */
  datatype StudentColumns = StudentColumns(
    id: int,
    firstName: Option<string>,
    lastName: Option<string>,
    middleInitial: Option<string>,
    section: Option<string>,
    email: Option<string>)

  /** `{ student }` or `{ error }`. */
  datatype FindResult = Found(student: StudentColumns) | FindError(error: string)

  /** `{ success }` or `{ error }`. */
  datatype MarkResult = MarkSuccess(success: string) | MarkError(error: string)

  function Columns(s: Student): StudentColumns {
    StudentColumns(s.id, s.firstName, s.lastName, s.middleInitial, s.section, s.email)
  }

  /** The lookup of a student by primary key: the first student in table order with that key. */
  function FirstWithId(students: seq<Student>, id: int): (r: Option<Student>)
    ensures r.Some? ==> r.value in students && r.value.id == id
    ensures r.None? <==> forall i :: 0 <= i < |students| ==> students[i].id != id
    decreases |students|
  {
    if |students| == 0 then None
    else if students[0].id == id then Some(students[0])
    else
      var r := FirstWithId(students[1..], id);
      assert forall i :: 1 <= i < |students| ==> students[i] == students[1..][i - 1];
      r
  }

  /** With the primary key in force the lookup finds exactly the student holding the key. */
  lemma {:induction false} FirstWithIdUnique(students: seq<Student>, k: nat)
    requires UniqueStudentIds(students) && k < |students|
    ensures FirstWithId(students, students[k].id) == Some(students[k])
    decreases |students|
  {
    if k > 0 {
      assert students[0].id != students[k].id;
      FirstWithIdUnique(students[1..], k - 1);
    }
  }

  /** The key `findStudent` and `markAttendance` look students up by, when the query accepts it. */
  predicate ValidKey(studentId: string) {
    ParseInt(studentId).Some? && FitsInt4(ParseInt(studentId).value)
  }

  /** `findStudent(studentId)`. */
  function FindStudent(students: seq<Student>, studentId: string): (r: FindResult)
    ensures ParseInt(studentId).None? ==> r == FindError(InvalidFormat)
    ensures ParseInt(studentId).Some? && !ValidKey(studentId) ==> r == FindError(FindFailed)
    ensures r.Found? ==> ValidKey(studentId)
    ensures r.Found? ==>
      exists i :: 0 <= i < |students| && students[i].id == ParseInt(studentId).value && r.student == Columns(students[i])
    ensures r == FindError(StudentNotFound) <==>
      ValidKey(studentId) && forall i :: 0 <= i < |students| ==> students[i].id != ParseInt(studentId).value
    ensures r.FindError? ==> r.error in {InvalidFormat, FindFailed, StudentNotFound}
    ensures ValidKey(studentId) && (exists i :: 0 <= i < |students| && students[i].id == ParseInt(studentId).value) ==>
      r.Found?
  {
    var n := ParseInt(studentId);
    if n.None? then FindError(InvalidFormat)
    else if !FitsInt4(n.value) then FindError(FindFailed)
    else match FirstWithId(students, n.value)
      case None => FindError(StudentNotFound)
      case Some(s) => Found(Columns(s))
  }

  /** A student whose key fits the lookup is found, and the six columns are that student's. */
  lemma FindStudentFinds(students: seq<Student>, k: nat, studentId: string)
    requires UniqueStudentIds(students) && k < |students|
    requires ValidKey(studentId) && ParseInt(studentId).value == students[k].id
    ensures FindStudent(students, studentId) == Found(Columns(students[k]))
  {
    FirstWithIdUnique(students, k);
  }

  /** The ledger already holds a row for `(studentId, today)`: the duplicate check of `markAttendance`. */
  predicate HasRecordFor(records: seq<AttendanceRecord>, studentId: string, today: string) {
    exists i :: 0 <= i < |records| && records[i].studentId == Some(studentId) && records[i].date == today
  }

  /** The row `markAttendance` inserts. */
  function PresentRecord(id: nat, studentId: string, today: string, now: int): AttendanceRecord {
    NewRecord(id, Some(studentId), Given(today), Some("present"), today, now)
  }

  /**
   * `markAttendance(studentId)` on the day `today`, inserting with the fresh
   * key `id` at time `now`: the result and the new `attendance_records` table.
   * Its outcome is described through `findStudent` on the same input.
   */
  function Mark(students: seq<Student>, records: seq<AttendanceRecord>, studentId: string, today: string,
                id: nat, now: int): (out: (MarkResult, seq<AttendanceRecord>))
    ensures out.0.MarkError? ==> out.1 == records
    ensures out.0.MarkSuccess? ==> out.0.success == MarkedSuccessfully && out.1 == records + [PresentRecord(id, studentId, today, now)]
    ensures out.0 == MarkError(MarkFailed) <==> !ValidKey(studentId)
    ensures out.0 == MarkError(StudentNotFound) <==> FindStudent(students, studentId) == FindError(StudentNotFound)
    ensures out.0 == MarkError(AlreadyMarked) <==> FindStudent(students, studentId).Found? && HasRecordFor(records, studentId, today)
    ensures out.0.MarkSuccess? <==> FindStudent(students, studentId).Found? && !HasRecordFor(records, studentId, today)
  {
    if !ValidKey(studentId) then (MarkError(MarkFailed), records)
    else if FirstWithId(students, ParseInt(studentId).value).None? then (MarkError(StudentNotFound), records)
    else if HasRecordFor(records, studentId, today) then (MarkError(AlreadyMarked), records)
    else (MarkSuccess(MarkedSuccessfully), records + [PresentRecord(id, studentId, today, now)])
  }

  /** Appending a row whose `(student_id, date)` is new keeps at most one row per pair. */
  lemma AppendNewPairKeepsAtMostOnePerDay(records: seq<AttendanceRecord>, row: AttendanceRecord)
    requires AtMostOnePerDay(records)
    requires forall i :: 0 <= i < |records| ==> !(records[i].studentId == row.studentId && records[i].date == row.date)
    ensures AtMostOnePerDay(records + [row])
  {
    var s := records + [row];
    forall i, j | 0 <= i < j < |s|
      ensures !(s[i].studentId == s[j].studentId && s[i].date == s[j].date)
    {
      assert s[i] == records[i];
      if j < |records| {
        assert s[j] == records[j];
      }
    }
  }

  /** `markAttendance` never creates a second row for the same `(student_id, date)`: the schema does not, so only this check keeps it. */
  lemma MarkPreservesAtMostOnePerDay(students: seq<Student>, records: seq<AttendanceRecord>, studentId: string,
                                     today: string, id: nat, now: int)
    requires AtMostOnePerDay(records)
    ensures AtMostOnePerDay(Mark(students, records, studentId, today, id, now).1)
  {
    var out := Mark(students, records, studentId, today, id, now);
    if out.0.MarkSuccess? {
      assert !HasRecordFor(records, studentId, today);
      AppendNewPairKeepsAtMostOnePerDay(records, PresentRecord(id, studentId, today, now));
    }
  }

  /**
   * Checking in twice on one day: the first call inserts the one row, the
   * second answers 'You already marked attendance for today.' and leaves the
   * ledger as the first call left it.
   */
  lemma {:induction false} MarkTwice(students: seq<Student>, records: seq<AttendanceRecord>, studentId: string,
                                     today: string, id1: nat, id2: nat, now1: int, now2: int)
    requires FindStudent(students, studentId).Found?
    requires !HasRecordFor(records, studentId, today)
    ensures var first := Mark(students, records, studentId, today, id1, now1);
            var second := Mark(students, first.1, studentId, today, id2, now2);
            && first.0 == MarkSuccess(MarkedSuccessfully)
            && second.0 == MarkError(AlreadyMarked)
            && second.1 == first.1
            && |RowsFor(second.1, Some(studentId), today)| == 1
  {
    var first := Mark(students, records, studentId, today, id1, now1);
    var row := PresentRecord(id1, studentId, today, now1);
    assert first.1 == records + [row];
    assert first.1[|records|] == row;
    assert HasRecordFor(first.1, studentId, today);
    var p := (r: AttendanceRecord) => r.studentId == Some(studentId) && r.date == today;
    FilterNone(records, p);
    FilterAppend(records, [row], p);
  }

  /**
   * The duplicate key is the raw string: two different strings that parse to
   * the same student ID (such as "12" and "0012", see
   * JsNumber.ParseIntLeadingZerosExample) find the same student, yet after a
   * check-in with one the other is accepted as well, so that student gets two
   * rows on one day.
   */
  lemma RawKeyAllowsSecondRow(students: seq<Student>, records: seq<AttendanceRecord>, a: string, b: string,
                              today: string, id1: nat, id2: nat, now1: int, now2: int)
    requires a != b && ParseInt(a) == ParseInt(b)
    requires FindStudent(students, a).Found?
    requires !HasRecordFor(records, a, today) && !HasRecordFor(records, b, today)
    ensures FindStudent(students, b) == FindStudent(students, a)
    ensures var first := Mark(students, records, a, today, id1, now1);
            var second := Mark(students, first.1, b, today, id2, now2);
            && first.0.MarkSuccess? && second.0.MarkSuccess?
            && second.1 == records + [PresentRecord(id1, a, today, now1), PresentRecord(id2, b, today, now2)]
  {
    var first := Mark(students, records, a, today, id1, now1);
    assert first.1 == records + [PresentRecord(id1, a, today, now1)];
    assert !HasRecordFor(first.1, b, today) by {
      forall i | 0 <= i < |first.1|
        ensures !(first.1[i].studentId == Some(b) && first.1[i].date == today)
      {
        if i < |records| {
          assert first.1[i] == records[i];
        }
      }
    }
  }
}
