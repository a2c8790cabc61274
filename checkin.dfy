/**
 * `POST /api/attendance/check-in` (app/api/attendance/check-in/route.ts):
 * reads the gate and, when it is on, inserts a `present` row for the posted
 * `studentId`. Unlike `markAttendance` it neither looks the student up nor
 * checks for an earlier row that day.
 */
module CheckIn {
  import opened Wrappers
  import opened Seqs
  import opened Schema
  import opened Gate
  import Ledger

  const Disabled: string := "Attendance system is currently disabled"
  const Recorded: string := "Attendance recorded successfully"

  /** `{ success: true, message }`, or `{ error }` with status 403. */
  datatype CheckInResponse = CheckedIn(success: bool, message: string) | CheckInError(status: int, error: string)

  /** The row the route inserts: the posted `studentId` (None when the body has none), today's date, `present`. */
  function CheckInRow(id: nat, studentId: Option<string>, today: string, now: int): AttendanceRecord {
    NewRecord(id, studentId, Given(today), Some("present"), today, now)
  }

  /**
   * The route on the tables it touches. `today` is the date Postgres stores
   * for the `new Date()` the route passes; `id` and `now` are the new row's
   * key and creation time.
   */
  function PostCheckIn(controls: seq<ControlRow>, records: seq<AttendanceRecord>, studentId: Option<string>,
                       today: string, id: nat, now: int): (out: (CheckInResponse, seq<AttendanceRecord>))
    ensures !GateEnabled(controls) ==> out == (CheckInError(403, Disabled), records)
    ensures GateEnabled(controls) ==> out.0 == CheckedIn(true, Recorded)
    ensures GateEnabled(controls) ==> |out.1| == |records| + 1 && out.1[..|records|] == records
    ensures GateEnabled(controls) ==> out.1[|records|] == AttendanceRecord(id, studentId, today, Some("present"), now)
  {
    if !GateEnabled(controls) then (CheckInError(403, Disabled), records)
    else
      var after := records + [CheckInRow(id, studentId, today, now)];
      assert after[..|records|] == records;
      (CheckedIn(true, Recorded), after)
  }

  /** `n` check-ins in a row with the same student and day; the gate cannot change in between, since the route never writes it. */
  function CheckInTimes(controls: seq<ControlRow>, records: seq<AttendanceRecord>, studentId: Option<string>,
                        today: string, id: nat, now: int, n: nat): seq<AttendanceRecord>
    decreases n
  {
    if n == 0 then records
    else CheckInTimes(controls, PostCheckIn(controls, records, studentId, today, id, now).1, studentId, today, id + 1, now, n - 1)
  }

  /** With the gate on, `n` calls add `n` rows, all for the same student and day: nothing stops duplicates. */
  lemma {:induction false} CheckInTimesAppends(controls: seq<ControlRow>, records: seq<AttendanceRecord>,
                                               studentId: Option<string>, today: string, id: nat, now: int, n: nat)
    requires GateEnabled(controls)
    ensures var after := CheckInTimes(controls, records, studentId, today, id, now, n);
            && |after| == |records| + n
            && after[..|records|] == records
            && |RowsFor(after, studentId, today)| == |RowsFor(records, studentId, today)| + n
    decreases n
  {
    if n > 0 {
      var once := PostCheckIn(controls, records, studentId, today, id, now).1;
      var row := once[|records|];
      assert once == records + [row];
      FilterAppend(records, [row], (r: AttendanceRecord) => r.studentId == studentId && r.date == today);
      CheckInTimesAppends(controls, once, studentId, today, id + 1, now, n - 1);
      var after := CheckInTimes(controls, records, studentId, today, id, now, n);
      assert after[..|once|][..|records|] == after[..|records|];
    }
  }

  /** With the gate off, the route never inserts, however often it is called. */
  lemma {:induction false} CheckInTimesDisabled(controls: seq<ControlRow>, records: seq<AttendanceRecord>,
                                                studentId: Option<string>, today: string, id: nat, now: int, n: nat)
    requires !GateEnabled(controls)
    ensures CheckInTimes(controls, records, studentId, today, id, now, n) == records
    decreases n
  {
    if n > 0 {
      CheckInTimesDisabled(controls, records, studentId, today, id + 1, now, n - 1);
    }
  }

  /**
   * The route and `markAttendance` disagree: where `markAttendance` answers
   * 'You already marked attendance for today.', the route (gate on) still
   * inserts a second row, and it inserts rows for IDs no student holds.
   */
  lemma RouteSkipsLedgerChecks(students: seq<Student>, controls: seq<ControlRow>, records: seq<AttendanceRecord>,
                               studentId: string, today: string, id: nat, now: int)
    requires GateEnabled(controls)
    requires Ledger.FindStudent(students, studentId).FindError? || Ledger.HasRecordFor(records, studentId, today)
    ensures Ledger.Mark(students, records, studentId, today, id, now).0.MarkError?
    ensures PostCheckIn(controls, records, Some(studentId), today, id, now).0.CheckedIn?
  {
  }

  /** `markAttendance` does not consult the gate: with the gate off it still records a first check-in. */
  lemma MarkIgnoresGate(students: seq<Student>, controls: seq<ControlRow>, records: seq<AttendanceRecord>,
                        studentId: string, today: string, id: nat, now: int)
    requires !GateEnabled(controls)
    requires Ledger.FindStudent(students, studentId).Found? && !Ledger.HasRecordFor(records, studentId, today)
    ensures PostCheckIn(controls, records, Some(studentId), today, id, now).0 == CheckInError(403, Disabled)
    ensures Ledger.Mark(students, records, studentId, today, id, now).0.MarkSuccess?
  {
  }
}
