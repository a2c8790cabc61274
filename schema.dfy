/**
 * The four tables of lib/db/schema.ts as row datatypes, with the column
 * defaults an INSERT applies. Nullable columns are `Option`s; `uuid` keys are
 * natural numbers handed out by the store; timestamps are integers supplied by
 * the caller (the clock is not modelled).
 */
module Schema {
  import opened Wrappers
  import opened Seqs

  /** `students`: `id` is a `serial` primary key; every other column is nullable text. */
  datatype Student = Student(
    id: int,
    lastName: Option<string>,
    firstName: Option<string>,
    middleInitial: Option<string>,
    section: Option<string>,
    email: Option<string>,
    createdAt: int)

  /** `attendance_records`: note that `student_id` is text (a varchar), not the integer key of `students`. */
  datatype AttendanceRecord = AttendanceRecord(
    id: nat,
    studentId: Option<string>,
    date: string,
    status: Option<string>,
    createdAt: int)

  /** `attendance_control`: one row per toggle of the check-in gate. */
  datatype ControlRow = ControlRow(id: nat, isEnabled: bool, updatedAt: int)

  /** `attendance_ip_strict`: one IP rule; nothing in the schema makes `ip_address` unique. */
  datatype IpRule = IpRule(id: nat, ipAddress: string, isEnabled: bool, createdAt: int)

  const DefaultSection: string := "BSIT 1A"

  /** The primary-key constraint of `students`. */
  predicate UniqueStudentIds(students: seq<Student>) {
    forall i, j :: 0 <= i < j < |students| ==> students[i].id != students[j].id
  }

  /** An INSERT into `students`: an omitted `section` becomes 'BSIT 1A', `created_at` becomes now. */
  function NewStudent(id: int, lastName: Option<string>, firstName: Option<string>, middleInitial: Option<string>,
                      section: Omittable<Option<string>>, email: Option<string>, now: int): (s: Student)
    ensures s.id == id && s.lastName == lastName && s.firstName == firstName
    ensures s.middleInitial == middleInitial && s.email == email && s.createdAt == now
    ensures section.Omitted? ==> s.section == Some(DefaultSection)
    ensures section.Given? ==> s.section == section.value
  {
    Student(id, lastName, firstName, middleInitial,
            match section case Omitted => Some(DefaultSection) case Given(v) => v,
            email, now)
  }

  /** An INSERT into `attendance_records`: an omitted `date` becomes the current date, `created_at` becomes now. */
  function NewRecord(id: nat, studentId: Option<string>, date: Omittable<string>, status: Option<string>,
                     currentDate: string, now: int): (r: AttendanceRecord)
    ensures r.id == id && r.studentId == studentId && r.status == status && r.createdAt == now
    ensures r.date == (if date.Given? then date.value else currentDate)
  {
    AttendanceRecord(id, studentId, match date case Omitted => currentDate case Given(d) => d, status, now)
  }

  /** An INSERT into `attendance_control`: `is_enabled` defaults to false, `updated_at` to now. */
  function NewControlRow(id: nat, isEnabled: Omittable<bool>, now: int): (c: ControlRow)
    ensures c.id == id && c.updatedAt == now
    ensures c.isEnabled <==> isEnabled == Given(true)
  {
    ControlRow(id, match isEnabled case Omitted => false case Given(b) => b, now)
  }

  /** An INSERT into `attendance_ip_strict`: `is_enabled` defaults to false, `created_at` to now. */
  function NewIpRule(id: nat, ipAddress: string, isEnabled: Omittable<bool>, now: int): (r: IpRule)
    ensures r.id == id && r.ipAddress == ipAddress && r.createdAt == now
    ensures r.isEnabled <==> isEnabled == Given(true)
  {
    IpRule(id, ipAddress, match isEnabled case Omitted => false case Given(b) => b, now)
  }

  /**
   * At most one row per `(student_id, date)`. The table has no such
   * constraint; only the duplicate check of `markAttendance` keeps it.
   */
  predicate AtMostOnePerDay(records: seq<AttendanceRecord>) {
    forall i, j :: 0 <= i < j < |records| ==>
      !(records[i].studentId == records[j].studentId && records[i].date == records[j].date)
  }

  /** The rows whose `student_id` is `key` and whose `date` is `date`. */
  function RowsFor(records: seq<AttendanceRecord>, key: Option<string>, date: string): seq<AttendanceRecord> {
    Filter(records, (r: AttendanceRecord) => r.studentId == key && r.date == date)
  }
}
