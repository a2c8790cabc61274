/**
 * `GET /api/attendance` (app/api/attendance/route.ts): the dates that have
 * records when no section is asked for; otherwise the students of the
 * section merged with that date's records, every student not recorded shown
 * as `absent`. Read-only: every query runs against the tables as given.
 *
 * The merge keys records by `student.id.toString()`, the canonical decimal
 * form of the integer key, while `markAttendance` stores the string it was
 * given; see ReportIgnoresForeignRows and RawKeyCheckInInvisible.
 */
module Report {
  import opened Wrappers
  import opened Text
  import opened Seqs
  import opened JsNumber
  import opened Schema
  import Ledger

  const NoDateSelected: string := "No date selected"

  function NoStudentsMessage(section: string): string {
    "No students found in section " + section
  }

  function NoRecordsMessage(section: string, date: string): string {
    "No attendance records for section " + section + " on " + date
  }

  /** The `student` object of an entry: the key as a string and the name fields with null shown as ''. */
  datatype StudentView = StudentView(id: string, firstName: string, lastName: string, middleInitial: string, section: string)

  datatype ReportEntry = ReportEntry(student: StudentView, status: string)

  /**
   * `{ dates }`, or `{ records, hasRecords, message }`; the `hasRecords: true`
   * answer carries a `debug` object instead of a message, which is not modelled.
   */
  datatype ReportResponse =
    | DateList(dates: seq<string>)
    | Roster(records: seq<ReportEntry>, hasRecords: bool, message: Option<string>)

  /** A query parameter passes `if (!param)` when it is present and not ''. */
  predicate Truthy(p: Option<string>) {
    p.Some? && p.value != ""
  }

  /** `x || ''` on a nullable text column. */
  function OrEmpty(x: Option<string>): (s: string)
    ensures x.Some? ==> s == x.value
    ensures x.None? ==> s == ""
  {
    if x.Some? then x.value else ""
  }

  /** Strictly descending, hence free of duplicates. */
  predicate StrictlyDesc(ds: seq<string>) {
    forall i, j :: 0 <= i < j < |ds| ==> LexLt(ds[j], ds[i])
  }

  /** Inserts `d` into a strictly descending list unless it is already there. */
  function InsertDesc(d: string, ds: seq<string>): (r: seq<string>)
    requires StrictlyDesc(ds)
    ensures StrictlyDesc(r)
    ensures forall x :: x in r <==> x == d || x in ds
    decreases |ds|
  {
    if |ds| == 0 then [d]
    else if d == ds[0] then ds
    else if LexLt(ds[0], d) then
      forall j | 0 <= j < |ds|
        ensures LexLt(ds[j], d)
      {
        if j > 0 {
          LexLtTransitive(ds[j], ds[0], d);
        }
      }
      [d] + ds
    else
      LexLtTrichotomy(d, ds[0]);
      var rest := InsertDesc(d, ds[1..]);
      assert forall x :: x in rest ==> LexLt(x, ds[0]) by {
        forall x | x in rest
          ensures LexLt(x, ds[0])
        {
          if x != d {
            var j :| 0 <= j < |ds[1..]| && ds[1..][j] == x;
            assert ds[j + 1] == x;
          }
        }
      }
      assert ds == [ds[0]] + ds[1..];
      [ds[0]] + rest
  }

  /**
   * `selectDistinct({ date }).orderBy(desc(date))`: every date that occurs
   * in the table, once, latest first. Dates are 'YYYY-MM-DD' strings, for
   * which code-point order is calendar order.
   */
  function DistinctDatesDesc(records: seq<AttendanceRecord>): (ds: seq<string>)
    ensures StrictlyDesc(ds)
    ensures forall d :: d in ds <==> exists i :: 0 <= i < |records| && records[i].date == d
    decreases |records|
  {
    if |records| == 0 then []
    else
      var rest := DistinctDatesDesc(records[1..]);
      assert forall i :: 1 <= i < |records| ==> records[i] == records[1..][i - 1];
      InsertDesc(records[0].date, rest)
  }

  /** `where(eq(students.section, section))`, in table order; a null section never matches. */
  function SectionStudents(students: seq<Student>, section: string): seq<Student> {
    Filter(students, (s: Student) => s.section == Some(section))
  }

  /** `where(eq(attendance_records.date, date))`, in table order. */
  function DayRecords(records: seq<AttendanceRecord>, date: string): seq<AttendanceRecord> {
    Filter(records, (r: AttendanceRecord) => r.date == date)
  }

  /**
   * `attendanceMap.get(key)` for the map built from `rows` in order: later
   * rows overwrite earlier ones, so the answer is the status of the LAST row
   * whose `student_id` is `key`, and None when no row has that key.
   */
  function StatusIn(rows: seq<AttendanceRecord>, key: string): (v: Option<Option<string>>)
    ensures v.None? <==> forall i :: 0 <= i < |rows| ==> rows[i].studentId != Some(key)
    ensures v.Some? ==> exists i :: 0 <= i < |rows| && rows[i].studentId == Some(key) && rows[i].status == v.value
                                    && forall j :: i < j < |rows| ==> rows[j].studentId != Some(key)
    decreases |rows|
  {
    if |rows| == 0 then None
    else
      var last := rows[|rows| - 1];
      if last.studentId == Some(key) then Some(last.status)
      else
        var init := rows[..|rows| - 1];
        var v := StatusIn(init, key);
        assert forall i :: 0 <= i < |init| ==> init[i] == rows[i];
        assert rows == init + [last];
        v
  }

  /** `attendanceMap.get(id) || 'absent'`: no row, a null status and '' all show as 'absent'. */
  function ShownStatus(v: Option<Option<string>>): (s: string)
    ensures s == "absent" <==> v.None? || v.value.None? || v.value.value in {"", "absent"}
    ensures s != "absent" ==> v == Some(Some(s))
  {
    if v.Some? && v.value.Some? && v.value.value != "" then v.value.value else "absent"
  }

  function View(s: Student, section: string): (v: StudentView)
    ensures v.id == IntToString(s.id) && v.section == section
    ensures v.firstName == OrEmpty(s.firstName) && v.lastName == OrEmpty(s.lastName)
    ensures v.middleInitial == OrEmpty(s.middleInitial)
  {
    StudentView(IntToString(s.id), OrEmpty(s.firstName), OrEmpty(s.lastName), OrEmpty(s.middleInitial), section)
  }

  /** Whether some student of the section has a row that day under the string form of its key. */
  predicate AnyRecorded(section: seq<Student>, day: seq<AttendanceRecord>) {
    exists i :: 0 <= i < |section| && StatusIn(day, IntToString(section[i].id)).Some?
  }

  /** Some student of the section has a row on `date` under its canonical key, stated on the whole tables. */
  predicate SectionRecordedOn(students: seq<Student>, records: seq<AttendanceRecord>, section: string, date: string) {
    exists i, j :: 0 <= i < |students| && 0 <= j < |records| && students[i].section == Some(section)
                   && records[j].date == date && records[j].studentId == Some(IntToString(students[i].id))
  }

  lemma AnyRecordedFromTables(students: seq<Student>, records: seq<AttendanceRecord>, section: string, date: string)
    requires SectionRecordedOn(students, records, section, date)
    ensures AnyRecorded(SectionStudents(students, section), DayRecords(records, date))
  {
    var i, j :| 0 <= i < |students| && 0 <= j < |records| && students[i].section == Some(section)
                && records[j].date == date && records[j].studentId == Some(IntToString(students[i].id));
    var ss := SectionStudents(students, section);
    var day := DayRecords(records, date);
    FilterKeeps(students, (s: Student) => s.section == Some(section), i);
    FilterKeeps(records, (r: AttendanceRecord) => r.date == date, j);
    var i' :| 0 <= i' < |ss| && ss[i'] == students[i];
    var k :| 0 <= k < |day| && day[k] == records[j];
    assert StatusIn(day, IntToString(ss[i'].id)).Some?;
  }

  lemma AnyRecordedToTables(students: seq<Student>, records: seq<AttendanceRecord>, section: string, date: string)
    requires AnyRecorded(SectionStudents(students, section), DayRecords(records, date))
    ensures SectionRecordedOn(students, records, section, date)
  {
    var ss := SectionStudents(students, section);
    var day := DayRecords(records, date);
    var i :| 0 <= i < |ss| && StatusIn(day, IntToString(ss[i].id)).Some?;
    var k :| 0 <= k < |day| && day[k].studentId == Some(IntToString(ss[i].id));
    FilterFrom(students, (s: Student) => s.section == Some(section), i);
    FilterFrom(records, (r: AttendanceRecord) => r.date == date, k);
    var i' :| 0 <= i' < |students| && students[i'] == ss[i];
    var j :| 0 <= j < |records| && records[j] == day[k];
    assert students[i'].section == Some(section) && records[j].date == date;
  }

  lemma AnyRecordedIff(students: seq<Student>, records: seq<AttendanceRecord>, section: string, date: string)
    ensures AnyRecorded(SectionStudents(students, section), DayRecords(records, date))
            <==> SectionRecordedOn(students, records, section, date)
  {
    if SectionRecordedOn(students, records, section, date) {
      AnyRecordedFromTables(students, records, section, date);
    }
    if AnyRecorded(SectionStudents(students, section), DayRecords(records, date)) {
      AnyRecordedToTables(students, records, section, date);
    }
  }

  /** The entries of the merged report: each student of the section with the status its key shows. */
  function Merged(ss: seq<Student>, section: string, day: seq<AttendanceRecord>): (r: seq<ReportEntry>)
    ensures |r| == |ss|
    ensures forall i :: 0 <= i < |ss| ==>
              r[i] == ReportEntry(View(ss[i], section), ShownStatus(StatusIn(day, IntToString(ss[i].id))))
  {
    seq(|ss|, i requires 0 <= i < |ss| => ReportEntry(View(ss[i], section), ShownStatus(StatusIn(day, IntToString(ss[i].id)))))
  }

  /** Every student of the section, all 'absent'. */
  function AllAbsent(ss: seq<Student>, section: string): (r: seq<ReportEntry>)
    ensures |r| == |ss|
    ensures forall i :: 0 <= i < |ss| ==> r[i] == ReportEntry(View(ss[i], section), "absent")
  {
    seq(|ss|, i requires 0 <= i < |ss| => ReportEntry(View(ss[i], section), "absent"))
  }

  /**
   * `GET /api/attendance?section=…&date=…` on the tables `students` and
   * `records` (None for an absent parameter).
   */
  function GetReport(students: seq<Student>, records: seq<AttendanceRecord>, section: Option<string>,
                     date: Option<string>): (r: ReportResponse)
    ensures !Truthy(section) ==> r.DateList?
    ensures r.DateList? ==> StrictlyDesc(r.dates)
    ensures r.DateList? ==> forall d :: d in r.dates <==> exists i :: 0 <= i < |records| && records[i].date == d
    ensures Truthy(section) ==> r.Roster?
    ensures Truthy(section) && |SectionStudents(students, section.value)| == 0 ==>
      r == Roster([], false, Some(NoStudentsMessage(section.value)))
    ensures Truthy(section) && |SectionStudents(students, section.value)| > 0 && !Truthy(date) ==>
      var ss := SectionStudents(students, section.value);
      && r.message == Some(NoDateSelected) && !r.hasRecords && |r.records| == |ss|
      && forall i :: 0 <= i < |ss| ==> r.records[i] == ReportEntry(View(ss[i], section.value), "absent")
    ensures Truthy(section) && Truthy(date) && |SectionStudents(students, section.value)| > 0 ==>
      (r.hasRecords <==> SectionRecordedOn(students, records, section.value, date.value))
    ensures Truthy(section) && Truthy(date) && !r.hasRecords ==>
      r.records == [] && (|SectionStudents(students, section.value)| > 0 ==>
                          r.message == Some(NoRecordsMessage(section.value, date.value)))
    ensures r.Roster? && r.hasRecords ==>
      var ss := SectionStudents(students, section.value);
      var day := DayRecords(records, date.value);
      && Truthy(date) && r.message.None? && |r.records| == |ss|
      && forall i :: 0 <= i < |ss| ==>
           r.records[i] == ReportEntry(View(ss[i], section.value), ShownStatus(StatusIn(day, IntToString(ss[i].id))))
  {
    if !Truthy(section) then DateList(DistinctDatesDesc(records))
    else
      var sec := section.value;
      var ss := SectionStudents(students, sec);
      if |ss| == 0 then Roster([], false, Some(NoStudentsMessage(sec)))
      else if !Truthy(date) then
        Roster(AllAbsent(ss, sec), false, Some(NoDateSelected))
      else
        var d := date.value;
        var day := DayRecords(records, d);
        AnyRecordedIff(students, records, sec, d);
        if !AnyRecorded(ss, day) then Roster([], false, Some(NoRecordsMessage(sec, d)))
        else Roster(Merged(ss, sec, day), true, None)
  }

  /** `StatusIn` after one more row whose key is not `key`. */
  lemma StatusInForeignRow(rows: seq<AttendanceRecord>, row: AttendanceRecord, key: string)
    requires row.studentId != Some(key)
    ensures StatusIn(rows + [row], key) == StatusIn(rows, key)
  {
    assert (rows + [row])[..|rows|] == rows;
  }

  /** A row that is not filed under the canonical key of any student of the section changes nothing in its report. */
  lemma ReportIgnoresForeignRows(students: seq<Student>, records: seq<AttendanceRecord>, row: AttendanceRecord,
                                 section: string, date: Option<string>)
    requires section != ""
    requires forall i :: 0 <= i < |students| && students[i].section == Some(section) ==>
               row.studentId != Some(IntToString(students[i].id))
    ensures GetReport(students, records + [row], Some(section), date) == GetReport(students, records, Some(section), date)
  {
    var ss := SectionStudents(students, section);
    if |ss| > 0 && Truthy(date) {
      var p := (r: AttendanceRecord) => r.date == date.value;
      FilterAppend(records, [row], p);
      var day := DayRecords(records, date.value);
      var day' := DayRecords(records + [row], date.value);
      forall i | 0 <= i < |ss|
        ensures StatusIn(day', IntToString(ss[i].id)) == StatusIn(day, IntToString(ss[i].id))
      {
        FilterFrom(students, (s: Student) => s.section == Some(section), i);
        if p(row) {
          assert day' == day + [row];
          StatusInForeignRow(day, row, IntToString(ss[i].id));
        } else {
          assert day' == day;
        }
      }
      assert Merged(ss, section, day') == Merged(ss, section, day);
      assert AnyRecorded(ss, day') <==> AnyRecorded(ss, day);
    }
  }

  /**
   * A new row filed under a section student's canonical key, on a date, with
   * a non-empty status: that day's report lists the student with that status,
   * whatever rows came before.
   */
  lemma ReportShowsLatestRow(students: seq<Student>, records: seq<AttendanceRecord>, row: AttendanceRecord,
                             k: nat, section: string)
    requires k < |students| && students[k].section == Some(section) && section != ""
    requires row.date != "" && row.studentId == Some(IntToString(students[k].id))
    requires row.status.Some? && row.status.value != ""
    ensures var r := GetReport(students, records + [row], Some(section), Some(row.date));
            && r.Roster? && r.hasRecords
            && exists i :: 0 <= i < |r.records| && r.records[i] == ReportEntry(View(students[k], section), row.status.value)
  {
    var key := IntToString(students[k].id);
    var after := records + [row];
    assert after[|records|] == row;
    assert SectionRecordedOn(students, after, section, row.date);
    var day := DayRecords(after, row.date);
    FilterAppend(records, [row], (r: AttendanceRecord) => r.date == row.date);
    assert day == DayRecords(records, row.date) + [row];
    assert StatusIn(day, key) == Some(row.status);
    var ss := SectionStudents(students, section);
    FilterKeeps(students, (s: Student) => s.section == Some(section), k);
    var i :| 0 <= i < |ss| && ss[i] == students[k];
    var r := GetReport(students, after, Some(section), Some(row.date));
    assert r.records[i] == ReportEntry(View(students[k], section), ShownStatus(StatusIn(day, key)));
  }

  /**
   * After `markAttendance` succeeds with the canonical form of a student's key
   * (what `student.id.toString()` yields), that day's report for the
   * student's section lists the student as 'present'.
   */
  lemma MarkThenReportPresent(students: seq<Student>, records: seq<AttendanceRecord>, k: nat, section: string,
                              today: string, id: nat, now: int)
    requires UniqueStudentIds(students) && k < |students|
    requires students[k].section == Some(section) && section != "" && today != ""
    requires FitsInt4(students[k].id)
    requires !Ledger.HasRecordFor(records, IntToString(students[k].id), today)
    ensures var key := IntToString(students[k].id);
            var marked := Ledger.Mark(students, records, key, today, id, now);
            var r := GetReport(students, marked.1, Some(section), Some(today));
            && marked.0.MarkSuccess?
            && r.Roster? && r.hasRecords
            && exists i :: 0 <= i < |r.records| && r.records[i] == ReportEntry(View(students[k], section), "present")
  {
    var key := IntToString(students[k].id);
    ParseIntOfIntToString(students[k].id);
    Ledger.FindStudentFinds(students, k, key);
    ReportShowsLatestRow(students, records, Ledger.PresentRecord(id, key, today, now), k, section);
  }

  /**
   * A check-in through `markAttendance` under a non-canonical spelling of the
   * key (such as "0012" for student 12) succeeds and adds a row, yet no
   * report of any section shows it.
   */
  lemma RawKeyCheckInInvisible(students: seq<Student>, records: seq<AttendanceRecord>, studentId: string,
                               section: string, date: Option<string>, today: string, id: nat, now: int)
    requires UniqueStudentIds(students) && section != ""
    requires Ledger.FindStudent(students, studentId).Found?
    requires studentId != IntToString(ParseInt(studentId).value)
    requires !Ledger.HasRecordFor(records, studentId, today)
    ensures var marked := Ledger.Mark(students, records, studentId, today, id, now);
            && marked.0.MarkSuccess? && |marked.1| == |records| + 1
            && GetReport(students, marked.1, Some(section), date) == GetReport(students, records, Some(section), date)
  {
    var row := Ledger.PresentRecord(id, studentId, today, now);
    forall i | 0 <= i < |students| && students[i].section == Some(section)
      ensures row.studentId != Some(IntToString(students[i].id))
    {
      ParseIntOfIntToString(students[i].id);
    }
    ReportIgnoresForeignRows(students, records, row, section, date);
  }
}
