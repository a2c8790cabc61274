/**
 * The database the routes and actions share: the four tables of
 * lib/db/schema.ts as sequences in table order, and the source of fresh row
 * keys that stands in for `defaultRandom()` uuids. Each method is one request
 * (for `markAttendance`, its one transaction) applied to the tables; the
 * read-only requests are the module functions applied to the fields.
 */
module Store {
  import opened Wrappers
  import opened Seqs
  import opened Schema
  import JsNumber
  import Ledger
  import Gate
  import IpRules
  import CheckIn

  class AttendanceStore {
    var students: seq<Student>
    var records: seq<AttendanceRecord>
    var controls: seq<ControlRow>
    var ipRules: seq<IpRule>
    var nextId: nat

    /** Every uuid key handed out so far is below `nextId`. */
    predicate KeysIssued()
      reads this
    {
      && (forall i :: 0 <= i < |records| ==> records[i].id < nextId)
      && (forall i :: 0 <= i < |controls| ==> controls[i].id < nextId)
      && (forall i :: 0 <= i < |ipRules| ==> ipRules[i].id < nextId)
    }

    /**
     * The constraints the store keeps: the primary key of `students`, one rule
     * per IP address (kept by the routes, not the schema), fresh uuids.
     */
    predicate Valid()
      reads this
    {
      UniqueStudentIds(students) && IpRules.UniqueAddresses(ipRules) && KeysIssued()
    }

    /** A database whose `students` table holds `roster` and whose other tables are empty. */
    constructor(roster: seq<Student>)
      requires UniqueStudentIds(roster)
      ensures Valid()
      ensures students == roster && records == [] && controls == [] && ipRules == [] && nextId == 0
    {
      students := roster;
      records := [];
      controls := [];
      ipRules := [];
      nextId := 0;
    }

    /**
     * `markAttendance(studentId)` on the day `today` at time `now`: look the
     * student up, check for a row under the same string that day, append.
     */
    method MarkAttendance(studentId: string, today: string, now: int) returns (r: Ledger.MarkResult)
      requires Valid()
      modifies this
      ensures Valid()
      ensures (r, records) == Ledger.Mark(old(students), old(records), studentId, today, old(nextId), now)
      ensures nextId == old(nextId) + (if r.MarkSuccess? then 1 else 0)
      ensures students == old(students) && controls == old(controls) && ipRules == old(ipRules)
      ensures AtMostOnePerDay(old(records)) ==> AtMostOnePerDay(records)
    {
      if AtMostOnePerDay(records) {
        Ledger.MarkPreservesAtMostOnePerDay(students, records, studentId, today, nextId, now);
      }
      if !Ledger.ValidKey(studentId) {
        return Ledger.MarkError(Ledger.MarkFailed);
      }
      if Ledger.FirstWithId(students, JsNumber.ParseInt(studentId).value).None? {
        return Ledger.MarkError(Ledger.StudentNotFound);
      }
      if Ledger.HasRecordFor(records, studentId, today) {
        return Ledger.MarkError(Ledger.AlreadyMarked);
      }
      records := records + [Ledger.PresentRecord(nextId, studentId, today, now)];
      nextId := nextId + 1;
      r := Ledger.MarkSuccess(Ledger.MarkedSuccessfully);
    }

    /** `POST /api/attendance/check-in`: read the gate, then append when it is on. */
    method CheckInRoute(studentId: Option<string>, today: string, now: int) returns (r: CheckIn.CheckInResponse)
      requires Valid()
      modifies this
      ensures Valid()
      ensures (r, records) == CheckIn.PostCheckIn(old(controls), old(records), studentId, today, old(nextId), now)
      ensures nextId == old(nextId) + (if r.CheckedIn? then 1 else 0)
      ensures students == old(students) && controls == old(controls) && ipRules == old(ipRules)
    {
      var enabled := Gate.GateEnabled(controls);
      if !enabled {
        return CheckIn.CheckInError(403, CheckIn.Disabled);
      }
      records := records + [CheckIn.CheckInRow(nextId, studentId, today, now)];
      nextId := nextId + 1;
      r := CheckIn.CheckedIn(true, CheckIn.Recorded);
    }

    /** `POST /api/attendance/control`: append one row to the gate log. */
    method SetGate(isEnabled: Option<bool>, now: int) returns (r: Gate.GateResponse)
      requires Valid()
      modifies this
      ensures Valid()
      ensures (r, controls) == Gate.PostGate(old(controls), isEnabled, old(nextId), now)
      ensures nextId == old(nextId) + 1
      ensures students == old(students) && records == old(records) && ipRules == old(ipRules)
    {
      var field := if isEnabled.Some? then Given(isEnabled.value) else Omitted;
      controls := controls + [NewControlRow(nextId, field, now)];
      nextId := nextId + 1;
      r := Gate.GateSet(true, isEnabled);
    }

    /** `POST /api/attendance/ip-rule`. */
    method AddIpRule(ipAddress: Option<string>, now: int) returns (r: IpRules.IpResponse)
      requires Valid()
      modifies this
      ensures Valid()
      ensures (r, ipRules) == IpRules.AddRule(old(ipRules), ipAddress, old(nextId), now)
      ensures nextId == old(nextId) + (if r.RuleBody? then 1 else 0)
      ensures students == old(students) && records == old(records) && controls == old(controls)
    {
      if IpRules.Missing(ipAddress) {
        return IpRules.IpError(400, IpRules.IpRequired);
      }
      var ip := ipAddress.value;
      if !IpRules.IsDottedQuad(ip) {
        return IpRules.IpError(400, IpRules.InvalidIp);
      }
      if IpRules.HasAddress(ipRules, ip) {
        return IpRules.IpError(400, IpRules.IpExists);
      }
      var rule := NewIpRule(nextId, ip, Given(true), now);
      ipRules := ipRules + [rule];
      nextId := nextId + 1;
      r := IpRules.RuleBody(rule);
    }

    /** `PATCH /api/attendance/ip-rule`: set `is_enabled` on every rule with the address. */
    method PatchIpRule(ipAddress: Option<string>, isEnabled: Option<bool>) returns (r: IpRules.IpResponse)
      requires Valid()
      modifies this
      ensures Valid()
      ensures (r, ipRules) == IpRules.PatchRule(old(ipRules), ipAddress, isEnabled)
      ensures students == old(students) && records == old(records) && controls == old(controls) && nextId == old(nextId)
    {
      if IpRules.Missing(ipAddress) {
        return IpRules.IpError(400, IpRules.IpRequired);
      }
      if isEnabled.None? {
        return IpRules.IpError(400, IpRules.NotBoolean);
      }
      var ip := ipAddress.value;
      if !IpRules.HasAddress(ipRules, ip) {
        return IpRules.IpError(404, IpRules.RuleNotFound);
      }
      var k := IpRules.FirstWithAddress(ipRules, ip);
      ghost var before := ipRules;
      ipRules := IpRules.SetEnabledWhere(ipRules, ip, isEnabled.value);
      r := IpRules.RuleBody(ipRules[k]);
      assert forall i :: 0 <= i < |ipRules| ==> ipRules[i].id == before[i].id;
    }

    /** `DELETE /api/attendance/ip-rule`: remove every rule with the address. */
    method DeleteIpRule(ipAddress: Option<string>) returns (r: IpRules.IpResponse)
      requires Valid()
      modifies this
      ensures Valid()
      ensures (r, ipRules) == IpRules.DeleteRule(old(ipRules), ipAddress)
      ensures students == old(students) && records == old(records) && controls == old(controls) && nextId == old(nextId)
    {
      IpRules.DeletePreservesUnique(ipRules, ipAddress);
      if IpRules.Missing(ipAddress) {
        return IpRules.IpError(400, IpRules.IpRequired);
      }
      var ip := ipAddress.value;
      if !IpRules.HasAddress(ipRules, ip) {
        return IpRules.IpError(404, IpRules.RuleNotFound);
      }
      FilterMembers(ipRules, (q: IpRule) => q.ipAddress != ip);
      ipRules := Filter(ipRules, (q: IpRule) => q.ipAddress != ip);
      r := IpRules.Deleted;
    }
  }
}
