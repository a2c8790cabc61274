/**
 * The check-in gate of app/api/attendance/control/route.ts: an append-only
 * log of `attendance_control` rows whose effective value is the row with the
 * latest `updated_at`, false when the log is empty. The check-in route reads
 * the gate the same way.
 */
module Gate {
  import opened Wrappers
  import opened Schema

  /** `GET` answers `{ isEnabled }`; `POST` answers `{ success: true, isEnabled }` echoing its input. */
  datatype GateResponse = GateState(isEnabled: bool) | GateSet(success: bool, echoed: Option<bool>)

  /**
   * The row `orderBy(desc(updated_at)).limit(1)` returns. Postgres leaves the
   * choice among rows with equal `updated_at` open; the model takes the first
   * of them in table order.
   */
  function LatestIndex(controls: seq<ControlRow>): (k: nat)
    requires |controls| > 0
    ensures k < |controls|
    ensures forall j :: 0 <= j < |controls| ==> controls[j].updatedAt <= controls[k].updatedAt
    ensures forall j :: 0 <= j < k ==> controls[j].updatedAt < controls[k].updatedAt
    decreases |controls|
  {
    if |controls| == 1 then 0
    else
      var k := LatestIndex(controls[1..]) + 1;
      if controls[0].updatedAt >= controls[k].updatedAt then 0 else k
  }

  /** The flag of the row the newest-first query returns first, and false when the log is empty. */
  function GateEnabled(controls: seq<ControlRow>): bool {
    if |controls| == 0 then false else controls[LatestIndex(controls)].isEnabled
  }

  /** The gate fails closed: with no row it is off. */
  lemma EmptyLogDisabled()
    ensures !GateEnabled([])
  {
  }

  /** A row whose `updated_at` is strictly the greatest decides the gate. */
  lemma GateFollowsLatest(controls: seq<ControlRow>, k: nat)
    requires k < |controls|
    requires forall j :: 0 <= j < |controls| && j != k ==> controls[j].updatedAt < controls[k].updatedAt
    ensures GateEnabled(controls) == controls[k].isEnabled
  {
    assert LatestIndex(controls) == k;
  }

  /** Row `k` carries the greatest `updated_at` of the log. */
  predicate IsLatest(controls: seq<ControlRow>, k: nat) {
    k < |controls| && forall j :: 0 <= j < |controls| ==> controls[j].updatedAt <= controls[k].updatedAt
  }

  /** `GET /api/attendance/control`. */
  function GetGate(controls: seq<ControlRow>): (r: GateResponse)
    ensures r.GateState? && (r.isEnabled ==> |controls| > 0)
    ensures |controls| > 0 ==>
      (exists k :: 0 <= k < |controls| && r.isEnabled == controls[k].isEnabled && IsLatest(controls, k))
  {
    GateState(GateEnabled(controls))
  }

  /**
   * `POST /api/attendance/control` with body field `isEnabled` (None when the
   * field is absent, so the column default false is stored): appends one row
   * stamped `now` and echoes the field.
   */
  function PostGate(controls: seq<ControlRow>, isEnabled: Option<bool>, id: nat, now: int): (out: (GateResponse, seq<ControlRow>))
    ensures out.0 == GateSet(true, isEnabled)
    ensures |out.1| == |controls| + 1 && out.1[..|controls|] == controls
    ensures out.1[|controls|].updatedAt == now && out.1[|controls|].id == id
    ensures out.1[|controls|].isEnabled == (isEnabled == Some(true))
  {
    var field := match isEnabled case None => Omitted case Some(b) => Given(b);
    var row := NewControlRow(id, field, now);
    assert (controls + [row])[..|controls|] == controls;
    (GateSet(true, isEnabled), controls + [row])
  }

  /** After a toggle stamped later than every earlier row, `GET` reports the value just posted. */
  lemma GetAfterPost(controls: seq<ControlRow>, b: bool, id: nat, now: int)
    requires forall j :: 0 <= j < |controls| ==> controls[j].updatedAt < now
    ensures GetGate(PostGate(controls, Some(b), id, now).1) == GateState(b)
  {
    var after := PostGate(controls, Some(b), id, now).1;
    GateFollowsLatest(after, |controls|);
  }

  /** A toggle stamped no later than an existing row need not take effect. */
  lemma StalePostIgnored(b: bool)
    ensures GetGate(PostGate([ControlRow(0, !b, 5)], Some(b), 1, 5).1) == GateState(!b)
  {
    var after := PostGate([ControlRow(0, !b, 5)], Some(b), 1, 5).1;
    assert LatestIndex(after) == 0;
  }
}
