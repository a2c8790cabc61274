/**
 * The handlers of app/api/attendance/ip-rule/route.ts over the
 * `attendance_ip_strict` table: list, add, enable/disable by address and
 * delete by address. Each handler is a function from the table and the
 * request body to the response and the new table;
 * Store.AttendanceStore applies them in place.
 *
 * The schema does not make `ip_address` unique. The add handler checks for
 * an existing row first, and the other handlers never add rows, so an
 * address appears at most once for as long as only these handlers write.
 */
module IpRules {
  import opened Wrappers
  import opened Text
  import opened JsNumber
  import opened Seqs
  import opened Schema

  const IpRequired: string := "IP address is required"
  const InvalidIp: string := "Invalid IP address format"
  const IpExists: string := "IP address already exists"
  const NotBoolean: string := "is_enabled must be a boolean"
  const RuleNotFound: string := "IP rule not found"

  /** `{ rules }`, `{ rule }`, `{ success: true }`, or `{ error }` with its HTTP status. */
  datatype IpResponse =
    | RuleList(rules: seq<IpRule>)
    | RuleBody(rule: IpRule)
    | Deleted
    | IpError(status: int, error: string)

  /** `\d{1,3}`: one to three ASCII digits. */
  predicate DigitGroup(g: string) {
    1 <= |g| <= 3 && AllDigits(g)
  }

  /**
   * `/^(\d{1,3}\.){3}\d{1,3}$/.test(s)`: exactly four dot-separated groups of
   * one to three digits. The values of the groups are not range-checked.
   */
  predicate IsDottedQuad(s: string) {
    var parts := Split(s, '.');
    |parts| == 4 && DigitGroup(parts[0]) && DigitGroup(parts[1]) && DigitGroup(parts[2]) && DigitGroup(parts[3])
  }

  /** Every string of the regular expression's language is accepted. */
  lemma DottedQuadIntro(a: string, b: string, c: string, d: string)
    requires DigitGroup(a) && DigitGroup(b) && DigitGroup(c) && DigitGroup(d)
    ensures IsDottedQuad(Join([a, b, c, d], '.'))
  {
    var parts := [a, b, c, d];
    assert forall i :: 0 <= i < 4 ==> '.' !in parts[i];
    SplitJoin(parts, '.');
  }

  /** Every accepted string is four digit groups joined by dots. */
  lemma DottedQuadElim(s: string)
    requires IsDottedQuad(s)
    ensures var parts := Split(s, '.');
            |parts| == 4 && (forall i :: 0 <= i < 4 ==> DigitGroup(parts[i])) && s == Join(parts, '.')
  {
    JoinSplit(s, '.');
  }

  /** Joining pieces that contain no dot gives that many groups, so three or five groups are refused. */
  lemma WrongGroupCountRefused(parts: seq<string>)
    requires |parts| >= 1 && |parts| != 4
    requires forall i :: 0 <= i < |parts| ==> '.' !in parts[i]
    ensures !IsDottedQuad(Join(parts, '.'))
  {
    SplitJoin(parts, '.');
  }

  /** A group of four digits is refused wherever it stands. */
  lemma LongGroupRefused(parts: seq<string>, k: nat)
    requires |parts| == 4 && k < 4 && |parts[k]| > 3
    requires forall i :: 0 <= i < |parts| ==> '.' !in parts[i]
    ensures !IsDottedQuad(Join(parts, '.'))
  {
    SplitJoin(parts, '.');
  }

  /** "300.1.1.1" passes: the regular expression only counts digits. */
  lemma OutOfRangeOctetAccepted()
    ensures IsDottedQuad("300.1.1.1")
  {
    var a, b := "300", "1";
    assert DigitGroup(a) && DigitGroup(b);
    DottedQuadIntro(a, b, b, b);
    var parts := [a, b, b, b];
    assert parts[1..] == [b, b, b] && parts[1..][1..] == [b, b] && parts[1..][1..][1..] == [b];
    assert Join([b, b], '.') == b + "." + b;
    assert Join([b, b, b], '.') == b + "." + (b + "." + b);
    assert Join(parts, '.') == a + "." + (b + "." + (b + "." + b));
    assert a + "." + (b + "." + (b + "." + b)) == "300.1.1.1";
  }

  /** `!ip_address`: the field is missing, null or the empty string. */
  predicate Missing(ipAddress: Option<string>) {
    ipAddress.None? || ipAddress.value == ""
  }

  predicate HasAddress(rules: seq<IpRule>, ip: string) {
    exists i :: 0 <= i < |rules| && rules[i].ipAddress == ip
  }

  /** The invariant the add handler's duplicate check keeps: no address appears twice. */
  predicate UniqueAddresses(rules: seq<IpRule>) {
    forall i, j :: 0 <= i < j < |rules| ==> rules[i].ipAddress != rules[j].ipAddress
  }

  /** `created_at` order, the order of `GET`. */
  predicate CreatedLe(a: IpRule, b: IpRule) {
    a.createdAt <= b.createdAt
  }

  lemma CreatedLeTotalPreorder()
    ensures TotalPreorder(CreatedLe)
  {
  }

  /** `GET`: every rule, ordered by `created_at` (rules created at the same instant keep table order). */
  function ListRules(rules: seq<IpRule>): (r: IpResponse)
    ensures r.RuleList?
    ensures SortedBy(r.rules, CreatedLe) && multiset(r.rules) == multiset(rules)
  {
    CreatedLeTotalPreorder();
    SortBySorted(rules, CreatedLe);
    RuleList(SortBy(rules, CreatedLe))
  }

  /** `POST` with body field `ip_address`, creating the row `id` at time `now`. */
  function AddRule(rules: seq<IpRule>, ipAddress: Option<string>, id: nat, now: int): (out: (IpResponse, seq<IpRule>))
    ensures Missing(ipAddress) ==> out == (IpError(400, IpRequired), rules)
    ensures !Missing(ipAddress) && !IsDottedQuad(ipAddress.value) ==> out == (IpError(400, InvalidIp), rules)
    ensures !Missing(ipAddress) && IsDottedQuad(ipAddress.value) && HasAddress(rules, ipAddress.value) ==>
      out == (IpError(400, IpExists), rules)
    ensures out.0.RuleBody? <==> !Missing(ipAddress) && IsDottedQuad(ipAddress.value) && !HasAddress(rules, ipAddress.value)
    ensures out.0.RuleBody? ==>
      (out.1 == rules + [out.0.rule] && out.0.rule == IpRule(id, ipAddress.value, true, now))
    ensures UniqueAddresses(rules) ==> UniqueAddresses(out.1)
  {
    if Missing(ipAddress) then (IpError(400, IpRequired), rules)
    else if !IsDottedQuad(ipAddress.value) then (IpError(400, InvalidIp), rules)
    else if HasAddress(rules, ipAddress.value) then (IpError(400, IpExists), rules)
    else
      var rule := NewIpRule(id, ipAddress.value, Given(true), now);
      (RuleBody(rule), rules + [rule])
  }

  /** `update(...).set({ is_enabled }).where(eq(ip_address, ip))`: every row with that address gets the flag. */
  function SetEnabledWhere(rules: seq<IpRule>, ip: string, b: bool): (r: seq<IpRule>)
    ensures |r| == |rules|
    ensures forall i :: 0 <= i < |rules| ==>
      r[i] == if rules[i].ipAddress == ip then rules[i].(isEnabled := b) else rules[i]
    decreases |rules|
  {
    if |rules| == 0 then []
    else
      var head := if rules[0].ipAddress == ip then rules[0].(isEnabled := b) else rules[0];
      [head] + SetEnabledWhere(rules[1..], ip, b)
  }

  /** The index of the first rule with address `ip`: the first row `returning()` yields. */
  function FirstWithAddress(rules: seq<IpRule>, ip: string): (k: nat)
    requires HasAddress(rules, ip)
    ensures k < |rules| && rules[k].ipAddress == ip
    ensures forall j :: 0 <= j < k ==> rules[j].ipAddress != ip
    decreases |rules|
  {
    if rules[0].ipAddress == ip then 0
    else
      assert HasAddress(rules[1..], ip) by {
        var i :| 0 <= i < |rules| && rules[i].ipAddress == ip;
        assert rules[1..][i - 1] == rules[i];
      }
      FirstWithAddress(rules[1..], ip) + 1
  }

  /** `PATCH` with body fields `ip_address` and `is_enabled` (None when not a boolean). */
  function PatchRule(rules: seq<IpRule>, ipAddress: Option<string>, isEnabled: Option<bool>): (out: (IpResponse, seq<IpRule>))
    ensures Missing(ipAddress) ==> out == (IpError(400, IpRequired), rules)
    ensures !Missing(ipAddress) && isEnabled.None? ==> out == (IpError(400, NotBoolean), rules)
    ensures !Missing(ipAddress) && isEnabled.Some? && !HasAddress(rules, ipAddress.value) ==>
      out == (IpError(404, RuleNotFound), rules)
    ensures out.0.RuleBody? <==> !Missing(ipAddress) && isEnabled.Some? && HasAddress(rules, ipAddress.value)
    ensures out.0.RuleBody? ==> out.0.rule.ipAddress == ipAddress.value && out.0.rule.isEnabled == isEnabled.value
    ensures |out.1| == |rules|
    ensures forall i :: 0 <= i < |rules| ==>
      (out.1[i].ipAddress == rules[i].ipAddress && out.1[i].id == rules[i].id && out.1[i].createdAt == rules[i].createdAt)
    ensures out.0.RuleBody? ==> forall i :: 0 <= i < |rules| ==>
      out.1[i].isEnabled == (if rules[i].ipAddress == ipAddress.value then isEnabled.value else rules[i].isEnabled)
    ensures out.0.RuleBody? ==> out.0.rule == out.1[FirstWithAddress(rules, ipAddress.value)]
    ensures UniqueAddresses(rules) ==> UniqueAddresses(out.1)
  {
    if Missing(ipAddress) then (IpError(400, IpRequired), rules)
    else if isEnabled.None? then (IpError(400, NotBoolean), rules)
    else if !HasAddress(rules, ipAddress.value) then (IpError(404, RuleNotFound), rules)
    else
      var updated := SetEnabledWhere(rules, ipAddress.value, isEnabled.value);
      (RuleBody(updated[FirstWithAddress(rules, ipAddress.value)]), updated)
  }

  /** `DELETE` with body field `ip_address`. */
  function DeleteRule(rules: seq<IpRule>, ipAddress: Option<string>): (out: (IpResponse, seq<IpRule>))
    ensures Missing(ipAddress) ==> out == (IpError(400, IpRequired), rules)
    ensures !Missing(ipAddress) && !HasAddress(rules, ipAddress.value) ==> out == (IpError(404, RuleNotFound), rules)
    ensures out.0.Deleted? <==> !Missing(ipAddress) && HasAddress(rules, ipAddress.value)
    ensures out.0.Deleted? ==> out.1 == Filter(rules, (r: IpRule) => r.ipAddress != ipAddress.value)
  {
    if Missing(ipAddress) then (IpError(400, IpRequired), rules)
    else if !HasAddress(rules, ipAddress.value) then (IpError(404, RuleNotFound), rules)
    else (Deleted, Filter(rules, (r: IpRule) => r.ipAddress != ipAddress.value))
  }

  /**
   * A successful delete removes exactly the rows with that address: none is
   * left, every other row stays in its order, and the table shrinks by the
   * number of matching rows.
   */
  lemma DeleteRemovesExactly(rules: seq<IpRule>, ip: string)
    requires ip != "" && HasAddress(rules, ip)
    ensures var out := DeleteRule(rules, Some(ip));
            && out.0 == Deleted
            && !HasAddress(out.1, ip)
            && (forall r :: r in rules && r.ipAddress != ip ==> r in out.1)
            && (forall r :: r in out.1 ==> r in rules)
            && |out.1| == |rules| - Count(rules, (r: IpRule) => r.ipAddress == ip)
  {
    var keep := (r: IpRule) => r.ipAddress != ip;
    FilterMembers(rules, keep);
    FilterComplementCount(rules, keep, (r: IpRule) => r.ipAddress == ip);
  }

  lemma {:induction false} FilterComplementCount(s: seq<IpRule>, p: IpRule -> bool, q: IpRule -> bool)
    requires forall r :: p(r) <==> !q(r)
    ensures |Filter(s, p)| + |Filter(s, q)| == |s|
    decreases |s|
  {
    if |s| > 0 {
      FilterComplementCount(s[1..], p, q);
    }
  }

  /** Rows surviving a filter keep their addresses pairwise distinct. */
  lemma {:induction false} FilterKeepsUnique(rules: seq<IpRule>, p: IpRule -> bool)
    requires UniqueAddresses(rules)
    ensures UniqueAddresses(Filter(rules, p))
    decreases |rules|
  {
    if |rules| > 0 {
      var t := rules[1..];
      assert UniqueAddresses(t) by {
        forall i, j | 0 <= i < j < |t| ensures t[i].ipAddress != t[j].ipAddress {
          assert t[i] == rules[i + 1] && t[j] == rules[j + 1];
        }
      }
      FilterKeepsUnique(t, p);
      FilterMembers(t, p);
      if p(rules[0]) {
        var f := Filter(t, p);
        forall j | 0 <= j < |f| ensures rules[0].ipAddress != f[j].ipAddress {
          assert f[j] in t;
          var k :| 0 <= k < |t| && t[k] == f[j];
          assert rules[k + 1] == f[j];
        }
      }
    }
  }

  lemma DeletePreservesUnique(rules: seq<IpRule>, ipAddress: Option<string>)
    requires UniqueAddresses(rules)
    ensures UniqueAddresses(DeleteRule(rules, ipAddress).1)
  {
    if !Missing(ipAddress) {
      FilterKeepsUnique(rules, (r: IpRule) => r.ipAddress != ipAddress.value);
    }
  }

  /** One administrative request against the table. */
  datatype IpRequest =
    | Add(ipAddress: Option<string>, id: nat, now: int)
    | Patch(ipAddress: Option<string>, isEnabled: Option<bool>)
    | Delete(ipAddress: Option<string>)

  function Apply(rules: seq<IpRule>, req: IpRequest): seq<IpRule> {
    match req
    case Add(ip, id, now) => AddRule(rules, ip, id, now).1
    case Patch(ip, b) => PatchRule(rules, ip, b).1
    case Delete(ip) => DeleteRule(rules, ip).1
  }

  function ApplyAll(rules: seq<IpRule>, reqs: seq<IpRequest>): seq<IpRule>
    decreases |reqs|
  {
    if |reqs| == 0 then rules else ApplyAll(Apply(rules, reqs[0]), reqs[1..])
  }

  /** Starting from a table without repeated addresses, any series of requests keeps every address unique. */
  lemma {:induction false} RequestsPreserveUnique(rules: seq<IpRule>, reqs: seq<IpRequest>)
    requires UniqueAddresses(rules)
    ensures UniqueAddresses(ApplyAll(rules, reqs))
    decreases |reqs|
  {
    if |reqs| > 0 {
      if reqs[0].Delete? {
        DeletePreservesUnique(rules, reqs[0].ipAddress);
      }
      RequestsPreserveUnique(Apply(rules, reqs[0]), reqs[1..]);
    }
  }
}
