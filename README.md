# ezattendance: a verified model of the attendance store

ezattendance is a Next.js application for student check-in. A student types an ID. The server action `markAttendance` looks the student up and records one `present` row per day. An administrator views a per-section report, switches check-in on and off, and maintains a table of IP rules.

This project models that core in Dafny:

- the four Postgres tables of `lib/db/schema.ts` and their insert defaults (`Schema`);
- the two server actions of `app/action.ts` (`Ledger`);
- the check-in gate route (`Gate`), the legacy check-in route (`CheckIn`) and the IP-rule routes (`IpRules`);
- the attendance report route (`Report`);
- the list, filter and pagination logic of the dashboard page (`Dashboard`);
- the route guard of `middleware.ts` (`Middleware`).

Each request is a function from the tables it reads, and its inputs, to its response and the new table. The class `Store.AttendanceStore` holds the four tables as sequence fields. It has one method per state-changing request (`markAttendance`'s transaction, check-in, gate toggle, rule add, patch, delete). Each method states its new state and result through the matching function and keeps the store invariant `Valid()`. That invariant is: unique student keys, unique IP addresses and fresh uuids.

Supporting modules:

- `JsNumber` holds ECMAScript `parseInt(s, 10)`, integer `toString()` and the Postgres `integer` range.
- `Text` holds `startsWith`, `includes`, `toLowerCase`, a code-point order for `localeCompare` and date strings, and `split`.
- `Seqs` holds `filter`, the stable `sort`, `slice` and concatenation.
- `Wrappers` holds `Option` and `Omittable`. `Omittable` marks a column left out of an INSERT, which then takes its default.

Inputs the code takes from its surroundings are parameters:

- the current date "today" as a 'YYYY-MM-DD' string;
- the clock `now` as an integer;
- the key of each new row as a counter (standing in for `defaultRandom()` uuids);
- request bodies, query parameters and cookies as values.

## Intended check-in policy vs. the code

The intended policy of the system differs from what the code does in the points below. The model follows the code in each case.

- The intended check-in is one pipeline: resolve the student, check the gate, check the caller's IP against the enabled rules, check for a duplicate, insert. No such pipeline exists in the code. `markAttendance` resolves the student and checks for a duplicate, but reads neither the gate nor the IP rules (`CheckIn.MarkIgnoresGate`). The check-in route reads the gate and then inserts without resolving the student or checking for a duplicate (`CheckIn.RouteSkipsLedgerChecks`, `CheckIn.CheckInTimesAppends`).
- No code checks a request's IP against the rules. The IP-rule routes only maintain the table, so there is no allow/deny function in the model.
- An address such as "300.1.1.1" is meant to be refused. The regular expression counts digits only, so the code accepts it (`IpRules.OutOfRangeOctetAccepted`).
- IP rules and daily records are meant to be unique. The schema declares neither constraint. Unique addresses rest on the duplicate check of `POST` (`IpRules.RequestsPreserveUnique`). One record per student and day rests on the check in `markAttendance` (`Ledger.MarkPreservesAtMostOnePerDay`). Two paths get past that check:
  - the raw-string duplicate key (`Ledger.RawKeyAllowsSecondRow`), reachable only by calling the server action directly, as the next point explains;
  - the check-in route.
- Setting the gate is meant to answer `{isEnabled}`. The route answers `{success: true, isEnabled}`, echoing its input.
- The report matches records to students by `student.id.toString()`, and `markAttendance` stores the string it is given. The check-in page never gives it the typed string: it looks the student up with what was typed (app/page.tsx:67), keeps `student.id.toString()` from the result (app/page.tsx:81) and marks with that (app/page.tsx:105). Through the page, the stored key is therefore always the canonical key, and the mark shows in the report (`Report.MarkThenReportPresent`). Only a direct call of the server action with a non-canonical string such as "0012" gives a mark that succeeds but whose row never shows in a report (`Report.RawKeyCheckInInvisible`).

## Model

| member | source | states |
|---|---|---|
| Schema.NewStudent | lib/db/schema.ts:13-21 | An insert into `students` keeps the given columns, sets `created_at` to now and gives an omitted `section` the value 'BSIT 1A' |
| Schema.NewRecord | lib/db/schema.ts:23-29 | An insert into `attendance_records` keeps `student_id` (text) and `status`; an omitted `date` becomes the current date; `created_at` is now |
| Schema.NewControlRow | lib/db/schema.ts:31-35 | `is_enabled` is true only when true is given (default false); `updated_at` is the insertion time |
| Schema.NewIpRule | lib/db/schema.ts:37-42 | `is_enabled` is true only when true is given (default false); the address is stored as given, with no uniqueness |
| JsNumber.ParseIntOfIntToString | app/action.ts:10 | `parseInt(n.toString(), 10)` gives back `n` for every integer |
| JsNumber.NatToStringInjective | app/api/attendance/route.ts:81 | Different non-negative integers have different `toString()` forms, so report keys of different students differ |
| JsNumber.ParseIntNaN | app/action.ts:10-13 | NaN exactly when, after the leading white space and at most one sign, nothing is left or the next character is not a digit |
| JsNumber.ParseIntTrailingExample | app/action.ts:10-16 | "12ab" parses to 12 like "12": trailing non-digits are ignored |
| JsNumber.ParseIntLeadingZerosExample | app/action.ts:43 | "0012" parses to 12 |
| JsNumber.ParseIntNaNExample | app/action.ts:10-13 | "abc" parses to NaN |
| Seqs.FilterMembers | app/view-attendance/page.tsx:153-171 | `filter` keeps exactly the passing elements and is a sub-multiset of its input |
| Seqs.FilterMultiplicity | app/view-attendance/page.tsx:153-171 | `filter` keeps each passing value exactly as often as the input holds it, and no failing value |
| Seqs.SortBySorted | app/view-attendance/page.tsx:172-176 | With a consistent comparator, `sort` returns its input ordered and permuted |
| Ledger.FirstWithId | app/action.ts:15-25 | `findFirst` by key returns a student holding the key, and returns nothing exactly when no student holds it |
| Ledger.FirstWithIdUnique | lib/db/schema.ts:14 | With the primary key in force, the lookup by a student's key returns that student |
| Ledger.FindStudent | app/action.ts:7-36 | Cases: NaN gives 'Invalid student ID format. Try again'; a key outside `integer` gives the catch message; no holder gives 'Student not found. Try again'; a valid key that a student holds is always found, with the six columns of a student with that key |
| Ledger.FindStudentFinds | app/action.ts:15-31 | A string parsing to a student's key finds exactly that student's six columns |
| Ledger.Mark | app/action.ts:38-80 | Each outcome holds iff its condition holds: catch message, not found, 'You already marked attendance for today.' when a row under the raw string exists today, or success appending exactly one `present` row; every error leaves the ledger unchanged |
| Ledger.MarkPreservesAtMostOnePerDay | app/action.ts:55-72 | `markAttendance` never creates a second row for one (student_id, date) |
| Ledger.MarkTwice | app/action.ts:55-74 | Two calls on one day: success, then already-marked, with exactly one row for the pair |
| Ledger.RawKeyAllowsSecondRow | app/action.ts:42-72 | Two different strings with the same parsed key (such as "12" and "0012") find the same student, and both check-ins succeed, giving two rows that day |
| Gate.LatestIndex | app/api/attendance/control/route.ts:9-13 | The chosen row has the greatest `updated_at`; among ties the first in table order |
| Gate.EmptyLogDisabled | app/api/attendance/control/route.ts:15 | An empty log means the gate is off |
| Gate.GateFollowsLatest | app/api/attendance/control/route.ts:9-15 | A row whose `updated_at` is strictly the greatest decides the gate |
| Gate.GetGate | app/api/attendance/control/route.ts:6-17 | `GET` answers `is_enabled` of some row with the greatest `updated_at`, and can be true only for a non-empty log |
| Gate.PostGate | app/api/attendance/control/route.ts:27-36 | `POST` appends exactly one row stamped now, keeps every existing row, stores true only for true, and echoes the input with `success: true` |
| Gate.GetAfterPost | app/api/attendance/control/route.ts:9-36 | After posting `b` stamped later than every row, `GET` answers `b` |
| Gate.StalePostIgnored | app/api/attendance/control/route.ts:12-15 | A post stamped no later than an existing row need not take effect |
| IpRules.DottedQuadIntro | app/api/attendance/ip-rule/route.ts:37-38 | Four groups of 1-3 digits joined by dots pass the address check |
| IpRules.DottedQuadElim | app/api/attendance/ip-rule/route.ts:37-38 | Every address that passes is four groups of 1-3 digits joined by dots |
| IpRules.WrongGroupCountRefused | app/api/attendance/ip-rule/route.ts:37-43 | Any number of dot-free groups other than four is refused |
| IpRules.LongGroupRefused | app/api/attendance/ip-rule/route.ts:37-43 | A group of more than three characters is refused |
| IpRules.OutOfRangeOctetAccepted | app/api/attendance/ip-rule/route.ts:37-43 | "300.1.1.1" passes: group values are not range-checked |
| IpRules.ListRules | app/api/attendance/ip-rule/route.ts:7-14 | `GET` returns every rule, as a permutation ordered by `created_at` |
| IpRules.AddRule | app/api/attendance/ip-rule/route.ts:25-75 | Missing address gives 400 'IP address is required'; a bad format gives 400 'Invalid IP address format'; an address already present gives 400 'IP address already exists'; success iff none of these, appending exactly one enabled row; errors change nothing; unique addresses are kept |
| IpRules.SetEnabledWhere | app/api/attendance/ip-rule/route.ts:97-101 | The update sets the flag on the rows with that address and leaves every other row as it was |
| IpRules.FirstWithAddress | app/api/attendance/ip-rule/route.ts:103-110 | The returned rule is the first row with that address |
| IpRules.PatchRule | app/api/attendance/ip-rule/route.ts:78-118 | Missing address gives 400; a non-boolean flag gives 400 'is_enabled must be a boolean'; no row with the address gives 404 'IP rule not found'; otherwise the flag is set on exactly those rows and the answer is the whole updated row at the first such position; no row is added, removed or re-keyed; uniqueness is kept |
| IpRules.DeleteRule | app/api/attendance/ip-rule/route.ts:121-153 | Missing address gives 400; no row with the address gives 404; otherwise `{success: true}` and the table filtered to the other addresses |
| IpRules.DeleteRemovesExactly | app/api/attendance/ip-rule/route.ts:133-145 | A successful delete leaves no row with the address, keeps every other row, adds none, and shrinks the table by the number of matches |
| IpRules.DeletePreservesUnique | app/api/attendance/ip-rule/route.ts:133-136 | Deleting keeps addresses unique |
| IpRules.RequestsPreserveUnique | app/api/attendance/ip-rule/route.ts:46-136 | Any series of add, patch and delete requests keeps every address unique |
| CheckIn.PostCheckIn | app/api/attendance/check-in/route.ts:6-43 | Gate off gives 403 'Attendance system is currently disabled' with the ledger unchanged; gate on appends exactly one `present` row for the posted ID and keeps every other row |
| CheckIn.CheckInTimesAppends | app/api/attendance/check-in/route.ts:26-38 | With the gate on, N calls append N rows for the same student and day: no duplicate check |
| CheckIn.CheckInTimesDisabled | app/api/attendance/check-in/route.ts:19-24 | With the gate off, any number of calls insert nothing |
| CheckIn.RouteSkipsLedgerChecks | app/api/attendance/check-in/route.ts:26-33 | Where `markAttendance` refuses (unknown student or already marked), the route with the gate on still records |
| CheckIn.MarkIgnoresGate | app/action.ts:38-75 | With the gate off the route refuses, yet `markAttendance` still records a first check-in |
| Report.DistinctDatesDesc | app/api/attendance/route.ts:14-21 | The date list holds every date of the table exactly once, strictly descending |
| Report.StatusIn | app/api/attendance/route.ts:75-77 | The map lookup gives the status of the last row with that `student_id`, and nothing when none has it |
| Report.ShownStatus | app/api/attendance/route.ts:96 | No row, a null status or '' shows as 'absent'; any other status shows as stored |
| Report.View | app/api/attendance/route.ts:98-105 | An entry carries the key as `toString()` and each null name field as '' |
| Report.AnyRecordedIff | app/api/attendance/route.ts:80-82 | The `some` check holds iff some student of the section has a row that date under its canonical key |
| Report.GetReport | app/api/attendance/route.ts:6-121 | Cases: no section gives the distinct dates descending; an empty section gives `[]`, `hasRecords` false and its message; no date gives every student 'absent' with 'No date selected'; with a date, `hasRecords` iff some student of the section has a row, else `[]` with its message; when true, one entry per section student in query order with its shown status |
| Report.ReportIgnoresForeignRows | app/api/attendance/route.ts:80-96 | A row not filed under the canonical key of any student of the section leaves the section's report unchanged |
| Report.ReportShowsLatestRow | app/api/attendance/route.ts:65-108 | A newest row under a section student's key with a non-empty status makes `hasRecords` true and shows that status |
| Report.MarkThenReportPresent | app/api/attendance/route.ts:94-108 | After `markAttendance` with the canonical key, the day's report shows the student 'present' |
| Report.RawKeyCheckInInvisible | app/api/attendance/route.ts:80-96 | A `markAttendance` called directly under a non-canonical key ("0012") succeeds, yet no section report changes |
| Dashboard.LastNameLeTotalPreorder | app/view-attendance/page.tsx:172-176 | The last-name comparator is total and transitive, as `sort` needs |
| Dashboard.Filtered | app/view-attendance/page.tsx:151-176 | The list is ordered by lowercased last name, holds each input row passing the status and search filter exactly as often as the input does, and no other row |
| Dashboard.StatusFilterExact | app/view-attendance/page.tsx:155-157 | A filter other than 'all' keeps exactly the rows with that status |
| Dashboard.NoFilterKeepsAll | app/view-attendance/page.tsx:151-170 | 'all' with an empty query keeps every row: the list is a permutation of the input |
| Dashboard.SearchIgnoresQueryCase | app/view-attendance/page.tsx:160-161 | A query and its lowercased form select the same rows |
| Dashboard.SearchFindsField | app/view-attendance/page.tsx:160-168 | A row whose lowercased last name contains the lowercased query appears in the list |
| Dashboard.TotalPages | app/view-attendance/page.tsx:179 | `totalPages` is the least `n` with `n * pageSize >= total` (0 for an empty list) |
| Dashboard.CurrentRecords | app/view-attendance/page.tsx:180-182 | The page holds at most `pageSize` rows for any page number; for pages from 1 it is the slice from `(page-1)*pageSize` clamped to the list |
| Dashboard.PageContinues | app/view-attendance/page.tsx:180-182 | Page n starts where page n-1 stopped: the rows before it followed by page n are a prefix of the list |
| Dashboard.PagesUpToPrefix | app/view-attendance/page.tsx:179-182 | Pages 1..n concatenated are the first `min(n*pageSize, total)` rows (written as the start index of page n+1) |
| Dashboard.PagesPartition | app/view-attendance/page.tsx:179-182 | Pages 1..totalPages concatenated give back the whole list in order |
| Dashboard.PageEmptyIffBeyondLast | app/view-attendance/page.tsx:179-182 | A page from 1 on is empty iff it lies after the last page |
| Dashboard.SortedDates | app/view-attendance/page.tsx:73 | The date list is sorted ascending and is a permutation of the fetched dates |
| Dashboard.DefaultSelection | app/view-attendance/page.tsx:77-79 | With no date selected and some dates, the first sorted date is selected; otherwise the selection stays |
| Dashboard.DefaultIsEarliest | app/view-attendance/page.tsx:73-79 | The default selection is a listed date no later than any other |
| Dashboard.PageAfterRender | app/view-attendance/page.tsx:185-187 | The page resets to 1 when the status filter or page size changes, and is otherwise kept |
| Dashboard.SearchCanStrandPage | app/view-attendance/page.tsx:185-187 | A search change keeps the page number even when the narrowed list has fewer pages, and that page then shows nothing |
| Middleware.Middleware | middleware.ts:4-18 | Redirect (to /login) iff the path starts with '/view-attendance' or '/settings' and no `admin_session` cookie is present |
| Middleware.ApiExclusionNeverFires | middleware.ts:6-8 | No path with a guarded prefix starts with '/api/', so the exclusion never applies |
| Middleware.CookieValueIrrelevant | middleware.ts:9-12 | Any value of the cookie, even '', lets the request through |
| Middleware.RawPrefixGuarded | middleware.ts:6-7 | Prefixes match raw: '/settingsX' and '/view-attendance…' are guarded |
| Middleware.OtherPathsPass | middleware.ts:17 | Every path outside both prefixes passes |
| Middleware.LoginNotGuarded | middleware.ts:13 | The redirect target '/login' is not itself redirected |
| Store.AttendanceStore.constructor | lib/db/schema.ts:13-42 | A store with the given students and empty other tables satisfies the invariant |
| Store.AttendanceStore.MarkAttendance | app/action.ts:38-80 | One transaction: result and new ledger are `Ledger.Mark` of the old tables; other tables unchanged; invariant and one-row-per-day kept |
| Store.AttendanceStore.CheckInRoute | app/api/attendance/check-in/route.ts:6-43 | Reads the gate, then result and new ledger are `CheckIn.PostCheckIn`; gate log and other tables unchanged |
| Store.AttendanceStore.SetGate | app/api/attendance/control/route.ts:27-44 | Result and new log are `Gate.PostGate`; other tables unchanged |
| Store.AttendanceStore.AddIpRule | app/api/attendance/ip-rule/route.ts:25-75 | Result and new rule table are `IpRules.AddRule`; other tables unchanged; addresses stay unique |
| Store.AttendanceStore.PatchIpRule | app/api/attendance/ip-rule/route.ts:78-118 | Result and new rule table are `IpRules.PatchRule`; other tables and keys unchanged |
| Store.AttendanceStore.DeleteIpRule | app/api/attendance/ip-rule/route.ts:121-153 | Result and new rule table are `IpRules.DeleteRule`; other tables unchanged; addresses stay unique |

## Left out

- Rendering, React hooks and event handlers (app/page.tsx, app/settings/page.tsx, app/login/page.tsx, components, layout, and the JSX of app/view-attendance/page.tsx): UI, not logic. The dashboard's state is represented by the values it holds at a render.
- The login and logout routes: credential comparison against environment variables and cookie setting, which are session plumbing.
- app/lib/db/schema.ts is not part of this model: it is an alternate SQLite schema that none of the modelled routes imports.
- Concurrency and transaction isolation: the model is sequential. Each request, and `markAttendance`'s transaction, is one atomic step.
- Time zones and the clock: "today" (Asia/Manila in `markAttendance`, the database's date of `new Date()` in the check-in route) and every timestamp are parameters.
- Database failures caught by the catch-all branches, and the 500 responses. The one exception is the failed `integer` lookup, which `findStudent` and `markAttendance` answer with their catch messages.
- Malformed JSON bodies, and body fields of other types than the route expects. An absent or non-boolean field is `None`; an `ip_address` is a string or absent.
- NULL values of `attendance_records.date` and `attendance_ip_strict.ip_address`: the model's rows always carry a date and an address.
- Postgres's conversion of a date parameter: a date query parameter is compared with stored dates as a string, so spellings such as '2024-1-5' are not identified with '2024-01-05', and unparseable dates, which make the query fail, are not modelled.
- The `debug` object of the report's `hasRecords: true` response.
- The middleware's `config.matcher`: which requests Next.js hands to the middleware at all is framework routing. The model takes every path.
- The IP allowlist check: no code performs one.
- The third-party address lookup and the client-side `fetch` calls of the settings page.
- Gate.LatestIndex: Postgres leaves the row chosen among equal `updated_at` values open; the model picks the first in table order. The same goes for `ORDER BY created_at` ties in IpRules.ListRules, for the unordered `select` of the report (table order), and for the row `returning()` gives first in IpRules.FirstWithAddress.
- Dashboard.LastNameLeTotalPreorder: `localeCompare` is modelled as code-point order, not locale collation.
- Dashboard.Filtered: `toLowerCase` is modelled for ASCII and Latin-1 capitals only, not full Unicode case mapping.
- Report.DistinctDatesDesc and Dashboard.SortedDates: dates are compared as 'YYYY-MM-DD' strings, whose code-point order is calendar order; `date-fns` parsing is not modelled.
- Dashboard.TotalPages: requires a positive page size. The page-size select offers only 5, 10, 20 and 50.
- JsNumber.ParseIntOfIntToString and the other `parseInt` members: values beyond 2^53, where a JavaScript Number rounds, are computed exactly. Every such value lies outside the `integer` range, so the lookup fails either way.
