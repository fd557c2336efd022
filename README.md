# Attendance clock-in / clock-out policy in Dafny

This project models the attendance policy of a small Laravel back end that tracks employee attendance.
Each department sets a latest clock-in time (`max_clock_in_time`) and an earliest clock-out time
(`max_clock_out_time`). Each employee has at most one attendance record per calendar day. A late
clock-in or an early clock-out must carry a description, which is stored as a history row:
type 1 for a late arrival, type 2 for an early leave. An employee who arrived late may not leave early.
The record's status label ("Late", "Early Leave" or empty) is computed from `clock_out` and the history rows.

Modules:

- `Models` (`models.dfy`): the `attendances` and `attendance_histories` rows and the department window.
  Instants of the server clock are a day number plus a second of the day. Carbon's `gt`/`lt` compare
  absolute seconds, and `setTimeFromTimeString` keeps the day and replaces the time of day.
  Laravel's `filled('description')` means the field is present and does not trim to the empty string.
- `Seqs` (`seqs.dfy`): an order-preserving `Filter` and lemmas showing that deleting, appending
  and updating rows keep a unique column unique.
- `AttendancePolicy` (`policy.dfy`): `store`, `update` and `destroy` as pure transitions of both
  tables (`ClockIn`, `ClockOut`, `Destroy`), each returning the new tables and an `Outcome`.
  `Outcome.HttpStatus` gives the HTTP status each outcome answers (201, 200, 400, 422, 404, 403
  and 500, as `store`, `update` and `destroy` return them). The table invariant `Inv` and its
  preservation lemmas also live here, together with the clock-in and clock-out rules stated as
  lemmas and the persistence of history rows across requests.
- `AttendanceResource` (`attendance_resource.dfy`): `calculateStatus` and the labels it gives
  across clock-in and clock-out.
- `AttendanceApi` (`attendance_controller.dfy`): the controller as a class whose `seq` fields are the
  two tables and their auto-increment counters. `Store`, `Update` and `Destroy` change the fields in
  place, keep `Valid()`, and make exactly the change the matching policy function describes.
  Scenario methods replay the three clock-in feature tests and continue them with clock-outs.

Inputs that the source gets from its environment are parameters here:

- `now` (the tests fix it with `Carbon::setTestNow`);
- the employee's department (the source loads it through `employee->department`);
- the request's `description`, as `Option<string>`.

Behaviour of the code worth knowing:

- An early clock-out without a description is answered 422 even for an employee who arrived late.
  The description is checked before the late-arrival rule that answers 403
  (AttendanceController.php:178-194).
- Nothing compares `clock_out` with `clock_in`. What the model proves is that `clock_out` falls on
  the same day as `clock_in`, because the record is looked up by today's date.
- Delete of an unknown id makes `findOrFail` throw, and the catch block answers 500. The model
  calls this outcome `DeleteFailed`.
- At most one history row is ever written per record, so a record never has both a late-arrival
  row and an early-leave row (`Inv`, `LateAndEarlyExclusive`). The order of the two checks in
  `calculateStatus` therefore never decides the label in a reachable state.

## Model

| member | source | states |
|---|---|---|
| `AttendancePolicy.FirstOnDay` | app/Http/Controllers/AttendanceController.php:75-77 | the query `where employee_id ... whereDate clock_in ... first()` finds the first record of the employee on that day, and finds none exactly when no such record exists |
| `AttendancePolicy.ClockIn` | app/Http/Controllers/AttendanceController.php:56-124 | clock-in answers Created, AlreadyClockedIn or LateNoDescription; every refusal leaves both tables unchanged; AlreadyClockedIn exactly when the employee has a record on today's date; the history log is only appended to |
| `AttendancePolicy.ClockOut` | app/Http/Controllers/AttendanceController.php:140-223 | clock-out answers Ok, NotClockedIn, AlreadyClockedOut, EarlyNoDescription or LateEarlyForbidden; every refusal leaves both tables unchanged; NotClockedIn exactly when the employee has no record today; no record is added and the history log is only appended to |
| `AttendancePolicy.WithoutAttendance` | app/Http/Controllers/AttendanceController.php:230-231 | `delete()` removes exactly the rows with that id and keeps every other row |
| `AttendancePolicy.WithoutHistoriesOf` | database/migrations/2025_07_19_063450_create_attendance_histories_table.php:16 | the `onDelete('cascade')` foreign key removes exactly the history rows of the deleted record |
| `AttendancePolicy.Destroy` | app/Http/Controllers/AttendanceController.php:225-245 | delete answers DeleteFailed with no change exactly when no record has the id (findOrFail throws, the catch answers 500); otherwise Ok, and the record and its history rows are gone while all other rows remain |
| `AttendancePolicy.TodayRecordIsFirst` | app/Http/Controllers/AttendanceController.php:156-159 | in a reachable state the record `first()` returns is the employee's only record for the day |
| `AttendancePolicy.ClockInKeepsInv` | app/Http/Controllers/AttendanceController.php:75-109 | clock-in keeps the invariant: unique ids, one record per employee per day, one history row per record, each row annotating its record at the clock-in or the clock-out instant |
| `AttendancePolicy.ClockOutKeepsInv` | app/Http/Controllers/AttendanceController.php:156-208 | clock-out keeps the same invariant; an early-leave row is never added to a record that already has a row |
| `AttendancePolicy.DestroyKeepsInv` | app/Http/Controllers/AttendanceController.php:225-231 | delete with its cascade keeps the same invariant; no history row is left without its record |
| `AttendancePolicy.RunKeepsInv` | app/Http/Controllers/AttendanceController.php:56-245 | any sequence of clock-in, clock-out and delete requests keeps the invariant |
| `AttendancePolicy.ReachableInv` | app/Http/Controllers/AttendanceController.php:56-245 | every state reached from empty tables satisfies the invariant |
| `AttendancePolicy.HandleKeepsHistory` | database/migrations/2025_07_19_063450_create_attendance_histories_table.php:16 | a history row survives one clock-in, clock-out or delete request unless that request deletes the row's own record (the cascade removes only its rows) |
| `AttendancePolicy.HistoryPersists` | app/Http/Controllers/AttendanceController.php:56-245 | a history row survives any sequence of requests that does not delete its record |
| `AttendancePolicy.LateAndEarlyExclusive` | app/Http/Controllers/AttendanceController.php:185-208 | in a reachable state no record has both a late-arrival and an early-leave row |
| `AttendancePolicy.ClockInOncePerDay` | app/Http/Controllers/AttendanceController.php:75-84 | a clock-in when the employee already has a record on today's date, open or closed, answers AlreadyClockedIn and changes nothing |
| `AttendancePolicy.SecondClockInRefused` | app/Http/Controllers/AttendanceController.php:75-99 | after a successful clock-in, any further clock-in by that employee on the same day is refused with no change |
| `AttendancePolicy.LateClockInWithoutDescription` | app/Http/Controllers/AttendanceController.php:87-94 | a clock-in strictly after the deadline without a filled description answers LateNoDescription and writes no record and no history row |
| `AttendancePolicy.OnTimeClockIn` | app/Http/Controllers/AttendanceController.php:96-101 | a clock-in at or before the deadline (exactly at it included) adds exactly one record with `clock_in = now`, no `clock_out`, the next id, and no history row |
| `AttendancePolicy.LateClockInWithDescription` | app/Http/Controllers/AttendanceController.php:96-108 | a late clock-in with a description adds one record and one history row of type 1 with the record's id, the employee's id, `now` and the description |
| `AttendancePolicy.ClockOutWithoutClockIn` | app/Http/Controllers/AttendanceController.php:156-166 | a clock-out with no record today answers NotClockedIn and changes nothing |
| `AttendancePolicy.ClockOutTwice` | app/Http/Controllers/AttendanceController.php:168-173 | a clock-out when today's record already has `clock_out` answers AlreadyClockedOut and changes nothing |
| `AttendancePolicy.EarlyClockOutWithoutDescription` | app/Http/Controllers/AttendanceController.php:178-183 | an early clock-out without a description answers EarlyNoDescription and changes nothing, even when the record has a late-arrival row |
| `AttendancePolicy.EarlyClockOutOfLateArrival` | app/Http/Controllers/AttendanceController.php:185-194 | an early clock-out with a description answers LateEarlyForbidden exactly when the record has a type-1 history row |
| `AttendancePolicy.OnTimeClockOut` | app/Http/Controllers/AttendanceController.php:196-198 | a clock-out at or after the deadline (exactly at it is not early) sets only that record's `clock_out` to `now`, leaves every other record alone and writes no history row |
| `AttendancePolicy.EarlyClockOutWithDescription` | app/Http/Controllers/AttendanceController.php:196-208 | an allowed early clock-out sets only that record's `clock_out` to `now` and appends one type-2 row with the record's id, the employee's id, `now` and the description |
| `Models.SameDayComparison` | app/Http/Controllers/AttendanceController.php:87-89 | against a deadline on the same day, `gt` means a later time of day and `lt` an earlier one; the deadline itself is neither late nor early |
| `AttendanceResource.CalculateStatus` | app/Http/Resources/AttendanceResource.php:38-61 | the label is always "", "Late" or "Early Leave"; it is "Late" exactly when a type-1 row exists; it is "Early Leave" exactly when `clock_out` is set, no type-1 row exists and a type-2 row does |
| `AttendanceResource.OpenRecordIgnoresEarlyLeave` | app/Http/Resources/AttendanceResource.php:48-50 | with no `clock_out` the label is "Late" when a type-1 row exists and "" otherwise, whatever type-2 rows exist |
| `AttendanceResource.NoHistoryReadsEmpty` | app/Http/Resources/AttendanceResource.php:60 | a record without history rows has the empty label |
| `AttendanceResource.StatusInReachableState` | app/Http/Resources/AttendanceResource.php:52-58 | in a reachable state the label is "Late" exactly when a late-arrival row exists and "Early Leave" exactly when an early-leave row exists, so the order of the two checks never decides |
| `AttendanceResource.LateArrivalReadsLate` | app/Http/Resources/AttendanceResource.php:40-54 | a record made by a late clock-in reads "Late" at once, and still reads "Late" after a clock-out that directly follows, whatever its time and description |
| `AttendanceResource.LateStaysLate` | app/Http/Resources/AttendanceResource.php:40-54 | a record made by a late clock-in reads "Late" after any sequence of later clock-ins, clock-outs and deletes that does not delete that record |
| `AttendanceResource.EarlyLeaveReadsEarlyLeave` | app/Http/Resources/AttendanceResource.php:56-58 | after a successful early clock-out the record reads "Early Leave" |
| `AttendanceResource.OnTimeClockInReadsEmpty` | app/Http/Resources/AttendanceResource.php:48-50 | a record made by a clock-in at or before the deadline has the empty label |
| `AttendanceApi.AttendanceController.Store` | app/Http/Controllers/AttendanceController.php:56-124 | clock-in changes the tables in place exactly as `ClockIn` describes, answers its outcome, and keeps the invariant |
| `AttendanceApi.AttendanceController.Update` | app/Http/Controllers/AttendanceController.php:140-223 | clock-out, looked up by employee id, changes the tables in place exactly as `ClockOut` describes, answers its outcome, and keeps the invariant |
| `AttendanceApi.AttendanceController.Destroy` | app/Http/Controllers/AttendanceController.php:225-245 | delete changes the tables in place exactly as `Destroy` describes (with the cascade), answers its outcome, and keeps the invariant |

## Left out

- `index`, `show` and the department and employee controllers: listing, `LIKE` search, pagination and plain CRUD, with no policy decisions.
- Request validation (`employee_id` required and existing, `description` nullable string): the employee is assumed to exist, and the caller passes the employee's department.
- Response formatting (`toArray`'s field mapping, `d F Y, H:i:s` dates, messages) and the `created_at`/`updated_at` columns: only the HTTP status of each outcome is modelled (`Outcome.HttpStatus`).
- Transactions and the catch-all 500 answers of `store` and `update`: each action is atomic and storage never fails. The one 500 with a cause in the inputs, delete of an unknown id, is modelled.
- Two concurrent clock-ins that both pass the "already clocked in" query: concurrency is outside a sequential model, which proves one record per employee per day for requests that run one after another.
- `now()` is read twice in `store` and in `update` (once for the query, once for the deadline). The model uses one instant, so a request that straddles midnight is not represented.
- Sub-second precision: `setTimeFromTimeString` clears microseconds, so 08:00:00.5 is late in the source. The model counts whole seconds.
- The cascade of history rows on employee delete (migration line 17) belongs to the employee controller.
- ClockOutTwice: stated only for states that satisfy `Inv`, where the employee has a single record per day; every reachable state does (`ReachableInv`).
- EarlyClockOutWithoutDescription: stated only for states that satisfy `Inv`, where the employee has a single record per day; every reachable state does (`ReachableInv`).
- EarlyClockOutOfLateArrival: stated only for states that satisfy `Inv`, where the employee has a single record per day; every reachable state does (`ReachableInv`).
- OnTimeClockOut: stated only for states that satisfy `Inv`, where the employee has a single record per day; every reachable state does (`ReachableInv`).
- EarlyClockOutWithDescription: stated only for states that satisfy `Inv`, where the employee has a single record per day; every reachable state does (`ReachableInv`).
- EarlyLeaveReadsEarlyLeave: stated only for states that satisfy `Inv`, where the employee has a single record per day; every reachable state does (`ReachableInv`).
- OnTimeClockInReadsEmpty: stated only for states that satisfy `Inv`, where the employee has a single record per day; every reachable state does (`ReachableInv`).
- StatusInReachableState: stated only for states that satisfy `Inv`, where the employee has a single record per day; every reachable state does (`ReachableInv`).
- TodayRecordIsFirst: stated only for states that satisfy `Inv`, where the employee has a single record per day; every reachable state does (`ReachableInv`).
