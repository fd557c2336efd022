/** The rows of the `attendances` and `attendance_histories` tables, the department policy window,
    and the two pieces of library behaviour the policy depends on: comparing server-clock instants
    and deciding whether a request field is "filled". */
module Models {

  datatype Option<T> = None | Some(value: T)

  /** A time of day, in seconds after midnight. */
  type SecondOfDay = s: nat | s < 86400

  /** An instant of the single server clock: a calendar day and the second within it. */
  datatype Timestamp = Timestamp(day: nat, second: SecondOfDay)

  /** Seconds elapsed since the start of day 0; instants are compared by this number. */
  function Ticks(t: Timestamp): nat {
    t.day * 86400 + t.second
  }

  /** `$a->gt($b)`: `a` is strictly later than `b`. */
  predicate After(a: Timestamp, b: Timestamp) {
    Ticks(a) > Ticks(b)
  }

  /** `$a->lt($b)`: `a` is strictly earlier than `b`. */
  predicate Before(a: Timestamp, b: Timestamp) {
    Ticks(a) < Ticks(b)
  }

  /** `$t->copy()->setTimeFromTimeString($time)`: the same calendar day at another time of day. */
  function WithTimeOfDay(t: Timestamp, time: SecondOfDay): Timestamp {
    Timestamp(t.day, time)
  }

  /** Against a deadline set on the same day, `gt` and `lt` reduce to comparing times of day:
      an instant exactly at the deadline is neither after nor before it. */
  lemma SameDayComparison(now: Timestamp, time: SecondOfDay)
    ensures After(now, WithTimeOfDay(now, time)) <==> now.second > time
    ensures Before(now, WithTimeOfDay(now, time)) <==> now.second < time
  {
  }

  /** A department's policy window: `max_clock_in_time` and `max_clock_out_time`. */
  datatype Department = Department(maxClockInTime: SecondOfDay, maxClockOutTime: SecondOfDay)

  /** A row of `attendances`; `clockOut` is the nullable `clock_out` column. */
  datatype Attendance = Attendance(id: nat, employeeId: nat, clockIn: Timestamp, clockOut: Option<Timestamp>)

  /** `attendance_type` codes of `attendance_histories`: 1 is a late clock-in, 2 an early clock-out. */
  const LateArrival: nat := 1
  const EarlyLeave: nat := 2

  /** A row of `attendance_histories`. */
  datatype AttendanceHistory = AttendanceHistory(
    id: nat,
    attendanceId: nat,
    employeeId: nat,
    dateAttendance: Timestamp,
    attendanceType: nat,
    description: string)

  /** The characters PHP's `trim` strips by default: space, tab, line feed, carriage return, NUL, vertical tab. */
  predicate IsTrimmed(c: char) {
    c == ' ' || c == '\t' || c == '\n' || c == '\r' || c == 0 as char || c == 11 as char
  }

  /** `$request->filled('description')`: the field is present and does not trim to the empty string. */
  predicate Filled(description: Option<string>) {
    description.Some? && exists i :: 0 <= i < |description.value| && !IsTrimmed(description.value[i])
  }
}
