/** The attendance controller's clock-in (`store`), clock-out (`update`) and delete (`destroy`)
    actions, working in place on the `attendances` and `attendance_histories` tables. Each action is
    one transaction: either all of its writes happen or, on a refusal, none does. */
module AttendanceApi {
  import opened Models
  import opened AttendancePolicy
  import opened AttendanceResource

  class AttendanceController {
    var attendances: seq<Attendance>
    var histories: seq<AttendanceHistory>
    var nextAttendanceId: nat
    var nextHistoryId: nat

    /** The tables as a value. */
    function State(): Db
      reads this
    {
      Db(attendances, histories, nextAttendanceId, nextHistoryId)
    }

    ghost predicate Valid()
      reads this
    {
      Inv(State())
    }

    /** A fresh database. */
    constructor ()
      ensures Valid() && State() == Empty
    {
      attendances := [];
      histories := [];
      nextAttendanceId := 1;
      nextHistoryId := 1;
      EmptyInv();
    }

    /** Clock-in of `employeeId`, a member of `department`, at `now`. */
    method Store(employeeId: nat, department: Department, now: Timestamp, description: Option<string>)
      returns (outcome: Outcome)
      requires Valid()
      modifies this
      ensures Valid()
      ensures Step(State(), outcome) == ClockIn(old(State()), employeeId, department, now, description)
    {
      ClockInKeepsInv(State(), employeeId, department, now, description);
      var existing := FirstOnDay(attendances, employeeId, now.day);
      if existing.Some? {
        return AlreadyClockedIn;
      }
      var clockInLimit := WithTimeOfDay(now, department.maxClockInTime);
      if After(now, clockInLimit) && !Filled(description) {
        return LateNoDescription;
      }
      var attendance := Attendance(nextAttendanceId, employeeId, now, None);
      attendances := attendances + [attendance];
      nextAttendanceId := nextAttendanceId + 1;
      if After(now, clockInLimit) {
        histories := histories + [AttendanceHistory(nextHistoryId, attendance.id, employeeId, now, LateArrival, description.value)];
        nextHistoryId := nextHistoryId + 1;
      }
      outcome := Created;
    }

    /** Clock-out of `employeeId`, a member of `department`, at `now`. */
    method Update(employeeId: nat, department: Department, now: Timestamp, description: Option<string>)
      returns (outcome: Outcome)
      requires Valid()
      modifies this
      ensures Valid()
      ensures Step(State(), outcome) == ClockOut(old(State()), employeeId, department, now, description)
    {
      ClockOutKeepsInv(State(), employeeId, department, now, description);
      var found := FirstOnDay(attendances, employeeId, now.day);
      if found.None? {
        return NotClockedIn;
      }
      var k := found.value;
      var attendance := attendances[k];
      if attendance.clockOut.Some? {
        return AlreadyClockedOut;
      }
      var clockOutLimit := WithTimeOfDay(now, department.maxClockOutTime);
      if Before(now, clockOutLimit) && !Filled(description) {
        return EarlyNoDescription;
      }
      var alreadyLate := HasHistory(histories, attendance.id, LateArrival);
      if Before(now, clockOutLimit) && alreadyLate {
        return LateEarlyForbidden;
      }
      attendances := attendances[k := attendance.(clockOut := Some(now))];
      if Before(now, clockOutLimit) {
        histories := histories + [AttendanceHistory(nextHistoryId, attendance.id, attendance.employeeId, now, EarlyLeave, description.value)];
        nextHistoryId := nextHistoryId + 1;
      }
      outcome := Ok;
    }

    /** Delete of the record `id`; the database cascades the delete to its history rows. */
    method Destroy(id: nat) returns (outcome: Outcome)
      requires Valid()
      modifies this
      ensures Valid()
      ensures Step(State(), outcome) == AttendancePolicy.Destroy(old(State()), id)
    {
      DestroyKeepsInv(State(), id);
      if !exists i :: 0 <= i < |attendances| && attendances[i].id == id {
        return DeleteFailed;
      }
      attendances := WithoutAttendance(attendances, id);
      histories := WithoutHistoriesOf(histories, id);
      outcome := Ok;
    }
  }

  /** The policy window of the feature tests: clock in by 08:00, clock out from 17:00. */
  function TestDepartment(): Department {
    Department(8 * 3600, 17 * 3600)
  }

  /** Feature test: an employee clocking in at 07:55 is recorded, with no history row. */
  method ClockInOnTimeScenario()
  {
    var controller := new AttendanceController();
    var outcome := controller.Store(1, TestDepartment(), Timestamp(0, 7 * 3600 + 55 * 60), None);
    assert outcome == Created && outcome.HttpStatus() == 201;
    assert controller.attendances == [Attendance(1, 1, Timestamp(0, 7 * 3600 + 55 * 60), None)];
    assert controller.histories == [];
  }

  /** Feature test: clocking in at 08:15 without a description is refused and writes nothing. */
  method ClockInLateWithoutDescriptionScenario()
  {
    var controller := new AttendanceController();
    var outcome := controller.Store(1, TestDepartment(), Timestamp(0, 8 * 3600 + 15 * 60), None);
    assert outcome == LateNoDescription && outcome.HttpStatus() == 422;
    assert controller.attendances == [] && controller.histories == [];
  }

  /** Feature test: clocking in at 08:30 with a description writes the record and a late-arrival row. */
  method ClockInLateWithDescriptionScenario()
  {
    var controller := new AttendanceController();
    var reason := "Stuck in traffic";
    assert !IsTrimmed(reason[0]);
    var arrival := Timestamp(0, 8 * 3600 + 30 * 60);
    var outcome := controller.Store(1, TestDepartment(), arrival, Some(reason));
    assert outcome == Created && outcome.HttpStatus() == 201;
    assert controller.attendances == [Attendance(1, 1, arrival, None)];
    assert controller.histories == [AttendanceHistory(1, 1, 1, arrival, LateArrival, reason)];
  }

  /** The late employee of the feature test, continued: leaving at 16:00 is forbidden even with a
      description, leaving at 17:00 is allowed, and the record then still reads "Late". */
  method LateEmployeeClockOutScenario()
  {
    var controller := new AttendanceController();
    var reason := "Stuck in traffic";
    assert !IsTrimmed(reason[0]);
    var arrival := Timestamp(0, 8 * 3600 + 30 * 60);
    var outcome := controller.Store(1, TestDepartment(), arrival, Some(reason));
    ghost var arrived := controller.State();
    assert arrived.attendances == [Attendance(1, 1, arrival, None)];
    assert arrived.histories[0].attendanceId == 1 && arrived.histories[0].attendanceType == LateArrival;

    var early := Timestamp(0, 16 * 3600);
    EarlyClockOutOfLateArrival(arrived, 1, TestDepartment(), early, Some(reason), 0);
    outcome := controller.Update(1, TestDepartment(), early, Some(reason));
    assert outcome == LateEarlyForbidden && outcome.HttpStatus() == 403;

    var onTime := Timestamp(0, 17 * 3600);
    OnTimeClockOut(arrived, 1, TestDepartment(), onTime, None, 0);
    outcome := controller.Update(1, TestDepartment(), onTime, None);
    assert outcome == Ok && outcome.HttpStatus() == 200;
    assert controller.histories == arrived.histories;
    assert Status(controller.attendances[0], controller.histories) == "Late";
  }

  /** A second clock-in on the same day is refused, even after the first record is closed. */
  method SecondClockInScenario()
  {
    var controller := new AttendanceController();
    var outcome := controller.Store(1, TestDepartment(), Timestamp(0, 7 * 3600), None);
    outcome := controller.Update(1, TestDepartment(), Timestamp(0, 17 * 3600), None);
    assert outcome == Ok;
    outcome := controller.Store(1, TestDepartment(), Timestamp(0, 18 * 3600), None);
    assert outcome == AlreadyClockedIn && outcome.HttpStatus() == 400;
  }
}
