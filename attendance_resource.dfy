/** The status label the attendance resource attaches to a record when it is returned. */
module AttendanceResource {
  import opened Models
  import opened AttendancePolicy

  /** `calculateStatus` over its three inputs: whether `clock_out` is set and whether a late-arrival
      (type 1) and an early-leave (type 2) history row exist. */
  function CalculateStatus(hasClockOut: bool, late: bool, early: bool): (status: string)
    ensures status == "" || status == "Late" || status == "Early Leave"
    ensures status == "Late" <==> late
    ensures status == "Early Leave" <==> hasClockOut && !late && early
  {
    if !hasClockOut then
      if late then "Late" else ""
    else if late then "Late"
    else if early then "Early Leave"
    else ""
  }

  /** The status of record `a`, its history rows looked up in `histories`. */
  function Status(a: Attendance, histories: seq<AttendanceHistory>): string {
    CalculateStatus(a.clockOut.Some?, HasHistory(histories, a.id, LateArrival), HasHistory(histories, a.id, EarlyLeave))
  }

  /** While the record is open an early-leave row is ignored: the label is "Late" or empty. */
  lemma OpenRecordIgnoresEarlyLeave(late: bool, early: bool)
    ensures CalculateStatus(false, late, early) == if late then "Late" else ""
  {
  }

  /** A record without history rows has an empty label, open or closed. */
  lemma NoHistoryReadsEmpty(a: Attendance, histories: seq<AttendanceHistory>)
    requires forall i :: 0 <= i < |histories| ==> histories[i].attendanceId != a.id
    ensures Status(a, histories) == ""
  {
  }

  /** In a reachable state the order of the two checks never matters: "Late" and "Early Leave" each
      mean that exactly that kind of history row exists. */
  lemma StatusInReachableState(db: Db, a: Attendance)
    requires Inv(db)
    requires a in db.attendances
    ensures Status(a, db.histories) == "Late" <==> HasHistory(db.histories, a.id, LateArrival)
    ensures Status(a, db.histories) == "Early Leave" <==> HasHistory(db.histories, a.id, EarlyLeave)
  {
  }

  /** A record made by a late clock-in reads "Late" at once, and still reads "Late" after a
      clock-out that directly follows (`LateStaysLate` covers any requests in between). */
  lemma LateArrivalReadsLate(db: Db, employeeId: nat, department: Department, now: Timestamp, description: Option<string>,
                             department': Department, now': Timestamp, description': Option<string>)
    requires ClockIn(db, employeeId, department, now, description).outcome == Created
    requires now.second > department.maxClockInTime
    ensures var arrived := ClockIn(db, employeeId, department, now, description).db;
            var a := arrived.attendances[|db.attendances|];
            && a.id == db.nextAttendanceId
            && Status(a, arrived.histories) == "Late"
            && var closed := ClockOut(arrived, employeeId, department', now', description').db;
               forall k :: 0 <= k < |closed.attendances| && closed.attendances[k].id == a.id ==>
                 Status(closed.attendances[k], closed.histories) == "Late"
  {
    SameDayComparison(now, department.maxClockInTime);
    var arrived := ClockIn(db, employeeId, department, now, description).db;
    var n := |db.histories|;
    assert arrived.histories[n].attendanceId == db.nextAttendanceId && arrived.histories[n].attendanceType == LateArrival;
    var closed := ClockOut(arrived, employeeId, department', now', description').db;
    assert closed.histories[n] == arrived.histories[n];
  }

  /** A record made by a late clock-in keeps reading "Late" whatever requests follow, other
      employees' or its own clock-out included, for as long as the record is not deleted. */
  lemma {:induction false} LateStaysLate(db: Db, employeeId: nat, department: Department, now: Timestamp, description: Option<string>,
                      requests: seq<Request>)
    requires ClockIn(db, employeeId, department, now, description).outcome == Created
    requires now.second > department.maxClockInTime
    requires forall i :: 0 <= i < |requests| ==> requests[i] != DestroyRequest(db.nextAttendanceId)
    ensures var later := Run(ClockIn(db, employeeId, department, now, description).db, requests);
            forall b :: b in later.attendances && b.id == db.nextAttendanceId ==> Status(b, later.histories) == "Late"
  {
    SameDayComparison(now, department.maxClockInTime);
    var arrived := ClockIn(db, employeeId, department, now, description).db;
    var n := |db.histories|;
    assert arrived.histories[n].attendanceId == db.nextAttendanceId && arrived.histories[n].attendanceType == LateArrival;
    HistoryPersists(arrived, requests, db.nextAttendanceId, LateArrival);
  }

  /** A successful early clock-out leaves the record reading "Early Leave". */
  lemma EarlyLeaveReadsEarlyLeave(db: Db, employeeId: nat, department: Department, now: Timestamp, description: Option<string>, k: nat)
    requires Inv(db)
    requires k < |db.attendances| && OnDay(db.attendances[k], employeeId, now.day)
    requires now.second < department.maxClockOutTime
    requires ClockOut(db, employeeId, department, now, description).outcome == Ok
    ensures var closed := ClockOut(db, employeeId, department, now, description).db;
            Status(closed.attendances[k], closed.histories) == "Early Leave"
  {
    TodayRecordIsFirst(db, employeeId, now.day, k);
    SameDayComparison(now, department.maxClockOutTime);
    var closed := ClockOut(db, employeeId, department, now, description).db;
    var n := |db.histories|;
    assert closed.histories[n].attendanceId == db.attendances[k].id && closed.histories[n].attendanceType == EarlyLeave;
  }

  /** A clock-in at or before the deadline yields a record with an empty label. */
  lemma OnTimeClockInReadsEmpty(db: Db, employeeId: nat, department: Department, now: Timestamp, description: Option<string>)
    requires Inv(db)
    requires forall i :: 0 <= i < |db.attendances| ==> !OnDay(db.attendances[i], employeeId, now.day)
    requires now.second <= department.maxClockInTime
    ensures var arrived := ClockIn(db, employeeId, department, now, description).db;
            Status(arrived.attendances[|db.attendances|], arrived.histories) == ""
  {
    OnTimeClockIn(db, employeeId, department, now, description);
    forall i | 0 <= i < |db.histories| ensures db.histories[i].attendanceId != db.nextAttendanceId {
      var h := db.histories[i];
      assert h in db.histories;
      var a :| a in db.attendances && BelongsTo(h, a);
    }
  }
}
